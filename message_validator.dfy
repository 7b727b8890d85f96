/** The `sendMessageValidator` chain of validators/messageValidator.js, read
    together with the `validationResult` check at the top of the send handler:
    `receiverId` must not be empty; `content` is trimmed, then must not be
    empty and must count at most 500 characters as `isLength` counts them,
    and is then escaped. Every failing check contributes its own entry, in
    chain order. */
module MessageValidator {
  import opened Strings

  const MaxContentLength := 500

  /** One entry of `errors.array()`, one per check of the chain; each
      carries the field it is about and the chain's message for it. */
  datatype FieldError = ReceiverRequired | ContentEmpty | ContentTooLong {
    function Field(): string {
      if ReceiverRequired? then "receiverId" else "content"
    }
    function Message(): string {
      match this
      case ReceiverRequired => "Receiver ID is required"
      case ContentEmpty => "Message content cannot be empty"
      case ContentTooLong => "Message cannot exceed 500 characters"
    }
  }

  /** The request body after the chain has run: either the collected errors,
      or the fields as the handler then reads them. */
  datatype Checked = Invalid(errors: seq<FieldError>) | Valid(receiverId: string, content: string)

  /** Runs the chain on the two body fields (a missing field reads as ""). The
      request is invalid exactly when one of the three checks fails; the error
      list then holds one entry per failed check and nothing else, the
      receiver's entry first. A valid request keeps `receiverId` as sent and
      carries the trimmed, escaped content, which still has no whitespace at
      either end, has no raw markup other than entity ampersands, and is not
      empty. */
  function CheckSend(receiverId: string, content: string): (r: Checked)
    ensures r.Invalid? <==>
              receiverId == "" || Trim(content) == "" || CountedLength(Trim(content)) > MaxContentLength
    ensures r.Invalid? ==>
              && (ReceiverRequired in r.errors <==> receiverId == "")
              && (ContentEmpty in r.errors <==> Trim(content) == "")
              && (ContentTooLong in r.errors <==> CountedLength(Trim(content)) > MaxContentLength)
              && (receiverId == "" ==> r.errors[0] == ReceiverRequired)
              && |r.errors| == (if receiverId == "" then 1 else 0)
                              + (if Trim(content) == "" then 1 else 0)
                              + (if CountedLength(Trim(content)) > MaxContentLength then 1 else 0)
    ensures r.Valid? ==>
              && r.receiverId == receiverId
              && r.content == Escape(Trim(content))
              && Trim(content) != "" && CountedLength(Trim(content)) <= MaxContentLength
              && r.content != "" && Trimmed(r.content)
              && (forall k :: 0 <= k < |r.content| ==> r.content[k] == '&' || !IsMarkup(r.content[k]))
  {
    var text := Trim(content);
    var errors := Collect(receiverId == "", text == "", CountedLength(text) > MaxContentLength);
    if errors != [] then Invalid(errors)
    else
      EscapeKeepsTrimmed(text);
      Valid(receiverId, Escape(text))
  }

  /** The entries of the failed checks, in chain order: one per failed check
      and none for a check that passed. */
  function Collect(receiverMissing: bool, contentEmpty: bool, contentTooLong: bool): (e: seq<FieldError>)
    ensures ReceiverRequired in e <==> receiverMissing
    ensures ContentEmpty in e <==> contentEmpty
    ensures ContentTooLong in e <==> contentTooLong
    ensures receiverMissing ==> e[0] == ReceiverRequired
    ensures |e| == (if receiverMissing then 1 else 0) + (if contentEmpty then 1 else 0)
                 + (if contentTooLong then 1 else 0)
  {
    (if receiverMissing then [ReceiverRequired] else [])
    + (if contentEmpty then [ContentEmpty] else [])
    + (if contentTooLong then [ContentTooLong] else [])
  }

  /** Content made only of whitespace is rejected as empty, since it is
      trimmed before the emptiness check. */
  lemma WhitespaceOnlyContentRejected(receiverId: string, content: string)
    requires AllSpace(content)
    ensures CheckSend(receiverId, content).Invalid?
    ensures ContentEmpty in CheckSend(receiverId, content).errors
  {
  }

  /** Both fields are reported at once when both are wrong. */
  lemma AllErrorsCollected(content: string)
    requires AllSpace(content)
    ensures CheckSend("", content) == Invalid([ReceiverRequired, ContentEmpty])
  {
  }

  /** The limit is inclusive: after trimming, a count of 500 passes and a
      count of 501 does not. */
  lemma LengthLimitIsInclusive(receiverId: string, content: string)
    requires receiverId != ""
    requires Trimmed(content)
    ensures CountedLength(content) == 500 ==> CheckSend(receiverId, content).Valid?
    ensures CountedLength(content) == 501 ==> CheckSend(receiverId, content) == Invalid([ContentTooLong])
  {
    TrimOfTrimmed(content);
  }

  /** Presentation selectors are free: `n` hearts written as U+2764 followed
      by the emoji selector U+FE0F count `n`, so up to 500 of them, 1000 code
      points in all, are accepted. */
  lemma PresentationSelectorsAreFree(receiverId: string, n: nat)
    requires receiverId != "" && 1 <= n <= MaxContentLength
    ensures var content := Repeat(Heart, n);
            |content| == 2 * n && CheckSend(receiverId, content).Valid?
  {
    var content := Repeat(Heart, n);
    Hearts(n);
    HeartsAreTrimmed(content, n);
    TrimOfTrimmed(content);
  }

  lemma HeartsAreTrimmed(s: string, n: nat)
    requires n >= 1 && |s| == 2 * n && s[0] == '\U{2764}' && s[2 * n - 1] == '\U{FE0F}'
    ensures Trimmed(s)
  {
  }

  /** A heart in emoji presentation: two code points, counted once. */
  const Heart := "\U{2764}\U{FE0F}"

  lemma {:induction false} Hearts(n: nat)
    requires n >= 1
    ensures var s := Repeat(Heart, n);
            |s| == 2 * n && CountedLength(s) == n && s[0] == '\U{2764}' && s[2 * n - 1] == '\U{FE0F}'
  {
    var s, rest := Repeat(Heart, n), Repeat(Heart, n - 1);
    assert s == Heart + rest;
    CountedLengthAppend(Heart, rest);
    assert CountedLength(Heart) == 1 by {
      assert Heart[1..] == "\U{FE0F}" && Heart[1..][1..] == [];
    }
    if n > 1 {
      Hearts(n - 1);
      assert s[2 * n - 1] == rest[2 * (n - 1) - 1];
    } else {
      assert s == Heart;
    }
  }

  /** Surrounding whitespace, on either side and of any length, does not
      count towards the limit. */
  lemma PaddingDoesNotCount(receiverId: string, content: string, left: string, right: string)
    requires receiverId != "" && Trimmed(content) && content != [] && CountedLength(content) <= 500
    requires AllSpace(left) && AllSpace(right)
    ensures CheckSend(receiverId, left + content + right).Valid?
  {
    PaddedTrim(content, left, right);
  }

  lemma PaddedTrim(content: string, left: string, right: string)
    requires Trimmed(content) && content != [] && AllSpace(left) && AllSpace(right)
    ensures Trim(left + content + right) == content
  {
    var s := left + content + right;
    var a, b := |left|, |left| + |content|;
    assert forall k :: 0 <= k < a ==> s[k] == left[k];
    assert forall k :: b <= k < |s| ==> s[k] == right[k - b];
    assert s[a] == content[0] && s[b - 1] == content[|content| - 1];
    assert s[a..b] == content;
    TrimWithin(s, a, b);
  }

  /** A string that is whitespace before `a` and from `b` on, and not at `a`
      or `b - 1`, trims to the piece from `a` to `b`. */
  lemma TrimWithin(s: string, a: nat, b: nat)
    requires a < b <= |s|
    requires forall k :: 0 <= k < a ==> IsSpace(s[k])
    requires forall k :: b <= k < |s| ==> IsSpace(s[k])
    requires !IsSpace(s[a]) && !IsSpace(s[b - 1])
    ensures Trim(s) == s[a..b]
  {
    var r := Trim(s);
    var i := SkipSpaces(s, 0);
    assert i <= a;
    assert r != [] by { assert !AllSpace(s); }
    assert r[0] == s[i];
    assert i == a;
    assert r[|r| - 1] == s[i + |r| - 1];
    assert i + |r| == b;
  }

  /** Escaping runs after the length check, so accepted content can be much
      longer than 500 characters once entities are expanded: `n` copies of `<`
      are accepted and stored as `4 * n` characters (2000 for n = 500). */
  lemma EscapedContentMayExceedLimit(receiverId: string, n: nat)
    requires receiverId != "" && 1 <= n <= MaxContentLength
    ensures var r := CheckSend(receiverId, seq(n, _ => '<'));
            r.Valid? && |r.content| == 4 * n
  {
    var s := seq(n, _ => '<');
    assert Trimmed(s) by { assert s[0] == '<' && s[n - 1] == '<'; }
    TrimOfTrimmed(s);
    EscapeOfLessThans(n);
  }

  /** Accepted content contains no raw `<` or `>`. */
  lemma NoAngleBracketsInAcceptedContent(receiverId: string, content: string)
    requires CheckSend(receiverId, content).Valid?
    ensures '<' !in CheckSend(receiverId, content).content
    ensures '>' !in CheckSend(receiverId, content).content
  {
    var c := CheckSend(receiverId, content).content;
    forall k | 0 <= k < |c| ensures c[k] != '<' && c[k] != '>' {
      assert c[k] == '&' || !IsMarkup(c[k]);
    }
  }
}
