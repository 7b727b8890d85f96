/** The string operations the core relies on: the validator library's `trim`
    and `escape` sanitizers and the count its `isLength` check compares, and
    JavaScript's `String.prototype.split(" ")` used to pull the token out of
    the Authorization header. */
module Strings {

  // ---------------------------------------------------------------------------
  // trim
  // ---------------------------------------------------------------------------

  /** JavaScript's `\s` character class, which `trim` strips from both ends. */
  predicate IsSpace(c: char) {
    c == ' ' || c == '\t' || c == '\n' || c == '\r' || c == '\U{B}' || c == '\U{C}'
    || c == '\U{A0}' || c == '\U{1680}' || ('\U{2000}' <= c <= '\U{200A}')
    || c == '\U{2028}' || c == '\U{2029}' || c == '\U{202F}' || c == '\U{205F}'
    || c == '\U{3000}' || c == '\U{FEFF}'
  }

  predicate AllSpace(s: string) {
    forall k :: 0 <= k < |s| ==> IsSpace(s[k])
  }

  /** No whitespace at either end. */
  predicate Trimmed(s: string) {
    s == [] || (!IsSpace(s[0]) && !IsSpace(s[|s| - 1]))
  }

  /** The position at which the run of whitespace starting at `i` ends. */
  function SkipSpaces(s: string, i: nat): (j: nat)
    requires i <= |s|
    ensures i <= j <= |s|
    ensures forall k :: i <= k < j ==> IsSpace(s[k])
    ensures j < |s| ==> !IsSpace(s[j])
    decreases |s| - i
  {
    if i < |s| && IsSpace(s[i]) then SkipSpaces(s, i + 1) else i
  }

  /** The position at which the run of whitespace ending at `hi` starts,
      looking no further back than `lo`. */
  function SkipSpacesBack(s: string, lo: nat, hi: nat): (j: nat)
    requires lo <= hi <= |s|
    ensures lo <= j <= hi
    ensures forall k :: j <= k < hi ==> IsSpace(s[k])
    ensures j > lo ==> !IsSpace(s[j - 1])
    decreases hi
  {
    if hi > lo && IsSpace(s[hi - 1]) then SkipSpacesBack(s, lo, hi - 1) else hi
  }

  /** `trim()`: the piece of `s` between its leading and its trailing
      whitespace. The result has no whitespace at either end; it sits in `s`
      right after the leading whitespace; everything before and after it is
      whitespace; and it is empty exactly when `s` is all whitespace. */
  function Trim(s: string): (r: string)
    ensures Trimmed(r)
    ensures var i := SkipSpaces(s, 0);
            && i + |r| <= |s| && r == s[i..i + |r|]
            && (forall k :: 0 <= k < i ==> IsSpace(s[k]))
            && (forall k :: i + |r| <= k < |s| ==> IsSpace(s[k]))
    ensures r == [] <==> AllSpace(s)
  {
    var i := SkipSpaces(s, 0);
    var j := SkipSpacesBack(s, i, |s|);
    s[i..j]
  }

  /** A string with nothing to strip is its own trim. */
  lemma TrimOfTrimmed(s: string)
    requires Trimmed(s)
    ensures Trim(s) == s
  {
  }

  /** Trimming twice is trimming once. */
  lemma TrimIdempotent(s: string)
    ensures Trim(Trim(s)) == Trim(s)
  {
    TrimOfTrimmed(Trim(s));
  }

  // ---------------------------------------------------------------------------
  // the length isLength counts
  // ---------------------------------------------------------------------------

  /** The text and emoji presentation selectors, U+FE0E and U+FE0F, which
      `isLength` leaves out of its count. */
  predicate IsPresentationSelector(c: char) {
    c == '\U{FE0E}' || c == '\U{FE0F}'
  }

  /** The length `isLength` compares with its bounds: the number of code
      points that are not presentation selectors. A code point outside the
      basic plane is a single character of a Dafny string, just as `isLength`
      counts its surrogate pair once. The count never exceeds `|s|` and is
      `|s|` exactly for text without presentation selectors. */
  function CountedLength(s: string): (n: nat)
    ensures n <= |s|
    ensures (forall k :: 0 <= k < |s| ==> !IsPresentationSelector(s[k])) ==> n == |s|
  {
    if s == [] then 0
    else (if IsPresentationSelector(s[0]) then 0 else 1) + CountedLength(s[1..])
  }

  /** The count adds up over concatenation. */
  lemma {:induction false} CountedLengthAppend(a: string, b: string)
    ensures CountedLength(a + b) == CountedLength(a) + CountedLength(b)
  {
    if a != [] {
      var ab := a + b;
      assert ab[0] == a[0] && ab[1..] == a[1..] + b;
      CountedLengthAppend(a[1..], b);
    } else {
      assert a + b == b;
    }
  }

  // ---------------------------------------------------------------------------
  // escape
  // ---------------------------------------------------------------------------

  /** The characters `escape()` replaces by HTML entities. */
  predicate IsMarkup(c: char) {
    c == '&' || c == '"' || c == '\'' || c == '<' || c == '>' || c == '/' || c == '\\' || c == '`'
  }

  /** The entity for one character; every other character stands for itself. */
  function Entity(c: char): (r: string)
    ensures |r| >= 1
    ensures IsMarkup(c) ==> r[0] == '&' && r[|r| - 1] == ';'
    ensures !IsMarkup(c) ==> r == [c]
    ensures forall k :: 0 <= k < |r| ==> r[k] == '&' || !IsMarkup(r[k])
  {
    if c == '&' then "&amp;"
    else if c == '"' then "&quot;"
    else if c == '\'' then "&#x27;"
    else if c == '<' then "&lt;"
    else if c == '>' then "&gt;"
    else if c == '/' then "&#x2F;"
    else if c == '\\' then "&#x5C;"
    else if c == '`' then "&#96;"
    else [c]
  }

  /** `escape()`: every markup character replaced by its entity. The only
      markup character the output may contain is `&`, the output is never
      shorter, and text without markup is left alone. */
  function Escape(s: string): (r: string)
    ensures forall k :: 0 <= k < |r| ==> r[k] == '&' || !IsMarkup(r[k])
    ensures |r| >= |s|
    ensures (forall k :: 0 <= k < |s| ==> !IsMarkup(s[k])) ==> r == s
  {
    if s == [] then []
    else
      var head, tail := Entity(s[0]), Escape(s[1..]);
      assert forall k :: 0 <= k < |head| + |tail| ==>
        (head + tail)[k] == if k < |head| then head[k] else tail[k - |head|];
      head + tail
  }

  /** Escaping distributes over concatenation. */
  lemma {:induction false} EscapeAppend(a: string, b: string)
    ensures Escape(a + b) == Escape(a) + Escape(b)
  {
    if a != [] {
      var ab := a + b;
      assert ab[0] == a[0] && ab[1..] == a[1..] + b;
      assert Escape(ab) == Entity(a[0]) + Escape(a[1..] + b);
      EscapeAppend(a[1..], b);
      assert Escape(a) == Entity(a[0]) + Escape(a[1..]);
      assert Entity(a[0]) + (Escape(a[1..]) + Escape(b)) == (Entity(a[0]) + Escape(a[1..])) + Escape(b);
    } else {
      assert a + b == b;
    }
  }

  /** The output of escape begins with the input's first character or with the
      `&` of an entity, and ends with its last character or an entity's `;`. */
  lemma EscapeEnds(s: string)
    requires s != []
    ensures Escape(s) != []
    ensures Escape(s)[0] == s[0] || Escape(s)[0] == '&'
    ensures Escape(s)[|Escape(s)| - 1] == s[|s| - 1] || Escape(s)[|Escape(s)| - 1] == ';'
  {
    var init, last := s[..|s| - 1], s[|s| - 1];
    assert s == init + [last];
    EscapeAppend(init, [last]);
    assert Escape([last]) == Entity(last) + Escape([]);
  }

  /** Escaping a trimmed string leaves it trimmed: entities neither start nor
      end with whitespace. */
  lemma EscapeKeepsTrimmed(s: string)
    requires Trimmed(s)
    ensures Trimmed(Escape(s))
  {
    if s != [] {
      EscapeEnds(s);
    }
  }

  /** Each `<` becomes the four characters `&lt;`. */
  lemma {:induction false} EscapeOfLessThans(n: nat)
    ensures Escape(seq(n, _ => '<')) == Repeat("&lt;", n)
  {
    if n > 0 {
      var s := seq(n, _ => '<');
      assert s[1..] == seq(n - 1, _ => '<');
      EscapeOfLessThans(n - 1);
    }
  }

  function Repeat(w: string, n: nat): (r: string)
    ensures |r| == n * |w|
  {
    if n == 0 then [] else w + Repeat(w, n - 1)
  }

  // ---------------------------------------------------------------------------
  // split(" ") and its inverse
  // ---------------------------------------------------------------------------

  /** `s.split(" ")`: the pieces between single spaces, at least one piece,
      none containing a space (adjacent spaces give empty pieces). */
  function Split(s: string): (r: seq<string>)
    ensures |r| >= 1
    ensures forall k :: 0 <= k < |r| ==> ' ' !in r[k]
  {
    if s == [] then [""]
    else
      var rest := Split(s[1..]);
      if s[0] == ' ' then [""] + rest
      else [[s[0]] + rest[0]] + rest[1..]
  }

  /** `pieces.join(" ")`. */
  function Join(pieces: seq<string>): string
    requires |pieces| >= 1
  {
    if |pieces| == 1 then pieces[0] else pieces[0] + " " + Join(pieces[1..])
  }

  /** Joining the pieces of a split gives back the string. */
  lemma {:induction false} JoinSplit(s: string)
    ensures Join(Split(s)) == s
  {
    if s != [] {
      var rest := Split(s[1..]);
      JoinSplit(s[1..]);
      if s[0] != ' ' {
        var r := Split(s);
        assert r[0] == [s[0]] + rest[0] && r[1..] == rest[1..];
        if |rest| == 1 {
          assert Join(r) == [s[0]] + rest[0];
        } else {
          assert Join(r) == [s[0]] + rest[0] + " " + Join(rest[1..]);
        }
      }
    }
  }

  /** A word without spaces splits into itself. */
  lemma {:induction false} SplitWord(w: string)
    requires ' ' !in w
    ensures Split(w) == [w]
  {
    if w != [] {
      assert w[0] in w;
      SplitWord(w[1..]);
      assert w == [w[0]] + w[1..];
    }
  }

  /** A space-free word followed by a space splits off as the first piece. */
  lemma {:induction false} SplitFirstWord(w: string, x: string)
    requires ' ' !in w
    ensures Split(w + " " + x) == [w] + Split(x)
  {
    if w == [] {
      assert w + " " + x == [' '] + x;
    } else {
      var s := w + " " + x;
      assert s[0] == w[0] && w[0] in w;
      assert s[1..] == w[1..] + " " + x;
      SplitFirstWord(w[1..], x);
      assert w == [w[0]] + w[1..];
    }
  }

  /** Splitting the join of space-free pieces gives back the pieces. */
  lemma {:induction false} SplitJoin(pieces: seq<string>)
    requires |pieces| >= 1
    requires forall k :: 0 <= k < |pieces| ==> ' ' !in pieces[k]
    ensures Split(Join(pieces)) == pieces
  {
    if |pieces| == 1 {
      SplitWord(pieces[0]);
    } else {
      SplitFirstWord(pieces[0], Join(pieces[1..]));
      SplitJoin(pieces[1..]);
    }
  }
}
