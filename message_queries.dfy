/** The inbox and sent listings of routes/message.js:
    `Message.find({receiver | sender: userId}).sort({createdAt: -1}).skip(skip).limit(limit)`
    with `page = parseInt(q.page) || 1`, `limit = parseInt(q.limit) || 10` and
    `skip = (page - 1) * limit`. Both are queries: they read the message
    collection and change nothing. */
module MessageQueries {
  import opened Basics
  import opened MessageModel

  /** Which party of a message a listing matches on: the inbox matches the
      receiver, the sent listing the sender. */
  datatype Role = AsReceiver | AsSender

  function Party(m: Message, role: Role): Id {
    match role
    case AsReceiver => m.receiver
    case AsSender => m.sender
  }

  /** The query filter `{receiver: userId}` or `{sender: userId}`: the
      messages of `ms` whose party is `user`, each as often as in `ms`, and
      no other message. */
  function Select(ms: seq<Message>, user: Id, role: Role): (r: seq<Message>)
    ensures forall k :: 0 <= k < |r| ==> Party(r[k], role) == user
    ensures forall m :: multiset(r)[m] == if Party(m, role) == user then multiset(ms)[m] else 0
  {
    if ms == [] then []
    else
      assert ms == [ms[0]] + ms[1..];
      var rest := Select(ms[1..], user, role);
      if Party(ms[0], role) == user then [ms[0]] + rest else rest
  }

  /** `createdAt` never increases along the sequence. */
  predicate NewestFirst(s: seq<Message>) {
    forall i, j :: 0 <= i < j < |s| ==> s[i].createdAt >= s[j].createdAt
  }

  /** Places `m` in a newest-first sequence, before the first message that is
      not newer than it. */
  function Insert(m: Message, s: seq<Message>): (r: seq<Message>)
    requires NewestFirst(s)
    ensures NewestFirst(r)
    ensures multiset(r) == multiset(s) + multiset{m}
    ensures |r| == |s| + 1
  {
    if s == [] then [m]
    else if m.createdAt >= s[0].createdAt then
      assert NotNewerThan(m.createdAt, s) by { HeadBoundsAll(s); }
      ConsNewestFirst(m, s);
      [m] + s
    else
      var rest := Insert(m, s[1..]);
      assert s == [s[0]] + s[1..];
      assert NotNewerThan(s[0].createdAt, s[1..]) by { HeadBoundsAll(s); }
      BoundedByMultiset(s[0].createdAt, rest, s[1..], m);
      ConsNewestFirst(s[0], rest);
      [s[0]] + rest
  }

  /** No message of `s` is newer than `t`. */
  predicate NotNewerThan(t: int, s: seq<Message>) {
    forall k :: 0 <= k < |s| ==> s[k].createdAt <= t
  }

  lemma HeadBoundsAll(s: seq<Message>)
    requires NewestFirst(s) && s != []
    ensures NotNewerThan(s[0].createdAt, s) && NotNewerThan(s[0].createdAt, s[1..])
  {
    assert forall k :: 0 <= k < |s| - 1 ==> s[1..][k] == s[k + 1];
  }

  lemma ConsNewestFirst(x: Message, s: seq<Message>)
    requires NewestFirst(s) && NotNewerThan(x.createdAt, s)
    ensures NewestFirst([x] + s)
  {
    var r := [x] + s;
    assert forall k :: 1 <= k < |r| ==> r[k] == s[k - 1];
  }

  lemma BoundedByMultiset(t: int, r: seq<Message>, s: seq<Message>, m: Message)
    requires multiset(r) == multiset(s) + multiset{m}
    requires NotNewerThan(t, s) && m.createdAt <= t
    ensures NotNewerThan(t, r)
  {
    forall k | 0 <= k < |r| ensures r[k].createdAt <= t {
      assert r[k] in multiset(r);
      if r[k] != m {
        assert r[k] in multiset(s);
        var j :| 0 <= j < |s| && s[j] == r[k];
      }
    }
  }

  /** `.sort({createdAt: -1})`: the same messages, newest first. MongoDB
      leaves the order of equal timestamps open; this model fixes one. */
  function SortNewestFirst(s: seq<Message>): (r: seq<Message>)
    ensures NewestFirst(r)
    ensures multiset(r) == multiset(s)
    ensures |r| == |s|
  {
    if s == [] then []
    else
      assert s == [s[0]] + s[1..];
      Insert(s[0], SortNewestFirst(s[1..]))
  }

  const DefaultPage := 1
  const DefaultLimit := 10

  /** `parseInt(x) || d`, given what `parseInt` made of the query string
      (None for NaN): NaN and 0 fall back to the default; any other number,
      negative ones included, is taken as it is. */
  function OrDefault(parsed: Option<int>, d: int): (r: int)
    ensures parsed == None || parsed == Some(0) ==> r == d
    ensures parsed.Some? && parsed.value != 0 ==> r == parsed.value
  {
    match parsed
    case None => d
    case Some(v) => if v == 0 then d else v
  }

  datatype Paging = Paging(page: int, limit: int, skip: int)

  /** The page, limit and skip the handler computes. Page and limit are the
      parsed queries, each falling back to its default when missing or 0, so
      neither is ever 0; skip is where page `page` starts: `page - 1` pages of
      `limit` messages. */
  function Paginate(pageQuery: Option<int>, limitQuery: Option<int>): (p: Paging)
    ensures p.page != 0 && p.limit != 0
    ensures p.skip == (p.page - 1) * p.limit
    ensures pageQuery == None ==> p.page == DefaultPage
    ensures limitQuery == None ==> p.limit == DefaultLimit
    ensures p.page == OrDefault(pageQuery, DefaultPage) && p.limit == OrDefault(limitQuery, DefaultLimit)
  {
    var page := OrDefault(pageQuery, DefaultPage);
    var limit := OrDefault(limitQuery, DefaultLimit);
    Paging(page, limit, (page - 1) * limit)
  }

  /** The number of documents the server puts in a query's first batch when
      the query does not say otherwise. */
  const FirstBatch := 101

  /** `.skip(skip).limit(limit)` for a non-negative skip: messages taken
      consecutively from position `skip` on, at most |limit| of them. A
      positive limit takes up to `limit`, and 0 means no limit. A negative
      limit asks for a single batch of up to |limit|, which the first batch
      cuts at `FirstBatch`. */
  function Window(s: seq<Message>, skip: nat, limit: int): (r: seq<Message>)
    ensures limit != 0 ==> |r| <= Abs(limit)
    ensures Min(skip, |s|) + |r| <= |s| && r == s[Min(skip, |s|)..Min(skip, |s|) + |r|]
    ensures skip >= |s| ==> r == []
    ensures limit == 0 ==> |r| == |s| - Min(skip, |s|)
    ensures limit > 0 ==> |r| == Min(limit, |s| - Min(skip, |s|))
    ensures limit < 0 ==> |r| == Min(Min(-limit, FirstBatch), |s| - Min(skip, |s|))
  {
    var from := Min(skip, |s|);
    var n := if limit == 0 then |s| - from else if limit > 0 then limit else Min(-limit, FirstBatch);
    s[from..Min(from + n, |s|)]
  }

  /** The JSON body of a listing: `page`, `limit`, `count` and `data`, or the
      500 response when the store refuses the query. */
  datatype Listing = Listed(page: int, limit: int, count: nat, data: seq<Message>) | ListFailed {
    function Status(): int { if Listed? then 200 else 500 }
  }

  /** The messages of `user` in that role, in the order every page is cut from. */
  function Ordered(ms: seq<Message>, user: Id, role: Role): seq<Message> {
    SortNewestFirst(Select(ms, user, role))
  }

  /** No two messages of `s` were created at the same time. */
  predicate DistinctTimes(s: seq<Message>) {
    forall i, j :: 0 <= i < j < |s| ==> s[i].createdAt != s[j].createdAt
  }

  /** When no two of the user's messages share a creation time, the order is
      forced: any newest-first arrangement of them, such as the one a query
      returns, is the model's. Then every request cuts its page from the same
      order. */
  lemma OrderIsForced(ms: seq<Message>, user: Id, role: Role, s: seq<Message>)
    requires NewestFirst(s) && multiset(s) == multiset(Select(ms, user, role))
    requires DistinctTimes(s)
    ensures s == Ordered(ms, user, role)
  {
    NewestFirstIsUnique(s, Ordered(ms, user, role));
  }

  /** Two newest-first arrangements of the same messages with distinct
      creation times are equal. */
  lemma {:induction false} NewestFirstIsUnique(a: seq<Message>, b: seq<Message>)
    requires NewestFirst(a) && NewestFirst(b) && multiset(a) == multiset(b)
    requires DistinctTimes(a)
    ensures a == b
  {
    if a == [] {
      assert |b| == |multiset(b)| == 0;
    } else {
      SameNewest(a, b);
      assert a == [a[0]] + a[1..] && b == [b[0]] + b[1..];
      assert multiset(a[1..]) == multiset(a) - multiset{a[0]};
      assert multiset(b[1..]) == multiset(b) - multiset{b[0]};
      TailKeepsOrder(a);
      TailKeepsOrder(b);
      NewestFirstIsUnique(a[1..], b[1..]);
    }
  }

  /** The newest message is the same in both arrangements. */
  lemma SameNewest(a: seq<Message>, b: seq<Message>)
    requires NewestFirst(a) && NewestFirst(b) && multiset(a) == multiset(b)
    requires DistinctTimes(a) && a != []
    ensures b != [] && a[0] == b[0]
  {
    assert a[0] in multiset(b);
    var j :| 0 <= j < |b| && b[j] == a[0];
    assert b[0] in multiset(a);
    var i :| 0 <= i < |a| && a[i] == b[0];
    assert a[i].createdAt == a[0].createdAt;
  }

  lemma TailKeepsOrder(s: seq<Message>)
    requires NewestFirst(s) && s != []
    ensures NewestFirst(s[1..])
    ensures DistinctTimes(s) ==> DistinctTimes(s[1..])
  {
    assert forall k :: 0 <= k < |s| - 1 ==> s[1..][k] == s[k + 1];
  }

  /** The response cut from `sorted` for the paging `p`. MongoDB refuses a
      negative skip, which reaches the catch-all 500; otherwise the page and
      limit are echoed, `data` is the window that skip and limit select and
      `count` is its length. */
  function Cut(sorted: seq<Message>, p: Paging): (r: Listing)
    ensures r.ListFailed? <==> p.skip < 0
    ensures r.Listed? ==> r.page == p.page && r.limit == p.limit && r.count == |r.data|
    ensures r.Listed? ==> r.data == Window(sorted, p.skip, p.limit)
  {
    if p.skip < 0 then ListFailed
    else
      var data := Window(sorted, p.skip, p.limit);
      Listed(p.page, p.limit, |data|, data)
  }

  /** One listing request: the messages of `user` in that role, newest first,
      cut at the page and limit the handler computes. It fails exactly when
      `page - 1` and `limit` have opposite signs: a negative page with a
      positive limit, or a page above 1 with a negative limit. */
  function List(ms: seq<Message>, user: Id, role: Role, pageQuery: Option<int>, limitQuery: Option<int>): (r: Listing)
    ensures r.ListFailed? <==> Paginate(pageQuery, limitQuery).skip < 0
    ensures r.Listed? ==>
              && r.page == Paginate(pageQuery, limitQuery).page
              && r.limit == Paginate(pageQuery, limitQuery).limit
              && r.count == |r.data|
  {
    Cut(Ordered(ms, user, role), Paginate(pageQuery, limitQuery))
  }

  /** `data` holds only messages of `user` in that role, newest first, each
      taken from the store `ms` and at most as often as it is there. */
  predicate Belongs(data: seq<Message>, ms: seq<Message>, user: Id, role: Role) {
    && (forall k :: 0 <= k < |data| ==> Party(data[k], role) == user)
    && NewestFirst(data)
    && multiset(data) <= multiset(ms)
  }

  /** What a listing's `data` holds: at most |limit| messages, all of them
      belonging to `user` in that role. */
  lemma ListSound(ms: seq<Message>, user: Id, role: Role, pageQuery: Option<int>, limitQuery: Option<int>)
    ensures var r := List(ms, user, role, pageQuery, limitQuery);
            r.Listed? ==> |r.data| <= Abs(r.limit) && Belongs(r.data, ms, user, role)
  {
    var sorted := Ordered(ms, user, role);
    var r := Cut(sorted, Paginate(pageQuery, limitQuery));
    if r.Listed? {
      var from, to := CutIsPiece(sorted, Paginate(pageQuery, limitQuery));
      OrderedBelongs(ms, user, role);
      PieceBelongs(sorted, ms, user, role, from, to);
    }
  }

  /** A listing's `data` is the consecutive piece of what it is cut from
      between `from` and `to`, and holds at most |limit| messages when the
      limit is not 0. */
  lemma CutIsPiece(sorted: seq<Message>, p: Paging) returns (from: nat, to: nat)
    requires Cut(sorted, p).Listed?
    ensures from <= to <= |sorted| && Cut(sorted, p).data == sorted[from..to]
    ensures p.limit != 0 ==> |Cut(sorted, p).data| <= Abs(p.limit)
  {
    from := Min(p.skip, |sorted|);
    to := from + |Cut(sorted, p).data|;
  }

  /** The inbox: messages received by `user`. */
  function Inbox(ms: seq<Message>, user: Id, pageQuery: Option<int>, limitQuery: Option<int>): (r: Listing)
    ensures r.Listed? ==> forall k :: 0 <= k < |r.data| ==> r.data[k].receiver == user
    ensures r.Listed? ==> r.count == |r.data| && NewestFirst(r.data)
  {
    ListSound(ms, user, AsReceiver, pageQuery, limitQuery);
    List(ms, user, AsReceiver, pageQuery, limitQuery)
  }

  /** The sent listing: messages sent by `user`. */
  function Sent(ms: seq<Message>, user: Id, pageQuery: Option<int>, limitQuery: Option<int>): (r: Listing)
    ensures r.Listed? ==> forall k :: 0 <= k < |r.data| ==> r.data[k].sender == user
    ensures r.Listed? ==> r.count == |r.data| && NewestFirst(r.data)
  {
    ListSound(ms, user, AsSender, pageQuery, limitQuery);
    List(ms, user, AsSender, pageQuery, limitQuery)
  }

  /** The newest-first order of the user's messages belongs to them. */
  lemma OrderedBelongs(ms: seq<Message>, user: Id, role: Role)
    ensures Belongs(Ordered(ms, user, role), ms, user, role)
  {
    var sel := Select(ms, user, role);
    var sorted := SortNewestFirst(sel);
    forall m ensures multiset(sorted)[m] <= multiset(ms)[m] {
      assert multiset(sorted)[m] == multiset(sel)[m];
    }
    forall k | 0 <= k < |sorted| ensures Party(sorted[k], role) == user {
      assert sorted[k] in multiset(sorted);
      assert multiset(sel)[sorted[k]] > 0;
    }
  }

  /** A consecutive piece of a sequence that belongs to `user` belongs to
      them too. */
  lemma PieceBelongs(s: seq<Message>, ms: seq<Message>, user: Id, role: Role, from: nat, to: nat)
    requires from <= to <= |s| && Belongs(s, ms, user, role)
    ensures Belongs(s[from..to], ms, user, role)
  {
    var w := s[from..to];
    assert s == s[..from] + w + s[to..];
    assert forall k :: 0 <= k < |w| ==> w[k] == s[from + k];
  }

  // ---------------------------------------------------------------------------
  // Paging through a listing
  // ---------------------------------------------------------------------------

  /** Pages 1 to `n` cut from `sorted` with a fixed limit, page `k` at index
      `k - 1` (a page whose query fails counts as empty). With `sorted` the
      newest-first order of a user's messages, these are the `data` of that
      user's listings for pages 1 to `n`, provided every one of those requests
      sees the messages in that same order (`OrderIsForced` says when). */
  function PageRun(sorted: seq<Message>, limit: int, n: nat): (r: seq<seq<Message>>)
    ensures |r| == n
  {
    if n == 0 then []
    else PageRun(sorted, limit, n - 1) + [PageOrEmpty(Cut(sorted, Paginate(Some(n), Some(limit))))]
  }

  function PageOrEmpty(r: Listing): seq<Message> {
    if r.Listed? then r.data else []
  }

  lemma {:induction false} PageRunAt(sorted: seq<Message>, limit: int, n: nat, page: int)
    requires 1 <= page <= n
    ensures PageRun(sorted, limit, n)[page - 1] == PageOrEmpty(Cut(sorted, Paginate(Some(page), Some(limit))))
  {
    if page != n {
      PageRunAt(sorted, limit, n - 1, page);
    }
  }

  /** The pieces of `ps`, one after the other. */
  function Flatten(ps: seq<seq<Message>>): seq<Message> {
    if ps == [] then [] else Flatten(ps[..|ps| - 1]) + ps[|ps| - 1]
  }

  /** Pages cut from one order with a positive limit neither skip nor repeat
      a message of it: pages 1 to `n` together are exactly the first
      `n * limit` messages of that order (or all of them, if there are fewer). */
  lemma PagesTile(sorted: seq<Message>, limit: int, n: nat)
    requires limit > 0
    ensures Flatten(PageRun(sorted, limit, n)) == sorted[..Min(Covered(n, limit), |sorted|)]
  {
    var ps := PageRun(sorted, limit, n);
    forall page | 1 <= page <= n
      ensures ps[page - 1] == Slice(sorted, limit, page)
    {
      PageRunAt(sorted, limit, n, page);
      CutIsSlice(sorted, limit, page);
    }
    SlicesTile(ps, sorted, limit);
  }

  /** The page-th slice of `limit` elements (pages count from 1). */
  function Slice(all: seq<Message>, limit: int, page: int): seq<Message>
    requires limit > 0 && page >= 1
  {
    var skip := Covered(page - 1, limit);
    all[Min(skip, |all|)..Min(skip + limit, |all|)]
  }

  /** How many messages `n` full pages of `limit` messages hold. */
  function Covered(n: nat, limit: int): (c: nat)
    requires limit > 0
    ensures c == n * limit
  {
    NonNegativeProduct(n, limit);
    n * limit
  }

  /** Page `page` (from 1) with a positive limit is the slice of `sorted`
      from `skip = (page - 1) * limit` to `skip + limit`. */
  lemma CutIsSlice(sorted: seq<Message>, limit: int, page: int)
    requires limit > 0 && page >= 1
    ensures Cut(sorted, Paginate(Some(page), Some(limit))).Listed?
    ensures Cut(sorted, Paginate(Some(page), Some(limit))).data == Slice(sorted, limit, page)
  {
    var skip := Covered(page - 1, limit);
    assert Paginate(Some(page), Some(limit)) == Paging(page, limit, skip);
    WindowSlice(sorted, skip, limit);
  }

  /** The listing's page `page` is the page-th slice of the user's messages
      in newest-first order. */
  lemma PageIsSlice(ms: seq<Message>, user: Id, role: Role, limit: int, page: int)
    requires limit > 0 && page >= 1
    ensures List(ms, user, role, Some(page), Some(limit)).Listed?
    ensures List(ms, user, role, Some(page), Some(limit)).data == Slice(Ordered(ms, user, role), limit, page)
  {
    CutIsSlice(Ordered(ms, user, role), limit, page);
  }

  /** Pieces that are the consecutive `limit`-sized slices of `all` join up
      to the prefix of `all` that they cover. */
  lemma {:induction false} SlicesTile(ps: seq<seq<Message>>, all: seq<Message>, limit: int)
    requires limit > 0
    requires forall page :: 1 <= page <= |ps| ==> ps[page - 1] == Slice(all, limit, page)
    ensures Flatten(ps) == all[..Min(Covered(|ps|, limit), |all|)]
  {
    if ps == [] {
      assert Covered(0, limit) == 0;
    } else {
      var front := ps[..|ps| - 1];
      forall page | 1 <= page <= |front|
        ensures front[page - 1] == Slice(all, limit, page)
      {
        assert front[page - 1] == ps[page - 1];
      }
      SlicesTile(front, all, limit);
      PrefixGrows(all, limit, |ps|);
    }
  }

  /** The prefix that pages 1 to `n - 1` cover, followed by page `n`, is the
      prefix that pages 1 to `n` cover. */
  lemma PrefixGrows(all: seq<Message>, limit: int, n: nat)
    requires limit > 0 && n > 0
    ensures all[..Min(Covered(n - 1, limit), |all|)] + Slice(all, limit, n) == all[..Min(Covered(n, limit), |all|)]
  {
    var skip := Covered(n - 1, limit);
    assert Covered(n, limit) == skip + limit by { Distribute(n, limit); }
    var a, b := Min(skip, |all|), Min(skip + limit, |all|);
    assert all[..b] == all[..a] + all[a..b];
  }

  lemma NonNegativeProduct(a: int, b: int)
    requires a >= 0 && b >= 0
    ensures a * b >= 0
  {
  }

  lemma Distribute(n: int, limit: int)
    ensures n * limit == (n - 1) * limit + limit
  {
  }

  /** With a positive limit, the window is the piece from `skip` to
      `skip + limit`, both cut at the end. */
  lemma WindowSlice(s: seq<Message>, skip: nat, limit: int)
    requires limit > 0
    ensures Window(s, skip, limit) == s[Min(skip, |s|)..Min(skip + limit, |s|)]
  {
  }

  /** Every message of `user` in that role appears on the first page once the
      limit is at least their number. */
  lemma FirstPageHoldsAll(ms: seq<Message>, user: Id, role: Role, limit: int)
    requires limit >= |Select(ms, user, role)| && limit > 0
    ensures multiset(List(ms, user, role, None, Some(limit)).data) == multiset(Select(ms, user, role))
  {
    PageIsSlice(ms, user, role, limit, 1);
    var all := Ordered(ms, user, role);
    assert Slice(all, limit, 1) == all by {
      assert Covered(0, limit) == 0;
      assert Min(limit, |all|) == |all|;
      assert all[0..|all|] == all;
    }
    assert Paginate(None, Some(limit)) == Paginate(Some(1), Some(limit));
  }

  /** The defaults: no usable page or limit means the ten newest messages. */
  lemma DefaultsAreFirstTen(pageQuery: Option<int>, limitQuery: Option<int>)
    requires pageQuery == None || pageQuery == Some(0)
    requires limitQuery == None || limitQuery == Some(0)
    ensures Paginate(pageQuery, limitQuery) == Paging(1, 10, 0)
  {
  }

  /** A negative page with a positive limit asks for a negative skip and gets
      the 500 response; with a negative limit too, the skip is positive and
      the query runs, returning at most |limit| messages. */
  lemma NegativePagesAreNotClamped(ms: seq<Message>, user: Id, role: Role, page: int, limit: int)
    requires page < 0
    ensures limit > 0 ==> List(ms, user, role, Some(page), Some(limit)) == ListFailed
    ensures limit < 0 ==> List(ms, user, role, Some(page), Some(limit)).Listed?
    ensures limit < 0 ==> List(ms, user, role, Some(page), Some(limit)).page == page
  {
    if limit != 0 {
      var p := Paginate(Some(page), Some(limit));
      assert p == Paging(page, limit, (page - 1) * limit);
      ProductSign(page - 1, limit);
      assert List(ms, user, role, Some(page), Some(limit)) == Cut(Ordered(ms, user, role), p);
    }
  }

  /** A negative limit lists on page 1 but fails with 500 on every later
      page, whose skip `(page - 1) * limit` is then negative. */
  lemma NegativeLimitsFailPastPageOne(ms: seq<Message>, user: Id, role: Role, page: int, limit: int)
    requires limit < 0
    ensures page > 1 ==> List(ms, user, role, Some(page), Some(limit)) == ListFailed
    ensures page == 1 ==> List(ms, user, role, Some(page), Some(limit)).Listed?
  {
    if page > 1 {
      ProductSign(limit, page - 1);
      assert Paginate(Some(page), Some(limit)).skip < 0;
    } else if page == 1 {
      assert Paginate(Some(page), Some(limit)).skip == 0;
    }
  }

  /** A negative factor flips the sign of the other one. */
  lemma ProductSign(a: int, b: int)
    requires a < 0
    ensures b > 0 ==> a * b < 0
    ensures b < 0 ==> a * b > 0
  {
  }
}
