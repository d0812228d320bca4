/** Which messages a mailbox listing fetches: by recency, by search, page by page,
    and when the search fails. */
module ImapPaging {
  import opened Basics

  const MAX_INT32 := 0x7FFF_FFFF
  const MAX_UINT32 := 0xFFFF_FFFF

  datatype Message = Message(uid: nat, seen: bool, content: string)

  /** A mailbox in sequence order: unique identifiers, strictly ascending. */
  predicate Mailbox(box: seq<Message>) { |box| <= MAX_UINT32 && Ascending(box) }

  predicate Ascending(box: seq<Message>) { forall i, j :: 0 <= i < j < |box| ==> box[i].uid < box[j].uid }

  // --- queries and what the server makes of them ------------------------------------

  /** "" means unset. */
  datatype Query = Query(from: string, subject: string, since: string, text: string, repo: string, unreadOnly: bool)

  datatype Key = From | Subject | Since | Text | RepoHeader

  /** ANDed keys; repo is the two-armed OR. */
  datatype Criteria = Criteria(notSeen: bool, repo: string, keys: seq<(Key, string)>)

  function OptionalKey(k: Key, v: string): seq<(Key, string)> { if v == "" then [] else [(k, v)] }

  /** None: no criteria at all. */
  function SearchCriteria(q: Query): Option<Criteria> {
    if q == Query("", "", "", "", "", false) then None
    else Some(Criteria(q.unreadOnly, q.repo,
                       OptionalKey(From, q.from) + OptionalKey(Subject, q.subject)
                       + OptionalKey(Since, q.since) + OptionalKey(Text, q.text)))
  }

  /** hit decides one key on one message: the server's own text matching. */
  type Hit = (Key, string, Message) -> bool

  predicate Matches(hit: Hit, m: Message, c: Criteria) {
    && (c.notSeen ==> !m.seen)
    && (c.repo != "" ==> hit(RepoHeader, c.repo, m) || hit(Subject, "[" + c.repo + "]", m))
    && AllHit(hit, m, c.keys)
  }

  /** What a query means, with no criteria in sight. */
  predicate Wanted(hit: Hit, m: Message, q: Query) {
    && (q.unreadOnly ==> !m.seen)
    && (q.repo != "" ==> hit(RepoHeader, q.repo, m) || hit(Subject, "[" + q.repo + "]", m))
    && (q.from != "" ==> hit(From, q.from, m)) && (q.subject != "" ==> hit(Subject, q.subject, m))
    && (q.since != "" ==> hit(Since, q.since, m)) && (q.text != "" ==> hit(Text, q.text, m))
  }

  predicate AllHit(hit: Hit, m: Message, keys: seq<(Key, string)>) { forall k :: k in keys ==> hit(k.0, k.1, m) }

  lemma HitsAppend(hit: Hit, m: Message, a: seq<(Key, string)>, b: seq<(Key, string)>)
    ensures AllHit(hit, m, a + b) <==> AllHit(hit, m, a) && AllHit(hit, m, b)
  {
    assert forall k :: k in a ==> k in a + b;
    assert forall k :: k in b ==> k in a + b;
  }

  lemma HitsOptional(hit: Hit, m: Message, k: Key, v: string)
    ensures AllHit(hit, m, OptionalKey(k, v)) <==> (v != "" ==> hit(k, v, m))
  {
    if v != "" {
      assert (k, v) in OptionalKey(k, v);
    }
  }

  /** The criteria select exactly the messages the query wants. */
  lemma CriteriaMeanQuery(hit: Hit, m: Message, q: Query)
    ensures SearchCriteria(q).Some? ==> (Matches(hit, m, SearchCriteria(q).value) <==> Wanted(hit, m, q))
    ensures SearchCriteria(q).None? ==> Wanted(hit, m, q)
  {
    var a, b, c, d := OptionalKey(From, q.from), OptionalKey(Subject, q.subject), OptionalKey(Since, q.since), OptionalKey(Text, q.text);
    HitsOptional(hit, m, From, q.from);
    HitsOptional(hit, m, Subject, q.subject);
    HitsOptional(hit, m, Since, q.since);
    HitsOptional(hit, m, Text, q.text);
    HitsAppend(hit, m, a, b);
    HitsAppend(hit, m, a + b, c);
    HitsAppend(hit, m, a + b + c, d);
    hide AllHit, OptionalKey;
  }

  function Filter(box: seq<Message>, p: Message -> bool): seq<Message> {
    if box == [] then [] else (if p(box[0]) then [box[0]] else []) + Filter(box[1..], p)
  }

  // --- windows ------------------------------------------------------------------------

  /** The page of count elements that ends offset places before the last. */
  function Window<T>(xs: seq<T>, count: int, offset: nat): seq<T> {
    var end := |xs| - offset;
    if end <= 0 || count <= 0 then []
    else xs[(if end - count < 0 then 0 else end - count)..end]
  }

  /** A page leaves out the newest offset elements and holds the count newest of the rest,
      in order; both stop at the end of the list. */
  lemma WindowExact<T>(xs: seq<T>, count: int, offset: nat)
    requires count >= 0
    ensures var w, skipped := Window(xs, count, offset), if offset < |xs| then offset else |xs|;
            && |w| == (if count < |xs| - skipped then count else |xs| - skipped)
            && forall i :: 0 <= i < |w| ==> w[i] == xs[|xs| - skipped - |w| + i]
  {
  }

  /** The offset of the k-th page. */
  function Offset(count: nat, k: nat): nat { if k == 0 then 0 else Offset(count, k - 1) + count }

  lemma {:induction false} OffsetIs(count: nat, k: nat)
    ensures Offset(count, k) == k * count
  {
    if k > 0 {
      OffsetIs(count, k - 1);
      assert k * count == (k - 1) * count + count;
    }
  }

  /** The k newest pages, oldest first. */
  function Pages<T>(xs: seq<T>, count: nat, k: nat): seq<T> {
    if k == 0 then [] else Window(xs, count, Offset(count, k - 1)) + Pages(xs, count, k - 1)
  }

  /** The newest n elements, all when there are fewer. */
  function Newest<T>(xs: seq<T>, n: nat): seq<T> { if n >= |xs| then xs else xs[|xs| - n..] }

  /** One more page in front of the newest from elements. */
  lemma PageInFront<T>(xs: seq<T>, count: nat, from: nat)
    requires count > 0
    ensures Window(xs, count, from) + Newest(xs, from) == Newest(xs, from + count)
  {
    var end := |xs| - from;
    if end > 0 {
      var start := if end - count < 0 then 0 else end - count;
      assert xs[start..end] + xs[end..] == xs[start..];
    }
    assert xs[0..] == xs && [] + xs == xs;
  }

  lemma {:induction false} PagesAreNewest<T>(xs: seq<T>, count: nat, k: nat)
    requires count > 0
    ensures Pages(xs, count, k) == Newest(xs, Offset(count, k))
  {
    if k > 0 {
      PagesAreNewest(xs, count, k - 1);
      PageInFront(xs, count, Offset(count, k - 1));
      hide Window, Newest;
    }
  }

  /** Pages at offsets 0, count, 2 count, ... partition the list in order: each is the
      next stretch, and enough of them are the whole list. */
  lemma PagesPartition<T>(xs: seq<T>, count: nat, k: nat)
    requires count > 0 && k * count >= |xs|
    ensures Pages(xs, count, k) == xs
  {
    OffsetIs(count, k);
    PagesAreNewest(xs, count, k);
  }

  // --- the decision which messages to fetch ----------------------------------------------

  datatype NumSet = SeqRange(start: int, stop: int) | Uids(uids: seq<nat>)

  datatype Listing = Failed | Listed(nums: Option<NumSet>, total: nat, degraded: bool)

  function UidsOf(ms: seq<Message>): seq<nat> { seq(|ms|, i requires 0 <= i < |ms| => ms[i].uid) }

  function ClampCount(count: int, n: nat): int { if count > n then n else count }

  /** The last count messages by sequence number, the width capped at 32 bits. */
  function RecencySet(n: nat, count: int): NumSet {
    var width := if count > MAX_INT32 then MAX_INT32 else count;
    SeqRange(if n > width then n - width + 1 else 1, n)
  }

  function SelectUids(found: seq<nat>, count: int, offset: nat): Listing {
    var page := Window(found, count, offset);
    Listed(if page == [] then None else Some(Uids(page)), |found|, false)
  }

  /** first, retry: whether the search, and its one retry, fail. */
  function Search(hit: Hit, box: seq<Message>, c: Criteria): seq<nat> { UidsOf(Filter(box, m => Matches(hit, m, c))) }

  function ListSet(hit: Hit, box: seq<Message>, q: Query, count: int, offset: nat, first: bool, retry: bool): Listing {
    var crit := SearchCriteria(q);
    if crit.None? && offset == 0 then Listed(Some(RecencySet(|box|, ClampCount(count, |box|))), |box|, false)
    else
      var c := if crit.None? then Criteria(false, "", []) else crit.value;
      if first then Fallback(hit, box, q, count, offset, retry)
      else SelectUids(Search(hit, box, c), count, offset)
  }

  function Fallback(hit: Hit, box: seq<Message>, q: Query, count: int, offset: nat, retry: bool): Listing {
    if q.unreadOnly then
      if q.repo != "" && !retry then
        SelectUids(Search(hit, box, SearchCriteria(q.(repo := "")).value), count, offset)
      else Failed
    else Listed(Some(RecencySet(|box|, ClampCount(count, |box|))), |box|, true)
  }

  /** What the server returns for a set of numbers. */
  function Fetched(box: seq<Message>, nums: Option<NumSet>): seq<Message> {
    match nums
    case None => []
    case Some(SeqRange(start, stop)) => if 1 <= start <= stop + 1 <= |box| + 1 then box[start - 1..stop] else []
    case Some(Uids(uids)) => Filter(box, (m: Message) => m.uid in uids)
  }

  /** An empty mailbox or a count that is not positive lists nothing. */
  function SearchMessages(hit: Hit, box: seq<Message>, q: Query, count: int, offset: nat, first: bool, retry: bool): Option<seq<Message>> {
    if box == [] || count <= 0 then Some([])
    else
      var r := ListSet(hit, box, q, count, offset, first, retry);
      if r.Failed? then None else Some(Fetched(box, r.nums))
  }

  // --- recency is the newest window ---------------------------------------------------------

  /** The recency path selects what windowing the whole list would, exactly as long
      as not both the mailbox and the count exceed the 32-bit width. */
  lemma RecencyIsWindow(box: seq<Message>, count: int)
    requires box != [] && count > 0
    ensures Fetched(box, Some(RecencySet(|box|, ClampCount(count, |box|)))) == Window(box, count, 0) <==>
            |box| <= MAX_INT32 || count <= MAX_INT32
  {
    var n := |box|;
    var clamped := ClampCount(count, n);
    var width := if clamped > MAX_INT32 then MAX_INT32 else clamped;
    var start := if n > width then n - width + 1 else 1;
    assert |box[start - 1..n]| == n - start + 1;
    assert |Window(box, count, 0)| == clamped;
  }

  function Box(n: nat): seq<Message> { seq(n, i requires 0 <= i < n => Message(i, false, "")) }

  lemma BoxIs(n: nat)
    requires 0 < n <= MAX_UINT32
    ensures Mailbox(Box(n)) && |Box(n)| == n && Window(Box(n), n, 0) == Box(n)
    ensures Fetched(Box(n), Some(SeqRange(2, n))) == Box(n)[1..]
  {
    var box := Box(n);
    assert box[0..n] == box && box[1..n] == box[1..];
  }

  const NO_QUERY := Query("", "", "", "", "", false)

  /** A listing of more than MAX_INT32 messages loses the oldest. */
  lemma RecencyCounterexample(hit: Hit)
    ensures var n := MAX_INT32 + 1;
            var box := Box(n);
            && Mailbox(box) && Window(box, n, 0) == box
            && SearchMessages(hit, box, NO_QUERY, n, 0, false, false) == Some(box[1..])
  {
    var n := MAX_INT32 + 1;
    BoxIs(n);
    hide Box, Mailbox, Window, Fetched, Search;
    assert RecencySet(n, ClampCount(n, n)) == SeqRange(2, n);
  }

  // --- searching is filtering and windowing ---------------------------------------------------

  lemma {:induction false} FilterAll(a: seq<Message>, p: Message -> bool)
    ensures (forall m :: m in a ==> p(m)) ==> Filter(a, p) == a
    ensures (forall m :: m in a ==> !p(m)) ==> Filter(a, p) == []
  {
    if a != [] {
      FilterAll(a[1..], p);
      assert a == [a[0]] + a[1..];
    }
  }

  lemma {:induction false} FilterIn(a: seq<Message>, p: Message -> bool)
    ensures forall m :: m in Filter(a, p) <==> m in a && p(m)
    ensures |Filter(a, p)| <= |a|
  {
    if a != [] {
      FilterIn(a[1..], p);
    }
  }

  lemma {:induction false} FilterAscending(box: seq<Message>, p: Message -> bool)
    requires Ascending(box)
    ensures Ascending(Filter(box, p))
  {
    if box != [] {
      FilterAscending(box[1..], p);
      FilterIn(box[1..], p);
      var rest := Filter(box[1..], p);
      forall j | 0 <= j < |rest| ensures box[0].uid < rest[j].uid {
        assert rest[j] in box[1..];
      }
    }
  }

  function InPage(page: seq<Message>): Message -> bool { (m: Message) => m.uid in UidsOf(page) }

  lemma UidOutside(f: seq<Message>, a: nat, b: nat, k: nat)
    requires Ascending(f) && a <= b <= |f| && k < |f|
    ensures f[k].uid in UidsOf(f[a..b]) <==> a <= k < b
  {
    var w := f[a..b];
    if a <= k < b {
      assert UidsOf(w)[k - a] == f[k].uid;
    } else {
      forall i | 0 <= i < |w| ensures UidsOf(w)[i] != f[k].uid {
        assert UidsOf(w)[i] == f[a + i].uid;
      }
    }
  }

  /** Among ascending messages the identifiers of a stretch pick out that stretch. */
  lemma StretchBack(f: seq<Message>, a: nat, b: nat)
    requires Ascending(f) && a <= b <= |f|
    ensures Filter(f, InPage(f[a..b])) == f[a..b]
  {
    var p := InPage(f[a..b]);
    forall k | 0 <= k < |f| ensures p(f[k]) <==> a <= k < b {
      UidOutside(f, a, b, k);
    }
    FilterStretch(f, a, b, p);
  }

  lemma {:induction false} FilterStretch(f: seq<Message>, a: nat, b: nat, p: Message -> bool)
    requires a <= b <= |f| && forall k :: 0 <= k < |f| ==> (p(f[k]) <==> a <= k < b)
    ensures Filter(f, p) == f[a..b]
    decreases |f|
  {
    if f != [] {
      var a', b' := if a > 0 then a - 1 else 0, if b > 0 then b - 1 else 0;
      FilterStretch(f[1..], a', b', p);
      if a == 0 < b {
        assert f[a..b] == [f[0]] + f[1..][a'..b'];
      } else if a > 0 {
        assert f[a..b] == f[1..][a'..b'] && [] + f[a..b] == f[a..b];
      } else {
        assert f[a..b] == [] && f[1..][a'..b'] == [];
      }
    }
  }

  /** Asking the mailbox for the identifiers of a stretch of the matches returns it. */
  lemma FetchBack(box: seq<Message>, p: Message -> bool, a: nat, b: nat)
    requires Ascending(box) && a <= b <= |Filter(box, p)|
    ensures Filter(box, InPage(Filter(box, p)[a..b])) == Filter(box, p)[a..b]
  {
    var f := Filter(box, p);
    FilterAscending(box, p);
    FilterIn(box, p);
    StretchBack(f, a, b);
    forall m | m in box && InPage(f[a..b])(m) ensures p(m) {
      PageOf(box, f, a, b, m);
    }
    TwoFilters(box, p, InPage(f[a..b]));
  }

  lemma PageOf(box: seq<Message>, f: seq<Message>, a: nat, b: nat, m: Message)
    requires Ascending(box) && a <= b <= |f| && m in box && m.uid in UidsOf(f[a..b])
    requires forall x :: x in f ==> x in box
    ensures m in f
  {
    var i :| 0 <= i < b - a && UidsOf(f[a..b])[i] == m.uid;
    assert f[a + i].uid == m.uid && f[a + i] in box;
    var j, k :| 0 <= j < |box| && 0 <= k < |box| && box[j] == m && box[k] == f[a + i];
    assert j == k;
  }

  lemma {:induction false} TwoFilters(box: seq<Message>, p: Message -> bool, q: Message -> bool)
    requires forall m :: m in box && q(m) ==> p(m)
    ensures Filter(Filter(box, p), q) == Filter(box, q)
  {
    if box != [] {
      TwoFilters(box[1..], p, q);
      var rest := Filter(box[1..], p);
      assert ([box[0]] + rest)[1..] == rest && [] + rest == rest;
    }
  }

  function WantedBy(hit: Hit, q: Query): Message -> bool { m => Wanted(hit, m, q) }

  lemma {:induction false} FilterSame(box: seq<Message>, p: Message -> bool, q: Message -> bool)
    requires forall m :: m in box ==> p(m) == q(m)
    ensures Filter(box, p) == Filter(box, q)
  {
    if box != [] {
      FilterSame(box[1..], p, q);
    }
  }

  lemma WindowOfUids(ms: seq<Message>, count: int, offset: nat)
    ensures Window(UidsOf(ms), count, offset) == UidsOf(Window(ms, count, offset))
  {
    var end := |ms| - offset;
    if end > 0 && count > 0 {
      var start := if end - count < 0 then 0 else end - count;
      assert UidsOf(ms)[start..end] == UidsOf(ms[start..end]);
    } else {
      assert UidsOf([]) == [];
    }
  }

  lemma SelectedBack(box: seq<Message>, p: Message -> bool, count: int, offset: nat)
    requires Ascending(box)
    ensures var f := Filter(box, p);
            Fetched(box, SelectUids(UidsOf(f), count, offset).nums) == Window(f, count, offset)
  {
    var f := Filter(box, p);
    var w := Window(f, count, offset);
    WindowOfUids(f, count, offset);
    var end := |f| - offset;
    if end > 0 && count > 0 {
      var start := if end - count < 0 then 0 else end - count;
      FetchBack(box, p, start, end);
      assert w == f[start..end];
      FilterSame(box, (m: Message) => m.uid in UidsOf(w), InPage(w));
    } else {
      assert UidsOf([]) == [];
    }
  }

  /** When the server answers, the messages listed are the window of those the query
      wants, whichever way they were fetched. */
  lemma ListingIsWindow(hit: Hit, box: seq<Message>, q: Query, count: int, offset: nat, retry: bool)
    requires Mailbox(box) && (|box| <= MAX_INT32 || count <= MAX_INT32)
    ensures SearchMessages(hit, box, q, count, offset, false, retry) ==
            Some(Window(Filter(box, WantedBy(hit, q)), count, offset))
  {
    if box != [] && count > 0 {
      var crit := SearchCriteria(q);
      forall m ensures crit.Some? ==> (Matches(hit, m, crit.value) <==> Wanted(hit, m, q))
               ensures crit.None? ==> Wanted(hit, m, q) {
        CriteriaMeanQuery(hit, m, q);
      }
      if crit.None? {
        FilterAll(box, WantedBy(hit, q));
      }
      if crit.None? && offset == 0 {
        RecencyIsWindow(box, count);
      } else {
        var c := if crit.None? then Criteria(false, "", []) else crit.value;
        var p := (m: Message) => Matches(hit, m, c);
        FilterSame(box, p, WantedBy(hit, q));
        FilterSame(box, m => Matches(hit, m, c), p);
        SelectedBack(box, p, count, offset);
      }
    }
  }

  lemma {:induction false} WindowIn<T>(xs: seq<T>, count: int, offset: nat)
    ensures forall x :: x in Window(xs, count, offset) ==> x in xs
  {
  }

  lemma SearchBack(hit: Hit, box: seq<Message>, q: Query, count: int, offset: nat)
    requires Ascending(box) && SearchCriteria(q).Some?
    ensures var r := SelectUids(Search(hit, box, SearchCriteria(q).value), count, offset);
            && r.Listed? && Fetched(box, r.nums) == Window(Filter(box, WantedBy(hit, q)), count, offset)
            && r.total == |Filter(box, WantedBy(hit, q))| && !r.degraded
  {
    var c := SearchCriteria(q).value;
    forall m ensures Matches(hit, m, c) <==> Wanted(hit, m, q) {
      CriteriaMeanQuery(hit, m, q);
    }
    var p := (m: Message) => Matches(hit, m, c);
    FilterSame(box, p, WantedBy(hit, q));
    FilterSame(box, m => Matches(hit, m, c), p);
    SelectedBack(box, p, count, offset);
  }

  /** A search is made unless the first page of everything is asked for. */
  predicate Searches(q: Query, offset: nat) { q != NO_QUERY || offset > 0 }

  /** What a listing shows when the server fails the search: a query that may show read
      mail falls back to the newest messages, and says so; an unread-only one is tried once
      more without its repository, and when it has none or that fails too, nothing is shown. */
  lemma FailedSearch(hit: Hit, box: seq<Message>, q: Query, count: int, offset: nat, retry: bool)
    requires Mailbox(box) && box != [] && count > 0 && (|box| <= MAX_INT32 || count <= MAX_INT32) && Searches(q, offset)
    ensures SearchMessages(hit, box, q, count, offset, true, retry) ==
            if !q.unreadOnly then Some(Window(box, count, 0))
            else if q.repo == "" || retry then None
            else Some(Window(Filter(box, WantedBy(hit, q.(repo := ""))), count, offset))
  {
    hide Search, SelectUids, Fetched, Window, RecencySet;
    if !q.unreadOnly {
      RecencyIsWindow(box, count);
    } else if q.repo != "" && !retry {
      SearchBack(hit, box, q.(repo := ""), count, offset);
    }
  }

  /** The total a listing reports counts the messages it pages through, and it is marked
      degraded exactly when a failed search was replaced by the newest messages. */
  lemma TotalsExact(hit: Hit, box: seq<Message>, q: Query, count: int, offset: nat, first: bool, retry: bool)
    requires Mailbox(box)
    ensures var r := ListSet(hit, box, q, count, offset, first, retry);
            && (r.Failed? <==> Searches(q, offset) && first && q.unreadOnly && (q.repo == "" || retry))
            && (r.Listed? ==>
                && (r.degraded <==> Searches(q, offset) && first && !q.unreadOnly)
                && r.total == if r.degraded then |box|
                              else |Filter(box, WantedBy(hit, if first && q.unreadOnly then q.(repo := "") else q))|)
  {
    hide Search, SelectUids, Fetched, Window, RecencySet;
    if !Searches(q, offset) {
      FilterAll(box, WantedBy(hit, q));
    } else if !first {
      TotalSearched(hit, box, q, count, offset, retry);
    } else if q.unreadOnly && q.repo != "" && !retry {
      SearchBack(hit, box, q.(repo := ""), count, offset);
    }
  }

  lemma TotalSearched(hit: Hit, box: seq<Message>, q: Query, count: int, offset: nat, retry: bool)
    requires Ascending(box) && Searches(q, offset)
    ensures var r := ListSet(hit, box, q, count, offset, false, retry);
            r.Listed? && !r.degraded && r.total == |Filter(box, WantedBy(hit, q))|
  {
    if SearchCriteria(q).Some? {
      SearchBack(hit, box, q, count, offset);
    } else {
      FilterAll(box, WantedBy(hit, q));
      FilterAll(box, m => Matches(hit, m, Criteria(false, "", [])));
    }
  }

  /** A search that leaves out the seen messages lists none of them. */
  lemma SearchListsUnread(hit: Hit, box: seq<Message>, c: Criteria, count: int, offset: nat)
    requires Ascending(box) && c.notSeen
    ensures forall m :: m in Fetched(box, SelectUids(Search(hit, box, c), count, offset).nums) ==> m in box && !m.seen
  {
    var p := (m: Message) => Matches(hit, m, c);
    FilterSame(box, m => Matches(hit, m, c), p);
    SelectedBack(box, p, count, offset);
    FilterIn(box, p);
    WindowIn(Filter(box, p), count, offset);
  }

  /** No listing of unread mail, through the search, the retry or any other path, ever
      contains a message that was read. */
  lemma UnreadOnlyStaysUnread(hit: Hit, box: seq<Message>, q: Query, count: int, offset: nat, first: bool, retry: bool)
    requires Mailbox(box) && q.unreadOnly
    ensures var r := SearchMessages(hit, box, q, count, offset, first, retry);
            r.Some? ==> forall m :: m in r.value ==> m in box && !m.seen
  {
    if box != [] && count > 0 && (!first || (q.repo != "" && !retry)) {
      hide Fetched, Search, SelectUids;
      SearchListsUnread(hit, box, SearchCriteria(if first then q.(repo := "") else q).value, count, offset);
    }
  }
}
