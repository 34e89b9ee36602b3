/** Filtered, paged views: the specification, and the scan over a storage that computes one page at a time. */
module Query {
  import opened Prelude
  import Paging
  import Storage

  /** A matcher answers yes or no, reports an error, or panics. */
  datatype Verdict = Match | NoMatch | Unmatchable | Panics

  predicate Answered(v: Verdict) { v == Match || v == NoMatch }

  /** The items that match, in order. */
  function Matching<W>(items: seq<W>, matches: W -> Verdict): seq<W> {
    if items == [] then []
    else
      var last := items[|items| - 1];
      var front := Matching(items[..|items| - 1], matches);
      if matches(last) == Match then front + [last] else front
  }

  /** Every item that matches is there, as often as before, and no other. */
  lemma {:induction false} MatchingCounts<W>(items: seq<W>, matches: W -> Verdict, w: W)
    ensures multiset(Matching(items, matches))[w] == if matches(w) == Match then multiset(items)[w] else 0
  {
    if items == [] {
    } else {
      MatchingCounts(items[..|items| - 1], matches, w);
      assert items == items[..|items| - 1] + [items[|items| - 1]];
    }
  }

  /** And they are in the order of the items. */
  lemma {:induction false} MatchingSplits<W>(a: seq<W>, b: seq<W>, matches: W -> Verdict)
    ensures Matching(a + b, matches) == Matching(a, matches) + Matching(b, matches)
    decreases |b|
  {
    if b == [] {
      assert a + b == a;
    } else {
      var front := b[..|b| - 1];
      MatchingSplits(a, front, matches);
      assert (a + b)[..|a + b| - 1] == a + front;
    }
  }

  /** What the next item makes of the matches found so far. */
  function Next<W>(found: seq<W>, w: W, v: Verdict): Result<seq<W>> {
    match v
    case Match => Ok(found + [w])
    case NoMatch => Ok(found)
    case Unmatchable => Err(MatchError)
    case Panics => Err(Panicked)
  }

  /** The matches, item by item; the first item that cannot be matched ends it. */
  function Answer<W>(items: seq<W>, matches: W -> Verdict): Result<seq<W>> {
    if items == [] then Ok([])
    else
      var last := items[|items| - 1];
      var front := Answer(items[..|items| - 1], matches);
      if front.Err? then front else Next(front.value, last, matches(last))
  }

  /** The first item without an answer is item `k`, and gives `v`. */
  ghost predicate FirstFault<W>(items: seq<W>, matches: W -> Verdict, k: nat, v: Verdict) {
    k < |items| && matches(items[k]) == v && !Answered(v) && forall j | 0 <= j < k :: Answered(matches(items[j]))
  }

  /** There is an answer exactly if every item has one, and then it is the items that match; an error or a panic comes
      out exactly if the first item without an answer gives it. */
  lemma {:induction false} AnswerIff<W>(items: seq<W>, matches: W -> Verdict)
    ensures Answer(items, matches).Ok? <==> forall w | w in items :: Answered(matches(w))
    ensures Answer(items, matches).Ok? ==> Answer(items, matches) == Ok(Matching(items, matches))
    ensures Answer(items, matches) == Err(Panicked) <==> exists k: nat :: FirstFault(items, matches, k, Panics)
    ensures Answer(items, matches) == Err(MatchError) <==> exists k: nat :: FirstFault(items, matches, k, Unmatchable)
    ensures Answer(items, matches).Err? ==> Answer(items, matches).error in {MatchError, Panicked}
  {
    if items == [] {
    } else {
      var n := |items| - 1;
      var front := items[..n];
      AnswerIff(front, matches);
      assert items == front + [items[n]];
      assert forall j | 0 <= j < n :: front[j] == items[j] && front[j] in front;
      FaultFront(items, matches, Panics);
      FaultFront(items, matches, Unmatchable);
    }
  }

  lemma FaultFront<W>(items: seq<W>, matches: W -> Verdict, v: Verdict)
    requires items != [] && !Answered(v)
    ensures var n := |items| - 1;
      (exists k: nat :: FirstFault(items, matches, k, v)) <==>
      (exists k: nat :: FirstFault(items[..n], matches, k, v)) || FirstFault(items, matches, n, v)
  {
    var n := |items| - 1;
    if k: nat :| FirstFault(items, matches, k, v) {
      assert k < n ==> FirstFault(items[..n], matches, k, v);
    }
    if k: nat :| FirstFault(items[..n], matches, k, v) {
      assert FirstFault(items, matches, k, v);
    }
  }

  /** The naive filter: match everything, then cut out the page; the total is the number of matches. */
  ghost function FilterPage<W>(items: seq<W>, matches: W -> Verdict, page: int, perPage: int): Result<(seq<W>, nat)> {
    var found := Answer(items, matches);
    if found.Err? then Err(found.error)
    else if !Paging.ValidParams(page, perPage, Storage.MAX_PER_PAGE) then Err(BadRequest)
    else Ok((Paging.PageOf(found.value, page, perPage, Storage.MAX_PER_PAGE), |found.value|))
  }

  /** A filter answers exactly if every item has an answer and the page parameters are allowed, and then it shows that
      page of the items that match, with their number as total; a fault is reported before bad parameters. */
  lemma FilterPageShows<W>(items: seq<W>, matches: W -> Verdict, page: int, perPage: int)
    ensures var r, all := FilterPage(items, matches, page, perPage), Matching(items, matches);
      && (r.Ok? <==> (forall w | w in items :: Answered(matches(w))) && 1 <= page && 1 <= perPage <= 100)
      && (r == Err(BadRequest) <==>
           (forall w | w in items :: Answered(matches(w))) && !(1 <= page && 1 <= perPage <= 100))
      && (r.Ok? ==> r.value.1 == |all| && Shown(r.value.0, all, page, perPage))
  {
    AnswerIff(items, matches);
    if Paging.ValidParams(page, perPage, Storage.MAX_PER_PAGE) {
      Paging.PageShows(Matching(items, matches), page, perPage, Storage.MAX_PER_PAGE);
    }
  }

  /** The entries on page `page`, if all pages before it are full. */
  ghost predicate Shown<W>(shown: seq<W>, all: seq<W>, page: int, perPage: int) {
    var from, to := Paging.Min(|all|, (page - 1) * perPage), Paging.Min(|all|, page * perPage);
    0 <= from <= to && shown == all[from..to]
  }

  /** A filter panics exactly if its scan meets an item that makes the matcher panic before any other fault. */
  lemma FilterPanicsIff<W>(items: seq<W>, matches: W -> Verdict, page: int, perPage: int)
    ensures FilterPage(items, matches, page, perPage) == Err(Panicked) <==>
      exists k: nat :: FirstFault(items, matches, k, Panics)
  {
    AnswerIff(items, matches);
  }

  function Project<V, W>(values: seq<V>, proj: V -> W): (out: seq<W>)
    ensures |out| == |values|
  {
    seq(|values|, i requires 0 <= i < |values| => proj(values[i]))
  }

  lemma AnswerNext<W>(done: seq<W>, w: W, matches: W -> Verdict)
    ensures Answer(done + [w], matches) ==
      if Answer(done, matches).Err? then Answer(done, matches) else Next(Answer(done, matches).value, w, matches(w))
  {
    assert (done + [w])[..|done|] == done;
  }

  lemma AnswerOne<W>(w: W, matches: W -> Verdict)
    ensures Answer([w], matches) == Next([], w, matches(w))
  {
    AnswerNext([], w, matches);
    assert [] + [w] == [w];
  }

  /** A fault met on the way decides the answer. */
  lemma {:induction false} FaultStays<W>(items: seq<W>, n: nat, matches: W -> Verdict)
    requires n <= |items| && Answer(items[..n], matches).Err?
    ensures Answer(items, matches) == Answer(items[..n], matches)
    decreases |items|
  {
    if n == |items| {
      assert items[..n] == items;
    } else {
      assert items[..|items| - 1][..n] == items[..n];
      FaultStays(items[..|items| - 1], n, matches);
    }
  }

  /** Cuts the requested page out of the matches found. */
  method CutPage<W>(found: seq<W>, page: int, perPage: int) returns (r: Result<(seq<W>, nat)>)
    ensures r == if !Paging.ValidParams(page, perPage, Storage.MAX_PER_PAGE) then Err(BadRequest)
      else Ok((Paging.PageOf(found, page, perPage, Storage.MAX_PER_PAGE), |found|))
  {
    var attr := Paging.GetPagingAttr(|found|, page, perPage, Storage.MAX_PER_PAGE);
    if attr.Err? { return Err(BadRequest); }
    Paging.PageIsStretch(|found|, page, perPage, Storage.MAX_PER_PAGE);
    var (offset, limit) := attr.value;
    r := Ok((found[offset..offset + limit], |found|));
  }

  /** The answer for the first `n` items. */
  function AnswerTo<W>(items: seq<W>, n: nat, matches: W -> Verdict): Result<seq<W>>
    requires n <= |items|
  {
    if n == 0 then Ok([])
    else
      var front := AnswerTo(items, n - 1, matches);
      if front.Err? then front else Next(front.value, items[n - 1], matches(items[n - 1]))
  }

  lemma {:induction false} AnswerToIs<W>(items: seq<W>, n: nat, matches: W -> Verdict)
    requires n <= |items|
    ensures AnswerTo(items, n, matches) == Answer(items[..n], matches)
  {
    if n == 0 {
      assert items[..0] == [];
    } else {
      AnswerToIs(items, n - 1, matches);
      assert items[..n][..n - 1] == items[..n - 1];
    }
  }

  lemma {:induction false} FaultLasts<W>(items: seq<W>, n: nat, m: nat, matches: W -> Verdict)
    requires n <= m <= |items| && AnswerTo(items, n, matches).Err?
    ensures AnswerTo(items, m, matches) == AnswerTo(items, n, matches)
  {
    if n == m {
    } else {
      FaultLasts(items, n, m - 1, matches);
    }
  }

  /** Matches the items of one storage page, which come after `n` others. */
  method MatchAll<V, W>(values: seq<V>, proj: V -> W, matches: W -> Verdict, ghost items: seq<W>, ghost n: nat,
                        ghost m: nat, sofar: seq<W>)
    returns (r: Result<seq<W>>)
    requires n + |values| == m <= |items| && forall i | 0 <= i < |values| :: proj(values[i]) == items[n + i]
    requires AnswerTo(items, n, matches) == Ok(sofar)
    ensures r.Ok? ==> AnswerTo(items, m, matches) == r
    ensures r.Err? ==> AnswerTo(items, |items|, matches) == r
  {
    var found := sofar;
    for i := 0 to |values|
      invariant AnswerTo(items, n + i, matches) == Ok(found)
    {
      var w := proj(values[i]);
      assert w == items[n + i];
      var next := Next(found, w, matches(w));
      if next.Err? {
        FaultLasts(items, n + i + 1, |items|, matches);
        return next;
      }
      found := next.value;
    }
    r := Ok(found);
  }

  /** How many items a scan has read before page `p`. */
  function ReadBefore(total: nat, p: nat): (n: nat)
    requires 1 <= p
    ensures n <= total
  {
    Paging.Start(total, p, Storage.MAX_PER_PAGE)
  }

  /** The items of page `p` come next after those of the pages before it. */
  lemma PageComesNext<V, W>(all: seq<V>, p: nat, values: seq<V>, proj: V -> W, items: seq<W>)
    requires 1 <= p && items == Project(all, proj)
    requires Paging.Seen(all, p + 1, Storage.MAX_PER_PAGE) == Paging.Seen(all, p, Storage.MAX_PER_PAGE) + values
    ensures var n := ReadBefore(|items|, p);
      ReadBefore(|items|, p + 1) == n + |values| <= |items| &&
      forall i | 0 <= i < |values| :: proj(values[i]) == items[n + i]
  {
    var n, seen := ReadBefore(|items|, p), Paging.Seen(all, p + 1, Storage.MAX_PER_PAGE);
    assert seen == all[..ReadBefore(|items|, p + 1)] && |Paging.Seen(all, p, Storage.MAX_PER_PAGE)| == n;
    forall i | 0 <= i < |values| ensures proj(values[i]) == items[n + i] {
      assert seen[n + i] == values[i] == all[n + i];
    }
  }

  /** Reads page `p`, whose items are those from `n` up to `m`. */
  method ReadItems<V(0), W>(storage: Storage.CatalogStorage<V>, proj: V -> W, p: nat, ghost items: seq<W>, ghost n: nat)
    returns (values: seq<V>, last: bool, ghost m: nat)
    requires storage.Valid() && items == Project(Storage.InOrder(storage.Contents()), proj)
    requires 1 <= p && (p == 1 || (p - 1) * Storage.MAX_PER_PAGE < |items|) && n == ReadBefore(|items|, p)
    ensures m == ReadBefore(|items|, p + 1) == n + |values|
    ensures forall i | 0 <= i < |values| :: proj(values[i]) == items[n + i]
    ensures if last then m == |items| else p * Storage.MAX_PER_PAGE < |items| && n < m
  {
    ghost var all := Storage.InOrder(storage.Contents());
    assert |all| == |items| == |storage.Contents()|;
    values, last := storage.ReadPage(p);
    PageComesNext(all, p, values, proj, items);
    ScanEnds(all, p);
    m := ReadBefore(|items|, p + 1);
  }

  lemma ScanEnds<V>(all: seq<V>, p: nat)
    requires 1 <= p
    ensures Paging.Seen(all, p + 1, Storage.MAX_PER_PAGE) == all ==> ReadBefore(|all|, p + 1) == |all|
    ensures p * Storage.MAX_PER_PAGE < |all| ==> ReadBefore(|all|, p) < ReadBefore(|all|, p + 1)
  {
  }

  /** Reads page after page until the storage is exhausted. */
  method ScanAll<V(0), W>(storage: Storage.CatalogStorage<V>, proj: V -> W, matches: W -> Verdict, ghost items: seq<W>)
    returns (r: Result<seq<W>>)
    requires storage.Valid() && items == Project(Storage.InOrder(storage.Contents()), proj)
    ensures r == AnswerTo(items, |items|, matches)
  {
    var found: seq<W> := [];
    var p := 1;
    ghost var n := 0;
    while true
      invariant 1 <= p && (p == 1 || (p - 1) * Storage.MAX_PER_PAGE < |items|) && n == ReadBefore(|items|, p)
      invariant AnswerTo(items, n, matches) == Ok(found)
      decreases |items| - n
    {
      var values, last;
      ghost var m;
      values, last, m := ReadItems(storage, proj, p, items, n);
      var more := MatchAll(values, proj, matches, items, n, m, found);
      if more.Err? || last { return more; }
      found := more.value;
      n := m;
      p := p + 1;
    }
  }

  /** Matches everything that is stored, then pages the matches. */
  method ScanFilter<V(0), W>(storage: Storage.CatalogStorage<V>, proj: V -> W, matches: W -> Verdict,
                             page: int, perPage: int)
    returns (r: Result<(seq<W>, nat)>)
    requires storage.Valid()
    ensures r == FilterPage(Project(Storage.InOrder(storage.Contents()), proj), matches, page, perPage)
  {
    ghost var items := Project(Storage.InOrder(storage.Contents()), proj);
    var found := ScanAll(storage, proj, matches, items);
    AnswerToIs(items, |items|, matches);
    assert items[..|items|] == items;
    if found.Err? { return Err(found.error); }
    r := CutPage(found.value, page, perPage);
  }
}
