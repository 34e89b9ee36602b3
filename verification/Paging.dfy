/** Page arithmetic: the part of a collection that one page shows. */
module Paging {
  import opened Prelude

  predicate ValidParams(page: int, perPage: int, maxPerPage: int) {
    1 <= page && 1 <= perPage <= maxPerPage
  }

  /** Offset and limit of a page of a collection with `total` entries. */
  function GetPagingAttr(total: nat, page: int, perPage: int, maxPerPage: int): Result<(nat, nat)> {
    if !ValidParams(page, perPage, maxPerPage) then Err(BadRequest)
    else if page == 1 then
      if perPage > total then Ok((0, total)) else Ok((0, perPage))
    else if page == total / perPage + 1 then
      FloorBounds(total, perPage);
      Ok((perPage * (page - 1), total - perPage * (page - 1)))
    else if page <= total / perPage && page * perPage <= total then
      var r := page * perPage;
      var l := r - perPage;
      assert l == (page - 1) * perPage >= 0;
      Ok((l, r - l))
    else Ok((0, 0))
  }

  /** Pages start at 1, and a page shows between 1 and `maxPerPage` entries; anything else is refused. */
  lemma RefusedIff(total: nat, page: int, perPage: int, maxPerPage: int)
    ensures GetPagingAttr(total, page, perPage, maxPerPage) == Err(BadRequest) <==>
      page < 1 || perPage < 1 || perPage > maxPerPage
  {
  }

  lemma FloorBounds(total: nat, perPage: int)
    requires 1 <= perPage
    ensures perPage * (total / perPage) <= total < perPage * (total / perPage) + perPage
  {
  }

  lemma Monotone(a: int, b: int, c: nat)
    requires a <= b
    ensures a * c <= b * c
  {
  }

  function Min(a: int, b: int): int { if a < b then a else b }

  /** Where page `page` starts if every earlier page is full, cut off at the end of the collection. */
  function Start(total: nat, page: nat, perPage: nat): (r: nat)
    requires 1 <= page
    ensures r <= total
  {
    Min(total, (page - 1) * perPage)
  }

  /** Every page is the stretch between its own start and the start of the next page; past the last page it is blank. */
  lemma PageIsStretch(total: nat, page: int, perPage: int, maxPerPage: int)
    requires ValidParams(page, perPage, maxPerPage)
    ensures GetPagingAttr(total, page, perPage, maxPerPage).Ok?
    ensures var (offset, limit) := GetPagingAttr(total, page, perPage, maxPerPage).value;
      && offset + limit <= total
      && limit <= perPage
      && limit == Start(total, page + 1, perPage) - Start(total, page, perPage)
      && (limit > 0 ==> offset == Start(total, page, perPage))
      && (limit > 0 <==> (page - 1) * perPage < total)
  {
    FloorBounds(total, perPage);
    Products(total, page, perPage, total / perPage);
  }

  /** Where pages start, around the last full one. */
  lemma Products(total: nat, page: int, perPage: int, q: nat)
    requires 1 <= page && 1 <= perPage && perPage * q <= total < perPage * q + perPage
    ensures perPage * (page - 1) == (page - 1) * perPage == page * perPage - perPage >= 0
    ensures page <= q ==> page * perPage <= total
    ensures page == q + 1 ==> (page - 1) * perPage <= total < page * perPage
    ensures page > q + 1 ==> (page - 1) * perPage > total
  {
    if page <= q {
      Monotone(page, q, perPage);
    } else if page > q + 1 {
      Monotone(q + 1, page - 1, perPage);
    }
  }

  /** The entries of `s` on one page. */
  function PageOf<T>(s: seq<T>, page: int, perPage: int, maxPerPage: int): (r: seq<T>)
    requires ValidParams(page, perPage, maxPerPage)
    ensures |r| <= perPage
  {
    PageIsStretch(|s|, page, perPage, maxPerPage);
    var (offset, limit) := GetPagingAttr(|s|, page, perPage, maxPerPage).value;
    s[offset..offset + limit]
  }

  /** A page shows the entries from the `(page - 1) * perPage`th to before the `page * perPage`th, as far as there are.
      */
  lemma PageShows<T>(s: seq<T>, page: int, perPage: int, maxPerPage: int)
    requires ValidParams(page, perPage, maxPerPage)
    ensures 0 <= Min(|s|, (page - 1) * perPage) <= Min(|s|, page * perPage) <= |s|
    ensures PageOf(s, page, perPage, maxPerPage) == s[Min(|s|, (page - 1) * perPage)..Min(|s|, page * perPage)]
  {
    PageIsStretch(|s|, page, perPage, maxPerPage);
    var (offset, limit) := GetPagingAttr(|s|, page, perPage, maxPerPage).value;
    assert limit == 0 ==> s[offset..offset + limit] == [];
  }

  lemma PageIsSlice<T>(s: seq<T>, page: int, perPage: int, maxPerPage: int, offset: nat, limit: nat)
    requires GetPagingAttr(|s|, page, perPage, maxPerPage) == Ok((offset, limit))
    ensures ValidParams(page, perPage, maxPerPage) && offset + limit <= |s|
    ensures PageOf(s, page, perPage, maxPerPage) == s[offset..offset + limit]
  {
    PageIsStretch(|s|, page, perPage, maxPerPage);
  }

  /** What a scan has seen before it reads page `page`. */
  function Seen<T>(s: seq<T>, page: nat, perPage: nat): seq<T>
    requires 1 <= page
  {
    s[..Start(|s|, page, perPage)]
  }

  /** Reading one page advances the scan by that page, and the page that reaches the total is the last. */
  lemma ScanStep<T>(s: seq<T>, page: nat, perPage: int, maxPerPage: int)
    requires ValidParams(page, perPage, maxPerPage)
    ensures Seen(s, 1, perPage) == []
    ensures Seen(s, page + 1, perPage) == Seen(s, page, perPage) + PageOf(s, page, perPage, maxPerPage)
    ensures page * perPage >= |s| ==> Seen(s, page + 1, perPage) == s
    ensures PageOf(s, page, perPage, maxPerPage) == [] <==> (page - 1) * perPage >= |s|
  {
    PageIsStretch(|s|, page, perPage, maxPerPage);
  }

  function PagesUpTo<T>(s: seq<T>, pages: nat, perPage: int, maxPerPage: int): seq<T>
    requires 1 <= perPage <= maxPerPage
  {
    if pages == 0 then []
    else PagesUpTo(s, pages - 1, perPage, maxPerPage) + PageOf(s, pages, perPage, maxPerPage)
  }

  lemma PagesUpToNext<T>(s: seq<T>, pages: nat, perPage: int, maxPerPage: int)
    requires 1 <= perPage <= maxPerPage && pages > 0
    ensures PagesUpTo(s, pages, perPage, maxPerPage) ==
      PagesUpTo(s, pages - 1, perPage, maxPerPage) + PageOf(s, pages, perPage, maxPerPage)
  {
  }

  /** Pages 1..n put together are the first n * perPage entries: no gap, no repeat, nothing out of order. */
  lemma {:induction false} PagesJoin<T>(s: seq<T>, pages: nat, perPage: int, maxPerPage: int)
    requires 1 <= perPage <= maxPerPage
    ensures PagesUpTo(s, pages, perPage, maxPerPage) == s[..Start(|s|, pages + 1, perPage)]
  {
    if pages == 0 {
      ScanStep(s, 1, perPage, maxPerPage);
    } else {
      PagesJoin(s, pages - 1, perPage, maxPerPage);
      ScanStep(s, pages, perPage, maxPerPage);
    }
  }

  /** The pages 1..total/perPage+1 cover the whole collection, and every later page is blank. */
  lemma PagesPartition<T>(s: seq<T>, pages: nat, perPage: int, maxPerPage: int)
    requires 1 <= perPage <= maxPerPage
    requires pages >= |s| / perPage + 1
    ensures PagesUpTo(s, pages, perPage, maxPerPage) == s
    ensures PageOf(s, pages + 1, perPage, maxPerPage) == []
  {
    FloorBounds(|s|, perPage);
    Monotone(|s| / perPage + 1, pages, perPage);
    PagesJoin(s, pages, perPage, maxPerPage);
    PageIsStretch(|s|, pages + 1, perPage, maxPerPage);
  }

  /** The page of a slice, by the same branches but over the slice itself. */
  function GetPageOfSlice<T>(slice: seq<T>, page: int, perPage: int, maxPerPage: int): Result<seq<T>> {
    if !ValidParams(page, perPage, maxPerPage) then Err(BadRequest)
    else if page == 1 then
      Ok(if perPage > |slice| then slice else slice[..perPage])
    else if page == |slice| / perPage + 1 then
      FloorBounds(|slice|, perPage);
      Ok(slice[perPage * (page - 1)..])
    else if page <= |slice| / perPage && page * perPage <= |slice| then
      var r := page * perPage;
      var l := r - perPage;
      assert l == (page - 1) * perPage >= 0;
      Ok(slice[l..r])
    else Ok([])
  }

  lemma SliceAgrees<T>(slice: seq<T>, page: int, perPage: int, maxPerPage: int)
    ensures GetPageOfSlice(slice, page, perPage, maxPerPage) ==
      if ValidParams(page, perPage, maxPerPage) then Ok(PageOf(slice, page, perPage, maxPerPage)) else Err(BadRequest)
  {
    if ValidParams(page, perPage, maxPerPage) {
      PageIsStretch(|slice|, page, perPage, maxPerPage);
      var (offset, limit) := GetPagingAttr(|slice|, page, perPage, maxPerPage).value;
      assert slice == slice[..|slice|];
      assert offset + limit == |slice| ==> slice[offset..] == slice[offset..offset + limit];
      assert slice[0..0] == [];
    }
  }

  const INT_BITS: nat := 0x1_0000_0000_0000_0000
  const MAX_INT: int := 0x7fff_ffff_ffff_ffff

  /** Two's complement wrap-around of a 64-bit machine int. */
  function Wrap(x: int): int {
    (x + MAX_INT + 1) % INT_BITS - MAX_INT - 1
  }

  /** The same arithmetic as the machine does it: every sum, difference and product wraps. */
  function MachinePagingAttr(total: nat, page: int, perPage: int, maxPerPage: int): Result<(int, int)> {
    if !ValidParams(page, perPage, maxPerPage) then Err(BadRequest)
    else if page == 1 then
      if perPage > total then Ok((0, total)) else Ok((0, perPage))
    else if page == Wrap(total / perPage + 1) then
      var offset := Wrap(perPage * Wrap(page - 1));
      Ok((offset, Wrap(total - offset)))
    else if page <= total / perPage && Wrap(page * perPage) <= total then
      var r := Wrap(page * perPage);
      var l := Wrap(r - perPage);
      Ok((l, Wrap(r - l)))
    else Ok((0, 0))
  }

  /** It stays in the range of a machine int, and differs by a multiple of 2^64. */
  lemma WrapIs(x: int)
    ensures -0x8000_0000_0000_0000 <= Wrap(x) <= 0x7fff_ffff_ffff_ffff
    ensures (x - Wrap(x)) % 0x1_0000_0000_0000_0000 == 0
  {
  }

  lemma WrapSmall(x: int)
    requires -MAX_INT <= x <= MAX_INT
    ensures Wrap(x) == x
  {
  }

  /** No total and no page number that fit a machine int make the result overflow. */
  lemma MachineAgrees(total: nat, page: int, perPage: int, maxPerPage: int)
    requires total <= MAX_INT && page <= MAX_INT && perPage <= MAX_INT
    ensures MachinePagingAttr(total, page, perPage, maxPerPage).Ok? ==
            GetPagingAttr(total, page, perPage, maxPerPage).Ok?
    ensures GetPagingAttr(total, page, perPage, maxPerPage).Ok? ==>
      var (o, l) := GetPagingAttr(total, page, perPage, maxPerPage).value;
      MachinePagingAttr(total, page, perPage, maxPerPage).value == (o as int, l as int)
  {
    if ValidParams(page, perPage, maxPerPage) && page > 1 {
      var q := total / perPage;
      FloorBounds(total, perPage);
      Monotone(1, perPage, q);
      assert 0 <= q <= total;
      ProductsFit(total, page, perPage, q);
      WrapSmall(page - 1);
      if q < MAX_INT {
        WrapSmall(q + 1);
      } else {
        assert Wrap(q + 1) == -MAX_INT - 1;
      }
    }
  }

  /** What the machine multiplies and subtracts stays in range. */
  lemma ProductsFit(total: nat, page: int, perPage: int, q: nat)
    requires total <= MAX_INT && 1 < page && 1 <= perPage <= MAX_INT && perPage * q <= total
    ensures page == q + 1 ==> Wrap(perPage * (page - 1)) == perPage * (page - 1)
    ensures page == q + 1 ==> Wrap(total - perPage * (page - 1)) == total - perPage * (page - 1)
    ensures page <= q ==> Wrap(page * perPage) == page * perPage <= total
    ensures page <= q ==> Wrap(page * perPage - perPage) == page * perPage - perPage
    ensures page <= q ==>
      Wrap(page * perPage - (page * perPage - perPage)) == page * perPage - (page * perPage - perPage)
  {
    if page == q + 1 {
      var offset := perPage * (page - 1);
      assert 0 <= offset <= total;
      WrapSmall(offset);
      WrapSmall(total - offset);
    } else if page <= q {
      Monotone(page, q, perPage);
      var r := page * perPage;
      assert r - perPage == (page - 1) * perPage >= 0;
      WrapSmall(r);
      WrapSmall(r - perPage);
      WrapSmall(r - (r - perPage));
    }
  }
}
