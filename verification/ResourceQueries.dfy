/** The queries over resources: what they compute from the index, and what that is when the index is exact. */
module ResourceQueries {
  import opened Prelude
  import opened Tree
  import opened Devices
  import opened ResourceCatalog
  import Order
  import Paging
  import Query
  import Storage

  // ---- What the queries compute ----

  /** The first resource with the given id. */
  function FirstWith(rs: seq<Resource>, id: string): Option<Resource> {
    if rs == [] then None
    else
      var last := rs[|rs| - 1];
      var first := FirstWith(rs[..|rs| - 1], id);
      if first.None? && last.id == id then Some(last) else first
  }

  /** Every resource with the given id, in order. */
  function AllWith(rs: seq<Resource>, id: string): seq<Resource> {
    if rs == [] then []
    else
      var front := AllWith(rs[..|rs| - 1], id);
      if rs[|rs| - 1].id == id then front + [rs[|rs| - 1]] else front
  }

  function GetResourceSpec(s: State, id: string): Result<Resource> {
    if id !in s.rid || s.rid[id] !in s.store then Err(NotFound)
    else
      var found := FirstWith(s.store[s.rid[id]].resources, id);
      if found.Some? then Ok(found.value) else Err(NotFound)
  }

  /** The resources behind a stretch of the index: one for each entry whose device has it. */
  function Listed(store: map<string, Device>, nodes: seq<Node<string>>): Result<seq<Resource>> {
    if nodes == [] then Ok([])
    else
      var node := nodes[|nodes| - 1];
      var front := Listed(store, nodes[..|nodes| - 1]);
      if front.Err? then front
      else if node.val !in store then Err(NotFound)
      else
        var found := FirstWith(store[node.val].resources, node.key);
        Ok(if found.Some? then front.value + [found.value] else front.value)
  }

  ghost function ListResourcesSpec(s: State, page: int, perPage: int): Result<(seq<Resource>, nat)> {
    if !Paging.ValidParams(page, perPage, Storage.MAX_PER_PAGE) then Err(BadRequest)
    else
      var listed := Listed(s.store, Paging.PageOf(Nodes(s.rid), page, perPage, Storage.MAX_PER_PAGE));
      if listed.Err? then Err(listed.error) else Ok((listed.value, |s.rid|))
  }

  /** A page of the listing shows the resources behind one stretch of the index. */
  lemma ListResourcesIs(s: State, nodes: seq<Node<string>>, page: int, perPage: int, offset: nat, limit: nat)
    requires nodes == Nodes(s.rid) && |nodes| == |s.rid|
    requires Paging.GetPagingAttr(|nodes|, page, perPage, Storage.MAX_PER_PAGE) == Ok((offset, limit))
    requires offset + limit <= |nodes|
    ensures ListResourcesSpec(s, page, perPage) ==
      var listed := Listed(s.store, nodes[offset..offset + limit]);
      if listed.Err? then Err(listed.error) else Ok((listed.value, |nodes|))
  {
    Paging.PageIsSlice(nodes, page, perPage, Storage.MAX_PER_PAGE, offset, limit);
  }

  /** The matching resources behind a stretch of the index. */
  ghost function Filtered(store: map<string, Device>, nodes: seq<Node<string>>, matches: Resource -> Query.Verdict)
    : Result<seq<Resource>>
  {
    if nodes == [] then Ok([])
    else
      var node := nodes[|nodes| - 1];
      var front := Filtered(store, nodes[..|nodes| - 1], matches);
      if front.Err? then front
      else if node.val !in store then Err(NotFound)
      else
        var more := Query.Answer(AllWith(store[node.val].resources, node.key), matches);
        if more.Err? then more else Ok(front.value + more.value)
  }

  ghost function FilterResourcesSpec(s: State, matches: Resource -> Query.Verdict, page: int, perPage: int)
    : Result<(seq<Resource>, nat)>
  {
    var found := Filtered(s.store, Nodes(s.rid), matches);
    if found.Err? then Err(found.error)
    else if !Paging.ValidParams(page, perPage, Storage.MAX_PER_PAGE) then Err(BadRequest)
    else Ok((Paging.PageOf(found.value, page, perPage, Storage.MAX_PER_PAGE), |found.value|))
  }

  /** An error met on the way ends the listing. */
  lemma {:induction false} ListedError(store: map<string, Device>, nodes: seq<Node<string>>, n: nat)
    requires n <= |nodes| && Listed(store, nodes[..n]).Err?
    ensures Listed(store, nodes) == Listed(store, nodes[..n])
    decreases |nodes|
  {
    if n < |nodes| {
      assert nodes[..|nodes| - 1][..n] == nodes[..n];
      ListedError(store, nodes[..|nodes| - 1], n);
    } else {
      assert nodes[..n] == nodes;
    }
  }

  lemma {:induction false} FilteredError(store: map<string, Device>, nodes: seq<Node<string>>,
                                         matches: Resource -> Query.Verdict, n: nat)
    requires n <= |nodes| && Filtered(store, nodes[..n], matches).Err?
    ensures Filtered(store, nodes, matches) == Filtered(store, nodes[..n], matches)
    decreases |nodes|
  {
    if n < |nodes| {
      assert nodes[..|nodes| - 1][..n] == nodes[..n];
      FilteredError(store, nodes[..|nodes| - 1], matches, n);
    } else {
      assert nodes[..n] == nodes;
    }
  }

  // ---- With an exact index ----

  /** In a strictly sorted list the first resource with an id is the only one. */
  lemma {:induction false} OnlyOneWith(rs: seq<Resource>, r: Resource)
    requires StrictById(rs) && r in rs
    ensures FirstWith(rs, r.id) == Some(r) && AllWith(rs, r.id) == [r]
  {
    var front, last := rs[..|rs| - 1], rs[|rs| - 1];
    assert rs == front + [last];
    if r in front {
      var i :| 0 <= i < |front| && front[i] == r;
      Order.Asymmetric(rs[i].id, rs[|rs| - 1].id);
      OnlyOneWith(front, r);
    } else {
      forall x | x in front ensures x.id != r.id {
        var i :| 0 <= i < |front| && front[i] == x;
        Order.Asymmetric(rs[i].id, rs[|rs| - 1].id);
      }
      NoneWith(front, r.id);
    }
  }

  lemma {:induction false} NoneWith(rs: seq<Resource>, id: string)
    requires forall x | x in rs :: x.id != id
    ensures FirstWith(rs, id) == None && AllWith(rs, id) == []
  {
    if rs == [] {
    } else {
      NoneWith(rs[..|rs| - 1], id);
    }
  }

  ghost predicate Stored(store: map<string, Device>, r: Resource) {
    exists did | did in store :: r in store[did].resources
  }

  /** The stored resource that an indexed id stands for. */
  ghost function ResourceAt(store: map<string, Device>, rid: map<string, string>, x: string): (r: Resource)
    requires RidExact(store, rid) && x in rid
    ensures r.id == x && r in store[rid[x]].resources
  {
    assert x in Owns(store)[rid[x]];
    var r :| r in store[rid[x]].resources && r.id == x;
    r
  }

  /** All resources by increasing id. */
  ghost function ResourcesInOrder(store: map<string, Device>, rid: map<string, string>): (rs: seq<Resource>)
    requires RidExact(store, rid)
    ensures |rs| == |rid|
  {
    var ks := Order.SortedSeq(rid.Keys);
    Order.SortedLength(ks, rid.Keys);
    assert forall i | 0 <= i < |ks| :: ks[i] in ks;
    seq(|ks|, i requires 0 <= i < |ks| => ResourceAt(store, rid, ks[i]))
  }

  lemma StoredIsIndexed(store: map<string, Device>, rid: map<string, string>, r: Resource)
    requires RidExact(store, rid) && Stored(store, r)
    ensures r.id in rid && r in store[rid[r.id]].resources && ResourceAt(store, rid, r.id) == r
  {
    var did :| did in store && r in store[did].resources;
    assert r.id in Owns(store)[did];
    OnlyOneWith(store[did].resources, r);
    OnlyOneWith(store[did].resources, ResourceAt(store, rid, r.id));
  }

  /** The listing has every stored resource, nothing else, once each, in strictly increasing order of ids. */
  lemma ListingExact(store: map<string, Device>, rid: map<string, string>)
    requires RidExact(store, rid)
    ensures StrictById(ResourcesInOrder(store, rid))
    ensures forall r :: r in ResourcesInOrder(store, rid) <==> Stored(store, r)
  {
    var ks, all := Order.SortedSeq(rid.Keys), ResourcesInOrder(store, rid);
    Order.SortedLength(ks, rid.Keys);
    assert forall i | 0 <= i < |ks| :: ks[i] in ks && all[i] == ResourceAt(store, rid, ks[i]);
    forall r ensures r in all <==> Stored(store, r) {
      if Stored(store, r) {
        StoredIsIndexed(store, rid, r);
        assert r.id in ks;
        var i :| 0 <= i < |ks| && ks[i] == r.id;
        assert all[i] == r;
      }
    }
  }

  /** A resource is found exactly if some device has it; the exit for a device without it is never taken. */
  lemma GetResourceExact(s: State, id: string)
    requires RidExact(s.store, s.rid)
    ensures GetResourceSpec(s, id) == if id in s.rid then Ok(ResourceAt(s.store, s.rid, id)) else Err(NotFound)
    ensures id in s.rid <==> exists r :: Stored(s.store, r) && r.id == id
  {
    if id in s.rid {
      var r := ResourceAt(s.store, s.rid, id);
      assert id in Owns(s.store)[s.rid[id]];
      OnlyOneWith(s.store[s.rid[id]].resources, r);
      assert Stored(s.store, r);
    }
    if r :| Stored(s.store, r) && r.id == id { StoredIsIndexed(s.store, s.rid, r); }
  }

  ghost predicate Indexes(store: map<string, Device>, rid: map<string, string>, nodes: seq<Node<string>>) {
    forall n | n in nodes :: n.key in rid && rid[n.key] == n.val
  }

  /** The resources of a stretch of the index, one by one. */
  ghost function Resolved(store: map<string, Device>, rid: map<string, string>, nodes: seq<Node<string>>): seq<Resource>
    requires RidExact(store, rid) && Indexes(store, rid, nodes)
  {
    seq(|nodes|, i requires 0 <= i < |nodes| => ResourceAt(store, rid, nodes[i].key))
  }

  /** An entry of an exact index names a stored device that has the resource once. */
  lemma NodeExact(store: map<string, Device>, rid: map<string, string>, node: Node<string>)
    requires RidExact(store, rid) && node.key in rid && rid[node.key] == node.val
    ensures node.val in store
    ensures FirstWith(store[node.val].resources, node.key) == Some(ResourceAt(store, rid, node.key))
    ensures AllWith(store[node.val].resources, node.key) == [ResourceAt(store, rid, node.key)]
  {
    assert node.key in Owns(store)[node.val];
    OnlyOneWith(store[node.val].resources, ResourceAt(store, rid, node.key));
  }

  lemma ResolvedNext(store: map<string, Device>, rid: map<string, string>, front: seq<Node<string>>, node: Node<string>)
    requires RidExact(store, rid) && Indexes(store, rid, front + [node])
    ensures Indexes(store, rid, front) && node.key in rid && rid[node.key] == node.val
    ensures Resolved(store, rid, front + [node]) == Resolved(store, rid, front) + [ResourceAt(store, rid, node.key)]
  {
    assert node in front + [node];
    assert forall n | n in front :: n in front + [node];
  }

  lemma {:induction false} ListedExact(store: map<string, Device>, rid: map<string, string>, nodes: seq<Node<string>>)
    requires RidExact(store, rid) && Indexes(store, rid, nodes)
    ensures Listed(store, nodes) == Ok(Resolved(store, rid, nodes))
  {
    if nodes != [] {
      var front, node := nodes[..|nodes| - 1], nodes[|nodes| - 1];
      assert nodes == front + [node];
      ResolvedNext(store, rid, front, node);
      ListedExact(store, rid, front);
      NodeExact(store, rid, node);
    } else {
      assert Resolved(store, rid, nodes) == [];
    }
  }

  lemma FilteredAppend(store: map<string, Device>, front: seq<Node<string>>, node: Node<string>, r: Resource,
                       matches: Resource -> Query.Verdict)
    requires node.val in store && AllWith(store[node.val].resources, node.key) == [r]
    ensures Filtered(store, front + [node], matches) ==
      var found, more := Filtered(store, front, matches), Query.Answer([r], matches);
      if found.Err? then found else if more.Err? then more else Ok(found.value + more.value)
  {
    assert (front + [node])[..|front|] == front;
  }

  /** One entry of an exact index adds the answer for the one resource it stands for. */
  lemma FilteredNext(store: map<string, Device>, rid: map<string, string>, front: seq<Node<string>>, node: Node<string>,
                     matches: Resource -> Query.Verdict)
    requires RidExact(store, rid) && node.key in rid && rid[node.key] == node.val
    ensures var found, r := Filtered(store, front, matches), ResourceAt(store, rid, node.key);
      Filtered(store, front + [node], matches) ==
      if found.Err? then found else Query.Next(found.value, r, matches(r))
  {
    var found, r := Filtered(store, front, matches), ResourceAt(store, rid, node.key);
    NodeExact(store, rid, node);
    FilteredAppend(store, front, node, r, matches);
    Query.AnswerOne(r, matches);
    assert [] + [r] == [r];
    assert found.Ok? ==> found.value + [] == found.value;
  }

  lemma {:induction false} FilteredExact(store: map<string, Device>, rid: map<string, string>,
                                         nodes: seq<Node<string>>, matches: Resource -> Query.Verdict)
    requires RidExact(store, rid) && Indexes(store, rid, nodes)
    ensures Filtered(store, nodes, matches) == Query.Answer(Resolved(store, rid, nodes), matches)
  {
    if nodes == [] {
      assert Resolved(store, rid, nodes) == [];
    } else {
      var front, node := nodes[..|nodes| - 1], nodes[|nodes| - 1];
      assert nodes == front + [node];
      ResolvedNext(store, rid, front, node);
      FilteredExact(store, rid, front, matches);
      FilteredNext(store, rid, front, node, matches);
      Query.AnswerNext(Resolved(store, rid, front), ResourceAt(store, rid, node.key), matches);
    }
  }

  lemma IndexNodes(store: map<string, Device>, rid: map<string, string>)
    requires RidExact(store, rid)
    ensures Indexes(store, rid, Nodes(rid)) && Resolved(store, rid, Nodes(rid)) == ResourcesInOrder(store, rid)
  {
    var ks := Order.SortedSeq(rid.Keys);
    assert forall i | 0 <= i < |ks| :: ks[i] in ks;
  }

  lemma ResolvedSlice(store: map<string, Device>, rid: map<string, string>, nodes: seq<Node<string>>, lo: nat, hi: nat)
    requires RidExact(store, rid) && Indexes(store, rid, nodes) && lo <= hi <= |nodes|
    ensures Indexes(store, rid, nodes[lo..hi])
    ensures Resolved(store, rid, nodes[lo..hi]) == Resolved(store, rid, nodes)[lo..hi]
  {
    assert forall n | n in nodes[lo..hi] :: n in nodes;
    assert forall i | 0 <= i < hi - lo :: nodes[lo..hi][i] == nodes[lo + i];
  }

  lemma ListedStretch(store: map<string, Device>, rid: map<string, string>, offset: nat, limit: nat)
    requires RidExact(store, rid) && offset + limit <= |rid|
    ensures Listed(store, Nodes(rid)[offset..offset + limit]) ==
      Ok(ResourcesInOrder(store, rid)[offset..offset + limit])
  {
    IndexNodes(store, rid);
    ResolvedSlice(store, rid, Nodes(rid), offset, offset + limit);
    ListedExact(store, rid, Nodes(rid)[offset..offset + limit]);
  }

  /** Every page of the resource listing is that page of all stored resources in id order, filled to its limit. */
  lemma ListResourcesExact(s: State, page: int, perPage: int)
    requires RidExact(s.store, s.rid) && Paging.ValidParams(page, perPage, Storage.MAX_PER_PAGE)
    ensures var all := ResourcesInOrder(s.store, s.rid);
      ListResourcesSpec(s, page, perPage) == Ok((Paging.PageOf(all, page, perPage, Storage.MAX_PER_PAGE), |all|))
  {
    var nodes, all := Nodes(s.rid), ResourcesInOrder(s.store, s.rid);
    IndexNodes(s.store, s.rid);
    Paging.PageIsStretch(|nodes|, page, perPage, Storage.MAX_PER_PAGE);
    var (offset, limit) := Paging.GetPagingAttr(|nodes|, page, perPage, Storage.MAX_PER_PAGE).value;
    Paging.PageIsSlice(nodes, page, perPage, Storage.MAX_PER_PAGE, offset, limit);
    Paging.PageIsSlice(all, page, perPage, Storage.MAX_PER_PAGE, offset, limit);
    ListedStretch(s.store, s.rid, offset, limit);
  }

  /** What a client gets by asking for the pages 1 to `pages` of the listing. */
  ghost function PagesListed(s: State, pages: nat, perPage: int): seq<Resource> {
    if pages == 0 then []
    else
      var page := ListResourcesSpec(s, pages, perPage);
      PagesListed(s, pages - 1, perPage) + (if page.Ok? then page.value.0 else [])
  }

  /** Every page of the listing is that page of `all`. */
  ghost predicate PagesOf(s: State, perPage: int, all: seq<Resource>)
    requires 1 <= perPage <= Storage.MAX_PER_PAGE
  {
    forall page: nat | 1 <= page ::
      ListResourcesSpec(s, page, perPage) == Ok((Paging.PageOf(all, page, perPage, Storage.MAX_PER_PAGE), |all|))
  }

  lemma {:induction false} PagesListedJoin(s: State, pages: nat, perPage: int, all: seq<Resource>)
    requires 1 <= perPage <= Storage.MAX_PER_PAGE && PagesOf(s, perPage, all)
    ensures PagesListed(s, pages, perPage) == Paging.PagesUpTo(all, pages, perPage, Storage.MAX_PER_PAGE)
  {
    if pages == 0 {
    } else {
      PagesListedJoin(s, pages - 1, perPage, all);
      Paging.PagesUpToNext(all, pages, perPage, Storage.MAX_PER_PAGE);
    }
  }

  /** The pages of the listing put together hold every stored resource, nothing else, once each, in strictly increasing
      order of ids. */
  lemma AllPages(s: State, pages: nat, perPage: int)
    requires RidExact(s.store, s.rid) && 1 <= perPage <= Storage.MAX_PER_PAGE && pages >= |s.rid| / perPage + 1
    ensures StrictById(PagesListed(s, pages, perPage))
    ensures forall r :: r in PagesListed(s, pages, perPage) <==> Stored(s.store, r)
  {
    var all := ResourcesInOrder(s.store, s.rid);
    forall page: nat | 1 <= page
      ensures ListResourcesSpec(s, page, perPage) ==
        Ok((Paging.PageOf(all, page, perPage, Storage.MAX_PER_PAGE), |all|))
    {
      ListResourcesExact(s, page, perPage);
    }
    PagesListedJoin(s, pages, perPage, all);
    Paging.PagesPartition(all, pages, perPage, Storage.MAX_PER_PAGE);
    ListingExact(s.store, s.rid);
  }

  /** Filtering through the index is filtering the listing of all stored resources. */
  lemma FilterResourcesExact(s: State, matches: Resource -> Query.Verdict, page: int, perPage: int)
    requires RidExact(s.store, s.rid)
    ensures FilterResourcesSpec(s, matches, page, perPage) ==
      Query.FilterPage(ResourcesInOrder(s.store, s.rid), matches, page, perPage)
  {
    IndexNodes(s.store, s.rid);
    FilteredExact(s.store, s.rid, Nodes(s.rid), matches);
  }
}
