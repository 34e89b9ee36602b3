/** The two storage backends: an in-memory tree and a scan over an ordered key-value store. */
module Storage {
  import opened Prelude
  import opened Tree
  import Order
  import Paging

  const MAX_PER_PAGE := 100

  datatype Backend = Memory | LevelDB

  /** The stored values in increasing key order. */
  ghost function InOrder<V>(store: map<string, V>): (r: seq<V>)
    ensures |r| == |store|
  {
    var ks := Order.SortedSeq(store.Keys);
    Order.SortedLength(ks, store.Keys);
    assert forall i | 0 <= i < |ks| :: ks[i] in ks;
    seq(|ks|, i requires 0 <= i < |ks| => store[ks[i]])
  }

  /** The listing has every stored value, and nothing else. */
  lemma InOrderValues<V>(store: map<string, V>)
    ensures forall v :: v in InOrder(store) <==> exists id | id in store :: store[id] == v
  {
    var ks, all := Order.SortedSeq(store.Keys), InOrder(store);
    Order.SortedLength(ks, store.Keys);
    assert forall i | 0 <= i < |ks| :: ks[i] in ks && all[i] == store[ks[i]];
    forall id | id in store ensures store[id] in all {
      assert id in ks;
      var i :| 0 <= i < |ks| && ks[i] == id;
      assert all[i] == store[id];
    }
  }

  /** If values are stored under a key of their own, it has each of them once. */
  lemma InOrderKeyed<V>(store: map<string, V>, key: V -> string)
    requires forall id | id in store :: key(store[id]) == id
    ensures forall v :: v in InOrder(store) <==> key(v) in store && store[key(v)] == v
    ensures forall i, j | 0 <= i < j < |store| :: key(InOrder(store)[i]) != key(InOrder(store)[j])
  {
    var ks, all := Order.SortedSeq(store.Keys), InOrder(store);
    Order.SortedLength(ks, store.Keys);
    Order.SortedDistinct(ks);
    assert forall i | 0 <= i < |ks| :: ks[i] in ks && all[i] == store[ks[i]];
    InOrderValues(store);
  }

  /** One page of a store, and the total reported with it: an in-memory blank page reports 0. */
  ghost function ListSpec<V>(backend: Backend, store: map<string, V>, page: int, perPage: int): Result<(seq<V>, nat)> {
    if !Paging.ValidParams(page, perPage, MAX_PER_PAGE) then Err(BadRequest)
    else
      var values := Paging.PageOf(InOrder(store), page, perPage, MAX_PER_PAGE);
      Ok((values, if backend == Memory && values == [] then 0 else |store|))
  }

  /** That is: the values on page `page` if all pages before it are full, and the total if there are any. */
  lemma ListShows<V>(backend: Backend, store: map<string, V>, page: int, perPage: int)
    ensures var r, all := ListSpec(backend, store, page, perPage), InOrder(store);
      && (r == Err(BadRequest) <==> page < 1 || perPage < 1 || perPage > 100)
      && (r.Err? ==> r == Err(BadRequest))
      && (r.Ok? ==>
           var from, to := Paging.Min(|all|, (page - 1) * perPage), Paging.Min(|all|, page * perPage);
           && 0 <= from <= to && r.value.0 == all[from..to]
           && r.value.1 == if from == to && backend == Memory then 0 else |store|)
  {
    if Paging.ValidParams(page, perPage, MAX_PER_PAGE) {
      Paging.PageShows(InOrder(store), page, perPage, MAX_PER_PAGE);
    }
  }

  lemma NodesInOrder<V>(items: seq<Node<V>>)
    requires Ordered(items)
    ensures |InOrder(View(items))| == |items| == |View(items)|
    ensures forall i | 0 <= i < |items| :: InOrder(View(items))[i] == items[i].val
  {
    KeysSorted(items);
    forall i | 0 <= i < |items| ensures InOrder(View(items))[i] == items[i].val { ViewAt(items, i); }
  }

  lemma SliceOfNodes<V>(items: seq<Node<V>>, all: seq<V>, offset: nat, limit: nat, values: seq<V>)
    requires |all| == |items| && forall i | 0 <= i < |items| :: all[i] == items[i].val
    requires offset + limit <= |items| && |values| == limit
    requires forall j | 0 <= j < limit :: values[j] == items[offset + j].val
    ensures all[offset..offset + limit] == values
  {
  }

  /** The values of the nodes of one page are what that page of the store shows. */
  lemma PageOfNodes<V>(items: seq<Node<V>>, page: int, perPage: int, offset: nat, limit: nat, values: seq<V>)
    requires Ordered(items)
    requires Paging.GetPagingAttr(|items|, page, perPage, MAX_PER_PAGE) == Ok((offset, limit))
    requires offset + limit <= |items| && |values| == limit
    requires forall j | 0 <= j < limit :: values[j] == items[offset + j].val
    ensures Paging.ValidParams(page, perPage, MAX_PER_PAGE)
    ensures Paging.PageOf(InOrder(View(items)), page, perPage, MAX_PER_PAGE) == values
    ensures |View(items)| == |items|
  {
    NodesInOrder(items);
    SliceOfNodes(items, InOrder(View(items)), offset, limit, values);
    Paging.PageIsSlice(InOrder(View(items)), page, perPage, MAX_PER_PAGE, offset, limit);
  }

  class MemoryStorage<V(0)> {
    const tree: UniqueTree<V>

    ghost predicate Valid() reads this, tree { tree.Valid() }

    ghost function Contents(): map<string, V>
      reads this, tree
    { tree.Contents() }

    constructor ()
      ensures Valid() && Contents() == map[] && fresh(tree)
    { tree := new UniqueTree<V>(); }

    method Add(id: string, v: V) returns (r: Result<()>)
      requires Valid()
      modifies tree
      ensures Valid()
      ensures r == if id in old(Contents()) then Err(Conflict) else Ok(())
      ensures Contents() == if r.Ok? then old(Contents())[id := v] else old(Contents())
    {
      var duplicate := tree.Add(id, v);
      r := if duplicate then Err(Conflict) else Ok(());
    }

    method Get(id: string) returns (r: Result<V>)
      requires Valid()
      ensures r == if id in Contents() then Ok(Contents()[id]) else Err(NotFound)
    {
      var v := tree.Find(id);
      r := if v.Some? then Ok(v.value) else Err(NotFound);
    }

    /** Takes out the value stored under `id` and adds `v` under its own id. */
    method Update(id: string, ownId: string, v: V) returns (r: Result<()>)
      requires Valid()
      modifies tree
      ensures Valid()
      ensures r == if id in old(Contents()) then Ok(()) else Err(NotFound)
      ensures r.Err? ==> Contents() == old(Contents())
      ensures ownId == id ==> Contents() == UpdateSpec(Memory, old(Contents()), id, v).0
      ensures r.Ok? && (ownId == id || ownId !in old(Contents())) ==> Contents() == (old(Contents()) - {id})[ownId := v]
      ensures r.Ok? && ownId != id && ownId in old(Contents()) ==> Contents() == old(Contents()) - {id}
    {
      var found := tree.Remove(id);
      if !found { return Err(NotFound); }
      var _ := tree.Add(ownId, v);
      r := Ok(());
    }

    method Delete(id: string) returns (r: Result<()>)
      requires Valid()
      modifies tree
      ensures Valid()
      ensures r == if id in old(Contents()) then Ok(()) else Err(NotFound)
      ensures Contents() == DeleteSpec(Memory, old(Contents()), id).0 == old(Contents()) - {id}
    {
      var found := tree.Remove(id);
      r := if found then Ok(()) else Err(NotFound);
    }

    method List(page: int, perPage: int) returns (r: Result<(seq<V>, nat)>)
      requires Valid()
      ensures r == ListSpec(Memory, Contents(), page, perPage)
    {
      var total := |tree.items|;
      var attr := Paging.GetPagingAttr(total, page, perPage, MAX_PER_PAGE);
      if attr.Err? { return Err(BadRequest); }
      Paging.PageIsStretch(total, page, perPage, MAX_PER_PAGE);
      var (offset, limit) := attr.value;
      if limit == 0 {
        PageOfNodes(tree.items, page, perPage, offset, limit, []);
        return Ok(([], 0));
      }
      var values := Fill(tree.items, offset, limit);
      PageOfNodes(tree.items, page, perPage, offset, limit, values);
      r := Ok((values, total));
    }

    static method Fill(data: seq<Node<V>>, offset: nat, limit: nat) returns (r: seq<V>)
      requires offset + limit <= |data|
      ensures |r| == limit && forall j | 0 <= j < limit :: r[j] == data[offset + j].val
    {
      var values := new V[limit];
      for i := 0 to limit
        invariant forall j | 0 <= j < i :: values[j] == data[offset + j].val
      {
        values[i] := data[offset + i].val;
      }
      r := values[..];
    }

    /** One round of the page loops: reads page `page`, and tells whether the loop ends there. After a round that does
        not end the loop the next page is not blank, so a total of 0 is only ever reported for an empty store. */
    method ReadPage(page: nat) returns (values: seq<V>, last: bool)
      requires Valid() && 1 <= page && (page == 1 || (page - 1) * MAX_PER_PAGE < |Contents()|)
      ensures Paging.Seen(InOrder(Contents()), page + 1, MAX_PER_PAGE) ==
              Paging.Seen(InOrder(Contents()), page, MAX_PER_PAGE) + values
      ensures Paging.Seen(InOrder(Contents()), page, MAX_PER_PAGE) + values <= InOrder(Contents())
      ensures last ==> Paging.Seen(InOrder(Contents()), page + 1, MAX_PER_PAGE) == InOrder(Contents())
      ensures !last ==> page * MAX_PER_PAGE < |Contents()| && values != []
    {
      var r := List(page, MAX_PER_PAGE);
      Paging.ScanStep(InOrder(Contents()), page, MAX_PER_PAGE, MAX_PER_PAGE);
      values := r.value.0;
      last := page * MAX_PER_PAGE >= r.value.1;
    }

    method Total() returns (r: nat)
      requires Valid()
      ensures r == |Contents()|
    {
      NodesInOrder(tree.items);
      r := |tree.items|;
    }
  }

  /** The key-value store is ordered by the bytes of its keys, which is the order of the strings. */
  class LevelDBStorage<V(0)> {
    const db: UniqueTree<V>

    ghost predicate Valid() reads this, db { db.Valid() }

    ghost function Contents(): map<string, V>
      reads this, db
    { db.Contents() }

    constructor ()
      ensures Valid() && Contents() == map[] && fresh(db)
    { db := new UniqueTree<V>(); }

    /** Stores under the key whether or not it is taken. */
    method Put(id: string, v: V)
      requires Valid()
      modifies db
      ensures Valid() && Contents() == old(Contents())[id := v]
    {
      var _ := db.Remove(id);
      var _ := db.Add(id, v);
    }

    method Add(id: string, v: V) returns (r: Result<()>)
      requires Valid()
      modifies db
      ensures Valid()
      ensures r == if id in old(Contents()) then Err(Conflict) else Ok(())
      ensures Contents() == if r.Ok? then old(Contents())[id := v] else old(Contents())
    {
      var stored := db.Find(id);
      if stored.Some? { return Err(Conflict); }
      Put(id, v);
      r := Ok(());
    }

    method Get(id: string) returns (r: Result<V>)
      requires Valid()
      ensures r == if id in Contents() then Ok(Contents()[id]) else Err(NotFound)
    {
      var v := db.Find(id);
      r := if v.Some? then Ok(v.value) else Err(NotFound);
    }

    /** A put never reports a missing key, so an unknown id is inserted. */
    method Update(id: string, v: V) returns (r: Result<()>)
      requires Valid()
      modifies db
      ensures Valid() && r == Ok(()) && Contents() == UpdateSpec(LevelDB, old(Contents()), id, v).0
    {
      Put(id, v);
      r := Ok(());
    }

    /** A delete never reports a missing key either. */
    method Delete(id: string) returns (r: Result<()>)
      requires Valid()
      modifies db
      ensures Valid() && r == Ok(()) && Contents() == DeleteSpec(LevelDB, old(Contents()), id).0
    {
      var _ := db.Remove(id);
      r := Ok(());
    }

    method List(page: int, perPage: int) returns (r: Result<(seq<V>, nat)>)
      requires Valid()
      ensures r == ListSpec(LevelDB, Contents(), page, perPage)
    {
      var total := Total();
      var attr := Paging.GetPagingAttr(total, page, perPage, MAX_PER_PAGE);
      if attr.Err? { return Err(BadRequest); }
      Paging.PageIsStretch(total, page, perPage, MAX_PER_PAGE);
      var (offset, limit) := attr.value;
      var values := Scan(db.items, offset, limit);
      PageOfNodes(db.items, page, perPage, offset, limit, values);
      r := Ok((values, total));
    }

    /** Walks the whole store from its first key, keeping what falls inside the page. */
    static method Scan(iter: seq<Node<V>>, offset: nat, limit: nat) returns (r: seq<V>)
      requires offset + limit <= |iter|
      ensures |r| == limit && forall j | 0 <= j < limit :: r[j] == iter[offset + j].val
    {
      var values := new V[limit];
      var i := 0;
      while i < |iter|
        invariant i <= |iter| && i <= offset + limit
        invariant forall j | 0 <= j < limit && offset + j < i :: values[j] == iter[offset + j].val
      {
        if offset <= i < offset + limit {
          values[i - offset] := iter[i].val;
        } else if i >= offset + limit {
          break;
        }
        i := i + 1;
      }
      r := values[..];
    }

    /** One round of the page loops over this backend; its total is never 0 by mistake. */
    method ReadPage(page: nat) returns (values: seq<V>, last: bool)
      requires Valid() && 1 <= page && (page == 1 || (page - 1) * MAX_PER_PAGE < |Contents()|)
      ensures Paging.Seen(InOrder(Contents()), page + 1, MAX_PER_PAGE) ==
              Paging.Seen(InOrder(Contents()), page, MAX_PER_PAGE) + values
      ensures Paging.Seen(InOrder(Contents()), page, MAX_PER_PAGE) + values <= InOrder(Contents())
      ensures last ==> Paging.Seen(InOrder(Contents()), page + 1, MAX_PER_PAGE) == InOrder(Contents())
      ensures !last ==> page * MAX_PER_PAGE < |Contents()| && values != []
    {
      var r := List(page, MAX_PER_PAGE);
      Paging.ScanStep(InOrder(Contents()), page, MAX_PER_PAGE, MAX_PER_PAGE);
      values := r.value.0;
      last := page * MAX_PER_PAGE >= r.value.1;
    }

    method Total() returns (c: nat)
      requires Valid()
      ensures c == |Contents()| == |db.items|
    {
      c := 0;
      while c < |db.items|
        invariant c <= |db.items|
      {
        c := c + 1;
      }
      NodesInOrder(db.items);
    }
  }

  /** What the controllers work on: one of the two backends. */
  class CatalogStorage<V(0)> {
    const backend: Backend
    const memory: MemoryStorage?<V>
    const levelDb: LevelDBStorage?<V>
    const tree: UniqueTree<V>

    ghost predicate Valid()
      reads this, tree
    {
      && tree.Valid()
      && (backend == Memory ==> memory != null && memory.tree == tree)
      && (backend == LevelDB ==> levelDb != null && levelDb.db == tree)
    }

    ghost function Contents(): map<string, V>
      reads this, tree
    { tree.Contents() }

    constructor InMemory(m: MemoryStorage<V>)
      requires m.Valid()
      ensures Valid() && backend == Memory && tree == m.tree && Contents() == m.Contents()
    { backend, memory, levelDb, tree := Memory, m, null, m.tree; }

    constructor OnDisk(l: LevelDBStorage<V>)
      requires l.Valid()
      ensures Valid() && backend == LevelDB && tree == l.db && Contents() == l.Contents()
    { backend, memory, levelDb, tree := LevelDB, null, l, l.db; }

    method Add(id: string, v: V) returns (r: Result<()>)
      requires Valid()
      modifies tree
      ensures Valid()
      ensures r == if id in old(Contents()) then Err(Conflict) else Ok(())
      ensures Contents() == if r.Ok? then old(Contents())[id := v] else old(Contents())
      ensures (Contents(), ReplyOf(r)) == Apply(backend, old(Contents()), AddOp(id, v))
    {
      if backend == Memory { r := memory.Add(id, v); } else { r := levelDb.Add(id, v); }
    }

    method Get(id: string) returns (r: Result<V>)
      requires Valid()
      ensures r == if id in Contents() then Ok(Contents()[id]) else Err(NotFound)
      ensures (Contents(), if r.Ok? then Value(r.value) else Failure(r.error)) == Apply(backend, Contents(), GetOp(id))
    {
      if backend == Memory { r := memory.Get(id); } else { r := levelDb.Get(id); }
    }

    /** Replaces a value by one whose own id is `id` too. */
    method Update(id: string, v: V) returns (r: Result<()>)
      requires Valid()
      modifies tree
      ensures Valid() && Contents() == if r.Ok? then old(Contents())[id := v] else old(Contents())
      ensures r == if backend == Memory && id !in old(Contents()) then Err(NotFound) else Ok(())
      ensures (Contents(), ReplyOf(r)) == Apply(backend, old(Contents()), UpdateOp(id, v))
    {
      if backend == Memory { r := memory.Update(id, id, v); } else { r := levelDb.Update(id, v); }
    }

    method Delete(id: string) returns (r: Result<()>)
      requires Valid()
      modifies tree
      ensures Valid() && Contents() == old(Contents()) - {id}
      ensures r == if backend == Memory && id !in old(Contents()) then Err(NotFound) else Ok(())
      ensures (Contents(), ReplyOf(r)) == Apply(backend, old(Contents()), DeleteOp(id))
    {
      if backend == Memory { r := memory.Delete(id); } else { r := levelDb.Delete(id); }
    }

    method List(page: int, perPage: int) returns (r: Result<(seq<V>, nat)>)
      requires Valid()
      ensures r == ListSpec(backend, Contents(), page, perPage)
      ensures (Contents(), if r.Ok? then Page(r.value.0, r.value.1) else Failure(r.error)) ==
        Apply(backend, Contents(), ListOp(page, perPage))
    {
      if backend == Memory { r := memory.List(page, perPage); } else { r := levelDb.List(page, perPage); }
    }

    method Total() returns (r: nat)
      requires Valid()
      ensures r == |Contents()| && (Contents(), Count(r)) == Apply(backend, Contents(), TotalOp)
    {
      if backend == Memory { r := memory.Total(); } else { r := levelDb.Total(); }
    }

    /** One round of the page loops, over either backend. */
    method ReadPage(page: nat) returns (values: seq<V>, last: bool)
      requires Valid() && 1 <= page && (page == 1 || (page - 1) * MAX_PER_PAGE < |Contents()|)
      ensures Paging.Seen(InOrder(Contents()), page + 1, MAX_PER_PAGE) ==
              Paging.Seen(InOrder(Contents()), page, MAX_PER_PAGE) + values
      ensures Paging.Seen(InOrder(Contents()), page, MAX_PER_PAGE) + values <= InOrder(Contents())
      ensures last ==> Paging.Seen(InOrder(Contents()), page + 1, MAX_PER_PAGE) == InOrder(Contents())
      ensures !last ==> page * MAX_PER_PAGE < |Contents()| && values != []
    {
      if backend == Memory { values, last := memory.ReadPage(page); } else { values, last := levelDb.ReadPage(page); }
    }
  }

  // ---- The two backends compared ----

  datatype StoreOp<+V> =
    | AddOp(id: string, v: V)
    | UpdateOp(id: string, v: V)  // of a value whose own id is `id`
    | DeleteOp(id: string)
    | GetOp(id: string)
    | ListOp(page: int, perPage: int)
    | TotalOp

  datatype Reply<+V> = Done | Value(v: V) | Page(values: seq<V>, total: nat) | Count(n: nat) | Failure(error: Error)

  function ReplyOf<V>(r: Result<()>): Reply<V> { if r.Ok? then Done else Failure(r.error) }

  ghost function Apply<V>(backend: Backend, store: map<string, V>, op: StoreOp<V>): (map<string, V>, Reply<V>) {
    match op
    case AddOp(id, v) => if id in store then (store, Failure(Conflict)) else (store[id := v], Done)
    case UpdateOp(id, v) => UpdateSpec(backend, store, id, v)
    case DeleteOp(id) => DeleteSpec(backend, store, id)
    case GetOp(id) => (store, if id in store then Value(store[id]) else Failure(NotFound))
    case ListOp(page, perPage) =>
      var r := ListSpec(backend, store, page, perPage);
      (store, if r.Ok? then Page(r.value.0, r.value.1) else Failure(r.error))
    case TotalOp => (store, Count(|store|))
  }

  /** Only the in-memory tree notices a missing key. */
  ghost function UpdateSpec<V>(backend: Backend, store: map<string, V>, id: string, v: V): (map<string, V>, Reply<V>) {
    if backend == Memory && id !in store then (store, Failure(NotFound)) else (store[id := v], Done)
  }

  ghost function DeleteSpec<V>(backend: Backend, store: map<string, V>, id: string): (map<string, V>, Reply<V>) {
    if backend == Memory && id !in store then (store, Failure(NotFound)) else (store - {id}, Done)
  }

  ghost function Run<V>(backend: Backend, store: map<string, V>, ops: seq<StoreOp<V>>): map<string, V> {
    if ops == [] then store
    else Apply(backend, Run(backend, store, ops[..|ops| - 1]), ops[|ops| - 1]).0
  }

  /** The operation writes a key that is there, or does not replace or remove anything. */
  ghost predicate KeyPresent<V>(store: map<string, V>, op: StoreOp<V>) {
    op.UpdateOp? || op.DeleteOp? ==> op.id in store
  }

  /** A page with nothing on it, of a store that is not empty. */
  ghost predicate BlankPage<V>(store: map<string, V>, op: StoreOp<V>) {
    && op.ListOp? && |store| > 0
    && Paging.ValidParams(op.page, op.perPage, MAX_PER_PAGE)
    && Paging.PageOf(InOrder(store), op.page, op.perPage, MAX_PER_PAGE) == []
  }

  /** On one store the backends do and answer the same if and only if the key is there and the page is not blank. */
  lemma AgreeIff<V>(store: map<string, V>, op: StoreOp<V>)
    ensures Apply(Memory, store, op) == Apply(LevelDB, store, op) <==> KeyPresent(store, op) && !BlankPage(store, op)
  {
  }

  /** On a blank page both still show nothing; only the totals differ. */
  lemma BlankPagesDiffer<V>(store: map<string, V>, op: StoreOp<V>)
    requires BlankPage(store, op)
    ensures Apply(Memory, store, op) == (store, Page([], 0)) && Apply(LevelDB, store, op) == (store, Page([], |store|))
  {
  }

  ghost predicate KeysPresent<V>(store: map<string, V>, ops: seq<StoreOp<V>>) {
    forall n | 0 <= n < |ops| :: KeyPresent(Run(Memory, store, ops[..n]), ops[n])
  }

  lemma StepAgrees<V>(store: map<string, V>, op: StoreOp<V>)
    requires KeyPresent(store, op)
    ensures Apply(Memory, store, op).0 == Apply(LevelDB, store, op).0
  {
  }

  lemma {:induction false} RunsAgree<V>(store: map<string, V>, ops: seq<StoreOp<V>>)
    requires KeysPresent(store, ops)
    ensures Run(Memory, store, ops) == Run(LevelDB, store, ops)
    decreases |ops|
  {
    if ops == [] {
    } else {
      var front, last := ops[..|ops| - 1], ops[|ops| - 1];
      assert forall n | 0 <= n < |front| :: front[..n] == ops[..n];
      RunsAgree(store, front);
      StepAgrees(Run(Memory, store, front), last);
    }
  }

  /** Over every run that updates and deletes existing keys only, as the controllers do, the backends hold the same
      association, and they do and answer whatever comes next alike if and only if it writes a key that is there and is
      not a blank page. */
  lemma BackendsAgree<V>(store: map<string, V>, ops: seq<StoreOp<V>>, next: StoreOp<V>)
    requires KeysPresent(store, ops)
    ensures var memory, levelDb := Run(Memory, store, ops), Run(LevelDB, store, ops);
      && memory == levelDb
      && (Apply(LevelDB, levelDb, next) == Apply(Memory, memory, next) <==>
          KeyPresent(memory, next) && !BlankPage(memory, next))
  {
    RunsAgree(store, ops);
    AgreeIff(Run(Memory, store, ops), next);
  }
}
