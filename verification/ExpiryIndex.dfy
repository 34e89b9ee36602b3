/** The expiry index of a controller: the operations on the time tree that add, remove and sweep use. */
module ExpiryIndex {
  import opened Prelude
  import opened Tree
  import Expiry

  function SetOf(items: seq<Entry>): set<Entry> { set e | e in items }

  /** At most one entry for each registration. */
  ghost predicate DistinctIds(items: seq<Entry>) {
    forall i, j | 0 <= i < j < |items| :: items[i].id != items[j].id
  }

  ghost predicate Lacks(items: seq<Entry>, id: string) {
    forall e | e in items :: e.id != id
  }

  lemma InsertedDistinct(left: seq<Entry>, right: seq<Entry>, e: Entry)
    requires DistinctIds(left + right) && Lacks(left + right, e.id)
    ensures DistinctIds(left + [e] + right)
  {
    var items, out := left + right, left + [e] + right;
    forall a, b | 0 <= a < b < |out| ensures out[a].id != out[b].id {
      if a == |left| {
        assert out[b] == items[b - 1] && items[b - 1] in items;
      } else if b == |left| {
        assert out[a] == items[a] && items[a] in items;
      } else {
        var i, j := if a < |left| then a else a - 1, if b < |left| then b else b - 1;
        assert out[a] == items[i] && out[b] == items[j];
      }
    }
  }

  lemma Inserted(items: seq<Entry>, i: nat, e: Entry)
    requires DistinctIds(items) && Lacks(items, e.id) && i <= |items|
    ensures DistinctIds(items[..i] + [e] + items[i..])
    ensures SetOf(items[..i] + [e] + items[i..]) == SetOf(items) + {e}
  {
    assert items == items[..i] + items[i..];
    InsertedDistinct(items[..i], items[i..], e);
  }

  lemma Removed(items: seq<Entry>, i: nat)
    requires DistinctIds(items) && i < |items|
    ensures DistinctIds(items[..i] + items[i + 1..])
    ensures SetOf(items[..i] + items[i + 1..]) == SetOf(items) - {items[i]}
    ensures Lacks(items[..i] + items[i + 1..], items[i].id)
  {
    assert items == items[..i] + [items[i]] + items[i + 1..];
  }

  method AddEntry(tree: TimeTree, e: Entry)
    requires tree.Valid() && DistinctIds(tree.items) && Lacks(tree.items, e.id)
    modifies tree
    ensures tree.Valid() && DistinctIds(tree.items)
    ensures SetOf(tree.items) == SetOf(old(tree.items)) + {e}
  {
    ghost var before := tree.items;
    tree.Add(e);
    ghost var i :| 0 <= i <= |before| && tree.items == before[..i] + [e] + before[i..];
    Inserted(before, i, e);
  }

  method RemoveOne(tree: TimeTree, time: int) returns (r: Option<Entry>)
    requires tree.Valid() && DistinctIds(tree.items)
    modifies tree
    ensures tree.Valid() && DistinctIds(tree.items)
    ensures r.None? ==> tree.items == old(tree.items) && forall e | e in tree.items :: e.time != time
    ensures r.Some? ==> r.value in old(tree.items) && r.value.time == time && |tree.items| < |old(tree.items)|
    ensures r.Some? ==> forall e :: e in tree.items <==> e in old(tree.items) && e.id != r.value.id
  {
    ghost var before := tree.items;
    r := tree.Remove(time);
    if r.Some? {
      ghost var i :| 0 <= i < |before| && before[i] == r.value && tree.items == before[..i] + before[i + 1..];
      Removed(before, i);
      forall e ensures e in tree.items <==> e in before && e.id != r.value.id {
        assert e in tree.items <==> e in SetOf(tree.items);
        if e in before && e.id == r.value.id { SameId(before, e, r.value); }
      }
    }
  }

  lemma SameId(items: seq<Entry>, e: Entry, f: Entry)
    requires DistinctIds(items) && e in items && f in items && e.id == f.id
    ensures e == f
  {
    var i :| 0 <= i < |items| && items[i] == e;
    var j :| 0 <= j < |items| && items[j] == f;
  }

  /** The first entry of a registration in the iteration order. */
  method FindEntry(snapshot: seq<Entry>, id: string) returns (r: Option<Entry>)
    ensures r.None? <==> Lacks(snapshot, id)
    ensures r.Some? ==> r.value in snapshot && r.value.id == id
  {
    for n := 0 to |snapshot|
      invariant forall i | 0 <= i < n :: snapshot[i].id != id
    {
      if snapshot[n].id == id { return Some(snapshot[n]); }
    }
    r := None;
  }

  method PutBack(tree: TimeTree, temp: seq<Entry>)
    requires tree.Valid() && DistinctIds(tree.items) && DistinctIds(temp)
    requires forall e | e in temp :: Lacks(tree.items, e.id)
    modifies tree
    ensures tree.Valid() && DistinctIds(tree.items)
    ensures SetOf(tree.items) == SetOf(old(tree.items)) + SetOf(temp)
  {
    for k := 0 to |temp|
      invariant tree.Valid() && DistinctIds(tree.items)
      invariant forall i | k <= i < |temp| :: Lacks(tree.items, temp[i].id)
      invariant SetOf(tree.items) == SetOf(old(tree.items)) + SetOf(temp[..k])
    {
      assert temp[..k + 1] == temp[..k] + [temp[k]];
      AddEntry(tree, temp[k]);
      assert forall e | e in tree.items :: e in SetOf(tree.items);
    }
    assert temp[..|temp|] == temp;
  }

  /** The expiry part of the index removal as the code has it: the inner test looks at the entry the search stopped
      at, whose id is the target's, so nothing is ever kept for putting back. */
  method RemoveLiteral(tree: TimeTree, id: string)
    requires tree.Valid() && DistinctIds(tree.items)
    modifies tree
    ensures tree.Valid() && DistinctIds(tree.items)
    ensures SetOf(tree.items) == Expiry.Drop(Expiry.Literal, SetOf(old(tree.items)), id)
  {
    ghost var before := tree.items;
    var temp: seq<Entry> := [];
    var found := FindEntry(tree.items, id);
    if found.Some? {
      var m := found.value;
      while true
        invariant tree.Valid() && DistinctIds(tree.items) && temp == []
        invariant forall e | e in tree.items :: e in before
        invariant forall e | e in before && e.time != m.time :: e in tree.items
        decreases |tree.items|
      {
        var r := RemoveOne(tree, m.time);
        if r.None? { break; }
        var removed := r.value;
        forall e | e in before && e.id == removed.id ensures e.time == m.time { SameId(before, e, removed); }
        if m.id != id { temp := temp + [removed]; }
      }
      forall f | f in before && f.id == id ensures f == m { SameId(before, f, m); }
      assert m in SetOf(before);
    }
    PutBack(tree, temp);
  }

  /** The removal that the comment describes: entries of other registrations with the same time are put back. */
  method RemoveIntended(tree: TimeTree, id: string)
    requires tree.Valid() && DistinctIds(tree.items)
    modifies tree
    ensures tree.Valid() && DistinctIds(tree.items)
    ensures SetOf(tree.items) == Expiry.Drop(Expiry.Intended, SetOf(old(tree.items)), id)
  {
    ghost var before := tree.items;
    var temp: seq<Entry> := [];
    var found := FindEntry(tree.items, id);
    if found.Some? {
      var m := found.value;
      while true
        invariant tree.Valid() && DistinctIds(tree.items) && DistinctIds(temp)
        invariant forall e | e in tree.items :: Lacks(temp, e.id) && e in before
        invariant forall e | e in temp :: e in before && e.id != id
        invariant forall e | e in before && e.id != id :: e in tree.items || e in temp
        decreases |tree.items|
      {
        var r := RemoveOne(tree, m.time);
        if r.None? { break; }
        forall e | e in before && e.id == r.value.id ensures e == r.value { SameId(before, e, r.value); }
        if r.value.id != id { temp := temp + [r.value]; }
      }
      forall f | f in before && f.id == id ensures f == m { SameId(before, f, m); }
    }
    PutBack(tree, temp);
  }

  /** The due prefix of the index; because the index is in time order, nothing due comes after it. */
  method CollectExpired(tree: TimeTree, t: int) returns (expired: seq<Entry>)
    requires tree.Valid()
    ensures expired <= tree.items
    ensures forall e | e in tree.items :: e in expired <==> e.time <= t
  {
    expired := [];
    for i := 0 to |tree.items|
      invariant expired == tree.items[..i] && forall j | 0 <= j < i :: tree.items[j].time <= t
    {
      if tree.items[i].time > t { break; }
      expired := expired + [tree.items[i]];
    }
  }

  function IdsOf(entries: seq<Entry>): set<string> { set e | e in entries :: e.id }

  /** The next entry of a due list names a registration that the list has not named before. */
  lemma NextDue(items: seq<Entry>, expired: seq<Entry>, n: nat)
    requires DistinctIds(items) && expired <= items && n < |expired|
    ensures expired[n].id !in IdsOf(expired[..n])
    ensures IdsOf(expired[..n + 1]) == IdsOf(expired[..n]) + {expired[n].id}
  {
    assert expired[..n + 1] == expired[..n] + [expired[n]];
    forall i | 0 <= i < n ensures expired[i].id != expired[n].id {
      assert expired[i] == items[i] && expired[n] == items[n];
    }
  }

  lemma DueIds(items: seq<Entry>, expired: seq<Entry>, t: int)
    requires forall e | e in items :: e in expired <==> e.time <= t
    requires expired <= items
    ensures IdsOf(expired) == Expiry.Due(SetOf(items), t)
  {
    assert forall e | e in expired :: e in items;
  }
}
