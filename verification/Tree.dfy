/** The two sorted trees the catalogs use, each as the in-order sequence of its nodes. */
module Tree {
  import opened Prelude
  import Order

  datatype Node<+V> = Node(key: string, val: V)

  /** Strictly increasing keys; distinctness follows but is kept at hand. */
  ghost predicate Ordered<V>(items: seq<Node<V>>) {
    forall i, j | 0 <= i < j < |items| :: Order.Less(items[i].key, items[j].key) && items[i].key != items[j].key
  }

  /** The association that a sequence of nodes stands for. */
  ghost function View<V>(items: seq<Node<V>>): map<string, V> {
    if items == [] then map[]
    else
      var last := items[|items| - 1];
      View(items[..|items| - 1])[last.key := last.val]
  }

  lemma {:induction false} ViewMember<V>(items: seq<Node<V>>, n: Node<V>)
    requires Ordered(items)
    ensures n in items <==> n.key in View(items) && View(items)[n.key] == n.val
    decreases |items|
  {
    if items == [] {
    } else {
      var front, last := items[..|items| - 1], items[|items| - 1];
      assert items == front + [last];
      assert View(items) == View(front)[last.key := last.val];
      ViewMember(front, n);
      if n in front { var i :| 0 <= i < |front| && front[i] == n; assert items[i].key != last.key; }
    }
  }

  lemma ViewAt<V>(items: seq<Node<V>>, i: nat)
    requires Ordered(items) && i < |items|
    ensures items[i].key in View(items) && View(items)[items[i].key] == items[i].val
  {
    ViewMember(items, items[i]);
  }

  lemma ViewIndex<V>(items: seq<Node<V>>, k: string) returns (i: nat)
    requires Ordered(items) && k in View(items)
    ensures i < |items| && items[i].key == k && items[i].val == View(items)[k]
  {
    ViewMember(items, Node(k, View(items)[k]));
    i :| 0 <= i < |items| && items[i] == Node(k, View(items)[k]);
  }

  /** Ordered nodes with the associations of `m` are a view of `m`. */
  lemma ViewIs<V>(items: seq<Node<V>>, m: map<string, V>)
    requires Ordered(items)
    requires forall n: Node<V> :: n in items <==> n.key in m && m[n.key] == n.val
    ensures View(items) == m
  {
    forall x | x in m ensures x in View(items) && View(items)[x] == m[x] {
      ViewMember(items, Node(x, m[x]));
    }
    forall x | x in View(items) ensures x in m {
      ViewMember(items, Node(x, View(items)[x]));
    }
  }

  lemma InsertOrdered<V>(items: seq<Node<V>>, i: nat, n: Node<V>)
    requires Ordered(items) && i <= |items|
    requires forall j | 0 <= j < i :: Order.Less(items[j].key, n.key)
    requires i < |items| ==> Order.Less(n.key, items[i].key)
    ensures Ordered(items[..i] + [n] + items[i..])
  {
    var items' := items[..i] + [n] + items[i..];
    forall j | 0 <= j < i ensures items[j].key != n.key { Order.Asymmetric(items[j].key, n.key); }
    forall j | i <= j < |items| ensures Order.Less(n.key, items[j].key) && items[j].key != n.key {
      if i < j { Order.Transitive(n.key, items[i].key, items[j].key); }
      Order.Asymmetric(n.key, items[j].key);
    }
    forall a, b | 0 <= a < b < |items'|
      ensures Order.Less(items'[a].key, items'[b].key) && items'[a].key != items'[b].key
    {
      var a', b' := if a < i then a else a - 1, if b < i then b else b - 1;
      if a != i && b != i { assert items'[a] == items[a'] && items'[b] == items[b']; }
    }
  }

  lemma InsertAt<V>(items: seq<Node<V>>, i: nat, n: Node<V>)
    requires Ordered(items) && i <= |items| && n.key !in View(items)
    requires forall j | 0 <= j < i :: Order.Less(items[j].key, n.key)
    requires i < |items| ==> !Order.Less(items[i].key, n.key)
    ensures Ordered(items[..i] + [n] + items[i..])
    ensures View(items[..i] + [n] + items[i..]) == View(items)[n.key := n.val]
  {
    var items', m := items[..i] + [n] + items[i..], View(items)[n.key := n.val];
    if i < |items| {
      ViewAt(items, i);
      Order.Trichotomy(n.key, items[i].key);
    }
    InsertOrdered(items, i, n);
    assert items == items[..i] + items[i..];
    forall x: Node<V> ensures x in items' <==> x.key in m && m[x.key] == x.val {
      ViewMember(items, x);
    }
    ViewIs(items', m);
  }

  lemma RemoveOrdered<V>(items: seq<Node<V>>, i: nat)
    requires Ordered(items) && i < |items|
    ensures Ordered(items[..i] + items[i + 1..])
    ensures forall n :: n in items[..i] + items[i + 1..] <==> n in items && n.key != items[i].key
  {
    var items' := items[..i] + items[i + 1..];
    forall a | 0 <= a < |items'| ensures items'[a] == items[if a < i then a else a + 1] {}
    assert items == items[..i] + [items[i]] + items[i + 1..];
  }

  lemma RemoveAt<V>(items: seq<Node<V>>, i: nat)
    requires Ordered(items) && i < |items|
    ensures Ordered(items[..i] + items[i + 1..])
    ensures View(items[..i] + items[i + 1..]) == View(items) - {items[i].key}
  {
    var items', m := items[..i] + items[i + 1..], View(items) - {items[i].key};
    RemoveOrdered(items, i);
    forall x: Node<V> ensures x in items' <==> x.key in m && m[x.key] == x.val {
      ViewMember(items, x);
    }
    ViewIs(items', m);
  }

  function Keys<V>(items: seq<Node<V>>): (ks: seq<string>)
    ensures |ks| == |items| && forall i | 0 <= i < |items| :: ks[i] == items[i].key
  {
    seq(|items|, i requires 0 <= i < |items| => items[i].key)
  }

  /** In-order keys are the one sorted listing of the keys of the view. */
  lemma KeysSorted<V>(items: seq<Node<V>>)
    requires Ordered(items)
    ensures Keys(items) == Order.SortedSeq(View(items).Keys)
  {
    var ks := Keys(items);
    forall x ensures x in ks <==> x in View(items).Keys {
      if x in ks { var i :| 0 <= i < |ks| && ks[i] == x; ViewAt(items, i); }
      if x in View(items) { var i := ViewIndex(items, x); assert ks[i] == x; }
    }
    Order.SortedUnique(ks, Order.SortedSeq(View(items).Keys), View(items).Keys);
  }

  /** The one ordered sequence of nodes for an association. */
  ghost function Nodes<V>(m: map<string, V>): (nodes: seq<Node<V>>)
    ensures |nodes| == |m|
  {
    var ks := Order.SortedSeq(m.Keys);
    Order.SortedLength(ks, m.Keys);
    assert forall i | 0 <= i < |ks| :: ks[i] in ks;
    seq(|ks|, i requires 0 <= i < |ks| => Node(ks[i], m[ks[i]]))
  }

  lemma NodesOfView<V>(items: seq<Node<V>>)
    requires Ordered(items)
    ensures Nodes(View(items)) == items
  {
    KeysSorted(items);
    forall i | 0 <= i < |items| ensures View(items)[items[i].key] == items[i].val { ViewAt(items, i); }
    Order.SortedLength(Keys(items), View(items).Keys);
  }

  /** A tree without duplicate keys. */
  class UniqueTree<V> {
    var items: seq<Node<V>>

    ghost predicate Valid() reads this { Ordered(items) }

    ghost function Contents(): map<string, V>
      reads this
    { View(items) }

    constructor ()
      ensures Valid() && Contents() == map[]
      ensures items == []
    { items := []; }

    /** Position of the first node whose key is not below `k`. */
    method LowerBound(k: string) returns (i: nat)
      requires Valid()
      ensures i <= |items| && (forall j | 0 <= j < i :: Order.Less(items[j].key, k))
      ensures i < |items| ==> !Order.Less(items[i].key, k)
      ensures k in Contents() <==> i < |items| && items[i].key == k
    {
      i := 0;
      while i < |items| && Order.Less(items[i].key, k)
        invariant i <= |items| && forall j | 0 <= j < i :: Order.Less(items[j].key, k)
      {
        i := i + 1;
      }
      if k in Contents() {
        ghost var j := ViewIndex(items, k);
        Order.Irreflexive(k);
        assert i <= j;
      }
      if i < |items| { ViewAt(items, i); }
    }

    method Find(k: string) returns (r: Option<V>)
      requires Valid()
      ensures r == if k in Contents() then Some(Contents()[k]) else None
    {
      var i := LowerBound(k);
      if i < |items| && items[i].key == k {
        ViewAt(items, i);
        return Some(items[i].val);
      }
      return None;
    }

    /** Adds a node unless the key is taken, in which case nothing changes. */
    method Add(k: string, v: V) returns (duplicate: bool)
      requires Valid()
      modifies this
      ensures Valid() && duplicate == (k in old(Contents()))
      ensures Contents() == if duplicate then old(Contents()) else old(Contents())[k := v]
    {
      var i := LowerBound(k);
      duplicate := i < |items| && items[i].key == k;
      if !duplicate {
        InsertAt(items, i, Node(k, v));
        items := items[..i] + [Node(k, v)] + items[i..];
      }
    }

    method Remove(k: string) returns (found: bool)
      requires Valid()
      modifies this
      ensures Valid() && found == (k in old(Contents()))
      ensures Contents() == old(Contents()) - {k}
    {
      var i := LowerBound(k);
      found := i < |items| && items[i].key == k;
      if found {
        RemoveAt(items, i);
        items := items[..i] + items[i + 1..];
      }
    }
  }

  datatype Entry = Entry(time: int, id: string)

  ghost predicate InTimeOrder(items: seq<Entry>) {
    forall i, j | 0 <= i < j < |items| :: items[i].time <= items[j].time
  }

  /** A tree of expiry times that allows duplicate keys. */
  class TimeTree {
    var items: seq<Entry>

    ghost predicate Valid() reads this { InTimeOrder(items) }

    constructor ()
      ensures Valid() && items == []
    { items := []; }

    /** Inserts to the left of the entries with the same time. */
    method Add(e: Entry)
      requires Valid()
      modifies this
      ensures Valid()
      ensures exists i | 0 <= i <= |old(items)| :: items == old(items)[..i] + [e] + old(items)[i..]
    {
      var i := 0;
      while i < |items| && items[i].time < e.time
        invariant i <= |items| && forall j | 0 <= j < i :: items[j].time < e.time
      {
        i := i + 1;
      }
      items := items[..i] + [e] + items[i..];
    }

    /** Removes one entry with the given time; which one among equals depends on the shape of the tree. */
    method Remove(time: int) returns (r: Option<Entry>)
      requires Valid()
      modifies this
      ensures Valid()
      ensures r.None? <==> forall e | e in old(items) :: e.time != time
      ensures r.None? ==> items == old(items)
      ensures r.Some? ==> exists i | 0 <= i < |old(items)| ::
        old(items)[i] == r.value && r.value.time == time && items == old(items)[..i] + old(items)[i + 1..]
    {
      if exists i | 0 <= i < |items| :: items[i].time == time {
        var i :| 0 <= i < |items| && items[i].time == time;
        r := Some(items[i]);
        items := items[..i] + items[i + 1..];
      } else {
        r := None;
      }
    }
  }
}
