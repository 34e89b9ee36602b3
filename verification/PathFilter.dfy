/** Filtering by a path into a JSON value. */
module PathFilter {
  import opened Prelude
  import opened JsonModel

  /** A path that leads nowhere returns null, just like one that leads to a null. */
  datatype Match = Panics | Returns(v: Json)

  // ---- The searches ----

  /** The value of the first field with the given key in the iteration order. */
  function Lookup(fields: seq<Field>, key: string): (r: Option<Json>)
    ensures r.Some? ==> exists i | 0 <= i < |fields| :: fields[i] == Field(key, r.value)
    ensures r.None? <==> forall f | f in fields :: f.key != key
  {
    if fields == [] then None
    else if fields[0].key == key then (assert fields[0] == Field(key, fields[0].val); Some(fields[0].val))
    else
      var r := Lookup(fields[1..], key);
      assert forall i | 0 <= i < |fields| - 1 :: fields[i + 1] == fields[1..][i];
      r
  }

  predicate Holds(v: Json, key: string) { v.Object? && Lookup(v.fields, key).Some? }

  /** What the search through an array for an object with the key comes to: the first of the elements that either holds
      the key or is no object. */
  function FirstStop(items: seq<Json>, key: string): (i: nat)
    ensures i <= |items| && (i < |items| ==> !items[i].Object? || Holds(items[i], key))
    ensures forall j | 0 <= j < i :: items[j].Object? && !Holds(items[j], key)
  {
    if items == [] || !items[0].Object? || Holds(items[0], key) then 0 else 1 + FirstStop(items[1..], key)
  }

  // ---- The match ----

  /** An array keeps the path for the element it is followed into; the type assertion on the elements panics at the
      first one that is no object. */
  function RecursiveMatch(data: Json, path: seq<string>): Match
    decreases data
  {
    if path == [] then Returns(data)
    else
      match data
      case Object(fields) =>
        var v := Lookup(fields, path[0]);
        if v.None? then Returns(Null) else RecursiveMatch(v.value, path[1..])
      case Array(items) =>
        var i := FirstStop(items, path[0]);
        if i == |items| then Returns(Null)
        else if items[i].Object? then RecursiveMatch(items[i], path)
        else Panics
      case _ => Returns(Null)
  }

  // ---- Greedy steps ----

  datatype Step = Key(key: string) | Index(i: nat)

  function Erase(steps: seq<Step>): seq<string> {
    if steps == [] then []
    else (if steps[0].Key? then [steps[0].key] else []) + Erase(steps[1..])
  }

  /** Where a sequence of keys and positions leads. */
  function Follow(data: Json, steps: seq<Step>): Option<Json>
    decreases |steps|
  {
    if steps == [] then Some(data)
    else
      match steps[0]
      case Key(key) =>
        if !Holds(data, key) then None else Follow(Lookup(data.fields, key).value, steps[1..])
      case Index(i) =>
        if data.Array? && i < |data.items| then Follow(data.items[i], steps[1..]) else None
  }

  /** A position is only used to get to the first object of an array that holds the key that follows. */
  predicate Greedy(data: Json, steps: seq<Step>)
    decreases |steps|
  {
    steps == [] ||
    match steps[0]
    case Key(key) => Holds(data, key) && Greedy(Lookup(data.fields, key).value, steps[1..])
    case Index(i) =>
      && data.Array? && i < |data.items|
      && |steps| > 1 && steps[1].Key? && Holds(data.items[i], steps[1].key)
      && (forall j | 0 <= j < i :: data.items[j].Object? && !Holds(data.items[j], steps[1].key))
      && Greedy(data.items[i], steps[1..])
  }

  /** The steps that a match takes. */
  function Trace(data: Json, path: seq<string>): seq<Step>
    decreases data
  {
    if path == [] then []
    else
      match data
      case Object(fields) =>
        var v := Lookup(fields, path[0]);
        if v.None? then [] else [Key(path[0])] + Trace(v.value, path[1..])
      case Array(items) =>
        var i := FirstStop(items, path[0]);
        if i == |items| || !items[i].Object? then [] else [Index(i)] + Trace(items[i], path)
      case _ => []
  }

  /** A value other than null is reached by greedy steps whose keys are the path. */
  lemma {:induction false} MatchIsGreedy(data: Json, path: seq<string>)
    requires RecursiveMatch(data, path).Returns? && RecursiveMatch(data, path).v != Null
    ensures var steps := Trace(data, path);
      && Greedy(data, steps) && Erase(steps) == path
      && Follow(data, steps) == Some(RecursiveMatch(data, path).v)
    ensures data.Object? && path != [] ==> Trace(data, path) != [] && Trace(data, path)[0] == Key(path[0])
    decreases data
  {
    var steps := Trace(data, path);
    if path == [] {
    } else {
      match data
      case Object(fields) =>
        var v := Lookup(fields, path[0]).value;
        MatchIsGreedy(v, path[1..]);
        assert steps[1..] == Trace(v, path[1..]);
      case Array(items) =>
        var i := FirstStop(items, path[0]);
        MatchIsGreedy(items[i], path);
        assert steps[1..] == Trace(items[i], path);
      case _ =>
    }
  }

  lemma FirstStopIs(items: seq<Json>, key: string, i: nat)
    requires i < |items| && Holds(items[i], key)
    requires forall j | 0 <= j < i :: items[j].Object? && !Holds(items[j], key)
    ensures FirstStop(items, key) == i
  {
    var k := FirstStop(items, key);
  }

  /** Greedy steps leave no choice: they lead where the match leads. */
  lemma {:induction false} GreedyIsMatch(data: Json, steps: seq<Step>, path: seq<string>)
    requires Greedy(data, steps) && path == Erase(steps)
    ensures Follow(data, steps).Some?
    ensures RecursiveMatch(data, path) == Returns(Follow(data, steps).value)
    decreases |steps|
  {
    if steps == [] {
    } else {
      var rest := steps[1..];
      match steps[0]
      case Key(key) =>
        GreedyIsMatch(Lookup(data.fields, key).value, rest, Erase(rest));
        assert path == [key] + Erase(rest) && path[1..] == Erase(rest);
      case Index(i) =>
        assert path == [] + Erase(rest) == Erase(rest);
        GreedyIsMatch(data.items[i], rest, path);
        assert Erase(rest) == [rest[0].key] + Erase(rest[1..]);
        FirstStopIs(data.items, path[0], i);
    }
  }

  /** The match returns a value exactly if greedy steps along the path reach it. */
  lemma MatchIffGreedy(data: Json, path: seq<string>, v: Json)
    requires v != Null
    ensures RecursiveMatch(data, path) == Returns(v) <==>
      exists steps :: Greedy(data, steps) && Erase(steps) == path && Follow(data, steps) == Some(v)
  {
    if RecursiveMatch(data, path) == Returns(v) { MatchIsGreedy(data, path); }
    if steps :| Greedy(data, steps) && Erase(steps) == path && Follow(data, steps) == Some(v) {
      GreedyIsMatch(data, steps, path);
    }
  }

  lemma FirstStopAfter(front: seq<Json>, v: Json, later: seq<Json>, key: string)
    requires forall w | w in front :: w.Object? && !Holds(w, key)
    requires Holds(v, key)
    ensures FirstStop(front + [v] + later, key) == |front|
  {
    var items := front + [v] + later;
    assert items[|front|] == v && forall j | 0 <= j < |front| :: items[j] == front[j] && front[j] in front;
    FirstStopIs(items, key, |front|);
  }

  /** There is no backtracking: if the first object of an array with the key leads nowhere, the match finds nothing,
      whatever comes later in the array. */
  lemma NoBacktracking(front: seq<Json>, v: Json, later: seq<Json>, path: seq<string>)
    requires path != [] && forall w | w in front :: w.Object? && !Holds(w, path[0])
    requires Holds(v, path[0]) && RecursiveMatch(v, path) == Returns(Null)
    ensures RecursiveMatch(Array(front + [v] + later), path) == Returns(Null)
  {
    FirstStopAfter(front, v, later, path[0]);
    assert (front + [v] + later)[|front|] == v;
  }

  /** So any value at the end of the path can be missed. */
  lemma MissedValue(x: Json)
    ensures var data := Array([Object([Field("a", Object([]))]), Object([Field("a", Object([Field("b", x)]))])]);
      && RecursiveMatch(data, ["a", "b"]) == Returns(Null)
      && Erase([Index(1), Key("a"), Key("b")]) == ["a", "b"]
      && Follow(data, [Index(1), Key("a"), Key("b")]) == Some(x)
  {
    var inner := Object([Field("b", x)]);
    var first, second := Object([Field("a", Object([]))]), Object([Field("a", inner)]);
    var steps := [Index(1), Key("a"), Key("b")];
    assert steps[1..] == [Key("a"), Key("b")] && steps[1..][1..] == [Key("b")] && steps[1..][1..][1..] == [];
    assert Lookup(second.fields, "a") == Some(inner) && Lookup(inner.fields, "b") == Some(x);
    assert Lookup(first.fields, "a") == Some(Object([])) && ["a", "b"][1..] == ["b"];
    NoBacktracking([], first, [second], ["a", "b"]);
    assert [] + [first] + [second] == [first, second];
  }

  // ---- Composition and panics ----

  /** Matching a path in two parts is the same as matching it at once. */
  lemma {:induction false} PathComposes(data: Json, p: seq<string>, q: seq<string>)
    ensures RecursiveMatch(data, p + q) ==
      if RecursiveMatch(data, p).Panics? then Panics else RecursiveMatch(RecursiveMatch(data, p).v, q)
    decreases data
  {
    if p == [] {
      assert p + q == q;
    } else {
      match data
      case Object(fields) =>
        var v := Lookup(fields, p[0]);
        assert (p + q)[1..] == p[1..] + q;
        if v.Some? { PathComposes(v.value, p[1..], q); }
      case Array(items) =>
        var i := FirstStop(items, p[0]);
        if i < |items| && items[i].Object? { PathComposes(items[i], p, q); }
      case _ =>
    }
  }

  /** An array in which something that is no object comes before any object with the key. */
  predicate Stuck(v: Json, key: string) {
    v.Array? && var i := FirstStop(v.items, key); i < |v.items| && !v.items[i].Object?
  }

  ghost predicate LeadsToStuck(data: Json, steps: seq<Step>, keys: seq<string>, next: string) {
    && Greedy(data, steps) && Erase(steps) == keys
    && Follow(data, steps).Some? && Stuck(Follow(data, steps).value, next)
  }

  /** Greedy steps along the first `n` keys lead to an array that the next key gets stuck in. */
  ghost predicate StuckAt(data: Json, path: seq<string>, n: nat)
    requires n < |path|
  {
    exists steps :: LeadsToStuck(data, steps, path[..n], path[n])
  }

  ghost predicate GetsStuck(data: Json, path: seq<string>) {
    exists n | 0 <= n < |path| :: StuckAt(data, path, n)
  }

  lemma StuckAtIff(data: Json, path: seq<string>, n: nat)
    requires n < |path|
    ensures StuckAt(data, path, n) <==>
      RecursiveMatch(data, path[..n]).Returns? && Stuck(RecursiveMatch(data, path[..n]).v, path[n])
  {
    if steps :| LeadsToStuck(data, steps, path[..n], path[n]) {
      GreedyIsMatch(data, steps, path[..n]);
    }
    if RecursiveMatch(data, path[..n]).Returns? && Stuck(RecursiveMatch(data, path[..n]).v, path[n]) {
      MatchIsGreedy(data, path[..n]);
      assert LeadsToStuck(data, Trace(data, path[..n]), path[..n], path[n]);
    }
  }

  /** The match panics exactly if greedy steps along some part of the path lead to an array in which something that is
      no object comes before any object with the next key. */
  lemma {:induction false} PanicsIff(data: Json, path: seq<string>)
    ensures RecursiveMatch(data, path).Panics? <==> GetsStuck(data, path)
    decreases |path|
  {
    if path == [] {
    } else {
      var n := |path| - 1;
      var front := path[..n];
      PanicsIff(data, front);
      PathComposes(data, front, [path[n]]);
      assert front + [path[n]] == path;
      forall m | 0 <= m < n ensures StuckAt(data, path, m) == StuckAt(data, front, m) {
        assert path[..m] == front[..m];
      }
      StuckAtIff(data, path, n);
      if RecursiveMatch(data, front).Returns? {
        PanicsHere(RecursiveMatch(data, front).v, path[n]);
      } else {
        var m :| 0 <= m < n && StuckAt(data, front, m);
        assert StuckAt(data, path, m);
      }
    }
  }

  lemma PanicsHere(v: Json, key: string)
    ensures RecursiveMatch(v, [key]).Panics? <==> Stuck(v, key)
  {
    assert [key][1..] == [];
    if v.Array? {
      var i := FirstStop(v.items, key);
      if i < |v.items| && v.items[i].Object? {
        assert RecursiveMatch(v.items[i], [key]) == RecursiveMatch(Lookup(v.items[i].fields, key).value, []);
      }
    }
  }

  /** Every array in the value holds only objects. */
  ghost predicate ArraysOfObjects(data: Json) {
    forall steps | Follow(data, steps).Some? && Follow(data, steps).value.Array? ::
      forall v | v in Follow(data, steps).value.items :: v.Object?
  }

  lemma NeverPanics(data: Json, path: seq<string>)
    requires ArraysOfObjects(data)
    ensures RecursiveMatch(data, path).Returns?
  {
    PanicsIff(data, path);
  }

  // ---- Iteration order ----

  predicate DistinctKeys(fields: seq<Field>) {
    forall i, j | 0 <= i < j < |fields| :: fields[i].key != fields[j].key
  }

  /** The keys of every object are distinct, as those of a decoded object are. */
  predicate WellFormed(data: Json) {
    match data
    case Object(fields) => DistinctKeys(fields) && forall f | f in fields :: WellFormed(f.val)
    case Array(items) => forall v | v in items :: WellFormed(v)
    case _ => true
  }

  /** The same value, with the fields of its objects in any order. */
  predicate Same(a: Json, b: Json) {
    match a
    case Object(fields) =>
      && b.Object?
      && (forall f | f in fields :: Lookup(b.fields, f.key).Some? && Same(f.val, Lookup(b.fields, f.key).value))
      && (forall g | g in b.fields :: Lookup(fields, g.key).Some?)
    case Array(items) =>
      && b.Array? && |b.items| == |items|
      && forall i | 0 <= i < |items| :: Same(items[i], b.items[i])
    case _ => a == b
  }

  lemma SameHolds(a: Json, b: Json, key: string)
    requires Same(a, b)
    ensures a.Object? == b.Object? && (a.Object? ==> (Holds(a, key) <==> Holds(b, key)))
    ensures Holds(a, key) ==> Same(Lookup(a.fields, key).value, Lookup(b.fields, key).value)
  {
    if a.Object? && Holds(a, key) {
      var i :| 0 <= i < |a.fields| && a.fields[i] == Field(key, Lookup(a.fields, key).value);
      assert a.fields[i] in a.fields;
    }
    if a.Object? && Holds(b, key) {
      var i :| 0 <= i < |b.fields| && b.fields[i] == Field(key, Lookup(b.fields, key).value);
      assert b.fields[i] in b.fields;
    }
  }

  lemma {:induction false} SameStop(xs: seq<Json>, ys: seq<Json>, key: string)
    requires |xs| == |ys| && forall i | 0 <= i < |xs| :: Same(xs[i], ys[i])
    ensures FirstStop(xs, key) == FirstStop(ys, key)
  {
    if xs == [] {
    } else {
      SameHolds(xs[0], ys[0], key);
      SameStop(xs[1..], ys[1..], key);
    }
  }

  ghost predicate SameMatch(a: Match, b: Match) {
    if a.Panics? then b.Panics? else b.Returns? && Same(a.v, b.v)
  }

  /** The iteration order of objects does not matter. */
  lemma {:induction false} OrderIrrelevant(a: Json, b: Json, path: seq<string>)
    requires Same(a, b)
    ensures SameMatch(RecursiveMatch(a, path), RecursiveMatch(b, path))
    decreases a
  {
    if path == [] {
    } else {
      match a
      case Object(fields) =>
        SameHolds(a, b, path[0]);
        if Holds(a, path[0]) {
          OrderIrrelevant(Lookup(fields, path[0]).value, Lookup(b.fields, path[0]).value, path[1..]);
        }
      case Array(items) =>
        var i := FirstStop(items, path[0]);
        SameStop(items, b.items, path[0]);
        if i < |items| {
          SameHolds(items[i], b.items[i], path[0]);
          OrderIrrelevant(items[i], b.items[i], path);
        }
      case _ =>
    }
  }

  /** Permuting the fields of an object with distinct keys gives the same value. */
  lemma PermutedSame(fields: seq<Field>, permuted: seq<Field>)
    requires WellFormed(Object(fields)) && DistinctKeys(permuted)
    requires forall f :: f in fields <==> f in permuted
    ensures Same(Object(fields), Object(permuted))
  {
    forall f | f in fields
      ensures Lookup(permuted, f.key).Some? && Same(f.val, Lookup(permuted, f.key).value)
    {
      LookupOnly(permuted, f);
      SameReflexive(f.val);
    }
    forall g | g in permuted ensures Lookup(fields, g.key).Some? { LookupOnly(fields, g); }
  }

  lemma LookupOnly(fields: seq<Field>, f: Field)
    requires DistinctKeys(fields) && f in fields
    ensures Lookup(fields, f.key) == Some(f.val)
  {
  }

  lemma {:induction false} SameReflexive(a: Json)
    requires WellFormed(a)
    ensures Same(a, a)
  {
    match a
    case Object(fields) =>
      forall f | f in fields ensures Lookup(fields, f.key) == Some(f.val) && Same(f.val, f.val) {
        LookupOnly(fields, f);
        SameReflexive(f.val);
      }
    case Array(items) =>
      forall i | 0 <= i < |items| ensures Same(items[i], items[i]) { SameReflexive(items[i]); }
    case _ =>
  }

  // ---- Comparing the value found ----

  datatype Outcome = Panicked | Answer(matched: bool) | UnknownOperation

  predicate Contains(s: string, value: string)
    decreases |s|
  {
    value <= s || (s != "" && Contains(s[1..], value))
  }

  predicate HasSuffix(s: string, value: string) {
    |value| <= |s| && s[|s| - |value|..] == value
  }

  const OPERATIONS := {"equals", "prefix", "suffix", "contains"}

  function Compare(op: string, s: string, value: string): bool
    requires op in OPERATIONS
  {
    if op == "equals" then s == value
    else if op == "prefix" then value <= s
    else if op == "suffix" then HasSuffix(s, value)
    else Contains(s, value)
  }

  /** `data` is the decoded object, and `show` prints a value as a string. */
  function MatchObject(data: Json, path: seq<string>, op: string, value: string, show: Json -> string): Outcome {
    match RecursiveMatch(data, path)
    case Panics => Outcome.Panicked
    case Returns(v) =>
      if v == Null then Answer(false)
      else if op in OPERATIONS then Answer(Compare(op, show(v), value))
      else UnknownOperation
  }

  predicate OccursAt(s: string, value: string, i: nat) {
    i + |value| <= |s| && s[i..i + |value|] == value
  }

  lemma OccursShifted(s: string, value: string, i: nat)
    requires s != "" && i > 0
    ensures OccursAt(s, value, i) <==> OccursAt(s[1..], value, i - 1)
  {
    if i + |value| <= |s| { assert s[1..][i - 1..i - 1 + |value|] == s[i..i + |value|]; }
  }

  lemma {:induction false} ContainsIff(s: string, value: string)
    ensures Contains(s, value) <==> exists i: nat :: OccursAt(s, value, i)
    decreases |s|
  {
    if value <= s {
      assert OccursAt(s, value, 0);
    } else if s != "" {
      ContainsIff(s[1..], value);
      if i: nat :| OccursAt(s, value, i) {
        OccursShifted(s, value, i);
      }
      if i: nat :| OccursAt(s[1..], value, i) {
        OccursShifted(s, value, i + 1);
      }
    }
  }

  lemma CompareOrdered(s: string, value: string)
    ensures Compare("equals", s, value) <==> Compare("prefix", s, value) && |s| == |value|
    ensures Compare("equals", s, value) <==> Compare("suffix", s, value) && |s| == |value|
    ensures Compare("prefix", s, value) || Compare("suffix", s, value) ==> Compare("contains", s, value)
    ensures Compare("contains", s, value) <==> exists i: nat :: OccursAt(s, value, i)
  {
    ContainsIff(s, value);
    if HasSuffix(s, value) { assert OccursAt(s, value, |s| - |value|); }
    if value <= s { assert OccursAt(s, value, 0); }
    assert s[0..] == s;
  }

  lemma PrefixMeans(s: string, value: string)
    ensures value <= s <==> exists t :: s == value + t
  {
    if value <= s { assert s == value + s[|value|..]; }
  }

  lemma SuffixMeans(s: string, value: string)
    ensures HasSuffix(s, value) <==> exists t :: s == t + value
  {
    if HasSuffix(s, value) { assert s == s[..|s| - |value|] + value; }
    if t :| s == t + value { assert s[|s| - |value|..] == value; }
  }

  lemma ContainsMeans(s: string, value: string)
    ensures Contains(s, value) <==> exists t, u :: s == t + value + u
  {
    ContainsIff(s, value);
    if i: nat :| OccursAt(s, value, i) { assert s == s[..i] + value + s[i + |value|..]; }
    if t, u :| s == t + value + u { assert s[|t|..|t| + |value|] == value && OccursAt(s, value, |t|); }
  }

  /** What each operation asks for, in terms of what the value is made of. */
  lemma CompareMeans(s: string, value: string)
    ensures Compare("equals", s, value) <==> s == value
    ensures Compare("prefix", s, value) <==> exists t :: s == value + t
    ensures Compare("suffix", s, value) <==> exists t :: s == t + value
    ensures Compare("contains", s, value) <==> exists t, u :: s == t + value + u
  {
    PrefixMeans(s, value);
    SuffixMeans(s, value);
    ContainsMeans(s, value);
  }

  /** The text is, starts with, ends with, or contains the given one, as the operation says. */
  ghost predicate Fits(op: string, s: string, value: string) {
    || (op == "equals" && s == value)
    || (op == "prefix" && exists t :: s == value + t)
    || (op == "suffix" && exists t :: s == t + value)
    || (op == "contains" && exists t, u :: s == t + value + u)
  }

  /** Greedy steps along the path reach a value other than null whose printed form fits. */
  ghost predicate Meets(data: Json, path: seq<string>, op: string, value: string, show: Json -> string) {
    exists steps | Greedy(data, steps) && Erase(steps) == path ::
      && Follow(data, steps).Some? && Follow(data, steps).value != Null
      && Fits(op, show(Follow(data, steps).value), value)
  }

  /** An object matches exactly if greedy steps along the path reach a value other than null whose printed form fits. */
  lemma MatchObjectIff(data: Json, path: seq<string>, op: string, value: string, show: Json -> string)
    ensures MatchObject(data, path, op, value, show) == Answer(true) <==> Meets(data, path, op, value, show)
  {
    var m := RecursiveMatch(data, path);
    if m.Returns? && m.v != Null {
      MatchIsGreedy(data, path);
      FitsIff(op, show(m.v), value);
    }
    forall steps | Greedy(data, steps) && Erase(steps) == path
      ensures Follow(data, steps).Some? && m == Returns(Follow(data, steps).value)
    {
      GreedyIsMatch(data, steps, path);
    }
  }

  lemma FitsIff(op: string, s: string, value: string)
    ensures op in OPERATIONS ==> (Compare(op, s, value) <==> Fits(op, s, value))
    ensures op !in OPERATIONS ==> !Fits(op, s, value)
  {
    CompareMeans(s, value);
  }

  /** With an operation that there is, it does not match exactly if it neither matches nor gets stuck. */
  lemma NoMatchIff(data: Json, path: seq<string>, op: string, value: string, show: Json -> string)
    requires op == "equals" || op == "prefix" || op == "suffix" || op == "contains"
    ensures MatchObject(data, path, op, value, show) == Answer(false) <==>
      MatchObject(data, path, op, value, show) != Answer(true) && !GetsStuck(data, path)
  {
    PanicsIff(data, path);
  }

  /** A path that leads nowhere, or to null, matches with no operation, and no operation is then missed. */
  lemma NothingFound(data: Json, path: seq<string>, op: string, value: string, show: Json -> string)
    requires RecursiveMatch(data, path) == Returns(Null)
    ensures MatchObject(data, path, op, value, show) == Answer(false)
  {
  }

  /** So the order of the fields makes no difference to the answer either, if what the path leads to is a string, a
      number, a boolean or null. */
  lemma OrderAnswers(a: Json, b: Json, path: seq<string>, op: string, value: string, show: Json -> string)
    requires Same(a, b)
    requires var m := RecursiveMatch(a, path); m.Returns? ==> !m.v.Object? && !m.v.Array?
    ensures MatchObject(a, path, op, value, show) == MatchObject(b, path, op, value, show)
  {
    OrderIrrelevant(a, b, path);
  }

  /** An operation without a name of its own is only noticed where greedy steps along the path reach a value. */
  lemma UnknownOperationIff(data: Json, path: seq<string>, op: string, value: string, show: Json -> string)
    requires op !in OPERATIONS
    ensures MatchObject(data, path, op, value, show).UnknownOperation? <==>
      exists steps | Greedy(data, steps) && Erase(steps) == path :: Follow(data, steps) != Some(Null)
  {
    var m := RecursiveMatch(data, path);
    if m.Returns? && m.v != Null { MatchIsGreedy(data, path); }
    if steps :| Greedy(data, steps) && Erase(steps) == path && Follow(data, steps) != Some(Null) {
      GreedyIsMatch(data, steps, path);
    }
  }
}
