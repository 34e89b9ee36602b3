/** The string order of Go and of LevelDB keys, and the one sorted listing of a finite set of strings. */
module Order {
  predicate Less(a: string, b: string) {
    if |b| == 0 then false
    else if |a| == 0 then true
    else if a[0] != b[0] then a[0] < b[0]
    else Less(a[1..], b[1..])
  }

  /** `a` is a proper prefix of `b`, or smaller where they first differ. */
  ghost predicate SmallerAt(a: string, b: string, k: nat) {
    k <= |a| && k < |b| && a[..k] == b[..k] && (k == |a| || a[k] < b[k])
  }

  /** The order is that of a dictionary. */
  lemma {:induction false} LessIsDictionary(a: string, b: string)
    ensures Less(a, b) <==> exists k: nat ::
      k <= |a| && k < |b| && a[..k] == b[..k] && (k == |a| || a[k] < b[k])
  {
    SmallerIff(a, b);
    if k: nat :| k <= |a| && k < |b| && a[..k] == b[..k] && (k == |a| || a[k] < b[k]) {
      assert SmallerAt(a, b, k);
    }
    if k: nat :| SmallerAt(a, b, k) {
      assert k <= |a| && k < |b| && a[..k] == b[..k] && (k == |a| || a[k] < b[k]);
    }
  }

  lemma {:induction false} SmallerIff(a: string, b: string)
    ensures Less(a, b) <==> exists k: nat :: SmallerAt(a, b, k)
  {
    if |a| == 0 || |b| == 0 || a[0] != b[0] {
      if Less(a, b) { assert SmallerAt(a, b, 0); }
      if k: nat :| SmallerAt(a, b, k) {
        assert k > 0 ==> a[..k][0] == b[..k][0];
      }
    } else {
      SmallerIff(a[1..], b[1..]);
      if k: nat :| SmallerAt(a[1..], b[1..], k) {
        assert a[..k + 1] == [a[0]] + a[1..][..k] && b[..k + 1] == [b[0]] + b[1..][..k];
        assert SmallerAt(a, b, k + 1);
      }
      if k: nat :| SmallerAt(a, b, k) {
        assert k > 0;
        assert a[1..][..k - 1] == a[..k][1..] && b[1..][..k - 1] == b[..k][1..];
        assert SmallerAt(a[1..], b[1..], k - 1);
      }
    }
  }

  lemma {:induction false} Irreflexive(a: string)
    ensures !Less(a, a)
  {
    if |a| > 0 { Irreflexive(a[1..]); }
  }

  lemma {:induction false} Transitive(a: string, b: string, c: string)
    requires Less(a, b) && Less(b, c)
    ensures Less(a, c)
  {
    if |a| > 0 && a[0] == b[0] && b[0] == c[0] { Transitive(a[1..], b[1..], c[1..]); }
  }

  lemma {:induction false} Trichotomy(a: string, b: string)
    ensures Less(a, b) || a == b || Less(b, a)
  {
    if |a| > 0 && |b| > 0 && a[0] == b[0] {
      Trichotomy(a[1..], b[1..]);
      assert a == [a[0]] + a[1..] && b == [b[0]] + b[1..];
    }
  }

  lemma Asymmetric(a: string, b: string)
    requires Less(a, b)
    ensures !Less(b, a) && a != b
  {
    if Less(b, a) { Transitive(a, b, a); }
    Irreflexive(a);
  }

  predicate Sorted(s: seq<string>) {
    forall i, j | 0 <= i < j < |s| :: Less(s[i], s[j])
  }

  ghost predicate Lists(s: seq<string>, S: set<string>) {
    forall x :: x in s <==> x in S
  }

  lemma SortedDistinct(s: seq<string>)
    requires Sorted(s)
    ensures forall i, j | 0 <= i < j < |s| :: s[i] != s[j]
  {
    forall i, j | 0 <= i < j < |s| ensures s[i] != s[j] { Asymmetric(s[i], s[j]); }
  }

  lemma {:induction false} SortedLength(s: seq<string>, S: set<string>)
    requires Sorted(s) && Lists(s, S)
    ensures |s| == |S|
    decreases |s|
  {
    if |s| == 0 {
      assert forall x | x in S :: x in s;
    } else {
      var x := s[|s| - 1];
      SortedDistinct(s);
      assert s == s[..|s| - 1] + [x];
      assert x in S;
      SortedLength(s[..|s| - 1], S - {x});
    }
  }

  /** A finite set of strings has only one strictly sorted listing. */
  lemma {:induction false} SortedUnique(s: seq<string>, t: seq<string>, S: set<string>)
    requires Sorted(s) && Sorted(t) && Lists(s, S) && Lists(t, S)
    ensures s == t
    decreases |s|
  {
    if |s| == 0 {
      SortedLength(s, S);
      SortedLength(t, S);
    } else {
      var x := s[|s| - 1];
      assert x in S && x in t;
      var y := t[|t| - 1];
      assert y in S && y in s;
      if x != y {
        var i :| 0 <= i < |s| && s[i] == y;
        var j :| 0 <= j < |t| && t[j] == x;
        Asymmetric(x, y);
      }
      SortedDistinct(s);
      SortedDistinct(t);
      var s', t' := s[..|s| - 1], t[..|t| - 1];
      assert s == s' + [x] && t == t' + [x];
      SortedUnique(s', t', S - {x});
    }
  }

  ghost predicate Maximum(m: string, S: set<string>) {
    m in S && forall x | x in S :: x == m || Less(x, m)
  }

  lemma {:induction false} MaximumExists(S: set<string>) returns (m: string)
    requires S != {}
    ensures Maximum(m, S)
    decreases |S|
  {
    var a :| a in S;
    var rest := S - {a};
    assert S == rest + {a};
    if rest == {} {
      m := a;
    } else {
      var b := MaximumExists(rest);
      Trichotomy(a, b);
      if Less(b, a) {
        m := a;
        forall x | x in rest && x != b ensures Less(x, a) { Transitive(x, b, a); }
      } else {
        m := b;
      }
    }
  }

  /** The elements of `S` in increasing order. */
  ghost function SortedSeq(S: set<string>): (r: seq<string>)
    ensures Sorted(r) && Lists(r, S)
    decreases |S|
  {
    if S == {} then []
    else
      assert exists m :: Maximum(m, S) by { var m := MaximumExists(S); }
      var m :| Maximum(m, S);
      var front := SortedSeq(S - {m});
      assert forall i | 0 <= i < |front| :: front[i] in front;
      front + [m]
  }
}
