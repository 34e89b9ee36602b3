/** Devices and their resources: the data model, its validation, and the order a stored device keeps its resources in.
    */
module Devices {
  import opened Prelude
  import opened JsonModel
  import Order

  datatype Protocol = Protocol(typ: string, endpoint: map<string, Json>, methods: seq<string>,
                               contentTypes: seq<string>)

  datatype Resource = Resource(id: string, url: string, typ: string, name: string, meta: map<string, Json>,
                               protocols: seq<Protocol>, representation: map<string, Json>, device: string)

  datatype Device = Device(id: string, url: string, typ: string, name: string, meta: map<string, Json>,
                           description: string, ttl: nat, created: int, updated: int, expires: Option<int>,
                           resources: seq<Resource>)

  /** A device whose resources are given by their URLs only. */
  datatype SimpleDevice = SimpleDevice(device: Device, resourceUrls: seq<string>)

  function Simplify(d: Device): SimpleDevice {
    SimpleDevice(d.(resources := []), seq(|d.resources|, i requires 0 <= i < |d.resources| => d.resources[i].url))
  }

  function CountSlashes(s: string): nat {
    if s == "" then 0 else CountSlashes(s[..|s| - 1]) + (if s[|s| - 1] == '/' then 1 else 0)
  }

  predicate ValidProtocol(p: Protocol) {
    p.typ != "" && |p.endpoint| > 0
  }

  /** `parses` says which identifiers can be used in a URL. */
  predicate ValidResource(parses: string -> bool, r: Resource) {
    && parses(r.id)
    && CountSlashes(r.id) <= 1
    && !("/" <= r.id)
    && !(|r.id| > 0 && r.id[|r.id| - 1] == '/')
    && |r.protocols| > 0
    && forall p | p in r.protocols :: ValidProtocol(p)
  }

  /** Identifiers the user chose are pairwise distinct. */
  predicate UserIdsDistinct(rs: seq<Resource>) {
    forall i, j | 0 <= i < j < |rs| && rs[i].id != "" :: rs[i].id != rs[j].id
  }

  predicate ValidDevice(parses: string -> bool, d: Device) {
    && parses(d.id)
    && '/' !in d.id
    && (forall r | r in d.resources :: ValidResource(parses, r))
    && UserIdsDistinct(d.resources)
  }

  lemma {:induction false} CountSlashesIff(s: string)
    ensures CountSlashes(s) >= 1 <==> '/' in s
    ensures CountSlashes(s) >= 2 <==> exists i, j :: 0 <= i < j < |s| && s[i] == '/' && s[j] == '/'
  {
    if s == "" {
    } else {
      var n := |s| - 1;
      var front := s[..n];
      CountSlashesIff(front);
      assert s == front + [s[n]];
      if i, j :| 0 <= i < j < |s| && s[i] == '/' && s[j] == '/' {
        assert front[i] == '/' && (j < n ==> front[j] == '/');
      }
      if i, j :| 0 <= i < j < n && front[i] == '/' && front[j] == '/' { assert s[i] == '/' && s[j] == '/'; }
      if s[n] == '/' && '/' in front {
        var i :| 0 <= i < n && front[i] == '/';
        assert s[i] == '/';
      }
    }
  }

  /** What a resource is refused for. */
  lemma ResourceRefusedIff(parses: string -> bool, r: Resource)
    ensures !ValidResource(parses, r) <==>
      || !parses(r.id)
      || (exists i, j :: 0 <= i < j < |r.id| && r.id[i] == '/' && r.id[j] == '/')
      || (r.id != "" && (r.id[0] == '/' || r.id[|r.id| - 1] == '/'))
      || r.protocols == []
      || exists p | p in r.protocols :: p.typ == "" || p.endpoint == map[]
  {
    CountSlashesIff(r.id);
    assert r.id != "" && r.id[0] == '/' ==> "/" <= r.id;
    assert forall p: Protocol :: |p.endpoint| == 0 <==> p.endpoint == map[];
  }

  /** What a device is refused for. */
  lemma DeviceRefusedIff(parses: string -> bool, d: Device)
    ensures !ValidDevice(parses, d) <==>
      || !parses(d.id) || '/' in d.id
      || (exists r | r in d.resources :: !ValidResource(parses, r))
      || exists i, j :: 0 <= i < j < |d.resources| && d.resources[i].id == d.resources[j].id != ""
  {
  }

  /** A listed device shows the URLs of its resources, in order, and otherwise itself. */
  lemma SimplifyShows(d: Device)
    ensures |Simplify(d).resourceUrls| == |d.resources|
    ensures forall i | 0 <= i < |d.resources| :: Simplify(d).resourceUrls[i] == d.resources[i].url
    ensures Simplify(d).device.resources == [] && Simplify(d).device.(resources := d.resources) == d
  {
  }

  /** One pass over the resources with the set of identifiers met so far decides validity. */
  method Validate(parses: string -> bool, d: Device) returns (ok: bool)
    ensures ok == ValidDevice(parses, d)
  {
    if !parses(d.id) || '/' in d.id { return false; }
    var seen: set<string> := {};
    for n := 0 to |d.resources|
      invariant seen == set i | 0 <= i < n && d.resources[i].id != "" :: d.resources[i].id
      invariant forall i | 0 <= i < n :: ValidResource(parses, d.resources[i])
      invariant UserIdsDistinct(d.resources[..n])
    {
      var r := d.resources[n];
      if !ValidResource(parses, r) { return false; }
      if r.id != "" {
        if r.id in seen {
          var i :| 0 <= i < n && d.resources[i].id != "" && d.resources[i].id == r.id;
          return false;
        }
        seen := seen + {r.id};
      }
    }
    assert d.resources[..|d.resources|] == d.resources;
    ok := true;
  }

  // ---- Identifiers ----

  function Ids(rs: seq<Resource>): set<string> { set r | r in rs :: r.id }

  function UserIds(rs: seq<Resource>): set<string> { set r | r in rs && r.id != "" :: r.id }

  predicate IdsDistinct(rs: seq<Resource>) {
    forall i, j | 0 <= i < j < |rs| :: rs[i].id != rs[j].id
  }

  predicate StrictById(rs: seq<Resource>) {
    forall i, j | 0 <= i < j < |rs| :: Order.Less(rs[i].id, rs[j].id)
  }

  lemma DistinctNext(front: seq<Resource>, last: Resource)
    ensures IdsDistinct(front + [last]) <==> IdsDistinct(front) && last.id !in Ids(front)
  {
    var rs := front + [last];
    assert forall i | 0 <= i < |front| :: front[i] in front && rs[i] == front[i];
    if last.id in Ids(front) {
      var r :| r in front && r.id == last.id;
      var i :| 0 <= i < |front| && front[i] == r;
      assert rs[i].id == rs[|front|].id;
    }
  }

  lemma {:induction false} DistinctByCount(rs: seq<Resource>)
    ensures |Ids(rs)| <= |rs| && (IdsDistinct(rs) <==> |Ids(rs)| == |rs|)
  {
    if rs == [] {
    } else {
      var front, last := rs[..|rs| - 1], rs[|rs| - 1];
      DistinctByCount(front);
      assert rs == front + [last];
      assert Ids(rs) == Ids(front) + {last.id};
      DistinctNext(front, last);
      assert last.id in Ids(front) ==> Ids(rs) == Ids(front);
    }
  }

  // ---- Sorting ----

  predicate WeakById(rs: seq<Resource>) {
    forall i, j | 0 <= i < j < |rs| :: !Order.Less(rs[j].id, rs[i].id)
  }

  function InsertById(r: Resource, rs: seq<Resource>): seq<Resource> {
    if rs == [] || !Order.Less(r.id, rs[|rs| - 1].id) then rs + [r]
    else InsertById(r, rs[..|rs| - 1]) + [rs[|rs| - 1]]
  }

  function SortById(rs: seq<Resource>): seq<Resource> {
    if rs == [] then [] else InsertById(rs[|rs| - 1], SortById(rs[..|rs| - 1]))
  }

  lemma {:induction false} InsertPermutes(r: Resource, rs: seq<Resource>)
    ensures multiset(InsertById(r, rs)) == multiset(rs) + multiset{r}
  {
    if rs != [] && Order.Less(r.id, rs[|rs| - 1].id) {
      assert rs == rs[..|rs| - 1] + [rs[|rs| - 1]];
      InsertPermutes(r, rs[..|rs| - 1]);
    }
  }

  lemma {:induction false} SortPermutes(rs: seq<Resource>)
    ensures multiset(SortById(rs)) == multiset(rs)
  {
    if rs == [] {
    } else {
      assert rs == rs[..|rs| - 1] + [rs[|rs| - 1]];
      SortPermutes(rs[..|rs| - 1]);
      InsertPermutes(rs[|rs| - 1], SortById(rs[..|rs| - 1]));
    }
  }

  lemma {:induction false} InsertByIdSorted(r: Resource, rs: seq<Resource>)
    requires WeakById(rs)
    ensures WeakById(InsertById(r, rs))
  {
    if rs == [] {
    } else if !Order.Less(r.id, rs[|rs| - 1].id) {
      forall i | 0 <= i < |rs| ensures !Order.Less(r.id, rs[i].id) {
        if Order.Less(r.id, rs[i].id) {
          var last := rs[|rs| - 1].id;
          assert i < |rs| - 1 ==> !Order.Less(last, rs[i].id);
          Order.Trichotomy(last, rs[i].id);
          if Order.Less(rs[i].id, last) { Order.Transitive(r.id, rs[i].id, last); }
        }
      }
    } else {
      var front, last := rs[..|rs| - 1], rs[|rs| - 1];
      InsertByIdSorted(r, front);
      var out := InsertById(r, front);
      InsertPermutes(r, front);
      forall x | x in out ensures !Order.Less(last.id, x.id) {
        assert x in multiset(out);
        assert x == r || x in front;
        if x == r { Order.Asymmetric(r.id, last.id); }
      }
      assert forall i | 0 <= i < |out| :: out[i] in out;
    }
  }

  lemma {:induction false} SortByIdSorted(rs: seq<Resource>)
    ensures WeakById(SortById(rs))
  {
    if rs == [] {
    } else {
      SortByIdSorted(rs[..|rs| - 1]);
      InsertByIdSorted(rs[|rs| - 1], SortById(rs[..|rs| - 1]));
    }
  }

  lemma SortedIds(rs: seq<Resource>)
    ensures Ids(SortById(rs)) == Ids(rs) && |SortById(rs)| == |rs|
  {
    var out := SortById(rs);
    SortPermutes(rs);
    assert |multiset(out)| == |out| && |multiset(rs)| == |rs|;
    forall r ensures r in out <==> r in rs { assert r in multiset(out) <==> r in multiset(rs); }
  }

  /** The stored order is strict exactly when the identifiers are distinct. */
  lemma StrictIffDistinct(rs: seq<Resource>)
    ensures StrictById(SortById(rs)) <==> IdsDistinct(rs)
  {
    var out := SortById(rs);
    SortByIdSorted(rs);
    SortedIds(rs);
    DistinctByCount(rs);
    DistinctByCount(out);
    forall i, j | 0 <= i < j < |out| ensures Order.Less(out[i].id, out[j].id) <==> out[i].id != out[j].id {
      Order.Trichotomy(out[i].id, out[j].id);
      Order.Irreflexive(out[i].id);
    }
  }
}
