/** The filters of the catalogs: what an item looks like as JSON, and which paths make them panic. */
module Filters {
  import opened Prelude
  import opened JsonModel
  import opened Devices
  import Order
  import PathFilter
  import Query
  import ResourceCatalog
  import ResourceQueries
  import ServiceCatalog
  import Storage

  // ---- Items as JSON ----

  ghost function FieldsOf(m: map<string, Json>): seq<Field> {
    var ks := Order.SortedSeq(m.Keys);
    assert forall i | 0 <= i < |ks| :: ks[i] in ks;
    seq(|ks|, i requires 0 <= i < |ks| => Field(ks[i], m[ks[i]]))
  }

  function Strings(ss: seq<string>): (out: seq<Json>)
    ensures |out| == |ss| && forall i | 0 <= i < |ss| :: out[i] == String(ss[i])
  {
    seq(|ss|, i requires 0 <= i < |ss| => String(ss[i]))
  }

  /** A field of a struct: its name in JSON, whether it is there, and its value. */
  datatype Tag = Tag(key: string, present: bool, val: Json)

  /** The fields that are there. */
  function Present(tags: seq<Tag>): seq<Field> {
    if tags == [] then []
    else if tags[0].present then [Field(tags[0].key, tags[0].val)] + Present(tags[1..])
    else Present(tags[1..])
  }

  /** A listed device: the URLs of the resources take their place; `time` prints a time. */
  ghost function DeviceTags(d: SimpleDevice, time: int -> string): seq<Tag> {
    [Tag("id", true, String(d.device.id)),
     Tag("url", true, String(d.device.url)),
     Tag("type", true, String(d.device.typ)),
     Tag("name", d.device.name != "", String(d.device.name)),
     Tag("meta", d.device.meta != map[], Object(FieldsOf(d.device.meta))),
     Tag("description", d.device.description != "", String(d.device.description)),
     Tag("ttl", d.device.ttl != 0, Number(d.device.ttl as real)),
     Tag("created", true, String(time(d.device.created))),
     Tag("updated", true, String(time(d.device.updated))),
     Tag("expires", d.device.expires.Some?,
         if d.device.expires.Some? then String(time(d.device.expires.value)) else Null),
     Tag("resources", true, Array(Strings(d.resourceUrls)))]
  }

  ghost function EncodeDevice(d: SimpleDevice, time: int -> string): Json { Object(Present(DeviceTags(d, time))) }

  ghost function ProtocolTags(p: Protocol): seq<Tag> {
    [Tag("type", true, String(p.typ)),
     Tag("endpoint", true, Object(FieldsOf(p.endpoint))),
     Tag("methods", p.methods != [], Array(Strings(p.methods))),
     Tag("content-types", p.contentTypes != [], Array(Strings(p.contentTypes)))]
  }

  ghost function EncodeProtocol(p: Protocol): Json { Object(Present(ProtocolTags(p))) }

  ghost function EncodeProtocols(ps: seq<Protocol>): (out: seq<Json>)
    ensures |out| == |ps| && forall i | 0 <= i < |ps| :: out[i] == EncodeProtocol(ps[i])
  {
    seq(|ps|, i requires 0 <= i < |ps| => EncodeProtocol(ps[i]))
  }

  ghost function ResourceTags(r: Resource): seq<Tag> {
    [Tag("id", true, String(r.id)),
     Tag("url", true, String(r.url)),
     Tag("type", true, String(r.typ)),
     Tag("name", r.name != "", String(r.name)),
     Tag("meta", r.meta != map[], Object(FieldsOf(r.meta))),
     Tag("protocols", true, Array(EncodeProtocols(r.protocols))),
     Tag("representation", r.representation != map[], Object(FieldsOf(r.representation))),
     Tag("device", true, String(r.device))]
  }

  ghost function EncodeResource(r: Resource): Json { Object(Present(ResourceTags(r))) }

  ghost function ServiceTags(v: ServiceCatalog.Service, time: int -> string): seq<Tag> {
    [Tag("id", true, String(v.id)),
     Tag("url", true, String(v.url)),
     Tag("type", true, String(v.typ)),
     Tag("name", v.name != "", String(v.name)),
     Tag("description", v.description != "", String(v.description)),
     Tag("meta", v.meta != map[], Object(FieldsOf(v.meta))),
     Tag("protocols", true, Array(EncodeProtocols(v.protocols))),
     Tag("representation", v.representation != map[], Object(FieldsOf(v.representation))),
     Tag("ttl", v.ttl != 0, Number(v.ttl as real)),
     Tag("created", true, String(time(v.created))),
     Tag("updated", true, String(time(v.updated))),
     Tag("expires", v.expires.Some?, if v.expires.Some? then String(time(v.expires.value)) else Null)]
  }

  ghost function EncodeService(v: ServiceCatalog.Service, time: int -> string): Json {
    Object(Present(ServiceTags(v, time)))
  }

  ghost function DeviceEncoder(time: int -> string): SimpleDevice -> Json { d => EncodeDevice(d, time) }

  ghost function ResourceEncoder(): Resource -> Json { r => EncodeResource(r) }

  ghost function ServiceEncoder(time: int -> string): ServiceCatalog.Service -> Json { v => EncodeService(v, time) }

  // ---- The matcher of a filter ----

  function VerdictOf(outcome: PathFilter.Outcome): Query.Verdict {
    match outcome
    case Panicked => Query.Panics
    case UnknownOperation => Query.Unmatchable
    case Answer(yes) => if yes then Query.Match else Query.NoMatch
  }

  function Matcher<W>(encode: W -> Json, path: seq<string>, op: string, value: string, show: Json -> string)
    : W -> Query.Verdict
  {
    (w: W) => VerdictOf(PathFilter.MatchObject(encode(w), path, op, value, show))
  }

  /** The matcher reports an error: the operation has no name of its own, and the path leads somewhere. */
  predicate Fails(data: Json, path: seq<string>, op: string) {
    op !in PathFilter.OPERATIONS && PathFilter.RecursiveMatch(data, path) != PathFilter.Returns(Null)
  }

  /** The path gets stuck in item `k`, and gets stuck or fails in none before it. */
  ghost predicate FirstStuck<W>(items: seq<W>, encode: W -> Json, path: seq<string>, op: string, k: nat) {
    && k < |items| && PathFilter.GetsStuck(encode(items[k]), path)
    && forall j | 0 <= j < k :: !PathFilter.GetsStuck(encode(items[j]), path) && !Fails(encode(items[j]), path, op)
  }

  /** A filter panics exactly if some item has an array that the path gets stuck in, and no item before it makes the
      matcher panic or fail. */
  lemma FilterPanicsIff<W>(items: seq<W>, encode: W -> Json, path: seq<string>, op: string, value: string,
                           show: Json -> string, page: int, perPage: int)
    ensures Query.FilterPage(items, Matcher(encode, path, op, value, show), page, perPage) == Err(Panicked) <==>
      exists k: nat :: FirstStuck(items, encode, path, op, k)
  {
    var matches := Matcher(encode, path, op, value, show);
    Query.FilterPanicsIff(items, matches, page, perPage);
    forall w ensures matches(w) == Query.Panics <==> PathFilter.GetsStuck(encode(w), path) {
      PathFilter.PanicsIff(encode(w), path);
    }
    forall w ensures Query.Answered(matches(w)) <==>
      !PathFilter.GetsStuck(encode(w), path) && !Fails(encode(w), path, op)
    {
      PathFilter.PanicsIff(encode(w), path);
    }
    if k: nat :| Query.FirstFault(items, matches, k, Query.Panics) {
      assert FirstStuck(items, encode, path, op, k);
    }
    if k: nat :| FirstStuck(items, encode, path, op, k) {
      assert Query.FirstFault(items, matches, k, Query.Panics);
    }
  }

  // ---- What a path of one key finds ----

  lemma {:induction false} LookupAbsent(tags: seq<Tag>, key: string)
    requires forall t | t in tags :: t.key != key
    ensures PathFilter.Lookup(Present(tags), key) == None
  {
    if tags == [] {
    } else {
      LookupAbsent(tags[1..], key);
      LookupCons(tags, key);
    }
  }

  lemma LookupCons(tags: seq<Tag>, key: string)
    requires tags != []
    ensures PathFilter.Lookup(Present(tags), key) ==
      if tags[0].present && tags[0].key == key then Some(tags[0].val) else PathFilter.Lookup(Present(tags[1..]), key)
  {
    if tags[0].present {
      assert Present(tags)[1..] == Present(tags[1..]);
    }
  }

  /** The key is that of field `i` alone. */
  ghost predicate OnlyKey(tags: seq<Tag>, i: nat) {
    i < |tags| && forall j | 0 <= j < |tags| && j != i :: tags[j].key != tags[i].key
  }

  lemma {:induction false} LookupTag(tags: seq<Tag>, i: nat)
    requires OnlyKey(tags, i)
    ensures PathFilter.Lookup(Present(tags), tags[i].key) == if tags[i].present then Some(tags[i].val) else None
  {
    LookupCons(tags, tags[i].key);
    if i == 0 {
      LookupAbsent(tags[1..], tags[0].key);
    } else {
      assert forall j | 0 <= j < |tags| - 1 :: tags[1..][j] == tags[j + 1];
      LookupTag(tags[1..], i - 1);
    }
  }

  /** A path that starts with the key goes on in the value, if it is there. */
  lemma TagPath(tags: seq<Tag>, i: nat, path: seq<string>)
    requires OnlyKey(tags, i) && path != [] && path[0] == tags[i].key
    ensures PathFilter.RecursiveMatch(Object(Present(tags)), path) ==
      if tags[i].present then PathFilter.RecursiveMatch(tags[i].val, path[1..]) else PathFilter.Returns(Null)
  {
    LookupTag(tags, i);
  }

  lemma TagLeads(tags: seq<Tag>, i: nat, val: Json, path: seq<string>)
    requires OnlyKey(tags, i) && path != [] && tags[i] == Tag(path[0], true, val)
    ensures PathFilter.RecursiveMatch(Object(Present(tags)), path) == PathFilter.RecursiveMatch(val, path[1..])
  {
    TagPath(tags, i, path);
  }

  /** What the filter sees under a name of one part. */
  ghost predicate Shows(data: Json, key: string, val: Json) {
    PathFilter.RecursiveMatch(data, [key]) == PathFilter.Returns(val)
  }

  lemma ShowsTag(tags: seq<Tag>, i: nat)
    requires OnlyKey(tags, i)
    ensures Shows(Object(Present(tags)), tags[i].key, if tags[i].present then tags[i].val else Null)
  {
    TagPath(tags, i, [tags[i].key]);
    assert [tags[i].key][1..] == [];
  }

  lemma DeviceKeys(d: SimpleDevice, time: int -> string, i: nat)
    requires i < 11
    ensures OnlyKey(DeviceTags(d, time), i)
  {
  }

  /** What a filter of devices sees under each name. */
  lemma DeviceShows(d: SimpleDevice, time: int -> string)
    ensures var data := EncodeDevice(d, time);
      && Shows(data, "id", String(d.device.id)) && Shows(data, "url", String(d.device.url))
      && Shows(data, "type", String(d.device.typ))
      && Shows(data, "name", if d.device.name != "" then String(d.device.name) else Null)
      && Shows(data, "meta", if d.device.meta != map[] then Object(FieldsOf(d.device.meta)) else Null)
      && Shows(data, "description", if d.device.description != "" then String(d.device.description) else Null)
      && Shows(data, "ttl", if d.device.ttl != 0 then Number(d.device.ttl as real) else Null)
      && Shows(data, "created", String(time(d.device.created)))
      && Shows(data, "updated", String(time(d.device.updated)))
      && Shows(data, "expires", if d.device.expires.Some? then String(time(d.device.expires.value)) else Null)
      && Shows(data, "resources", Array(Strings(d.resourceUrls)))
  {
    forall i: nat | i < 11
      ensures var t := DeviceTags(d, time)[i]; Shows(EncodeDevice(d, time), t.key, if t.present then t.val else Null)
    {
      DeviceKeys(d, time, i);
      ShowsTag(DeviceTags(d, time), i);
    }
    var tags := DeviceTags(d, time);
    assert tags[0].key == "id" && tags[1].key == "url" && tags[2].key == "type" && tags[3].key == "name";
    assert tags[4].key == "meta" && tags[5].key == "description" && tags[6].key == "ttl" && tags[7].key == "created";
    assert tags[8].key == "updated" && tags[9].key == "expires" && tags[10].key == "resources";
  }

  lemma ProtocolKeys(p: Protocol, i: nat)
    requires i < 4
    ensures OnlyKey(ProtocolTags(p), i)
  {
  }

  lemma ProtocolShows(p: Protocol)
    ensures var data := EncodeProtocol(p);
      && Shows(data, "type", String(p.typ)) && Shows(data, "endpoint", Object(FieldsOf(p.endpoint)))
      && Shows(data, "methods", if p.methods != [] then Array(Strings(p.methods)) else Null)
      && Shows(data, "content-types", if p.contentTypes != [] then Array(Strings(p.contentTypes)) else Null)
  {
    forall i: nat | i < 4
      ensures var t := ProtocolTags(p)[i]; Shows(EncodeProtocol(p), t.key, if t.present then t.val else Null)
    {
      ProtocolKeys(p, i);
      ShowsTag(ProtocolTags(p), i);
    }
    var tags := ProtocolTags(p);
    assert tags[0].key == "type" && tags[1].key == "endpoint" && tags[2].key == "methods";
    assert tags[3].key == "content-types";
  }

  lemma ResourceKeys(r: Resource, i: nat)
    requires i < 8
    ensures OnlyKey(ResourceTags(r), i)
  {
  }

  /** What a filter of resources sees under each name. */
  lemma ResourceShows(r: Resource)
    ensures var data := EncodeResource(r);
      && Shows(data, "id", String(r.id)) && Shows(data, "url", String(r.url)) && Shows(data, "type", String(r.typ))
      && Shows(data, "name", if r.name != "" then String(r.name) else Null)
      && Shows(data, "meta", if r.meta != map[] then Object(FieldsOf(r.meta)) else Null)
      && Shows(data, "protocols", Array(EncodeProtocols(r.protocols)))
      && Shows(data, "representation", if r.representation != map[] then Object(FieldsOf(r.representation)) else Null)
      && Shows(data, "device", String(r.device))
  {
    forall i: nat | i < 8
      ensures var t := ResourceTags(r)[i]; Shows(EncodeResource(r), t.key, if t.present then t.val else Null)
    {
      ResourceKeys(r, i);
      ShowsTag(ResourceTags(r), i);
    }
    var tags := ResourceTags(r);
    assert tags[0].key == "id" && tags[1].key == "url" && tags[2].key == "type" && tags[3].key == "name";
    assert tags[4].key == "meta" && tags[5].key == "protocols" && tags[6].key == "representation";
    assert tags[7].key == "device";
  }

  lemma ServiceKeys(v: ServiceCatalog.Service, time: int -> string, i: nat)
    requires i < 12
    ensures OnlyKey(ServiceTags(v, time), i)
  {
    if i < 6 { FirstServiceKeys(v, time, i); } else { LastServiceKeys(v, time, i); }
  }

  lemma FirstServiceKeys(v: ServiceCatalog.Service, time: int -> string, i: nat)
    requires i < 6
    ensures OnlyKey(ServiceTags(v, time), i)
  {
  }

  lemma LastServiceKeys(v: ServiceCatalog.Service, time: int -> string, i: nat)
    requires 6 <= i < 12
    ensures OnlyKey(ServiceTags(v, time), i)
  {
  }

  /** What a filter of services sees under each name. */
  lemma ServiceShows(v: ServiceCatalog.Service, time: int -> string)
    ensures var data := EncodeService(v, time);
      && Shows(data, "id", String(v.id)) && Shows(data, "url", String(v.url)) && Shows(data, "type", String(v.typ))
      && Shows(data, "name", if v.name != "" then String(v.name) else Null)
      && Shows(data, "description", if v.description != "" then String(v.description) else Null)
      && Shows(data, "meta", if v.meta != map[] then Object(FieldsOf(v.meta)) else Null)
      && Shows(data, "protocols", Array(EncodeProtocols(v.protocols)))
      && Shows(data, "representation", if v.representation != map[] then Object(FieldsOf(v.representation)) else Null)
      && Shows(data, "ttl", if v.ttl != 0 then Number(v.ttl as real) else Null)
      && Shows(data, "created", String(time(v.created))) && Shows(data, "updated", String(time(v.updated)))
      && Shows(data, "expires", if v.expires.Some? then String(time(v.expires.value)) else Null)
  {
    forall i: nat | i < 12
      ensures var t := ServiceTags(v, time)[i]; Shows(EncodeService(v, time), t.key, if t.present then t.val else Null)
    {
      ServiceKeys(v, time, i);
      ShowsTag(ServiceTags(v, time), i);
    }
    var tags := ServiceTags(v, time);
    assert tags[0].key == "id" && tags[1].key == "url" && tags[2].key == "type" && tags[3].key == "name";
    assert tags[4].key == "description" && tags[5].key == "meta" && tags[6].key == "protocols";
    assert tags[7].key == "representation" && tags[8].key == "ttl" && tags[9].key == "created";
    assert tags[10].key == "updated" && tags[11].key == "expires";
  }

  lemma FieldsOfAre(m: map<string, Json>)
    ensures PathFilter.DistinctKeys(FieldsOf(m))
    ensures forall f: Field :: f in FieldsOf(m) <==> f.key in m && m[f.key] == f.val
  {
    var fields, ks := FieldsOf(m), Order.SortedSeq(m.Keys);
    Order.SortedDistinct(ks);
    assert forall i | 0 <= i < |ks| :: ks[i] in ks && fields[i] == Field(ks[i], m[ks[i]]);
    forall f: Field | f.key in m && m[f.key] == f.val ensures f in fields {
      assert f.key in ks;
      var i :| 0 <= i < |ks| && ks[i] == f.key;
      assert fields[i] == f;
    }
  }

  /** What is under a name in an object made of a map. */
  lemma FieldsOfShow(m: map<string, Json>, key: string)
    ensures Shows(Object(FieldsOf(m)), key, if key in m then m[key] else Null)
  {
    FieldsOfAre(m);
    assert [key][1..] == [];
    if key in m { PathFilter.LookupOnly(FieldsOf(m), Field(key, m[key])); }
  }

  // ---- Which items a filter returns ----

  lemma MatcherIff<W>(encode: W -> Json, path: seq<string>, op: string, value: string, show: Json -> string, w: W)
    ensures Matcher(encode, path, op, value, show)(w) == Query.Match <==>
      PathFilter.Meets(encode(w), path, op, value, show)
  {
    PathFilter.MatchObjectIff(encode(w), path, op, value, show);
  }

  /** If a filter answers at all, it finds exactly the items that meet the condition, as often as they are there. */
  lemma FilterFinds<W>(items: seq<W>, encode: W -> Json, path: seq<string>, op: string, value: string,
                       show: Json -> string, w: W)
    ensures var found := Query.Answer(items, Matcher(encode, path, op, value, show));
      found.Ok? ==>
        multiset(found.value)[w] == if PathFilter.Meets(encode(w), path, op, value, show) then multiset(items)[w] else 0
  {
    var matches := Matcher(encode, path, op, value, show);
    Query.AnswerIff(items, matches);
    Query.MatchingCounts(items, matches, w);
    MatcherIff(encode, path, op, value, show, w);
  }

  /** For instance, devices filtered by name: those with that name, if strings are printed as they are. */
  lemma DevicesByName(d: SimpleDevice, time: int -> string, value: string, show: Json -> string)
    requires forall s :: show(String(s)) == s
    ensures PathFilter.Meets(EncodeDevice(d, time), ["name"], "equals", value, show) <==> d.device.name == value != ""
  {
    DeviceShows(d, time);
    var shown := if d.device.name != "" then String(d.device.name) else Null;
    ShownEquals(EncodeDevice(d, time), "name", shown, value, show);
  }

  lemma ShownEquals(data: Json, key: string, val: Json, value: string, show: Json -> string)
    requires Shows(data, key, val)
    ensures PathFilter.Meets(data, [key], "equals", value, show) <==> val != Null && show(val) == value
  {
    PathFilter.MatchObjectIff(data, [key], "equals", value, show);
    PathFilter.CompareMeans(show(val), value);
  }

  // ---- Paths into the lists of strings that the items hold ----

  /** A path that goes on after a list of strings gets stuck in it, unless the list is empty. */
  lemma StringsPanic(ss: seq<string>, path: seq<string>)
    requires path != []
    ensures PathFilter.RecursiveMatch(Array(Strings(ss)), path) ==
      if ss == [] then PathFilter.Returns(Null) else PathFilter.Panics
  {
    var i := PathFilter.FirstStop(Strings(ss), path[0]);
    assert ss != [] ==> Strings(ss)[0] == String(ss[0]);
  }

  lemma DevicePath(d: SimpleDevice, time: int -> string, path: seq<string>)
    requires |path| >= 2 && path[0] == "resources"
    ensures PathFilter.RecursiveMatch(EncodeDevice(d, time), path) ==
      if d.resourceUrls == [] then PathFilter.Returns(Null) else PathFilter.Panics
  {
    DeviceKeys(d, time, 10);
    TagPath(DeviceTags(d, time), 10, path);
    StringsPanic(d.resourceUrls, path[1..]);
  }

  /** A filter whose matcher panics on the items of one kind and says no to all others panics exactly if there is one.
      */
  lemma PanicsOnKind<W>(items: seq<W>, matches: W -> Query.Verdict, kind: W -> bool, page: int, perPage: int)
    requires forall w | w in items :: matches(w) == if kind(w) then Query.Panics else Query.NoMatch
    ensures Query.FilterPage(items, matches, page, perPage) == Err(Panicked) <==> exists w | w in items :: kind(w)
  {
    Query.AnswerIff(items, matches);
    if k: nat :| Query.FirstFault(items, matches, k, Query.Panics) { assert items[k] in items && kind(items[k]); }
    if w :| w in items && kind(w) {
      assert !Query.Answered(matches(w));
      assert forall k | 0 <= k < |items| :: items[k] in items && matches(items[k]) != Query.Unmatchable;
    }
  }

  /** Filtering devices by a path that goes on after "resources" panics exactly if some device has a resource, whatever
      the operation. */
  lemma DeviceFilterPanicsIff(store: map<string, Device>, time: int -> string, path: seq<string>, op: string,
                              value: string, show: Json -> string, page: int, perPage: int)
    requires |path| >= 2 && path[0] == "resources"
    ensures var matches := Matcher(DeviceEncoder(time), path, op, value, show);
      Query.FilterPage(Query.Project(Storage.InOrder(store), Simplify), matches, page, perPage) == Err(Panicked) <==>
      exists id | id in store :: store[id].resources != []
  {
    var matches := Matcher(DeviceEncoder(time), path, op, value, show);
    var kind := (d: SimpleDevice) => d.resourceUrls != [];
    var items := Query.Project(Storage.InOrder(store), Simplify);
    forall d | d in items ensures matches(d) == if kind(d) then Query.Panics else Query.NoMatch {
      DevicePath(d, time, path);
    }
    PanicsOnKind(items, matches, kind, page, perPage);
    SimplifiedValues(store);
  }

  lemma SimplifiedValues(store: map<string, Device>)
    ensures (exists d | d in Query.Project(Storage.InOrder(store), Simplify) :: d.resourceUrls != []) <==>
      exists id | id in store :: store[id].resources != []
  {
    Storage.InOrderValues(store);
    SimplifiedList(Storage.InOrder(store), Query.Project(Storage.InOrder(store), Simplify));
  }

  lemma SimplifiedList(values: seq<Device>, items: seq<SimpleDevice>)
    requires |items| == |values| && forall k | 0 <= k < |values| :: items[k] == Simplify(values[k])
    ensures (exists d | d in items :: d.resourceUrls != []) <==> exists v | v in values :: v.resources != []
  {
    if d :| d in items && d.resourceUrls != [] {
      var k :| 0 <= k < |items| && items[k] == d;
      assert |d.resourceUrls| == |values[k].resources| && values[k] in values;
    }
    if v :| v in values && v.resources != [] {
      var k :| 0 <= k < |values| && values[k] == v;
      assert |items[k].resourceUrls| == |v.resources| && items[k] in items;
    }
  }

  // ---- Methods of the protocols of a resource ----

  predicate AnyMethods(ps: seq<Protocol>) { exists p | p in ps :: p.methods != [] }

  lemma ProtocolHolds(p: Protocol)
    ensures PathFilter.Holds(EncodeProtocol(p), "methods") <==> p.methods != []
    ensures p.methods != [] ==>
      PathFilter.Lookup(EncodeProtocol(p).fields, "methods") == Some(Array(Strings(p.methods)))
  {
    ProtocolKeys(p, 2);
    LookupTag(ProtocolTags(p), 2);
  }

  lemma ProtocolPath(p: Protocol, path: seq<string>)
    requires |path| >= 2 && path[0] == "methods" && p.methods != []
    ensures PathFilter.RecursiveMatch(EncodeProtocol(p), path) == PathFilter.Panics
  {
    ProtocolHolds(p);
    StringsPanic(p.methods, path[1..]);
  }

  /** The search through the protocols stops at the first with methods, or at the end. */
  lemma ProtocolsStop(ps: seq<Protocol>)
    ensures var i := PathFilter.FirstStop(EncodeProtocols(ps), "methods");
      (i < |ps| <==> AnyMethods(ps)) && (i < |ps| ==> ps[i].methods != [])
  {
    var items := EncodeProtocols(ps);
    forall k | 0 <= k < |ps|
      ensures items[k].Object? && (PathFilter.Holds(items[k], "methods") <==> ps[k].methods != [])
    {
      ProtocolHolds(ps[k]);
    }
    if p :| p in ps && p.methods != [] {
      var k :| 0 <= k < |ps| && ps[k] == p;
      assert PathFilter.Holds(items[k], "methods");
    }
  }

  /** So the path gets stuck in the methods of the first protocol that has any. */
  lemma ProtocolsPath(ps: seq<Protocol>, path: seq<string>)
    requires |path| >= 2 && path[0] == "methods"
    ensures PathFilter.RecursiveMatch(Array(EncodeProtocols(ps)), path) ==
      if AnyMethods(ps) then PathFilter.Panics else PathFilter.Returns(Null)
  {
    var i := PathFilter.FirstStop(EncodeProtocols(ps), path[0]);
    ProtocolsStop(ps);
    if i < |ps| { ProtocolPath(ps[i], path); }
  }

  lemma ResourcePath(r: Resource, path: seq<string>)
    requires |path| >= 3 && path[0] == "protocols" && path[1] == "methods"
    ensures PathFilter.RecursiveMatch(EncodeResource(r), path) ==
      if AnyMethods(r.protocols) then PathFilter.Panics else PathFilter.Returns(Null)
  {
    ResourceKeys(r, 5);
    ResourceProtocols(r);
    TagLeads(ResourceTags(r), 5, Array(EncodeProtocols(r.protocols)), path);
    ProtocolsPath(r.protocols, path[1..]);
  }

  lemma ResourceProtocols(r: Resource)
    ensures |ResourceTags(r)| == 8 && ResourceTags(r)[5] == Tag("protocols", true, Array(EncodeProtocols(r.protocols)))
  {
  }

  /** Filtering resources by a path that goes on after "protocols.methods" panics exactly if some stored resource has a
      protocol with methods. */
  lemma ResourceFilterPanicsIff(s: ResourceCatalog.State, path: seq<string>, op: string, value: string,
                                show: Json -> string, page: int, perPage: int)
    requires ResourceCatalog.RidExact(s.store, s.rid)
    requires |path| >= 3 && path[0] == "protocols" && path[1] == "methods"
    ensures var matches := Matcher(ResourceEncoder(), path, op, value, show);
      ResourceQueries.FilterResourcesSpec(s, matches, page, perPage) == Err(Panicked) <==>
      exists r :: ResourceQueries.Stored(s.store, r) && AnyMethods(r.protocols)
  {
    var matches := Matcher(ResourceEncoder(), path, op, value, show);
    var kind := (r: Resource) => AnyMethods(r.protocols);
    var all := ResourceQueries.ResourcesInOrder(s.store, s.rid);
    forall r | r in all ensures matches(r) == if kind(r) then Query.Panics else Query.NoMatch {
      ResourcePath(r, path);
    }
    PanicsOnKind(all, matches, kind, page, perPage);
    ResourceQueries.FilterResourcesExact(s, matches, page, perPage);
    ResourceQueries.ListingExact(s.store, s.rid);
  }

  lemma ServicePath(v: ServiceCatalog.Service, time: int -> string, path: seq<string>)
    requires |path| >= 3 && path[0] == "protocols" && path[1] == "methods"
    ensures PathFilter.RecursiveMatch(EncodeService(v, time), path) ==
      if AnyMethods(v.protocols) then PathFilter.Panics else PathFilter.Returns(Null)
  {
    ServiceKeys(v, time, 6);
    ServiceProtocols(v, time);
    TagLeads(ServiceTags(v, time), 6, Array(EncodeProtocols(v.protocols)), path);
    ProtocolsPath(v.protocols, path[1..]);
  }

  lemma ServiceProtocols(v: ServiceCatalog.Service, time: int -> string)
    ensures |ServiceTags(v, time)| == 12
    ensures ServiceTags(v, time)[6] == Tag("protocols", true, Array(EncodeProtocols(v.protocols)))
  {
  }

  lemma AnyStored<V>(store: map<string, V>, kind: V -> bool)
    ensures (exists v | v in Storage.InOrder(store) :: kind(v)) <==> exists id | id in store :: kind(store[id])
  {
    Storage.InOrderValues(store);
    if id :| id in store && kind(store[id]) { assert store[id] in Storage.InOrder(store); }
  }

  lemma ServiceMatches(v: ServiceCatalog.Service, time: int -> string, path: seq<string>, op: string, value: string,
                       show: Json -> string)
    requires |path| >= 3 && path[0] == "protocols" && path[1] == "methods"
    ensures Matcher(ServiceEncoder(time), path, op, value, show)(v) ==
      if AnyMethods(v.protocols) then Query.Panics else Query.NoMatch
  {
    ServicePath(v, time, path);
    var encode := ServiceEncoder(time);
    assert encode(v) == EncodeService(v, time);
    assert Matcher(encode, path, op, value, show)(v) ==
      VerdictOf(PathFilter.MatchObject(encode(v), path, op, value, show));
  }

  /** Filtering services by such a path panics exactly if some stored service has a protocol with methods. */
  lemma ServiceFilterPanicsIff(store: map<string, ServiceCatalog.Service>, time: int -> string, path: seq<string>,
                               op: string, value: string, show: Json -> string, page: int, perPage: int)
    requires |path| >= 3 && path[0] == "protocols" && path[1] == "methods"
    ensures var matches := Matcher(ServiceEncoder(time), path, op, value, show);
      Query.FilterPage(Storage.InOrder(store), matches, page, perPage) == Err(Panicked) <==>
      exists id | id in store :: AnyMethods(store[id].protocols)
  {
    var matches := Matcher(ServiceEncoder(time), path, op, value, show);
    var kind := (v: ServiceCatalog.Service) => AnyMethods(v.protocols);
    var all := Storage.InOrder(store);
    forall v | v in all ensures matches(v) == if kind(v) then Query.Panics else Query.NoMatch {
      ServiceMatches(v, time, path, op, value, show);
    }
    PanicsOnKind(all, matches, kind, page, perPage);
    AnyStored(store, kind);
  }
}
