/** The gateway's configuration: which readings are published, and on which topics. */
module MqttTopics {
  import opened Prelude

  const MQTT := "MQTT"

  datatype Binding = Binding(typ: string, pubTopic: string, subTopic: string)

  datatype Resource = Resource(name: string, protocols: seq<Binding>, agentType: string)

  datatype Device = Device(name: string, resources: seq<Resource>)

  function ResourceId(d: Device, r: Resource): string { d.name + "/" + r.name }

  // ---- The topic maps ----

  /** One MQTT protocol of a resource. */
  datatype Use = Use(rid: string, pub: string, sub: string)

  function UseOf(prefix: string, rid: string, p: Binding): Use {
    Use(rid, if p.pubTopic != "" then p.pubTopic else prefix + "/" + rid, p.subTopic)
  }

  function UsesOfResource(prefix: string, rid: string, ps: seq<Binding>): seq<Use> {
    if ps == [] then []
    else
      var p := ps[|ps| - 1];
      UsesOfResource(prefix, rid, ps[..|ps| - 1]) + (if p.typ == MQTT then [UseOf(prefix, rid, p)] else [])
  }

  function UsesOfDevice(prefix: string, d: Device, rs: seq<Resource>): seq<Use> {
    if rs == [] then []
    else
      var r := rs[|rs| - 1];
      UsesOfDevice(prefix, d, rs[..|rs| - 1]) + UsesOfResource(prefix, ResourceId(d, r), r.protocols)
  }

  /** Every MQTT protocol in the configuration, in its order. */
  function Uses(prefix: string, ds: seq<Device>): seq<Use> {
    if ds == [] then []
    else
      var d := ds[|ds| - 1];
      Uses(prefix, ds[..|ds| - 1]) + UsesOfDevice(prefix, d, d.resources)
  }

  /** Where the readings of a resource go: the last use of the resource decides. */
  function PubTopics(uses: seq<Use>): map<string, string> {
    if uses == [] then map[]
    else PubTopics(uses[..|uses| - 1])[uses[|uses| - 1].rid := uses[|uses| - 1].pub]
  }

  /** Which resource a message is for: the last use of the topic decides. */
  function SubTopics(uses: seq<Use>): map<string, string> {
    if uses == [] then map[]
    else
      var u := uses[|uses| - 1];
      if u.sub != "" then SubTopics(uses[..|uses| - 1])[u.sub := u.rid] else SubTopics(uses[..|uses| - 1])
  }

  // The uses come in the order of the configuration: device by device, and within it resource by resource and
  // protocol by protocol.

  lemma {:induction false} ResourceUsesSplit(prefix: string, rid: string, a: seq<Binding>, b: seq<Binding>)
    ensures UsesOfResource(prefix, rid, a + b) == UsesOfResource(prefix, rid, a) + UsesOfResource(prefix, rid, b)
    decreases |b|
  {
    if b == [] {
      assert a + b == a;
    } else {
      var front := b[..|b| - 1];
      ResourceUsesSplit(prefix, rid, a, front);
      assert (a + b)[..|a + b| - 1] == a + front;
    }
  }

  lemma {:induction false} DeviceUsesSplit(prefix: string, d: Device, a: seq<Resource>, b: seq<Resource>)
    ensures UsesOfDevice(prefix, d, a + b) == UsesOfDevice(prefix, d, a) + UsesOfDevice(prefix, d, b)
    decreases |b|
  {
    if b == [] {
      assert a + b == a;
    } else {
      var front := b[..|b| - 1];
      DeviceUsesSplit(prefix, d, a, front);
      assert (a + b)[..|a + b| - 1] == a + front;
    }
  }

  lemma UsesNext(prefix: string, ds: seq<Device>, d: Device)
    ensures Uses(prefix, ds + [d]) == Uses(prefix, ds) + UsesOfDevice(prefix, d, d.resources)
  {
    assert (ds + [d])[..|ds|] == ds;
  }

  lemma {:induction false} UsesSplit(prefix: string, a: seq<Device>, b: seq<Device>)
    ensures Uses(prefix, a + b) == Uses(prefix, a) + Uses(prefix, b)
    decreases |b|
  {
    if b == [] {
      assert a + b == a;
    } else {
      UsesSplit(prefix, a, b[..|b| - 1]);
      UsesSplitNext(prefix, a, b[..|b| - 1], b[|b| - 1], b);
    }
  }

  lemma UsesSplitNext(prefix: string, a: seq<Device>, front: seq<Device>, d: Device, b: seq<Device>)
    requires b == front + [d] && Uses(prefix, a + front) == Uses(prefix, a) + Uses(prefix, front)
    ensures Uses(prefix, a + b) == Uses(prefix, a) + Uses(prefix, b)
  {
    Associate(a, front, d);
    UsesNext(prefix, a + front, d);
    UsesNext(prefix, front, d);
  }

  lemma Associate(a: seq<Device>, b: seq<Device>, d: Device)
    ensures a + (b + [d]) == a + b + [d]
  {
  }

  /** Every use comes from an MQTT protocol in the configuration, and says what that says. */
  ghost predicate Configured(prefix: string, ds: seq<Device>, u: Use, d: Device, r: Resource, p: Binding) {
    && d in ds && r in d.resources && p in r.protocols && p.typ == "MQTT"
    && u.rid == d.name + "/" + r.name && u.sub == p.subTopic
    && u.pub == if p.pubTopic != "" then p.pubTopic else prefix + "/" + d.name + "/" + r.name
  }

  lemma {:induction false} ResourceUsesAre(prefix: string, rid: string, ps: seq<Binding>, u: Use)
    ensures u in UsesOfResource(prefix, rid, ps) <==>
      exists p | p in ps :: p.typ == MQTT && u == UseOf(prefix, rid, p)
  {
    if ps == [] {
    } else {
      ResourceUsesAre(prefix, rid, ps[..|ps| - 1], u);
      assert ps == ps[..|ps| - 1] + [ps[|ps| - 1]];
    }
  }

  lemma {:induction false} DeviceUsesAre(prefix: string, d: Device, rs: seq<Resource>, u: Use)
    ensures u in UsesOfDevice(prefix, d, rs) <==>
      exists r | r in rs :: u in UsesOfResource(prefix, ResourceId(d, r), r.protocols)
  {
    if rs == [] {
    } else {
      DeviceUsesAre(prefix, d, rs[..|rs| - 1], u);
      assert rs == rs[..|rs| - 1] + [rs[|rs| - 1]];
    }
  }

  lemma {:induction false} UsesAre(prefix: string, ds: seq<Device>, u: Use)
    ensures u in Uses(prefix, ds) <==> exists d | d in ds :: u in UsesOfDevice(prefix, d, d.resources)
  {
    if ds == [] {
    } else {
      UsesAre(prefix, ds[..|ds| - 1], u);
      assert ds == ds[..|ds| - 1] + [ds[|ds| - 1]];
    }
  }

  /** The uses are the MQTT protocols of the configuration: the topic to publish on is the configured one or, if there
      is none, made of the prefix and the names of the device and the resource. */
  lemma UsesIff(prefix: string, ds: seq<Device>, u: Use)
    ensures u in Uses(prefix, ds) <==> exists d, r, p :: Configured(prefix, ds, u, d, r, p)
  {
    UsesAre(prefix, ds, u);
    if u in Uses(prefix, ds) {
      var d :| d in ds && u in UsesOfDevice(prefix, d, d.resources);
      DeviceUsesAre(prefix, d, d.resources, u);
      var r :| r in d.resources && u in UsesOfResource(prefix, ResourceId(d, r), r.protocols);
      ResourceUsesAre(prefix, ResourceId(d, r), r.protocols, u);
      var p :| p in r.protocols && p.typ == MQTT && u == UseOf(prefix, ResourceId(d, r), p);
      UseOfIs(prefix, u, d, r, p);
      assert Configured(prefix, ds, u, d, r, p);
    }
    if d, r, p :| Configured(prefix, ds, u, d, r, p) {
      UseOfIs(prefix, u, d, r, p);
      ResourceUsesAre(prefix, ResourceId(d, r), r.protocols, u);
      DeviceUsesAre(prefix, d, d.resources, u);
    }
  }

  lemma UseOfIs(prefix: string, u: Use, d: Device, r: Resource, p: Binding)
    ensures u == UseOf(prefix, ResourceId(d, r), p) <==>
      && u.rid == d.name + "/" + r.name && u.sub == p.subTopic
      && u.pub == if p.pubTopic != "" then p.pubTopic else prefix + "/" + d.name + "/" + r.name
  {
    assert prefix + "/" + (d.name + "/" + r.name) == prefix + "/" + d.name + "/" + r.name;
  }

  /** So the topic of a resource is one that the configuration gives it. */
  lemma TopicConfigured(prefix: string, ds: seq<Device>, rid: string)
    requires rid in PubTopics(Uses(prefix, ds))
    ensures exists d, r, p | d in ds && r in d.resources && p in r.protocols ::
      && p.typ == "MQTT" && d.name + "/" + r.name == rid
      && PubTopics(Uses(prefix, ds))[rid] == if p.pubTopic != "" then p.pubTopic else prefix + "/" + rid
  {
    var uses := Uses(prefix, ds);
    PubTopicsIff(uses, rid);
    var k :| 0 <= k < |uses| && uses[k].rid == rid && PubTopics(uses)[rid] == uses[k].pub;
    assert uses[k] in uses;
    UsesIff(prefix, ds, uses[k]);
    var d, r, p :| Configured(prefix, ds, uses[k], d, r, p);
    assert prefix + "/" + (d.name + "/" + r.name) == prefix + "/" + d.name + "/" + r.name;
    assert d in ds && r in d.resources && p in r.protocols;
  }

  /** A resource has a topic exactly if it is used with MQTT, and the topic is that of its last use. */
  lemma {:induction false} PubTopicsIff(uses: seq<Use>, rid: string)
    ensures rid in PubTopics(uses) <==> exists u | u in uses :: u.rid == rid
    ensures rid in PubTopics(uses) ==> exists k | 0 <= k < |uses| ::
      uses[k].rid == rid && PubTopics(uses)[rid] == uses[k].pub && forall j | k < j < |uses| :: uses[j].rid != rid
  {
    if uses == [] {
    } else {
      var front, last := uses[..|uses| - 1], uses[|uses| - 1];
      assert uses == front + [last];
      PubTopicsIff(front, rid);
      if last.rid == rid {
        assert uses[|uses| - 1].rid == rid;
      } else if rid in PubTopics(front) {
        var k :| 0 <= k < |front| &&
          front[k].rid == rid && PubTopics(front)[rid] == front[k].pub &&
          forall j | k < j < |front| :: front[j].rid != rid;
        assert uses[k].rid == rid;
      }
    }
  }

  /** A topic that two resources subscribe to only reaches the later one. */
  lemma {:induction false} SubTopicsIff(uses: seq<Use>, topic: string)
    ensures topic in SubTopics(uses) <==> topic != "" && exists u | u in uses :: u.sub == topic
    ensures topic in SubTopics(uses) ==> exists k | 0 <= k < |uses| ::
      uses[k].sub == topic && SubTopics(uses)[topic] == uses[k].rid && forall j | k < j < |uses| :: uses[j].sub != topic
  {
    if uses == [] {
    } else {
      var front, last := uses[..|uses| - 1], uses[|uses| - 1];
      assert uses == front + [last];
      SubTopicsIff(front, topic);
      if last.sub == topic {
        assert uses[|uses| - 1].sub == topic;
      } else if topic in SubTopics(front) {
        var k :| 0 <= k < |front| && front[k].sub == topic && SubTopics(front)[topic] == front[k].rid &&
          forall j | k < j < |front| :: front[j].sub != topic;
        assert uses[k].sub == topic;
      }
    }
  }

  class Connector {
    var pubTopics: map<string, string>
    var subTopicsRvsd: map<string, string>
    var requiresMqtt: bool
    ghost var seen: seq<Use>

    /** The maps say what the uses met so far call for. */
    ghost predicate Valid()
      reads this
    {
      pubTopics == PubTopics(seen) && subTopicsRvsd == SubTopics(seen) && (requiresMqtt <==> seen != [])
    }

    /** There is a connector to speak of exactly if some resource uses MQTT. */
    constructor (prefix: string, devices: seq<Device>)
      ensures Valid() && seen == Uses(prefix, devices)
      ensures pubTopics == PubTopics(Uses(prefix, devices)) && subTopicsRvsd == SubTopics(Uses(prefix, devices))
      ensures requiresMqtt <==> exists d, r, p :: d in devices && r in d.resources && p in r.protocols && p.typ == MQTT
    {
      pubTopics, subTopicsRvsd, requiresMqtt, seen := map[], map[], false, [];
      new;
      for i := 0 to |devices|
        invariant Valid() && seen == Uses(prefix, devices[..i])
      {
        assert devices[..i + 1][..i] == devices[..i];
        AddDevice(prefix, devices[i]);
      }
      assert devices[..|devices|] == devices;
      SomeUse(prefix, devices);
    }

    method AddDevice(prefix: string, d: Device)
      requires Valid()
      modifies this
      ensures Valid() && seen == old(seen) + UsesOfDevice(prefix, d, d.resources)
    {
      assert old(seen) + [] == old(seen);
      for i := 0 to |d.resources|
        invariant Valid() && seen == old(seen) + UsesOfDevice(prefix, d, d.resources[..i])
      {
        assert d.resources[..i + 1][..i] == d.resources[..i];
        AddResource(prefix, ResourceId(d, d.resources[i]), d.resources[i].protocols);
      }
      assert d.resources[..|d.resources|] == d.resources;
    }

    method AddResource(prefix: string, rid: string, protocols: seq<Binding>)
      requires Valid()
      modifies this
      ensures Valid() && seen == old(seen) + UsesOfResource(prefix, rid, protocols)
    {
      assert old(seen) + [] == old(seen);
      for i := 0 to |protocols|
        invariant Valid() && seen == old(seen) + UsesOfResource(prefix, rid, protocols[..i])
      {
        assert protocols[..i + 1][..i] == protocols[..i];
        if protocols[i].typ == MQTT { AddUse(prefix, rid, protocols[i]); }
      }
      assert protocols[..|protocols|] == protocols;
    }

    method AddUse(prefix: string, rid: string, p: Binding)
      requires Valid()
      modifies this
      ensures Valid() && seen == old(seen) + [UseOf(prefix, rid, p)]
    {
      requiresMqtt := true;
      var pub := if p.pubTopic != "" then p.pubTopic else prefix + "/" + rid;
      pubTopics := pubTopics[rid := pub];
      if p.subTopic != "" { subTopicsRvsd := subTopicsRvsd[p.subTopic := rid]; }
      seen := seen + [UseOf(prefix, rid, p)];
      assert seen[..|seen| - 1] == old(seen);
    }
  }

  lemma {:induction false} ResourceUses(prefix: string, rid: string, ps: seq<Binding>)
    ensures forall u | u in UsesOfResource(prefix, rid, ps) :: u.rid == rid
    ensures UsesOfResource(prefix, rid, ps) != [] <==> exists p | p in ps :: p.typ == MQTT
  {
    if ps == [] {
    } else {
      ResourceUses(prefix, rid, ps[..|ps| - 1]);
      assert ps == ps[..|ps| - 1] + [ps[|ps| - 1]];
    }
  }

  predicate UsesMqtt(r: Resource) { exists p | p in r.protocols :: p.typ == MQTT }

  lemma {:induction false} DeviceUses(prefix: string, d: Device, rs: seq<Resource>)
    ensures forall r | r in rs && UsesMqtt(r) ::
      exists u | u in UsesOfDevice(prefix, d, rs) :: u.rid == ResourceId(d, r)
    ensures UsesOfDevice(prefix, d, rs) != [] <==> exists r | r in rs :: UsesMqtt(r)
  {
    if rs == [] {
    } else {
      var front, last := rs[..|rs| - 1], rs[|rs| - 1];
      assert rs == front + [last];
      DeviceUses(prefix, d, front);
      var more := UsesOfResource(prefix, ResourceId(d, last), last.protocols);
      ResourceUses(prefix, ResourceId(d, last), last.protocols);
      if more != [] { assert more[0] in UsesOfDevice(prefix, d, rs); }
    }
  }

  lemma {:induction false} AllUses(prefix: string, ds: seq<Device>)
    ensures forall d, r | d in ds && r in d.resources && UsesMqtt(r) ::
      exists u | u in Uses(prefix, ds) :: u.rid == ResourceId(d, r)
    ensures Uses(prefix, ds) != [] <==> exists d, r :: d in ds && r in d.resources && UsesMqtt(r)
  {
    if ds == [] {
    } else {
      var front, last := ds[..|ds| - 1], ds[|ds| - 1];
      assert ds == front + [last];
      AllUses(prefix, front);
      DeviceUses(prefix, last, last.resources);
    }
  }

  lemma SomeUse(prefix: string, ds: seq<Device>)
    ensures Uses(prefix, ds) != [] <==>
      exists d, r, p :: d in ds && r in d.resources && p in r.protocols && p.typ == MQTT
  {
    AllUses(prefix, ds);
    if d, r :| d in ds && r in d.resources && UsesMqtt(r) {
      var p :| p in r.protocols && p.typ == MQTT;
      assert d in ds && r in d.resources && p in r.protocols && p.typ == MQTT;
    }
    if d, r, p :| d in ds && r in d.resources && p in r.protocols && p.typ == MQTT { assert UsesMqtt(r); }
  }

  // ---- Which readings are published ----

  function FirstNamed(d: Device, rs: seq<Resource>, rid: string): Option<Resource> {
    if rs == [] then None
    else if ResourceId(d, rs[0]) == rid then Some(rs[0])
    else FirstNamed(d, rs[1..], rid)
  }

  /** The first resource in the configuration with the given id. */
  function FindResource(ds: seq<Device>, rid: string): Option<Resource> {
    if ds == [] then None
    else
      var r := FirstNamed(ds[0], ds[0].resources, rid);
      if r.Some? then r else FindResource(ds[1..], rid)
  }

  lemma {:induction false} FirstNamedIs(d: Device, rs: seq<Resource>, rid: string)
    ensures FirstNamed(d, rs, rid).Some? ==>
      FirstNamed(d, rs, rid).value in rs && ResourceId(d, FirstNamed(d, rs, rid).value) == rid
  {
    if rs == [] {
    } else {
      FirstNamedIs(d, rs[1..], rid);
    }
  }

  lemma {:induction false} FindResourceIs(ds: seq<Device>, rid: string)
    ensures FindResource(ds, rid).Some? ==>
      exists d | d in ds ::
        FindResource(ds, rid).value in d.resources && ResourceId(d, FindResource(ds, rid).value) == rid
  {
    if ds == [] {
    } else {
      FirstNamedIs(ds[0], ds[0].resources, rid);
      FindResourceIs(ds[1..], rid);
    }
  }

  /** Readings of timer and service agents are offered to the publisher, once for each MQTT protocol. */
  function MqttCount(ps: seq<Binding>): nat {
    if ps == [] then 0 else MqttCount(ps[1..]) + (if ps[0].typ == MQTT then 1 else 0)
  }

  function Copies(ds: seq<Device>, rid: string): nat {
    var r := FindResource(ds, rid);
    if r.None? || r.value.agentType !in ["timer", "service"] then 0 else MqttCount(r.value.protocols)
  }

  /** The types of the protocols, in order. */
  function Types(ps: seq<Binding>): (types: seq<string>)
    ensures |types| == |ps| && forall k | 0 <= k < |ps| :: types[k] == ps[k].typ
  {
    seq(|ps|, k requires 0 <= k < |ps| => ps[k].typ)
  }

  lemma {:induction false} MqttCountIs(ps: seq<Binding>)
    ensures MqttCount(ps) == multiset(Types(ps))["MQTT"]
  {
    if ps == [] {
    } else {
      MqttCountIs(ps[1..]);
      assert Types(ps) == [ps[0].typ] + Types(ps[1..]);
    }
  }

  /** The readings of a resource are offered if its agent is a timer or a service, once for each of its MQTT protocols.
      */
  lemma CopiesAre(ds: seq<Device>, rid: string)
    ensures var found := FindResource(ds, rid);
      Copies(ds, rid) ==
      if found.Some? && (found.value.agentType == "timer" || found.value.agentType == "service")
      then multiset(Types(found.value.protocols))["MQTT"] else 0
  {
    var found := FindResource(ds, rid);
    if found.Some? { MqttCountIs(found.value.protocols); }
  }

  /** A resource is found exactly if some device has one with that id. */
  lemma {:induction false} FindResourceNone(ds: seq<Device>, rid: string)
    ensures FindResource(ds, rid).None? <==>
      forall d, r | d in ds && r in d.resources :: d.name + "/" + r.name != rid
  {
    if ds == [] {
    } else {
      FirstNamedNone(ds[0], ds[0].resources, rid);
      FindResourceNone(ds[1..], rid);
      assert ds == [ds[0]] + ds[1..];
    }
  }

  lemma {:induction false} FirstNamedNone(d: Device, rs: seq<Resource>, rid: string)
    ensures FirstNamed(d, rs, rid).None? <==> forall r | r in rs :: d.name + "/" + r.name != rid
  {
    if rs == [] {
    } else {
      FirstNamedNone(d, rs[1..], rid);
      assert rs == [rs[0]] + rs[1..];
    }
  }

  lemma {:induction false} CountsUses(ps: seq<Binding>)
    ensures MqttCount(ps) > 0 ==> exists p | p in ps :: p.typ == MQTT
  {
    if ps == [] {
    } else {
      CountsUses(ps[1..]);
    }
  }

  /** Every reading that is offered has a topic. */
  lemma OfferedHasTopic(prefix: string, ds: seq<Device>, rid: string)
    requires Copies(ds, rid) > 0
    ensures rid in PubTopics(Uses(prefix, ds))
  {
    FindResourceIs(ds, rid);
    var r := FindResource(ds, rid).value;
    CountsUses(r.protocols);
    var d :| d in ds && r in d.resources && ResourceId(d, r) == rid;
    assert UsesMqtt(r);
    AllUses(prefix, ds);
    PubTopicsIff(Uses(prefix, ds), rid);
  }
}
