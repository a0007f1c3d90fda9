/** The host's notes of a node's LED zones against the zones the node runs. */
module ZoneShadow {
  import opened Protocol
  import opened SerialTransport
  import opened CommandParser
  import opened FrameStreams
  import opened RouterTables
  import opened Neopixel
  import opened LedEffects
  import opened LedEngine
  import opened DeviceManager
  import opened ZoneApi
  import OtaSenders
  import OtaDelivery
  import RouterRuns

  // ---- the node -----------------------------------------------------------------------

  /** The zone table's entries as `led_effects_set_zone` and `led_effects_clear_zone` leave
      them. */
  function WithZone(table: seq<Zone>, id: byte, z: Zone): seq<Zone> {
    if id < LED_MAX_ZONES && id < |table| then table[id := z] else table
  }

  /** The zone fields of a LED_ZONE_SET payload. */
  function CfgOf(payload: seq<byte>): ZoneCfg
    requires |payload| >= 13
  {
    ZoneCfg(true, payload[1], payload[2], payload[3], payload[4],
            Rgb(payload[5], payload[6], payload[7]), Rgb(payload[8], payload[9], payload[10]),
            payload[11], payload[12])
  }

  /** The node's dispatch of a packet, as far as the zone table goes. */
  function HandleZones(table: seq<Zone>, p: Packet): seq<Zone> {
    if p.command == LED_ZONE_SET && |p.payload| >= 13 then
      WithZone(table, p.payload[0], Zone(CfgOf(p.payload), 0))
    else if p.command == LED_ZONE_CLR && |p.payload| >= 1 then WithZone(table, p.payload[0], EMPTY)
    else table
  }

  /** n pixels of the first strip from lo on, as far as it goes, take a colour. */
  ghost predicate Stretch(was: seq<seq<Rgb>>, now: seq<seq<Rgb>>, lo: int, n: int, c: Rgb) {
    Filled(was, now, 0, lo, lo + n, c)
  }

  /** The LED cases of `dispatch_packet`: direct pixel commands go to the first strip. */
  method DispatchLeds(engine: Engine, p: Packet)
    requires engine.Valid()
    modifies engine.zones, engine.strips
    ensures engine.Valid() && engine.zones[..] == HandleZones(old(engine.zones[..]), p)
    ensures old(engine.strips.InSync()) ==> engine.strips.InSync()
    ensures var was, now, d := old(engine.strips.pending), engine.strips.pending, p.payload;
      if p.command == 0x50 && |d| >= 4 then Stretch(was, now, d[0], 1, Rgb(d[1], d[2], d[3]))
      else if p.command == 0x51 && |d| >= 3 then
        if was == [] then now == was else Stretch(was, now, 0, |was[0]|, Rgb(d[0], d[1], d[2]))
      else if p.command == 0x52 && |d| >= 5 then Stretch(was, now, d[0], d[1], Rgb(d[2], d[3], d[4]))
      else p.command != 0x54 ==> now == was
    ensures p.command == 0x54 ==>
      var was, now, d := old(engine.strips.pending), engine.strips.pending, p.payload;
      if |d| >= 1 && d[0] < LED_MAX_ZONES && old(engine.zones[..])[d[0]].cfg.active
      then var c := old(engine.zones[..])[d[0]].cfg; Filled(was, now, c.stripIdx, c.start, c.start + c.count, BLACK)
      else now == was
  {
    var n, d := |p.payload|, p.payload;
    if p.command == NEOPIXEL_SET {
      if n >= 4 {
        var _ := engine.strips.Set(0, d[0], Rgb(d[1], d[2], d[3]));
      }
    } else if p.command == NEOPIXEL_SET_ALL {
      if n >= 3 {
        var _ := engine.strips.SetAll(0, Rgb(d[0], d[1], d[2]));
      }
    } else if p.command == NEOPIXEL_SET_RANGE {
      if n >= 5 {
        var _ := engine.strips.SetRange(0, d[0], d[1], Rgb(d[2], d[3], d[4]));
      }
    } else if p.command == LED_ZONE_SET {
      if n >= 13 {
        var _ := engine.SetZone(d[0], CfgOf(d));
      }
    } else if p.command == LED_ZONE_CLR {
      if n >= 1 {
        var _ := engine.ClearZone(d[0]);
      }
    }
  }

  /** What happens to the node's table: a written value, or a round of the effects task. */
  datatype Input = Written(data: seq<byte>) | TickPasses

  /** The precondition of a round: every active zone can be rendered. */
  predicate Tickable(table: seq<Zone>) {
    forall k :: 0 <= k < |table| && table[k].cfg.active ==> Renderable(table[k].cfg)
  }

  function TickAll(table: seq<Zone>): seq<Zone>
    requires Tickable(table)
  {
    seq(|table|, k requires 0 <= k < |table| => if table[k].cfg.active then Ticked(table[k]) else table[k])
  }

  function Takes(table: seq<Zone>, i: Input): seq<Zone>
    requires i.TickPasses? ==> Tickable(table)
  {
    match i
    case Written(data) => (match Decode(data) case Some(p) => HandleZones(table, p) case None => table)
    case TickPasses => TickAll(table)
  }

  /** The inputs never make the firmware divide by the length of an empty zone. */
  predicate Ran(inputs: seq<Input>)
    decreases |inputs|, 0
  {
    inputs == [] ||
    (var front := inputs[..|inputs| - 1];
      Ran(front) && (inputs[|inputs| - 1].TickPasses? ==> Tickable(NodeRun(front))))
  }

  function NodeRun(inputs: seq<Input>): (table: seq<Zone>)
    requires Ran(inputs)
    ensures |table| == LED_MAX_ZONES
    decreases |inputs|, 1
  {
    if inputs == [] then seq(LED_MAX_ZONES, _ => EMPTY)
    else Takes(NodeRun(inputs[..|inputs| - 1]), inputs[|inputs| - 1])
  }

  function WritesOf(inputs: seq<Input>): seq<seq<byte>> {
    if inputs == [] then []
    else
      var i := inputs[|inputs| - 1];
      WritesOf(inputs[..|inputs| - 1]) + (if i.Written? then [i.data] else [])
  }

  /** The zones the node runs. */
  function ActiveZones(table: seq<Zone>): map<int, ZoneCfg> {
    map i | 0 <= i < |table| && table[i].cfg.active :: table[i].cfg
  }

  // ---- agreement ----------------------------------------------------------------------

  /** A requested zone as the node is to run it. */
  function AsCfg(z: LedZone): ZoneCfg
    requires Packable(SetZone(z))
  {
    var vs := Fields(z);
    assert forall i :: 0 <= i < 13 ==> ByteSized(vs[i]);
    ZoneCfg(true, vs[1], vs[2], vs[3], vs[4], Rgb(vs[5], vs[6], vs[7]), Rgb(vs[8], vs[9], vs[10]), vs[11], vs[12])
  }

  /** Packing and unpacking: every field arrives where it was asked for. */
  lemma ZoneRoundTrip(z: LedZone)
    requires Packable(SetZone(z))
    ensures var p := RequestPacket(SetZone(z)).payload;
      p == [z.zoneId, z.strip, z.start, z.count, z.effect, z.color[0], z.color[1], z.color[2],
            z.color2[0], z.color2[1], z.color2[2], z.brightness, z.speed] &&
      RequestPacket(SetZone(z)).command == 0x53 && |p| == 13 && p[0] == z.zoneId && CfgOf(p) == AsCfg(z)
    ensures AsCfg(z) == ZoneCfg(true, z.strip, z.start, z.count, z.effect,
      Rgb(z.color[0], z.color[1], z.color[2]), Rgb(z.color2[0], z.color2[1], z.color2[2]), z.brightness, z.speed)
  {
  }

  predicate WellKept(shadow: map<int, LedZone>) {
    forall id :: id in shadow ==> Packable(SetZone(shadow[id])) && shadow[id].zoneId == id
  }

  function ShadowZones(shadow: map<int, LedZone>): map<int, ZoneCfg>
    requires WellKept(shadow)
  {
    map id | id in shadow :: AsCfg(shadow[id])
  }

  function Runnable(zones: map<int, ZoneCfg>): map<int, ZoneCfg> {
    map id | id in zones && id < LED_MAX_ZONES :: zones[id]
  }

  /** Among the ids the node can run, host and node have the same zones. */
  predicate Agree(shadow: map<int, LedZone>, table: seq<Zone>) {
    WellKept(shadow) && Runnable(ShadowZones(shadow)) == ActiveZones(table)
  }

  lemma TickKeepsZones(table: seq<Zone>)
    requires Tickable(table)
    ensures ActiveZones(TickAll(table)) == ActiveZones(table)
  {
    forall k | 0 <= k < |table| ensures TickAll(table)[k].cfg == table[k].cfg {
    }
  }

  /** Agreement, id by id. */
  predicate AgreeAt(shadow: map<int, LedZone>, table: seq<Zone>, id: int)
    requires WellKept(shadow) && 0 <= id < |table|
  {
    if id in shadow then table[id].cfg == AsCfg(shadow[id]) else !table[id].cfg.active
  }

  lemma NotedIdsAreBytes(shadow: map<int, LedZone>, id: int)
    requires WellKept(shadow) && id in shadow
    ensures 0 <= id < 256
  {
    var vs := Fields(shadow[id]);
    assert vs[0] in vs && vs[0] == id;
  }

  lemma AgreeIffEverywhere(shadow: map<int, LedZone>, table: seq<Zone>)
    requires WellKept(shadow) && |table| == LED_MAX_ZONES
    ensures Agree(shadow, table) <==> forall id :: 0 <= id < LED_MAX_ZONES ==> AgreeAt(shadow, table, id)
  {
    var host, node := Runnable(ShadowZones(shadow)), ActiveZones(table);
    forall id | id in shadow ensures 0 <= id {
      NotedIdsAreBytes(shadow, id);
    }
    forall id | 0 <= id < LED_MAX_ZONES
      ensures AgreeAt(shadow, table, id) <==>
        (id in host <==> id in node) && (id in host && id in node ==> host[id] == node[id])
    {
    }
    if forall id :: 0 <= id < LED_MAX_ZONES ==> AgreeAt(shadow, table, id) {
      forall id ensures id in host <==> id in node {
        assert id in host || id in node ==> 0 <= id < LED_MAX_ZONES && AgreeAt(shadow, table, id);
      }
      assert host == node;
    }
  }

  lemma AgreeAtStill(info: NodeInfo, table: seq<Zone>, r: Request, id: int)
    requires Packable(r) && |table| == LED_MAX_ZONES && 0 <= id < LED_MAX_ZONES
    requires WellKept(info.ledZones) && WellKept(Noted(info, r).ledZones) && AgreeAt(info.ledZones, table, id)
    ensures AgreeAt(Noted(info, r).ledZones, HandleZones(table, RequestPacket(r)), id)
  {
    if r.SetZone? {
      ZoneRoundTrip(r.zone);
    }
  }

  /** A request the host grants and the node receives keeps the agreement. */
  lemma RequestKeepsAgreement(info: NodeInfo, table: seq<Zone>, r: Request)
    requires Packable(r) && Agree(info.ledZones, table) && |table| == LED_MAX_ZONES
    ensures Agree(Noted(info, r).ledZones, HandleZones(table, RequestPacket(r)))
  {
    var before, now := info.ledZones, Noted(info, r).ledZones;
    var next := HandleZones(table, RequestPacket(r));
    assert WellKept(now) by {
      if r.SetZone? {
        ZoneRoundTrip(r.zone);
      }
    }
    AgreeIffEverywhere(before, table);
    AgreeIffEverywhere(now, next);
    forall id | 0 <= id < LED_MAX_ZONES ensures AgreeAt(now, next, id) {
      assert AgreeAt(before, table, id);
      AgreeAtStill(info, table, r, id);
    }
  }

  // ---- runs ---------------------------------------------------------------------------

  function PacketsTo(node: byte, frames: seq<Frame>): (ps: seq<Packet>)
    ensures forall p :: p in ps ==> exists f :: f in frames && f.packet == p
  {
    if frames == [] then []
    else
      var f := frames[|frames| - 1];
      PacketsTo(node, frames[..|frames| - 1]) + (if f.node == node then [f.packet] else [])
  }

  lemma {:induction false} RunsSendPackets(steps: seq<Step>)
    ensures forall f :: f in ZoneApi.Run(steps).sent ==> Fits(f.packet) && Sendable(f)
  {
    if steps != [] {
      RunsSendPackets(steps[..|steps| - 1]);
    }
  }

  predicate GrantsFor(h: Host, s: Step, node: byte) {
    s.Ask? && s.node == node && Granted(h.nodes, node, s.request, s.lineOpen)
  }

  lemma OtherStep(h: Host, s: Step, node: byte)
    ensures GrantsFor(h, s, node) ==>
      PacketsTo(node, ZoneApi.Next(h, s).sent) == PacketsTo(node, h.sent) + [RequestPacket(s.request)]
    ensures !GrantsFor(h, s, node) ==>
      PacketsTo(node, ZoneApi.Next(h, s).sent) == PacketsTo(node, h.sent) &&
      Shadow(ZoneApi.Next(h, s), node) == Shadow(h, node)
  {
    var next := ZoneApi.Next(h, s);
    assert next.sent != h.sent ==> next.sent[..|next.sent| - 1] == h.sent;
  }

  /** The inputs are the packets sent to the node, with rounds of the effects task anywhere
      in between. */
  predicate Delivered(inputs: seq<Input>, ps: seq<Packet>) {
    (forall p :: p in ps ==> Fits(p)) && WritesOf(inputs) == OtaSenders.Wires(ps)
  }

  /** Whatever nodes come and go and whatever is asked of them, granted or refused, and
      however the effects task runs in between, as long as it never meets an empty zone it
      has to divide by: once a node has been written all that was sent to it, host and node
      have the same zones among the ids the node can run. */
  lemma {:induction false} ShadowAgrees(steps: seq<Step>, node: byte, inputs: seq<Input>)
    requires Delivered(inputs, PacketsTo(node, ZoneApi.Run(steps).sent)) && Ran(inputs)
    ensures Agree(Shadow(ZoneApi.Run(steps), node), NodeRun(inputs))
    decreases |steps| + |inputs|
  {
    if inputs != [] && inputs[|inputs| - 1].TickPasses? {
      ShadowAgrees(steps, node, inputs[..|inputs| - 1]);
      TickKeepsZones(NodeRun(inputs[..|inputs| - 1]));
    } else if steps == [] {
      NothingDelivered(inputs);
    } else {
      var earlier, s := steps[..|steps| - 1], steps[|steps| - 1];
      var was := ZoneApi.Run(earlier);
      OtherStep(was, s, node);
      if GrantsFor(was, s, node) {
        var ps, before := PacketsTo(node, was.sent), inputs[..|inputs| - 1];
        LastDelivered(inputs, ps, RequestPacket(s.request));
        LastHandled(inputs, RequestPacket(s.request));
        ShadowAgrees(earlier, node, before);
        RequestKeepsAgreement(was.nodes[node], NodeRun(before), s.request);
      } else {
        ShadowAgrees(earlier, node, inputs);
      }
    }
  }

  lemma NothingDelivered(inputs: seq<Input>)
    requires Delivered(inputs, []) && (inputs != [] ==> inputs[|inputs| - 1].Written?)
    ensures inputs == []
  {
    assert inputs != [] ==> |WritesOf(inputs)| > 0;
  }

  lemma SnocSplits(a: seq<seq<byte>>, x: seq<byte>, b: seq<seq<byte>>, y: seq<byte>)
    requires a + [x] == b + [y]
    ensures a == b && x == y
  {
    assert a == (a + [x])[..|a|] && b == (b + [y])[..|b|];
    assert x == (a + [x])[|a|];
  }

  lemma LastDelivered(inputs: seq<Input>, ps: seq<Packet>, p: Packet)
    requires Delivered(inputs, ps + [p]) && (inputs != [] ==> inputs[|inputs| - 1].Written?)
    ensures inputs != [] && Fits(p) && inputs[|inputs| - 1].data == Wire(p) && Delivered(inputs[..|inputs| - 1], ps)
  {
    assert p in ps + [p] && forall q :: q in ps ==> q in ps + [p];
    WiresSnoc(ps, p);
    assert |WritesOf(inputs)| > 0;
    SnocSplits(WritesOf(inputs[..|inputs| - 1]), inputs[|inputs| - 1].data, OtaSenders.Wires(ps), Wire(p));
  }

  lemma LastHandled(inputs: seq<Input>, p: Packet)
    requires inputs != [] && inputs[|inputs| - 1].Written? && Fits(p) && inputs[|inputs| - 1].data == Wire(p)
    requires Ran(inputs)
    ensures NodeRun(inputs) == HandleZones(NodeRun(inputs[..|inputs| - 1]), p)
  {
    DecodeIffEncoded(Wire(p), p);
  }

  lemma WiresSnoc(ps: seq<Packet>, p: Packet)
    requires Fits(p) && forall q :: q in ps ==> Fits(q)
    ensures OtaSenders.Wires(ps + [p]) == OtaSenders.Wires(ps) + [Wire(p)]
  {
    var all := OtaSenders.Wires(ps + [p]);
    forall i | 0 <= i < |all| ensures all[i] == (OtaSenders.Wires(ps) + [Wire(p)])[i] {
      assert all[i] == Wire((ps + [p])[i]);
    }
  }

  // ---- when the effects task can run ----------------------------------------------------

  /** A request for a zone whose effect divides by its length, zero. */
  predicate Undrawable(z: LedZone) {
    0 <= z.effect < 256 && Divides(z.effect) && z.count == 0
  }

  predicate Drawable(shadow: map<int, LedZone>) {
    forall id :: id in shadow && id < LED_MAX_ZONES ==> !Undrawable(shadow[id])
  }

  /** A round meets its precondition if and only if none of the zones the host has noted is
      an empty one it would have to divide by. */
  lemma TickableIff(shadow: map<int, LedZone>, table: seq<Zone>)
    requires Agree(shadow, table) && |table| == LED_MAX_ZONES
    ensures Tickable(table) <==> Drawable(shadow)
  {
    AgreeIffEverywhere(shadow, table);
    forall id | 0 <= id < LED_MAX_ZONES
      ensures table[id].cfg.active && !Renderable(table[id].cfg) <==> id in shadow && Undrawable(shadow[id])
    {
      assert AgreeAt(shadow, table, id);
      if id in shadow {
        ZoneRoundTrip(shadow[id]);
      }
    }
    forall id | id in shadow ensures 0 <= id {
      NotedIdsAreBytes(shadow, id);
    }
  }

  /** The requests before the last one that was granted for the node. */
  lemma {:induction false} BeforeLastGrant(steps: seq<Step>, node: byte) returns (k: nat)
    requires PacketsTo(node, ZoneApi.Run(steps).sent) != []
    ensures k < |steps|
    ensures var ps, all := PacketsTo(node, ZoneApi.Run(steps[..k]).sent), PacketsTo(node, ZoneApi.Run(steps).sent);
      all == ps + [all[|all| - 1]]
  {
    var earlier, s := steps[..|steps| - 1], steps[|steps| - 1];
    OtherStep(ZoneApi.Run(earlier), s, node);
    if GrantsFor(ZoneApi.Run(earlier), s, node) {
      k := |steps| - 1;
    } else {
      k := BeforeLastGrant(earlier, node);
      assert earlier[..k] == steps[..k];
    }
  }

  lemma HostBeforeLast(steps: seq<Step>, node: byte, inputs: seq<Input>) returns (m: nat)
    requires Delivered(inputs, PacketsTo(node, ZoneApi.Run(steps).sent))
    requires inputs != [] && inputs[|inputs| - 1].Written?
    ensures m < |steps| && Delivered(inputs[..|inputs| - 1], PacketsTo(node, ZoneApi.Run(steps[..m]).sent))
  {
    assert |WritesOf(inputs)| > 0;
    m := BeforeLastGrant(steps, node);
    var all := PacketsTo(node, ZoneApi.Run(steps).sent);
    LastDelivered(inputs, PacketsTo(node, ZoneApi.Run(steps[..m]).sent), all[|all| - 1]);
  }

  /** Whatever part of its inputs the node has had, the host was once exactly that far. */
  lemma {:induction false} HostWasThere(steps: seq<Step>, node: byte, inputs: seq<Input>, j: nat) returns (k: nat)
    requires Delivered(inputs, PacketsTo(node, ZoneApi.Run(steps).sent)) && j <= |inputs|
    ensures k <= |steps| && Delivered(inputs[..j], PacketsTo(node, ZoneApi.Run(steps[..k]).sent))
    decreases |inputs|
  {
    if j == |inputs| {
      k := |steps|;
      assert inputs[..j] == inputs && steps[..k] == steps;
    } else {
      var front := inputs[..|inputs| - 1];
      assert front[..j] == inputs[..j];
      if inputs[|inputs| - 1].TickPasses? {
        k := HostWasThere(steps, node, front, j);
      } else {
        var m := HostBeforeLast(steps, node, inputs);
        k := HostWasThere(steps[..m], node, front, j);
        assert steps[..m][..k] == steps[..k];
      }
    }
  }

  /** Round j finds the node as the host had noted it after k steps. */
  predicate Meets(steps: seq<Step>, node: byte, inputs: seq<Input>, j: nat, k: nat)
    requires j < |inputs| && k <= |steps|
  {
    inputs[j].TickPasses? && Delivered(inputs[..j], PacketsTo(node, ZoneApi.Run(steps[..k]).sent))
  }

  /** In no moment at which the effects task runs has the host noted, by a granted request,
      an empty zone that it has to divide by. */
  predicate AlwaysDrawable(steps: seq<Step>, node: byte, inputs: seq<Input>) {
    forall j: nat, k: nat | j < |inputs| && k <= |steps| && Meets(steps, node, inputs, j, k) ::
      Drawable(Shadow(ZoneApi.Run(steps[..k]), node))
  }

  lemma {:induction false} RanPrefix(inputs: seq<Input>, j: nat)
    requires j <= |inputs| && Ran(inputs)
    ensures Ran(inputs[..j])
  {
    if j < |inputs| {
      RanPrefix(inputs[..|inputs| - 1], j);
      assert inputs[..|inputs| - 1][..j] == inputs[..j];
    } else {
      assert inputs[..j] == inputs;
    }
  }

  lemma {:induction false} RanSoFar(steps: seq<Step>, node: byte, inputs: seq<Input>, j: nat)
    requires Delivered(inputs, PacketsTo(node, ZoneApi.Run(steps).sent)) && j <= |inputs|
    requires AlwaysDrawable(steps, node, inputs)
    ensures Ran(inputs[..j])
  {
    if j > 0 {
      RanSoFar(steps, node, inputs, j - 1);
      assert inputs[..j][..j - 1] == inputs[..j - 1];
      if inputs[j - 1].TickPasses? {
        RoundIsDefined(steps, node, inputs, j - 1);
      }
    }
  }

  lemma RoundIsDefined(steps: seq<Step>, node: byte, inputs: seq<Input>, j: nat)
    requires Delivered(inputs, PacketsTo(node, ZoneApi.Run(steps).sent)) && j < |inputs| && inputs[j].TickPasses?
    requires AlwaysDrawable(steps, node, inputs) && Ran(inputs[..j])
    ensures Tickable(NodeRun(inputs[..j]))
  {
    var k := HostWasThere(steps, node, inputs, j);
    ShadowAgrees(steps[..k], node, inputs[..j]);
    assert Meets(steps, node, inputs, j, k);
    TickableIff(Shadow(ZoneApi.Run(steps[..k]), node), NodeRun(inputs[..j]));
  }

  /** Every round of a run meets the engine's precondition if and only if no table entry it
      meets was set by a granted request for an empty zone that has to be divided by. */
  lemma RanIff(steps: seq<Step>, node: byte, inputs: seq<Input>)
    requires Delivered(inputs, PacketsTo(node, ZoneApi.Run(steps).sent))
    ensures Ran(inputs) <==> AlwaysDrawable(steps, node, inputs)
  {
    if Ran(inputs) {
      forall j: nat, k: nat | j < |inputs| && k <= |steps| && Meets(steps, node, inputs, j, k)
        ensures Drawable(Shadow(ZoneApi.Run(steps[..k]), node))
      {
        RanPrefix(inputs, j + 1);
        assert inputs[..j + 1][..j] == inputs[..j];
        ShadowAgrees(steps[..k], node, inputs[..j]);
        TickableIff(Shadow(ZoneApi.Run(steps[..k]), node), NodeRun(inputs[..j]));
      }
    }
    assert inputs[..|inputs|] == inputs;
    if AlwaysDrawable(steps, node, inputs) {
      RanSoFar(steps, node, inputs, |inputs|);
    }
  }

  /** A single request for such a zone, granted and delivered, and the next round is undefined. */
  lemma EmptyZoneIsNotDrawn(z: LedZone)
    requires Packable(SetZone(z)) && Undrawable(z) && z.zoneId < LED_MAX_ZONES
    ensures !Ran([Written(Wire(RequestPacket(SetZone(z))))] + [TickPasses])
  {
    var p := RequestPacket(SetZone(z));
    var first := [Written(Wire(p))];
    var both := first + [TickPasses];
    assert both[..1] == first && first[..0] == [];
    ZoneRoundTrip(z);
    DecodeIffEncoded(Wire(p), p);
    var id := p.payload[0];
    assert 0 <= id < LED_MAX_ZONES;
    assert NodeRun(first)[id].cfg == AsCfg(z);
  }

  lemma {:induction false} NotesAreRequests(steps: seq<Step>, node: byte)
    requires forall s :: s in steps && s.Ask? && s.node == node && s.request.SetZone? ==> !Undrawable(s.request.zone)
    ensures Drawable(Shadow(ZoneApi.Run(steps), node))
  {
    if steps != [] {
      NotesAreRequests(steps[..|steps| - 1], node);
      assert steps[|steps| - 1] in steps;
    }
  }

  /** A host that never asks the node for an empty zone of these effects is safe. */
  lemma DrawableRequestsAreSafe(steps: seq<Step>, node: byte, inputs: seq<Input>)
    requires Delivered(inputs, PacketsTo(node, ZoneApi.Run(steps).sent))
    requires forall s :: s in steps && s.Ask? && s.node == node && s.request.SetZone? ==> !Undrawable(s.request.zone)
    ensures Ran(inputs)
  {
    forall k: nat | k <= |steps| ensures Drawable(Shadow(ZoneApi.Run(steps[..k]), node)) {
      NotesAreRequests(steps[..k], node);
    }
    RanIff(steps, node, inputs);
  }

  /** The effects task and the packet dispatch, one after the other in any order from
      initialisation on: the zone table is the one of the run and, whatever was written, every
      strip shows what is pending. */
  method RunLeds(engine: Engine, inputs: seq<Input>, luck: seq<seq<Chance>>)
    requires engine.Valid() && engine.strips.InSync() && engine.zones[..] == seq(LED_MAX_ZONES, _ => EMPTY)
    requires Ran(inputs) && |luck| == |inputs| && forall k :: 0 <= k < |luck| ==> |luck[k]| == LED_MAX_ZONES
    modifies engine.zones, engine.strips
    ensures engine.Valid() && engine.zones[..] == NodeRun(inputs) && engine.strips.InSync()
  {
    assert inputs[..0] == [];
    for k := 0 to |inputs|
      invariant engine.Valid() && engine.strips.InSync()
      invariant Ran(inputs[..k]) && engine.zones[..] == NodeRun(inputs[..k])
    {
      RanPrefix(inputs, k + 1);
      assert inputs[..k + 1][..k] == inputs[..k];
      match inputs[k] {
        case Written(data) =>
          match Decode(data) {
            case Some(p) => DispatchLeds(engine, p);
            case None =>
          }
        case TickPasses =>
          ghost var before := engine.zones[..];
          assert Tickable(before) && forall j :: 0 <= j < LED_MAX_ZONES ==> before[j] == engine.zones[j];
          engine.Tick(luck[k]);
          assert engine.zones[..] == TickAll(before);
      }
    }
    assert inputs[..|inputs|] == inputs;
  }

  // ---- over the serial line and the router ----------------------------------------------

  /** The data written to one connection, in order. */
  function DataTo(writes: seq<Write>, connId: u16): seq<seq<byte>> {
    if writes == [] then []
    else (if writes[0].connId == connId then [writes[0].data] else []) + DataTo(writes[1..], connId)
  }

  lemma {:induction false} DataToAppend(a: seq<Write>, b: seq<Write>, connId: u16)
    ensures DataTo(a + b, connId) == DataTo(a, connId) + DataTo(b, connId)
  {
    if a == [] {
      assert a + b == b;
    } else {
      assert (a + b)[1..] == a[1..] + b;
      DataToAppend(a[1..], b, connId);
    }
  }

  lemma {:induction false} FirstPacket(node: byte, fs: seq<Frame>)
    requires fs != []
    ensures PacketsTo(node, fs) == (if fs[0].node == node then [fs[0].packet] else []) + PacketsTo(node, fs[1..])
  {
    if |fs| > 1 {
      FirstPacket(node, fs[..|fs| - 1]);
      assert fs[..|fs| - 1][1..] == fs[1..][..|fs| - 2];
    }
  }

  /** A frame to another node is not written to this node's connection. */
  lemma RoutedFrame(events: seq<Event>, node: byte, f: Frame)
    requires RouterRuns.FreshRun(events) && f.node != BROADCAST && Fits(f.packet)
    requires RouterRuns.Ready(RouterRuns.Run(events).t, node)
    ensures var t := RouterRuns.Run(events).t;
      DataTo(Route(t, f.node, Wire(f.packet)), t.slots[node].connId) == if f.node == node then [Wire(f.packet)] else []
  {
    RouterRuns.FreshRunsKeepInv(events);
    RouterRuns.UnicastReachesOwner(events, f.node, Wire(f.packet));
    var w := RouterRuns.Run(events);
    var writes := Route(w.t, f.node, Wire(f.packet));
    if writes != [] {
      assert writes[0] in writes && RouterRuns.Reaches(w, f.node, writes[0], Wire(f.packet));
      assert writes[1..] == [];
    }
  }

  lemma {:induction false} RoutedFrames(events: seq<Event>, node: byte, fs: seq<Frame>)
    requires RouterRuns.FreshRun(events) && RouterRuns.Ready(RouterRuns.Run(events).t, node)
    requires forall f :: f in fs ==> f.node != BROADCAST && Fits(f.packet)
    requires forall p :: p in PacketsTo(node, fs) ==> Fits(p)
    ensures var t := RouterRuns.Run(events).t;
      DataTo(OtaDelivery.RouteAll(t, SentFrames(fs)), t.slots[node].connId) == OtaSenders.Wires(PacketsTo(node, fs))
  {
    if fs != [] {
      var t := RouterRuns.Run(events).t;
      var f, id := fs[0], t.slots[node].connId;
      FirstPacket(node, fs);
      RoutedFrame(events, node, f);
      RoutedFrames(events, node, fs[1..]);
      assert SentFrames(fs) == [FrameStreams.Sent(f.node, f.packet)] + SentFrames(fs[1..]);
      DataToAppend(Route(t, f.node, Wire(f.packet)), OtaDelivery.RouteAll(t, SentFrames(fs[1..])), id);
    }
  }

  /** The agreement over the whole way: requests for any nodes share one serial line, cut
      anywhere; the router writes each packet to the owner of its slot; and a node that has
      had what was written to its connection runs the zones the host has noted for it. */
  lemma ZonesReachTheNode(steps: seq<Step>, node: byte, events: seq<Event>, rx: RxState, pieces: seq<seq<byte>>,
                          inputs: seq<Input>)
    requires AlwaysDrawable(steps, node, inputs)
    requires forall s :: s in steps && s.Ask? ==> s.node != BROADCAST
    requires RouterRuns.FreshRun(events) && RouterRuns.Ready(RouterRuns.Run(events).t, node) && !rx.haveNid
    requires var fs := ZoneApi.Run(steps).sent;
      (forall f :: f in fs ==> Fits(f.packet)) && Flatten(pieces) == FrameStream(fs)
    requires var t := RouterRuns.Run(events).t;
      WritesOf(inputs) == DataTo(OtaDelivery.RouteAll(t, RunPieces(rx, pieces).out), t.slots[node].connId)
    ensures Ran(inputs) && Agree(Shadow(ZoneApi.Run(steps), node), NodeRun(inputs))
  {
    var fs := ZoneApi.Run(steps).sent;
    RunsSendPackets(steps);
    NoBroadcasts(steps);
    RoundTrip(rx, fs, pieces, pieces);
    RoutedFrames(events, node, fs);
    RanIff(steps, node, inputs);
    ShadowAgrees(steps, node, inputs);
  }

  lemma {:induction false} NoBroadcasts(steps: seq<Step>)
    requires forall s :: s in steps && s.Ask? ==> s.node != BROADCAST
    ensures forall f :: f in ZoneApi.Run(steps).sent ==> f.node != BROADCAST
  {
    if steps != [] {
      NoBroadcasts(steps[..|steps| - 1]);
    }
  }

  // ---- ids the node cannot run ----------------------------------------------------------

  /** The host's notes are exactly the node's zones if and only if no id is noted that the
      node cannot run. */
  lemma WholeShadowIff(shadow: map<int, LedZone>, table: seq<Zone>)
    requires Agree(shadow, table)
    ensures ShadowZones(shadow) == ActiveZones(table) <==> forall id :: id in shadow ==> id < LED_MAX_ZONES
  {
    var all := ShadowZones(shadow);
    assert forall id :: id in shadow <==> id in all;
    if forall id :: id in shadow ==> id < LED_MAX_ZONES {
      assert Runnable(all) == all;
    } else {
      var id :| id in shadow && id >= LED_MAX_ZONES;
      assert id in all && id !in Runnable(all);
    }
  }

  /** While the host's notes are exactly the node's zones, a granted request keeps them so if
      and only if it is not one to set an id the node cannot run. */
  lemma RequestKeepsEqualityIff(info: NodeInfo, table: seq<Zone>, r: Request)
    requires Packable(r) && |table| == LED_MAX_ZONES
    requires Agree(info.ledZones, table) && ShadowZones(info.ledZones) == ActiveZones(table)
    ensures var shadow, next := Noted(info, r).ledZones, HandleZones(table, RequestPacket(r));
      Agree(shadow, next) &&
      (ShadowZones(shadow) == ActiveZones(next) <==> (r.SetZone? ==> r.zone.zoneId < LED_MAX_ZONES))
  {
    RequestKeepsAgreement(info, table, r);
    WholeShadowIff(info.ledZones, table);
    WholeShadowIff(Noted(info, r).ledZones, HandleZones(table, RequestPacket(r)));
    if r.SetZone? {
      assert r.zone.zoneId in Noted(info, r).ledZones;
    }
  }
}
