/** The API's requests to set and clear LED zones: a packet to the node, then a note of it
    in the host's registry. */
module ZoneApi {
  import opened Protocol
  import opened DeviceManager
  import opened SerialTransport

  datatype Request = SetZone(zone: LedZone) | ClearZone(zoneId: int)

  predicate ByteSized(v: int) {
    0 <= v < 256
  }

  /** The values of a zone in the order they are packed; the colours need three entries. */
  function Fields(z: LedZone): (vs: seq<int>)
    requires |z.color| >= 3 && |z.color2| >= 3
    ensures |vs| == 13
  {
    [z.zoneId, z.strip, z.start, z.count, z.effect] + z.color[..3] + z.color2[..3] + [z.brightness, z.speed]
  }

  /** Requests that pack without an exception. */
  predicate Packable(r: Request) {
    match r
    case SetZone(z) => |z.color| >= 3 && |z.color2| >= 3 && forall v :: v in Fields(z) ==> ByteSized(v)
    case ClearZone(id) => ByteSized(id)
  }

  /** Every value fits a byte. */
  predicate Packs(vs: seq<int>) {
    forall i :: 0 <= i < |vs| ==> 0 <= vs[i] <= 255
  }

  lemma PackableIff(z: LedZone)
    ensures Packable(SetZone(z)) <==>
      |z.color| >= 3 && |z.color2| >= 3 && Packs([z.zoneId, z.strip, z.start, z.count, z.effect]) &&
      Packs(z.color[..3]) && Packs(z.color2[..3]) && Packs([z.brightness, z.speed])
  {
    if |z.color| >= 3 && |z.color2| >= 3 {
      var a, d := [z.zoneId, z.strip, z.start, z.count, z.effect], [z.brightness, z.speed];
      var vs := Fields(z);
      assert vs == a + z.color[..3] + z.color2[..3] + d;
      assert a == vs[..5] && z.color[..3] == vs[5..8] && z.color2[..3] == vs[8..11] && d == vs[11..];
      assert forall i :: 0 <= i < 13 ==> vs[i] in vs;
    }
  }

  function ToBytes(vs: seq<int>): (bs: seq<byte>)
    requires forall v :: v in vs ==> ByteSized(v)
    ensures |bs| == |vs| && forall i :: 0 <= i < |vs| ==> bs[i] == vs[i]
  {
    if vs == [] then []
    else
      assert vs[0] in vs && ByteSized(vs[0]);
      var first: byte := vs[0];
      [first] + ToBytes(vs[1..])
  }

  function RequestPacket(r: Request): (p: Packet)
    requires Packable(r)
    ensures |p.payload| <= 13
  {
    match r
    case SetZone(z) => Packet(LED_ZONE_SET, ToBytes(Fields(z)))
    case ClearZone(id) => Packet(LED_ZONE_CLR, [id])
  }

  function Noted(info: NodeInfo, r: Request): NodeInfo {
    match r
    case SetZone(z) => info.(ledZones := info.ledZones[z.zoneId := z])
    case ClearZone(id) => info.(ledZones := info.ledZones - {id})
  }

  /** The node must be known and connected, the request packable and the line open. */
  predicate Granted(nodes: map<byte, NodeInfo>, node: byte, r: Request, lineOpen: bool) {
    node in nodes && nodes[node].connected && Packable(r) && lineOpen
  }

  class Api {
    const manager: Manager
    const transport: Transport

    constructor (manager: Manager, transport: Transport)
      ensures this.manager == manager && this.transport == transport
    {
      this.manager := manager;
      this.transport := transport;
    }

    method SetLedZone(node: byte, zone: LedZone) returns (ok: bool)
      modifies manager, transport`sent
      ensures ok == Granted(old(manager.nodes), node, SetZone(zone), transport.isOpen)
      ensures ok <==>
        node in old(manager.nodes) && old(manager.nodes)[node].connected && transport.isOpen &&
        |zone.color| >= 3 && |zone.color2| >= 3 &&
        Packs([zone.zoneId, zone.strip, zone.start, zone.count, zone.effect]) &&
        Packs(zone.color[..3]) && Packs(zone.color2[..3]) && Packs([zone.brightness, zone.speed])
      ensures !ok ==> manager.nodes == old(manager.nodes) && transport.sent == old(transport.sent)
      ensures ok ==>
        manager.nodes == old(manager.nodes)[node := Noted(old(manager.nodes)[node], SetZone(zone))] &&
        transport.sent == old(transport.sent) + FrameBytes(Frame(node, RequestPacket(SetZone(zone))))
    {
      PackableIff(zone);
      if node !in manager.nodes || !manager.nodes[node].connected || !Packable(SetZone(zone)) {
        return false;
      }
      ok := transport.SendPacket(node, RequestPacket(SetZone(zone)));
      if ok {
        manager.SetZone(node, zone);
      }
    }

    method ClearLedZone(node: byte, zoneId: int) returns (ok: bool)
      modifies manager, transport`sent
      ensures ok == Granted(old(manager.nodes), node, ClearZone(zoneId), transport.isOpen)
      ensures ok <==>
        node in old(manager.nodes) && old(manager.nodes)[node].connected && transport.isOpen && 0 <= zoneId < 256
      ensures !ok ==> manager.nodes == old(manager.nodes) && transport.sent == old(transport.sent)
      ensures ok ==>
        manager.nodes == old(manager.nodes)[node := Noted(old(manager.nodes)[node], ClearZone(zoneId))] &&
        transport.sent == old(transport.sent) + FrameBytes(Frame(node, RequestPacket(ClearZone(zoneId))))
    {
      if node !in manager.nodes || !manager.nodes[node].connected || !Packable(ClearZone(zoneId)) {
        return false;
      }
      ok := transport.SendPacket(node, RequestPacket(ClearZone(zoneId)));
      if ok {
        manager.ClearZone(node, zoneId);
      }
    }
  }

  // ---- runs ---------------------------------------------------------------------------

  /** What happens to the registry: a request for any node, with the line open or not, or a
      frame from the serial line. */
  datatype Step = Ask(node: byte, request: Request, lineOpen: bool) | Hear(frame: Frame)

  datatype Host = Host(nodes: map<byte, NodeInfo>, sent: seq<Frame>)

  function Next(h: Host, s: Step): Host {
    match s
    case Ask(node, r, lineOpen) =>
      if Granted(h.nodes, node, r, lineOpen)
      then Host(h.nodes[node := Noted(h.nodes[node], r)], h.sent + [Frame(node, RequestPacket(r))])
      else h
    case Hear(f) => h.(nodes := OnPacket(h.nodes, f))
  }

  function Run(steps: seq<Step>): Host {
    if steps == [] then Host(map[], []) else Next(Run(steps[..|steps| - 1]), steps[|steps| - 1])
  }

  /** What the host believes a node's zones are. */
  function Shadow(h: Host, node: byte): map<int, LedZone> {
    if node in h.nodes then h.nodes[node].ledZones else map[]
  }
}
