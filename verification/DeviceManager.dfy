/** The host's registry of nodes, fed by the frames of the serial line. */
module DeviceManager {
  import opened Protocol

  /** A zone as the API's client asked for it. */
  datatype LedZone = LedZone(
    zoneId: int, strip: int, start: int, count: int, effect: int,
    color: seq<int>, color2: seq<int>, brightness: int, speed: int
  )

  datatype NodeInfo = NodeInfo(connected: bool, ledZones: map<int, LedZone>)

  /** `on_packet`, as far as connections go; any other packet only refreshes time stamps. */
  function OnPacket(nodes: map<byte, NodeInfo>, f: Frame): map<byte, NodeInfo> {
    if f.packet.command == PING then
      if f.node !in nodes then nodes[f.node := NodeInfo(true, map[])]
      else nodes[f.node := nodes[f.node].(connected := true)]
    else if f.packet.command == ERROR && f.node in nodes then
      nodes[f.node := nodes[f.node].(connected := false)]
    else nodes
  }

  function Replay(nodes: map<byte, NodeInfo>, frames: seq<Frame>): map<byte, NodeInfo> {
    if frames == [] then nodes
    else OnPacket(Replay(nodes, frames[..|frames| - 1]), frames[|frames| - 1])
  }

  class Manager {
    var nodes: map<byte, NodeInfo>

    constructor ()
      ensures nodes == map[]
    {
      nodes := map[];
    }

    method HandlePacket(f: Frame)
      modifies this
      ensures nodes == OnPacket(old(nodes), f)
    {
      if f.packet.command == PING {
        if f.node !in nodes {
          nodes := nodes[f.node := NodeInfo(true, map[])];
        } else {
          nodes := nodes[f.node := nodes[f.node].(connected := true)];
        }
      } else if f.packet.command == ERROR {
        if f.node in nodes {
          nodes := nodes[f.node := nodes[f.node].(connected := false)];
        }
      }
    }

    method SetZone(node: byte, zone: LedZone)
      modifies this
      ensures node !in old(nodes) ==> nodes == old(nodes)
      ensures node in old(nodes) ==>
        var info := old(nodes)[node];
        nodes == old(nodes)[node := info.(ledZones := info.ledZones[zone.zoneId := zone])]
    {
      if node in nodes {
        var info := nodes[node];
        nodes := nodes[node := info.(ledZones := info.ledZones[zone.zoneId := zone])];
      }
    }

    method ClearZone(node: byte, zoneId: int)
      modifies this
      ensures node !in old(nodes) ==> nodes == old(nodes)
      ensures node in old(nodes) ==>
        var info := old(nodes)[node];
        nodes == old(nodes)[node := info.(ledZones := info.ledZones - {zoneId})]
    {
      if node in nodes {
        var info := nodes[node];
        nodes := nodes[node := info.(ledZones := info.ledZones - {zoneId})];
      }
    }
  }
}
