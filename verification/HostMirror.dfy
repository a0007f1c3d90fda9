/** The host's picture of which nodes are connected, against the router's registry. */
module HostMirror {
  import opened Protocol
  import opened RouterTables
  import opened RouterRuns
  import opened DeviceManager
  import opened SerialTransport
  import opened FrameStreams

  /** A notification as node firmware sends it: one whole packet, neither PING nor ERROR. */
  predicate FromNode(data: seq<byte>) {
    HEADER_SIZE <= |data| && MagicAt(data, 0) && |data| == HEADER_SIZE + data[3] && data[3] <= MAX_PAYLOAD_SIZE &&
    data[2] != PING && data[2] != ERROR
  }

  predicate NodesBehave(events: seq<Event>) {
    forall e :: e in events && e.Notify? ==> FromNode(e.data)
  }

  /** The frames an event makes the router put on the serial line. */
  function EmittedFrames(t: Tables, e: Event): seq<Frame> {
    match e
    case Connect(id, gattcIf, bda) =>
      if |t.conns| >= MAX_CONNS || AddedAt(t, bda) < 0 then []
      else
        var nid := NodeId(AddNode(t, bda, id), id);
        if nid < 0 then [] else [Frame(nid % 256, Packet(PING, []))]
    case Notify(id, data) =>
      var nid := NodeId(t, id);
      if |data| < HEADER_SIZE || nid < 0 then [] else [Frame(nid % 256, Packet(data[2], data[HEADER_SIZE..]))]
    case Disconnect(id) =>
      var nid := NodeId(t, id);
      if nid < 0 then [] else [Frame(nid % 256, Packet(ERROR, []))]
    case ServicesFound(_, _, _) => []
  }

  lemma SyntheticFrame(nid: nat, command: byte)
    ensures Emitted(nid, Synthetic(command)) == FrameStream([Frame(nid % 256, Packet(command, []))])
  {
    var f := Frame(nid % 256, Packet(command, []));
    assert FrameStream([f]) == FrameBytes(f) + FrameStream([]);
  }

  lemma NodeFrame(nid: nat, data: seq<byte>)
    requires FromNode(data)
    ensures Emitted(nid, data) == FrameStream([Frame(nid % 256, Packet(data[2], data[HEADER_SIZE..]))])
  {
    var f := Frame(nid % 256, Packet(data[2], data[HEADER_SIZE..]));
    assert FrameStream([f]) == FrameBytes(f) + FrameStream([]);
    assert Wire(f.packet) == data;
  }

  lemma EmissionIsFrames(t: Tables, e: Event)
    requires e.Notify? ==> FromNode(e.data)
    ensures forall f :: f in EmittedFrames(t, e) ==> Fits(f.packet) && Sendable(f)
    ensures React(t, e).serial == FrameStream(EmittedFrames(t, e))
  {
    match e
    case Connect(id, gattcIf, bda) =>
      if |t.conns| < MAX_CONNS && AddedAt(t, bda) >= 0 {
        var accepted := t.(conns := t.conns + [FreshConn(id, gattcIf)]);
        assert AddNode(accepted, bda, id).slots == AddNode(t, bda, id).slots;
        var nid := NodeId(AddNode(t, bda, id), id);
        if nid >= 0 {
          SyntheticFrame(nid, PING);
        }
      }
    case Notify(id, data) =>
      var nid := NodeId(t, id);
      if nid >= 0 {
        NodeFrame(nid, data);
      }
    case Disconnect(id) =>
      var nid := NodeId(t, id);
      if nid >= 0 {
        SyntheticFrame(nid, ERROR);
      }
    case ServicesFound(_, _, _) =>
  }

  // ---- a run's serial line ------------------------------------------------------------

  function SerialOf(events: seq<Event>): seq<byte> {
    if events == [] then []
    else
      var n := |events| - 1;
      SerialOf(events[..n]) + React(Run(events[..n]).t, events[n]).serial
  }

  function RunFrames(events: seq<Event>): seq<Frame> {
    if events == [] then []
    else
      var n := |events| - 1;
      RunFrames(events[..n]) + EmittedFrames(Run(events[..n]).t, events[n])
  }

  lemma {:induction false} FrameStreamAppend(a: seq<Frame>, b: seq<Frame>)
    requires forall f :: f in a + b ==> Fits(f.packet)
    ensures (forall f :: f in a ==> Fits(f.packet)) && (forall f :: f in b ==> Fits(f.packet))
    ensures FrameStream(a + b) == FrameStream(a) + FrameStream(b)
  {
    assert forall f :: f in a || f in b ==> f in a + b;
    if a == [] {
      assert a + b == b;
    } else {
      assert a + b == [a[0]] + (a[1..] + b);
      FrameStreamAppend(a[1..], b);
    }
  }

  lemma {:induction false} SerialIsFrames(events: seq<Event>)
    requires NodesBehave(events)
    ensures forall f :: f in RunFrames(events) ==> Fits(f.packet) && Sendable(f)
    ensures SerialOf(events) == FrameStream(RunFrames(events))
  {
    if events != [] {
      var n := |events| - 1;
      assert events[n] in events;
      SerialIsFrames(events[..n]);
      EmissionIsFrames(Run(events[..n]).t, events[n]);
      FrameStreamAppend(RunFrames(events[..n]), EmittedFrames(Run(events[..n]).t, events[n]));
    }
  }

  /** The host's registry once it has drained a run's serial line. */
  function Mirror(events: seq<Event>): map<byte, NodeInfo> {
    Replay(map[], RunFrames(events))
  }

  /** Draining in any fragmentation gives the host exactly the emitted frames. */
  lemma DrainedMirror(events: seq<Event>, pieces: seq<seq<byte>>)
    requires NodesBehave(events) && Flatten(pieces) == SerialOf(events)
    ensures Replay(map[], PollAll([], pieces).frames) == Mirror(events) && PollAll([], pieces).rest == []
  {
    SerialIsFrames(events);
    var idle := CommandParser.RxState(false, 0xFF, []);
    RoundTrip(idle, RunFrames(events), pieces, pieces);
  }

  // ---- agreement ----------------------------------------------------------------------

  predicate SaysConnected(nodes: map<byte, NodeInfo>, i: byte) {
    i in nodes && nodes[i].connected
  }

  predicate SlotConnected(slots: seq<Slot>, i: byte) {
    i < |slots| && slots[i].connected
  }

  predicate Agree(slots: seq<Slot>, nodes: map<byte, NodeInfo>) {
    forall i: byte :: SaysConnected(nodes, i) <==> SlotConnected(slots, i)
  }

  /** The event is not confused by an id left in an earlier slot: a new connection's id is
      not carried by a connected slot in front of the one it gets, and the id of a closing
      one by no slot in front of its own. */
  predicate Unconfused(t: Tables, e: Event) {
    match e
    case Connect(id, _, bda) =>
      |t.conns| < MAX_CONNS ==>
        forall j :: 0 <= j < AddedAt(t, bda) ==> !(t.slots[j].connected && t.slots[j].connId == id)
    case Disconnect(id) => forall j :: 0 <= j < NodeId(t, id) ==> t.slots[j].connId != id
    case _ => true
  }

  lemma ReplaySnoc(nodes: map<byte, NodeInfo>, frames: seq<Frame>, more: seq<Frame>)
    requires |more| <= 1
    ensures Replay(nodes, frames + more) ==
      if more == [] then Replay(nodes, frames) else OnPacket(Replay(nodes, frames), more[0])
  {
    if more == [] {
      assert frames + more == frames;
    } else {
      assert (frames + more)[..|frames + more| - 1] == frames;
    }
  }

  function Heard(nodes: map<byte, NodeInfo>, frames: seq<Frame>): map<byte, NodeInfo>
    requires |frames| <= 1
  {
    if frames == [] then nodes else OnPacket(nodes, frames[0])
  }

  /** Which id the PING of a new connection carries. */
  lemma AnnouncedId(t: Tables, e: Event)
    requires e.Connect? && |t.conns| < MAX_CONNS && AddedAt(t, e.bda) >= 0
    ensures var k, nid := AddedAt(t, e.bda), NodeId(AddNode(t, e.bda, e.id), e.id);
      0 <= nid <= k && (nid == k <==> Unconfused(t, e))
  {
    var k, added := AddedAt(t, e.bda), AddNode(t, e.bda, e.id);
    assert added.slots[k].connected && added.slots[k].connId == e.id;
    assert forall j :: 0 <= j < k ==> added.slots[j] == t.slots[j];
  }

  lemma ConnectTables(t: Tables, e: Event)
    requires e.Connect?
    ensures React(t, e).tables.slots == if |t.conns| < MAX_CONNS then AddNode(t, e.bda, e.id).slots else t.slots
  {
  }

  lemma OneMoreConnected(before: seq<Slot>, now: seq<Slot>, k: byte, nid: byte, nodes: map<byte, NodeInfo>)
    requires Agree(before, nodes) && k < |now| && !SlotConnected(before, k) && now[k].connected && nid <= k
    requires forall i: byte :: i != k ==> (SlotConnected(now, i) <==> SlotConnected(before, i))
    ensures Agree(now, OnPacket(nodes, Frame(nid, Packet(PING, [])))) <==> nid == k
  {
    var heard := OnPacket(nodes, Frame(nid, Packet(PING, [])));
    assert SlotConnected(now, k);
    assert SaysConnected(nodes, k) <==> SlotConnected(before, k);
    assert forall i: byte :: i != nid ==> (SaysConnected(heard, i) <==> SaysConnected(nodes, i));
    assert SaysConnected(heard, nid);
    if nid == k {
      forall i: byte ensures SaysConnected(heard, i) <==> SlotConnected(now, i) {
        assert SaysConnected(nodes, i) <==> SlotConnected(before, i);
      }
    }
  }

  lemma ConnectAgreesIff(t: Tables, e: Event, nodes: map<byte, NodeInfo>)
    requires e.Connect? && |t.slots| <= NODE_MAX_COUNT && Agree(t.slots, nodes)
    ensures Agree(React(t, e).tables.slots, Heard(nodes, EmittedFrames(t, e))) <==> Unconfused(t, e)
  {
    if |t.conns| < MAX_CONNS && AddedAt(t, e.bda) >= 0 {
      AnnouncedAgreesIff(t, e, nodes);
    } else {
      ConnectTables(t, e);
    }
  }

  /** What a connection that gets a slot makes the host hear. */
  lemma AnnouncedFrame(t: Tables, e: Event)
    requires e.Connect? && |t.conns| < MAX_CONNS && AddedAt(t, e.bda) >= 0 && |t.slots| <= NODE_MAX_COUNT
    ensures var nid := NodeId(AddNode(t, e.bda, e.id), e.id);
      0 <= nid < 256 && EmittedFrames(t, e) == [Frame(nid, Packet(PING, []))]
  {
    AnnouncedId(t, e);
  }

  lemma AddedSlot(t: Tables, bda: Bda, id: u16)
    requires AddedAt(t, bda) >= 0 && |t.slots| <= NODE_MAX_COUNT
    ensures var k, now := AddedAt(t, bda), AddNode(t, bda, id).slots;
      k < |now| && k < 256 && now[k].connected && !SlotConnected(t.slots, k) &&
      forall i: byte :: i != k ==> (SlotConnected(now, i) <==> SlotConnected(t.slots, i))
  {
  }

  lemma AnnouncedAgreesIff(t: Tables, e: Event, nodes: map<byte, NodeInfo>)
    requires e.Connect? && |t.conns| < MAX_CONNS && AddedAt(t, e.bda) >= 0
    requires |t.slots| <= NODE_MAX_COUNT && Agree(t.slots, nodes)
    ensures Agree(React(t, e).tables.slots, Heard(nodes, EmittedFrames(t, e))) <==> Unconfused(t, e)
  {
    var k, added := AddedAt(t, e.bda), AddNode(t, e.bda, e.id);
    ConnectTables(t, e);
    AnnouncedId(t, e);
    AnnouncedFrame(t, e);
    AddedSlot(t, e.bda, e.id);
    OneMoreConnected(t.slots, added.slots, k, NodeId(added, e.id), nodes);
  }

  lemma DisconnectAgreesIff(t: Tables, e: Event, nodes: map<byte, NodeInfo>)
    requires e.Disconnect? && |t.slots| <= NODE_MAX_COUNT && Agree(t.slots, nodes)
    ensures Agree(React(t, e).tables.slots, Heard(nodes, EmittedFrames(t, e))) <==> Unconfused(t, e)
  {
    var nid, holder := NodeId(t, e.id), HolderOf(t, e.id);
    var slots := React(t, e).tables.slots;
    var heard := Heard(nodes, EmittedFrames(t, e));
    if nid < 0 {
      assert holder >= 0 ==> !t.slots[holder].connected;
      assert slots == t.slots;
    } else {
      assert heard == OnPacket(nodes, Frame(nid, Packet(ERROR, [])));
      assert SaysConnected(nodes, nid) <==> SlotConnected(t.slots, nid);
      assert !SaysConnected(heard, nid);
      if Unconfused(t, e) {
        assert holder == nid;
        forall i: byte ensures SaysConnected(heard, i) <==> SlotConnected(slots, i) {
          assert SaysConnected(nodes, i) <==> SlotConnected(t.slots, i);
        }
      } else {
        assert holder < nid;
        assert SlotConnected(slots, nid);
      }
    }
  }

  /** One event keeps host and router in agreement if and only if it is not confused. */
  lemma StepAgreesIff(t: Tables, e: Event, nodes: map<byte, NodeInfo>)
    requires |t.slots| <= NODE_MAX_COUNT && Agree(t.slots, nodes)
    requires e.Notify? ==> FromNode(e.data)
    ensures Agree(React(t, e).tables.slots, Heard(nodes, EmittedFrames(t, e))) <==> Unconfused(t, e)
  {
    match e
    case Connect(_, _, _) => ConnectAgreesIff(t, e, nodes);
    case Disconnect(_) => DisconnectAgreesIff(t, e, nodes);
    case _ =>
  }

  predicate AgreesAfter(events: seq<Event>) {
    Agree(Run(events).t.slots, Mirror(events))
  }

  lemma OneMoreEvent(events: seq<Event>, k: nat)
    requires k < |events| && NodesBehave(events) && AgreesAfter(events[..k])
    ensures AgreesAfter(events[..k + 1]) <==> Unconfused(Run(events[..k]).t, events[k])
  {
    var before, e := events[..k], events[k];
    assert e in events;
    assert events[..k + 1] == before + [e];
    RunSnoc(before, e);
    assert (before + [e])[..|before + [e]| - 1] == before;
    ReplaySnoc(map[], RunFrames(before), EmittedFrames(Run(before).t, e));
    assert before[..k] == before;
    SlotsAreStable(before, k);
    StepAgreesIff(Run(before).t, e, Mirror(before));
  }

  /** The exact condition: host and router agree after every event of a run if and only if
      no event of it is confused by a stale connection id. */
  lemma AlwaysAgreesIff(events: seq<Event>)
    requires NodesBehave(events)
    ensures (forall k {:trigger events[..k]} :: 0 <= k <= |events| ==> AgreesAfter(events[..k]))
      <==> (forall k {:trigger events[..k]} :: 0 <= k < |events| ==> Unconfused(Run(events[..k]).t, events[k]))
  {
    assert events[..0] == [];
    if forall k {:trigger events[..k]} :: 0 <= k <= |events| ==> AgreesAfter(events[..k]) {
      forall k {:trigger events[..k]} | 0 <= k < |events| ensures Unconfused(Run(events[..k]).t, events[k]) {
        assert AgreesAfter(events[..k]) && AgreesAfter(events[..k + 1]);
        OneMoreEvent(events, k);
      }
    } else if forall k {:trigger events[..k]} :: 0 <= k < |events| ==> Unconfused(Run(events[..k]).t, events[k]) {
      forall k {:trigger events[..k]} | 0 <= k <= |events| ensures AgreesAfter(events[..k]) {
        UnconfusedAgrees(events, k);
      }
    }
  }

  lemma {:induction false} UnconfusedAgrees(events: seq<Event>, k: nat)
    requires k <= |events| && NodesBehave(events)
    requires forall j {:trigger events[..j]} :: 0 <= j < |events| ==> Unconfused(Run(events[..j]).t, events[j])
    ensures AgreesAfter(events[..k])
  {
    if k == 0 {
      assert events[..0] == [];
    } else {
      UnconfusedAgrees(events, k - 1);
      OneMoreEvent(events, k - 1);
    }
  }

  lemma FreshIsUnconfused(w: World, e: Event)
    requires Inv(w) && FreshEvent(w, e)
    ensures Unconfused(w.t, e)
  {
    assert forall j :: 0 <= j < |w.t.slots| ==> w.t.slots[j] in w.t.slots;
  }

  /** In every fresh run, whatever the fragmentation of the serial line, the host that has
      drained it says of every node id exactly what the router's registry says. */
  lemma FreshRunsAgree(events: seq<Event>, pieces: seq<seq<byte>>)
    requires FreshRun(events) && NodesBehave(events) && Flatten(pieces) == SerialOf(events)
    ensures Agree(Run(events).t.slots, Replay(map[], PollAll([], pieces).frames))
  {
    forall k {:trigger events[..k]} | 0 <= k < |events| ensures Unconfused(Run(events[..k]).t, events[k]) {
      forall j {:trigger events[..k][..j]} | 0 <= j < k ensures FreshEvent(Run(events[..k][..j]), events[..k][j]) {
        assert events[..k][..j] == events[..j];
      }
      FreshRunsKeepInv(events[..k]);
      FreshIsUnconfused(Run(events[..k]), events[k]);
    }
    UnconfusedAgrees(events, |events|);
    assert events[..|events|] == events;
    DrainedMirror(events, pieces);
  }

  lemma ReusedIdSteps(a: Bda, b: Bda)
    requires a != b
    ensures React(Tables([], []), Connect(0, 1, a)).tables == Tables([FreshConn(0, 1)], [Slot(a, 0, true)])
    ensures React(Tables([FreshConn(0, 1)], [Slot(a, 0, true)]), Disconnect(0)).tables
         == Tables([], [Slot(a, 0, false)])
    ensures React(Tables([], [Slot(a, 0, false)]), Connect(0, 1, b)).tables
         == Tables([FreshConn(0, 1)], [Slot(a, 0, false), Slot(b, 0, true)])
  {
    FirstUnique([FreshConn(0, 1)], (c: Conn) => c.id == 0, 0);
    FirstUnique([Slot(a, 0, true)], (n: Slot) => n.connId == 0, 0);
    FirstUnique([Slot(a, 0, false)], (n: Slot) => !n.connected && n.bda == b, -1);
  }

  lemma ReusedIdCloses(a: Bda, b: Bda)
    ensures var t := Tables([FreshConn(0, 1)], [Slot(a, 0, false), Slot(b, 0, true)]);
      React(t, Disconnect(0)).tables.slots == t.slots &&
      EmittedFrames(t, Disconnect(0)) == [Frame(1, Packet(ERROR, []))]
  {
    var slots := [Slot(a, 0, false), Slot(b, 0, true)];
    FirstUnique(slots, (n: Slot) => n.connId == 0, 0);
    FirstUnique(slots, (n: Slot) => n.connId == 0 && n.connected, 1);
  }

  function Reconnected(a: Bda, b: Bda): seq<Event> {
    [Connect(0, 1, a), Disconnect(0), Connect(0, 1, b)]
  }

  lemma ReusedIdTables(a: Bda, b: Bda)
    requires a != b
    ensures Run(Reconnected(a, b)).t == Tables([FreshConn(0, 1)], [Slot(a, 0, false), Slot(b, 0, true)])
  {
    var r1 := [] + [Connect(0, 1, a)];
    var r2 := r1 + [Disconnect(0)];
    ReusedIdSteps(a, b);
    RunSnoc([], Connect(0, 1, a));
    RunSnoc(r1, Disconnect(0));
    RunSnoc(r2, Connect(0, 1, b));
    assert Reconnected(a, b) == r2 + [Connect(0, 1, b)];
  }

  /** Without freshness: a second device under the first one's old id never goes offline in
      the router's registry, while the host reports it gone. */
  lemma ReusedIdBreaksAgreement(a: Bda, b: Bda)
    requires a != b
    ensures var events := Reconnected(a, b) + [Disconnect(0)];
      NodesBehave(events) && !AgreesAfter(events) &&
      SlotConnected(Run(events).t.slots, 1) && !SaysConnected(Mirror(events), 1)
  {
    ReusedIdBehaves(a, b);
    ReusedIdEnds(a, b);
    Disagreement(Reconnected(a, b) + [Disconnect(0)], Mirror(Reconnected(a, b)), 1);
  }

  lemma Disagreement(events: seq<Event>, nodes: map<byte, NodeInfo>, i: byte)
    requires SlotConnected(Run(events).t.slots, i) && Mirror(events) == OnPacket(nodes, Frame(i, Packet(ERROR, [])))
    ensures !AgreesAfter(events) && !SaysConnected(Mirror(events), i)
  {
    ErrorDisconnects(nodes, i);
  }

  lemma ReusedIdBehaves(a: Bda, b: Bda)
    ensures NodesBehave(Reconnected(a, b) + [Disconnect(0)])
  {
  }

  lemma ReusedIdEnds(a: Bda, b: Bda)
    requires a != b
    ensures var before := Reconnected(a, b);
      var events := before + [Disconnect(0)];
      Run(events).t.slots == [Slot(a, 0, false), Slot(b, 0, true)] &&
      Mirror(events) == OnPacket(Mirror(before), Frame(1, Packet(ERROR, [])))
  {
    var before := Reconnected(a, b);
    ReusedIdTables(a, b);
    ReusedIdCloses(a, b);
    RunSnoc(before, Disconnect(0));
    LastFrame(before, Disconnect(0));
  }

  lemma ErrorDisconnects(nodes: map<byte, NodeInfo>, node: byte)
    ensures !SaysConnected(OnPacket(nodes, Frame(node, Packet(ERROR, []))), node)
  {
  }

  lemma LastFrame(before: seq<Event>, e: Event)
    requires |EmittedFrames(Run(before).t, e)| == 1
    ensures Mirror(before + [e]) == OnPacket(Mirror(before), EmittedFrames(Run(before).t, e)[0])
  {
    assert (before + [e])[..|before + [e]| - 1] == before;
    ReplaySnoc(map[], RunFrames(before), EmittedFrames(Run(before).t, e));
  }
}
