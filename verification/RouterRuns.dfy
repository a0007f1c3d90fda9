/** What every run of radio events keeps: stable slots without any hypothesis, and, when each
    new connection is fresh, one connection per connected slot and correct routing. */
module RouterRuns {
  import opened Protocol
  import opened RouterTables

  /** The tables, together with the devices really behind the radio's live connections. */
  datatype World = World(t: Tables, live: map<u16, Bda>)

  function NextLive(live: map<u16, Bda>, e: Event): map<u16, Bda> {
    match e
    case Connect(id, _, bda) => live[id := bda]
    case Disconnect(id) => live - {id}
    case _ => live
  }

  function Next(w: World, e: Event): World {
    World(React(w.t, e).tables, NextLive(w.live, e))
  }

  const BOOTED := World(Tables([], []), map[])

  function Run(events: seq<Event>): World {
    if events == [] then BOOTED
    else Next(Run(events[..|events| - 1]), events[|events| - 1])
  }

  lemma RunSnoc(events: seq<Event>, e: Event)
    ensures Run(events + [e]) == Next(Run(events), e)
  {
    assert (events + [e])[..|events + [e]| - 1] == events;
  }

  // ---- stable slots, in every run -----------------------------------------------------

  lemma NextKeepsSlots(w: World, e: Event)
    requires |w.t.slots| <= NODE_MAX_COUNT && |w.t.conns| <= MAX_CONNS
    ensures var v := Next(w, e);
      |w.t.slots| <= |v.t.slots| <= NODE_MAX_COUNT && |v.t.conns| <= MAX_CONNS &&
      forall i :: 0 <= i < |w.t.slots| ==> v.t.slots[i].bda == w.t.slots[i].bda
  {
    match e
    case Connect(id, gattcIf, bda) => ConnectKeepsSlots(w.t, id, gattcIf, bda);
    case Disconnect(id) => DisconnectKeepsSlots(w.t, id);
    case _ =>
  }

  lemma ConnectKeepsSlots(t: Tables, id: u16, gattcIf: u16, bda: Bda)
    requires |t.slots| <= NODE_MAX_COUNT && |t.conns| <= MAX_CONNS
    ensures var u := OnConnect(t, id, gattcIf, bda).tables;
      |t.slots| <= |u.slots| <= NODE_MAX_COUNT && |u.conns| <= MAX_CONNS &&
      forall i :: 0 <= i < |t.slots| ==> u.slots[i].bda == t.slots[i].bda
  {
  }

  lemma DisconnectKeepsSlots(t: Tables, id: u16)
    ensures var u := OnDisconnect(t, id).tables;
      |u.slots| == |t.slots| && |u.conns| <= |t.conns| &&
      forall i :: 0 <= i < |t.slots| ==> u.slots[i].bda == t.slots[i].bda
  {
  }

  /** A slot never changes hands: from any point of any run on, every slot keeps its device,
      and the number of slots only grows, up to eight. */
  lemma {:induction false} SlotsAreStable(events: seq<Event>, k: nat)
    requires k <= |events|
    ensures var past, now := Run(events[..k]).t.slots, Run(events).t.slots;
      |past| <= |now| <= 8 && |Run(events).t.conns| <= 8 &&
      forall i :: 0 <= i < |past| ==> now[i].bda == past[i].bda
    decreases |events|
  {
    if events != [] {
      var n := |events| - 1;
      if k == |events| {
        assert events[..k] == events;
        SlotsAreStable(events[..n], n);
      } else {
        assert events[..n][..k] == events[..k];
        SlotsAreStable(events[..n], k);
      }
      NextKeepsSlots(Run(events[..n]), events[n]);
    }
  }

  /** A device that comes back takes the first of its own disconnected slots, and no slot is
      added, whenever the connection itself is accepted. */
  lemma ReconnectReusesSlot(t: Tables, id: u16, gattcIf: u16, bda: Bda, k: nat)
    requires |t.conns| < MAX_CONNS && k < |t.slots|
    requires t.slots[k].bda == bda && !t.slots[k].connected
    requires forall j :: 0 <= j < k ==> t.slots[j].bda == bda ==> t.slots[j].connected
    ensures OnConnect(t, id, gattcIf, bda).tables.slots == t.slots[k := Slot(bda, id, true)]
  {
    FirstUnique(t.slots, (n: Slot) => !n.connected && n.bda == bda, k);
  }

  // ---- fresh runs ---------------------------------------------------------------------

  /** A new connection is fresh: its id is not live, no slot of another device still carries
      that id, and the device is not connected already. */
  predicate FreshEvent(w: World, e: Event) {
    e.Connect? ==>
      e.id !in w.live &&
      (forall n :: n in w.t.slots && n.connId == e.id ==> n.bda == e.bda) &&
      (forall n :: n in w.t.slots && n.bda == e.bda ==> !n.connected)
  }

  predicate FreshRun(events: seq<Event>) {
    forall k {:trigger events[..k]} :: 0 <= k < |events| ==> FreshEvent(Run(events[..k]), events[k])
  }

  predicate HasConn(conns: seq<Conn>, id: u16) {
    exists i :: 0 <= i < |conns| && conns[i].id == id
  }

  predicate UniqueConns(conns: seq<Conn>) {
    forall i, j :: 0 <= i < j < |conns| ==> conns[i].id != conns[j].id
  }

  predicate UniqueSlots(slots: seq<Slot>) {
    forall i, j :: 0 <= i < j < |slots| ==> slots[i].bda != slots[j].bda && slots[i].connId != slots[j].connId
  }

  /** Every connected slot has its connection, and that connection leads to its device. */
  predicate Backed(w: World, n: Slot) {
    n.connected ==> HasConn(w.t.conns, n.connId) && n.connId in w.live && w.live[n.connId] == n.bda
  }

  predicate Inv(w: World) {
    |w.t.conns| <= MAX_CONNS && |w.t.slots| <= NODE_MAX_COUNT &&
    UniqueConns(w.t.conns) &&
    (forall i :: 0 <= i < |w.t.conns| ==> w.t.conns[i].id in w.live) &&
    UniqueSlots(w.t.slots) &&
    (forall i :: 0 <= i < |w.t.slots| ==> Backed(w, w.t.slots[i]))
  }

  /** Under unique ids, compaction drops exactly the one connection: the others keep their
      order and their handles. */
  lemma FreeConnDropsOne(t: Tables, id: u16)
    requires UniqueConns(t.conns)
    ensures var conns := FreeConn(t, id).conns;
      UniqueConns(conns) && !HasConn(conns, id) && |conns| <= |t.conns| &&
      (forall j :: j != id ==> (HasConn(conns, j) <==> HasConn(t.conns, j)))
  {
    var i, conns := FindConn(t, id), FreeConn(t, id).conns;
    if i >= 0 {
      assert forall k :: 0 <= k < |conns| ==> conns[k] == t.conns[if k < i then k else k + 1];
      forall j | j != id && HasConn(t.conns, j) ensures HasConn(conns, j) {
        var k :| 0 <= k < |t.conns| && t.conns[k].id == j;
        assert conns[if k < i then k else k - 1].id == j;
      }
    }
  }

  lemma ConnectKeeps(w: World, e: Event)
    requires Inv(w) && e.Connect? && FreshEvent(w, e)
    ensures Inv(Next(w, e))
  {
    var v := Next(w, e);
    if |w.t.conns| < MAX_CONNS {
      var conns := w.t.conns + [FreshConn(e.id, e.gattcIf)];
      assert v.t.conns == conns && conns[|w.t.conns|].id == e.id;
      assert forall j :: HasConn(w.t.conns, j) ==> HasConn(conns, j) by {
        forall j | HasConn(w.t.conns, j) ensures HasConn(conns, j) {
          var k :| 0 <= k < |w.t.conns| && w.t.conns[k].id == j;
          assert conns[k].id == j;
        }
      }
      AddedKeepsUnique(w.t.(conns := conns), e.id, e.bda);
      forall i | 0 <= i < |v.t.slots| ensures Backed(v, v.t.slots[i]) {
        if i < |w.t.slots| {
          assert Backed(w, w.t.slots[i]);
        }
      }
    } else {
      forall i | 0 <= i < |v.t.slots| ensures Backed(v, v.t.slots[i]) {
        assert Backed(w, w.t.slots[i]);
      }
    }
  }

  lemma AddedKeepsUnique(t: Tables, id: u16, bda: Bda)
    requires UniqueSlots(t.slots)
    requires forall n :: n in t.slots && n.connId == id ==> n.bda == bda
    requires forall n :: n in t.slots && n.bda == bda ==> !n.connected
    ensures UniqueSlots(AddNode(t, bda, id).slots)
  {
    var k, slots := AddedAt(t, bda), AddNode(t, bda, id).slots;
    assert forall i :: 0 <= i < |t.slots| ==> t.slots[i] in t.slots;
    if 0 <= k < |t.slots| {
      forall i | 0 <= i < |t.slots| && i != k ensures t.slots[i].bda != bda && t.slots[i].connId != id {
        assert t.slots[i].bda != t.slots[k].bda;
      }
    } else if k == |t.slots| {
      forall i | 0 <= i < |t.slots| ensures t.slots[i].bda != bda && t.slots[i].connId != id {
        assert !(!t.slots[i].connected && t.slots[i].bda == bda);
      }
    }
  }

  lemma DisconnectKeeps(w: World, e: Event)
    requires Inv(w) && e.Disconnect?
    ensures Inv(Next(w, e))
  {
    var v := Next(w, e);
    FreeConnDropsOne(RemoveNode(w.t, e.id), e.id);
    forall k | 0 <= k < |v.t.conns| ensures v.t.conns[k].id in v.live {
      assert HasConn(v.t.conns, v.t.conns[k].id);
      assert HasConn(w.t.conns, v.t.conns[k].id);
    }
    forall i | 0 <= i < |v.t.slots| ensures Backed(v, v.t.slots[i]) {
      assert Backed(w, w.t.slots[i]);
      if w.t.slots[i].connId == e.id {
        FirstUnique(w.t.slots, (n: Slot) => n.connId == e.id, i);
      }
    }
  }

  lemma ServicesKeep(w: World, e: Event)
    requires Inv(w) && e.ServicesFound?
    ensures Inv(Next(w, e))
  {
    var v := Next(w, e);
    assert |v.t.conns| == |w.t.conns| && forall i :: 0 <= i < |v.t.conns| ==> v.t.conns[i].id == w.t.conns[i].id;
    forall i | 0 <= i < |v.t.slots| ensures Backed(v, v.t.slots[i]) {
      assert Backed(w, w.t.slots[i]);
      if w.t.slots[i].connected {
        var k :| 0 <= k < |w.t.conns| && w.t.conns[k].id == w.t.slots[i].connId;
        assert v.t.conns[k].id == w.t.slots[i].connId;
      }
    }
  }

  lemma {:induction false} FreshRunsKeepInv(events: seq<Event>)
    requires FreshRun(events)
    ensures Inv(Run(events))
  {
    if events != [] {
      var n := |events| - 1;
      var before, e := events[..n], events[n];
      forall k {:trigger before[..k]} | 0 <= k < |before| ensures FreshEvent(Run(before[..k]), before[k]) {
        assert before[..k] == events[..k];
      }
      FreshRunsKeepInv(before);
      match e
      case Connect(_, _, _) => ConnectKeeps(Run(before), e);
      case ServicesFound(_, _, _) => ServicesKeep(Run(before), e);
      case Notify(_, _) =>
        forall i | 0 <= i < |Run(before).t.slots| ensures Backed(Run(events), Run(before).t.slots[i]) {
          assert Backed(Run(before), Run(before).t.slots[i]);
        }
      case Disconnect(_) => DisconnectKeeps(Run(before), e);
    }
  }

  // ---- counting -----------------------------------------------------------------------

  function ConnectedIds(slots: seq<Slot>): set<u16> {
    set i | 0 <= i < |slots| && slots[i].connected :: slots[i].connId
  }

  lemma {:induction false} CountIsIds(slots: seq<Slot>)
    requires UniqueSlots(slots)
    ensures CountConnected(slots) == |ConnectedIds(slots)|
  {
    if slots != [] {
      var n := |slots| - 1;
      CountIsIds(slots[..n]);
      OneMoreId(slots);
    }
  }

  lemma OneMoreId(slots: seq<Slot>)
    requires slots != [] && UniqueSlots(slots)
    ensures var before, last := ConnectedIds(slots[..|slots| - 1]), slots[|slots| - 1];
      last.connId !in before && ConnectedIds(slots) == before + if last.connected then {last.connId} else {}
  {
    var n := |slots| - 1;
    var front := slots[..n];
    assert forall i :: 0 <= i < n ==> front[i] == slots[i];
  }

  lemma {:induction false} IdsFit(conns: seq<Conn>, ids: set<u16>)
    requires forall id :: id in ids ==> HasConn(conns, id)
    ensures |ids| <= |conns|
  {
    if conns == [] {
      assert forall id :: !HasConn(conns, id);
      assert ids == {};
    } else {
      var n := |conns| - 1;
      forall id | id in ids - {conns[n].id} ensures HasConn(conns[..n], id) {
        var k :| 0 <= k < |conns| && conns[k].id == id;
        assert conns[..n][k].id == id;
      }
      IdsFit(conns[..n], ids - {conns[n].id});
      assert |ids| <= |ids - {conns[n].id}| + 1;
    }
  }

  /** Connected slots never outnumber open connections. */
  lemma ConnectedFitConns(events: seq<Event>)
    requires FreshRun(events)
    ensures CountConnected(Run(events).t.slots) <= |Run(events).t.conns|
  {
    FreshRunsKeepInv(events);
    var w := Run(events);
    CountIsIds(w.t.slots);
    forall id | id in ConnectedIds(w.t.slots) ensures HasConn(w.t.conns, id) {
      var i :| 0 <= i < |w.t.slots| && w.t.slots[i].connected && w.t.slots[i].connId == id;
      assert Backed(w, w.t.slots[i]);
    }
    IdsFit(w.t.conns, ConnectedIds(w.t.slots));
  }

  // ---- routing ------------------------------------------------------------------------

  /** A write that reaches the device owning slot n, with the packet unchanged. */
  predicate Reaches(w: World, n: nat, x: Write, data: seq<byte>) {
    n < |w.t.slots| && w.t.slots[n].connected && x.connId == w.t.slots[n].connId &&
    x.connId in w.live && w.live[x.connId] == w.t.slots[n].bda && x.data == data
  }

  predicate Ready(t: Tables, n: nat) {
    n < |t.slots| && t.slots[n].connected &&
    var i := FindConn(t, t.slots[n].connId);
    i >= 0 && t.conns[i].cmdFound
  }

  /** The first node to connect and be discovered is ready. */
  lemma FirstNodeIsReady(id: u16, gattcIf: u16, bda: Bda, cmd: u16)
    ensures var events := [Connect(id, gattcIf, bda)] + [ServicesFound(id, Some(cmd), None)];
      FreshRun(events) && Ready(Run(events).t, 0) && Run(events).t.slots == [Slot(bda, id, true)]
  {
    var first, second := Connect(id, gattcIf, bda), ServicesFound(id, Some(cmd), None);
    var events := [first] + [second];
    assert [] + [first] == [first];
    RunSnoc([], first);
    RunSnoc([first], second);
    FirstUnique(Run([first]).t.conns, (c: Conn) => c.id == id, 0);
    FirstUnique(Run(events).t.conns, (c: Conn) => c.id == id, 0);
    assert events[..0] == [] && events[..1] == [first];
  }

  /** In every fresh run: a packet for slot n goes out exactly once if that slot's device is
      connected and its command characteristic is known, to that device; otherwise not at all. */
  lemma UnicastReachesOwner(events: seq<Event>, n: byte, data: seq<byte>)
    requires FreshRun(events) && n != 255
    ensures var w := Run(events);
      var writes := Route(w.t, n, data);
      |writes| == (if Ready(w.t, n) then 1 else 0) && forall x :: x in writes ==> Reaches(w, n, x, data)
  {
    FreshRunsKeepInv(events);
    var w := Run(events);
    if n < |w.t.slots| {
      assert Backed(w, w.t.slots[n]);
    }
  }

  /** The slots below k that a broadcast can be written to. */
  function ReadySlots(t: Tables, k: nat): seq<nat>
    requires k <= |t.slots|
  {
    if k == 0 then []
    else ReadySlots(t, k - 1) + (if Ready(t, k - 1) then [k - 1] else [])
  }

  lemma {:induction false} ReadySlotsAreReady(t: Tables, k: nat)
    requires k <= |t.slots|
    ensures var r := ReadySlots(t, k);
      (forall n: nat :: n in r <==> n < k && Ready(t, n)) && forall i, j :: 0 <= i < j < |r| ==> r[i] < r[j]
  {
    if k > 0 {
      ReadySlotsAreReady(t, k - 1);
      var before := ReadySlots(t, k - 1);
      assert forall i :: 0 <= i < |before| ==> before[i] in before;
    }
  }

  lemma {:induction false} BroadcastFollowsSlots(w: World, k: nat, data: seq<byte>)
    requires Inv(w) && k <= |w.t.slots|
    ensures var writes, r := Broadcast(w.t, k, data), ReadySlots(w.t, k);
      |writes| == |r| && forall i :: 0 <= i < |r| ==> Reaches(w, r[i], writes[i], data)
  {
    if k > 0 {
      BroadcastFollowsSlots(w, k - 1, data);
      assert Backed(w, w.t.slots[k - 1]);
    }
  }

  /** In every fresh run: a broadcast is written once to each slot that is ready, in slot
      order, each time to the device that owns the slot, and to no connection twice. */
  lemma BroadcastReachesEachOnce(events: seq<Event>, data: seq<byte>)
    requires FreshRun(events)
    ensures var w := Run(events);
      var writes := Route(w.t, 255, data);
      var r := ReadySlots(w.t, |w.t.slots|);
      |writes| == |r| && (forall i :: 0 <= i < |r| ==> Reaches(w, r[i], writes[i], data)) &&
      (forall n: nat :: n in r <==> Ready(w.t, n)) && (forall i, j :: 0 <= i < j < |r| ==> r[i] < r[j]) &&
      forall i, j :: 0 <= i < j < |writes| ==> writes[i].connId != writes[j].connId
  {
    FreshRunsKeepInv(events);
    var w := Run(events);
    BroadcastFollowsSlots(w, |w.t.slots|, data);
    ReadySlotsAreReady(w.t, |w.t.slots|);
    var writes, r := Route(w.t, BROADCAST, data), ReadySlots(w.t, |w.t.slots|);
    forall i, j | 0 <= i < j < |writes| ensures writes[i].connId != writes[j].connId {
      assert Reaches(w, r[i], writes[i], data) && Reaches(w, r[j], writes[j], data);
    }
  }
}
