/** The connection table against a declarative account of the same run: the accepted
    connections that are still open, in order of arrival, with the handles found for them. */
module ConnectionOrder {
  import opened Protocol
  import opened RouterTables
  import opened RouterRuns

  /** The radio never reports a new connection under an id that is still live. */
  predicate LiveIdsUnique(events: seq<Event>) {
    forall k {:trigger events[..k]} :: 0 <= k < |events| ==>
      events[k].Connect? ==> events[k].id !in Run(events[..k]).live
  }

  /** Event k is a connection that found room and has not been closed since. */
  predicate StillOpen(events: seq<Event>, k: nat)
    requires k < |events|
  {
    events[k].Connect? && |Run(events[..k]).t.conns| < MAX_CONNS &&
    forall j :: k < j < |events| ==> events[j] != Disconnect(events[k].id)
  }

  /** The entry of the connection event k opened, after all that was discovered about it. */
  function EntryOf(events: seq<Event>, k: nat): Conn
    requires k < |events| && events[k].Connect?
    decreases |events|
  {
    var n := |events| - 1;
    if n == k then FreshConn(events[k].id, events[k].gattcIf)
    else
      var c := EntryOf(events[..n], k);
      match events[n]
      case ServicesFound(id, cmd, tel) => if id == c.id then Served(c, cmd, tel) else c
      case _ => c
  }

  /** The entries of the open connections among the first m events, by arrival. */
  function OpenEntries(events: seq<Event>, m: nat): seq<Conn>
    requires m <= |events|
  {
    if m == 0 then []
    else
      var last := if StillOpen(events, m - 1) then [EntryOf(events, m - 1)] else [];
      OpenEntries(events, m - 1) + last
  }

  // ---- how one more event changes the account -----------------------------------------

  function Dropped(conns: seq<Conn>, id: u16): seq<Conn> {
    if conns == [] then []
    else
      var n := |conns| - 1;
      Dropped(conns[..n], id) + (if conns[n].id == id then [] else [conns[n]])
  }

  function Updated(conns: seq<Conn>, id: u16, cmd: Option<u16>, tel: Option<u16>): seq<Conn> {
    if conns == [] then []
    else
      var n := |conns| - 1;
      Updated(conns[..n], id, cmd, tel) + [if conns[n].id == id then Served(conns[n], cmd, tel) else conns[n]]
  }

  /** What the account of the earlier events becomes. */
  function Amended(conns: seq<Conn>, e: Event): seq<Conn> {
    match e
    case ServicesFound(id, cmd, tel) => Updated(conns, id, cmd, tel)
    case Disconnect(id) => Dropped(conns, id)
    case _ => conns
  }

  lemma {:induction false} EntryKeepsId(events: seq<Event>, k: nat)
    requires k < |events| && events[k].Connect?
    ensures EntryOf(events, k).id == events[k].id
    decreases |events|
  {
    var n := |events| - 1;
    if n != k {
      assert events[..n][k] == events[k];
      EntryKeepsId(events[..n], k);
    }
  }

  lemma AmendSnoc(conns: seq<Conn>, c: Conn, e: Event)
    ensures Amended(conns + [c], e) == Amended(conns, e) + Amended([c], e)
  {
    assert (conns + [c])[..|conns|] == conns;
    assert [c][..0] == [];
    match e
    case ServicesFound(id, cmd, tel) => assert Updated([], id, cmd, tel) == [];
    case Disconnect(id) => assert Dropped([], id) == [];
    case _ =>
  }

  lemma OpenOneEventLater(before: seq<Event>, e: Event, k: nat)
    requires k < |before|
    ensures StillOpen(before + [e], k) <==> StillOpen(before, k) && e != Disconnect(before[k].id)
  {
    var events := before + [e];
    assert events[..k] == before[..k];
    assert forall j :: 0 <= j < |before| ==> events[j] == before[j];
    assert events[|before|] == e;
    if before[k].Connect? && StillOpen(events, k) {
      assert forall j :: k < j < |before| ==> before[j] == events[j] && before[j] != Disconnect(before[k].id);
    }
  }

  lemma AmendOne(c: Conn, e: Event)
    ensures Amended([c], e) ==
      match e
      case ServicesFound(id, cmd, tel) => [if c.id == id then Served(c, cmd, tel) else c]
      case Disconnect(id) => if c.id == id then [] else [c]
      case _ => [c]
  {
    assert [c][..0] == [];
    match e
    case ServicesFound(id, cmd, tel) =>
      var u := if c.id == id then Served(c, cmd, tel) else c;
      assert Updated([c], id, cmd, tel) == Updated([], id, cmd, tel) + [u];
    case Disconnect(id) =>
      assert Dropped([c], id) == Dropped([], id) + (if c.id == id then [] else [c]);
    case _ =>
  }

  lemma EntryOneEventLater(before: seq<Event>, e: Event, k: nat)
    requires k < |before| && StillOpen(before, k)
    ensures Amended([EntryOf(before, k)], e)
      == if e == Disconnect(before[k].id) then [] else [EntryOf(before + [e], k)]
  {
    var events := before + [e];
    assert events[..|before|] == before && events[|before|] == e && events[k] == before[k];
    EntryKeepsId(before, k);
    AmendOne(EntryOf(before, k), e);
  }

  lemma {:induction false} OneMoreEvent(before: seq<Event>, e: Event, m: nat)
    requires m <= |before|
    ensures OpenEntries(before + [e], m) == Amended(OpenEntries(before, m), e)
  {
    var events := before + [e];
    if m > 0 {
      var k := m - 1;
      OneMoreEvent(before, e, k);
      assert events[k] == before[k];
      OpenOneEventLater(before, e, k);
      if StillOpen(before, k) {
        EntryOneEventLater(before, e, k);
        AmendSnoc(OpenEntries(before, k), EntryOf(before, k), e);
        assert OpenEntries(before, m) == OpenEntries(before, k) + [EntryOf(before, k)];
        assert OpenEntries(events, m) == OpenEntries(events, k) + Amended([EntryOf(before, k)], e);
      } else {
        assert OpenEntries(before, m) == OpenEntries(before, k);
        assert OpenEntries(events, m) == OpenEntries(events, k);
      }
    }
  }

  // ---- how it changes the table -------------------------------------------------------

  lemma {:induction false} NothingToDrop(conns: seq<Conn>, id: u16)
    requires forall k :: 0 <= k < |conns| ==> conns[k].id != id
    ensures Dropped(conns, id) == conns
  {
    if conns != [] {
      NothingToDrop(conns[..|conns| - 1], id);
    }
  }

  lemma {:induction false} DropSplits(a: seq<Conn>, b: seq<Conn>, id: u16)
    ensures Dropped(a + b, id) == Dropped(a, id) + Dropped(b, id)
  {
    if b == [] {
      assert a + b == a;
    } else {
      var n := |b| - 1;
      DropSplits(a, b[..n], id);
      assert (a + b)[..|a + b| - 1] == a + b[..n];
    }
  }

  lemma DropMiddle(a: seq<Conn>, c: Conn, b: seq<Conn>)
    requires forall k :: 0 <= k < |a| ==> a[k].id != c.id
    requires forall k :: 0 <= k < |b| ==> b[k].id != c.id
    ensures Dropped(a + [c] + b, c.id) == a + b
  {
    NothingToDrop(a, c.id);
    NothingToDrop(b, c.id);
    var ac := a + [c];
    assert ac[..|ac| - 1] == a && ac[|ac| - 1] == c;
    assert Dropped(ac, c.id) == a;
    DropSplits(ac, b, c.id);
  }

  lemma FreeConnDrops(t: Tables, id: u16)
    requires UniqueConns(t.conns)
    ensures FreeConn(t, id).conns == Dropped(t.conns, id)
  {
    var i := FindConn(t, id);
    if i < 0 {
      NothingToDrop(t.conns, id);
    } else {
      DropMiddle(t.conns[..i], t.conns[i], t.conns[i + 1..]);
      assert t.conns == t.conns[..i] + [t.conns[i]] + t.conns[i + 1..];
    }
  }

  lemma {:induction false} UpdatedAt(conns: seq<Conn>, id: u16, cmd: Option<u16>, tel: Option<u16>)
    ensures var u := Updated(conns, id, cmd, tel);
      |u| == |conns| &&
      forall k :: 0 <= k < |conns| ==> u[k] == if conns[k].id == id then Served(conns[k], cmd, tel) else conns[k]
  {
    if conns != [] {
      UpdatedAt(conns[..|conns| - 1], id, cmd, tel);
    }
  }

  lemma TableIsAmended(w: World, e: Event)
    requires UniqueConns(w.t.conns)
    ensures var added := if e.Connect? && |w.t.conns| < MAX_CONNS then [FreshConn(e.id, e.gattcIf)] else [];
      Next(w, e).t.conns == Amended(w.t.conns, e) + added
  {
    match e
    case ServicesFound(id, cmd, tel) => UpdatedAt(w.t.conns, id, cmd, tel);
    case Disconnect(id) => FreeConnDrops(RemoveNode(w.t, id), id);
    case _ =>
  }

  predicate ConnsLive(w: World) {
    UniqueConns(w.t.conns) && forall i :: 0 <= i < |w.t.conns| ==> w.t.conns[i].id in w.live
  }

  lemma NextConnsLive(w: World, e: Event)
    requires ConnsLive(w) && (e.Connect? ==> e.id !in w.live)
    ensures ConnsLive(Next(w, e))
  {
    var v := Next(w, e);
    if e.Disconnect? {
      FreeConnDropsOne(RemoveNode(w.t, e.id), e.id);
      forall k | 0 <= k < |v.t.conns| ensures v.t.conns[k].id in v.live {
        assert HasConn(v.t.conns, v.t.conns[k].id);
      }
    } else if e.ServicesFound? {
      assert forall k :: 0 <= k < |v.t.conns| ==> v.t.conns[k].id == w.t.conns[k].id;
    }
  }

  lemma UniquePrefix(events: seq<Event>)
    requires events != [] && LiveIdsUnique(events)
    ensures LiveIdsUnique(events[..|events| - 1])
  {
    var before := events[..|events| - 1];
    forall k {:trigger before[..k]} | 0 <= k < |before|
      ensures before[k].Connect? ==> before[k].id !in Run(before[..k]).live
    {
      assert before[..k] == events[..k];
    }
  }

  /** In every run with unique live ids, the table holds exactly the accepted connections
      still open, in order of arrival, each with the handles discovered for it. */
  lemma {:induction false} TableIsOpenConnections(events: seq<Event>)
    requires LiveIdsUnique(events)
    ensures ConnsLive(Run(events))
    ensures Run(events).t.conns == OpenEntries(events, |events|)
  {
    if events != [] {
      var n := |events| - 1;
      var before, e := events[..n], events[n];
      assert events == before + [e];
      UniquePrefix(events);
      TableIsOpenConnections(before);
      var w := Run(before);
      NextConnsLive(w, e);
      TableIsAmended(w, e);
      OneMoreEvent(before, e, n);
      assert StillOpen(events, n) <==> e.Connect? && |w.t.conns| < MAX_CONNS;
    }
  }

  // ---- whose handles a write uses -------------------------------------------------------

  lemma {:induction false} EntriesAreOpen(events: seq<Event>, m: nat, c: Conn) returns (k: nat)
    requires m <= |events| && c in OpenEntries(events, m)
    ensures k < m && StillOpen(events, k) && EntryOf(events, k) == c
  {
    if StillOpen(events, m - 1) && EntryOf(events, m - 1) == c {
      k := m - 1;
    } else {
      k := EntriesAreOpen(events, m - 1, c);
    }
  }

  /** While a connection is open the radio has its device behind its id. */
  lemma {:induction false} OpenIsLive(events: seq<Event>, k: nat)
    requires LiveIdsUnique(events) && k < |events| && StillOpen(events, k)
    ensures events[k].id in Run(events).live && Run(events).live[events[k].id] == events[k].bda
    decreases |events|
  {
    var n := |events| - 1;
    var before := events[..n];
    if k < n {
      UniquePrefix(events);
      assert before + [events[n]] == events;
      OpenOneEventLater(before, events[n], k);
      OpenIsLive(before, k);
      assert events[..n] == before;
      StaysLive(Run(before).live, events[n], events[k].id);
    }
  }

  lemma StaysLive(live: map<u16, Bda>, e: Event, id: u16)
    requires id in live && e != Disconnect(id) && (e.Connect? ==> e.id !in live)
    ensures id in NextLive(live, e) && NextLive(live, e)[id] == live[id]
  {
  }

  /** The write goes to the interface and the handle found for a table entry. */
  predicate FromTable(t: Tables, x: Write) {
    exists i :: 0 <= i < |t.conns| && t.conns[i].id == x.connId && t.conns[i].cmdFound &&
      x.gattcIf == t.conns[i].gattcIf && x.handle == t.conns[i].cmdHandle
  }

  lemma SendsFromTable(t: Tables, id: u16, data: seq<byte>)
    ensures forall x :: x in SendToNode(t, id, data) ==> FromTable(t, x)
  {
    var i := FindConn(t, id);
    if i >= 0 {
      assert t.conns[i].id == id;
    }
  }

  lemma {:induction false} BroadcastFromTable(t: Tables, k: nat, data: seq<byte>)
    requires k <= |t.slots|
    ensures forall x :: x in Broadcast(t, k, data) ==> FromTable(t, x)
  {
    if k > 0 {
      BroadcastFromTable(t, k - 1, data);
      SendsFromTable(t, t.slots[k - 1].connId, data);
    }
  }

  lemma RoutedFromTable(t: Tables, node: byte, data: seq<byte>)
    ensures forall x :: x in Route(t, node, data) ==> FromTable(t, x)
  {
    if node == BROADCAST {
      BroadcastFromTable(t, |t.slots|, data);
    } else if node < |t.slots| {
      SendsFromTable(t, t.slots[node].connId, data);
    }
  }

  // ---- where the handles come from ------------------------------------------------------

  /** Event j reports the services of a connection, with or without each of the handles. */
  predicate Reports(events: seq<Event>, j: nat, id: u16)
    requires j < |events|
  {
    events[j].ServicesFound? && events[j].id == id
  }

  /** Discovery j, after connection k, brought the command handle h, and no later one another. */
  predicate CommandHandle(events: seq<Event>, k: nat, j: nat, id: u16, h: u16) {
    k < j < |events| && Reports(events, j, id) && events[j].cmdHandle == Some(h) &&
    forall i: nat :: j < i < |events| && Reports(events, i, id) ==> events[i].cmdHandle == None
  }

  predicate TelemetryHandle(events: seq<Event>, k: nat, j: nat, id: u16, h: u16) {
    k < j < |events| && Reports(events, j, id) && events[j].telHandle == Some(h) &&
    forall i: nat :: j < i < |events| && Reports(events, i, id) ==> events[i].telHandle == None
  }

  /** No discovery after connection k brought one. */
  predicate NoCommandHandle(events: seq<Event>, k: nat, id: u16) {
    forall i: nat :: k < i < |events| && Reports(events, i, id) ==> events[i].cmdHandle == None
  }

  predicate NoTelemetryHandle(events: seq<Event>, k: nat, id: u16) {
    forall i: nat :: k < i < |events| && Reports(events, i, id) ==> events[i].telHandle == None
  }

  /** What an entry holds, by the events alone. */
  ghost predicate Discovered(events: seq<Event>, k: nat, c: Conn)
    requires k < |events| && events[k].Connect?
  {
    c.id == events[k].id && c.gattcIf == events[k].gattcIf &&
    (if c.cmdFound then exists j: nat :: CommandHandle(events, k, j, c.id, c.cmdHandle)
     else NoCommandHandle(events, k, c.id)) &&
    (if c.telFound then exists j: nat :: TelemetryHandle(events, k, j, c.id, c.telHandle)
     else NoTelemetryHandle(events, k, c.id))
  }

  lemma CommandOneMore(before: seq<Event>, e: Event, k: nat, c: Conn, d: Conn)
    requires k < |before| && before[k].Connect? && Discovered(before, k, c) && d.id == c.id
    requires if e.ServicesFound? && e.id == c.id && e.cmdHandle.Some?
             then d.cmdFound && Some(d.cmdHandle) == e.cmdHandle
             else d.cmdFound == c.cmdFound && d.cmdHandle == c.cmdHandle
    ensures if d.cmdFound then exists j: nat :: CommandHandle(before + [e], k, j, d.id, d.cmdHandle)
            else NoCommandHandle(before + [e], k, d.id)
  {
    var events := before + [e];
    assert forall i :: 0 <= i < |before| ==> events[i] == before[i];
    if e.ServicesFound? && e.id == c.id && e.cmdHandle.Some? {
      assert CommandHandle(events, k, |before|, d.id, d.cmdHandle);
    } else if c.cmdFound {
      var j: nat :| CommandHandle(before, k, j, c.id, c.cmdHandle);
      forall i: nat | j < i < |events| && Reports(events, i, c.id) ensures events[i].cmdHandle == None {
        assert i < |before| ==> Reports(before, i, c.id);
      }
      assert CommandHandle(events, k, j, d.id, d.cmdHandle);
    } else {
      forall i: nat | k < i < |events| && Reports(events, i, c.id) ensures events[i].cmdHandle == None {
        assert i < |before| ==> Reports(before, i, c.id);
      }
    }
  }

  lemma TelemetryOneMore(before: seq<Event>, e: Event, k: nat, c: Conn, d: Conn)
    requires k < |before| && before[k].Connect? && Discovered(before, k, c) && d.id == c.id
    requires if e.ServicesFound? && e.id == c.id && e.telHandle.Some?
             then d.telFound && Some(d.telHandle) == e.telHandle
             else d.telFound == c.telFound && d.telHandle == c.telHandle
    ensures if d.telFound then exists j: nat :: TelemetryHandle(before + [e], k, j, d.id, d.telHandle)
            else NoTelemetryHandle(before + [e], k, d.id)
  {
    var events := before + [e];
    assert forall i :: 0 <= i < |before| ==> events[i] == before[i];
    if e.ServicesFound? && e.id == c.id && e.telHandle.Some? {
      assert TelemetryHandle(events, k, |before|, d.id, d.telHandle);
    } else if c.telFound {
      var j: nat :| TelemetryHandle(before, k, j, c.id, c.telHandle);
      forall i: nat | j < i < |events| && Reports(events, i, c.id) ensures events[i].telHandle == None {
        assert i < |before| ==> Reports(before, i, c.id);
      }
      assert TelemetryHandle(events, k, j, d.id, d.telHandle);
    } else {
      forall i: nat | k < i < |events| && Reports(events, i, c.id) ensures events[i].telHandle == None {
        assert i < |before| ==> Reports(before, i, c.id);
      }
    }
  }

  /** An entry has the interface its connection came with and, of each kind, the last handle
      that a discovery reported for its id since. */
  lemma {:induction false} EntryIsDiscovered(events: seq<Event>, k: nat)
    requires k < |events| && events[k].Connect?
    ensures Discovered(events, k, EntryOf(events, k))
    decreases |events|
  {
    var n := |events| - 1;
    if n > k {
      var before, e := events[..n], events[n];
      assert events == before + [e] && before[k] == events[k];
      EntryIsDiscovered(before, k);
      CommandOneMore(before, e, k, EntryOf(before, k), EntryOf(events, k));
      TelemetryOneMore(before, e, k, EntryOf(before, k), EntryOf(events, k));
    }
  }

  /** In every run with unique live ids, every entry of the table belongs to an open connection
      and holds what was discovered on it, by the events alone. */
  lemma EntriesAreDiscovered(events: seq<Event>, i: nat)
    requires LiveIdsUnique(events) && i < |Run(events).t.conns|
    ensures exists k: nat :: k < |events| && StillOpen(events, k) && Discovered(events, k, Run(events).t.conns[i])
  {
    TableIsOpenConnections(events);
    var k := EntriesAreOpen(events, |events|, Run(events).t.conns[i]);
    EntryIsDiscovered(events, k);
  }

  /** The write uses what came to light on connection k, of this device: its interface, and the
      last command handle discovered since. */
  ghost predicate Belongs(events: seq<Event>, x: Write, bda: Bda, k: nat)
    requires k < |events|
  {
    StillOpen(events, k) && events[k].id == x.connId && events[k].bda == bda && x.gattcIf == events[k].gattcIf &&
    exists j: nat :: CommandHandle(events, k, j, x.connId, x.handle)
  }

  /** In every fresh run, unicast or broadcast, each write goes to the interface and the command
      characteristic that were found, by the events alone, on the open connection of the very
      device the radio has behind its connection id. */
  lemma WritesUseOwnHandles(events: seq<Event>, node: byte, data: seq<byte>)
    requires FreshRun(events)
    ensures var w := Run(events);
      forall x :: x in Route(w.t, node, data) ==>
        x.connId in w.live && exists k: nat :: k < |events| && Belongs(events, x, w.live[x.connId], k)
  {
    var w := Run(events);
    assert LiveIdsUnique(events);
    TableIsOpenConnections(events);
    RoutedFromTable(w.t, node, data);
    forall x | x in Route(w.t, node, data)
      ensures x.connId in w.live && exists k: nat :: k < |events| && Belongs(events, x, w.live[x.connId], k)
    {
      var i :| 0 <= i < |w.t.conns| && w.t.conns[i].id == x.connId && w.t.conns[i].cmdFound &&
        x.gattcIf == w.t.conns[i].gattcIf && x.handle == w.t.conns[i].cmdHandle;
      var k := EntriesAreOpen(events, |events|, w.t.conns[i]);
      EntryIsDiscovered(events, k);
      OpenIsLive(events, k);
      assert Belongs(events, x, w.live[x.connId], k);
    }
  }
}
