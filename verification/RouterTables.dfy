/** The router's two tables: the connection table, compacted on every disconnect, and the
    node registry, whose slots never move. */
module RouterTables {
  import opened Protocol

  const MAX_CONNS := 8
  const NODE_MAX_COUNT := 8

  type Bda = seq<byte>

  datatype Conn = Conn(id: u16, gattcIf: u16, cmdHandle: u16, telHandle: u16, cmdFound: bool, telFound: bool)

  datatype Slot = Slot(bda: Bda, connId: u16, connected: bool)

  datatype Tables = Tables(conns: seq<Conn>, slots: seq<Slot>)

  /** The first index at which a table entry satisfies p, or -1. */
  function First<T>(s: seq<T>, p: T -> bool): (r: int)
    ensures -1 <= r < |s|
    ensures r >= 0 ==> p(s[r])
    ensures forall j :: 0 <= j < (if r >= 0 then r else |s|) ==> !p(s[j])
  {
    if s == [] then -1
    else if p(s[0]) then 0
    else
      var later := First(s[1..], p);
      assert forall j :: 1 <= j < |s| ==> s[j] == s[1..][j - 1];
      if later < 0 then -1 else later + 1
  }

  lemma FirstUnique<T>(s: seq<T>, p: T -> bool, r: int)
    requires -1 <= r < |s|
    requires r >= 0 ==> p(s[r])
    requires forall j :: 0 <= j < (if r >= 0 then r else |s|) ==> !p(s[j])
    ensures r == First(s, p)
  {
    var q := First(s, p);
    assert r >= 0 ==> p(s[r]);
  }

  // ---- lookups ------------------------------------------------------------------------

  /** `find_conn`. */
  function FindConn(t: Tables, id: u16): int {
    First(t.conns, (c: Conn) => c.id == id)
  }

  /** `node_by_conn_id`: the connected flag is not looked at. */
  function HolderOf(t: Tables, id: u16): int {
    First(t.slots, (n: Slot) => n.connId == id)
  }

  /** `node_id_by_conn_id`. */
  function NodeId(t: Tables, id: u16): int {
    First(t.slots, (n: Slot) => n.connId == id && n.connected)
  }

  /** The slot a reconnecting device goes back to. */
  function Reusable(t: Tables, bda: Bda): int {
    First(t.slots, (n: Slot) => !n.connected && n.bda == bda)
  }

  function CountConnected(slots: seq<Slot>): nat {
    if slots == [] then 0
    else
      var n := |slots| - 1;
      CountConnected(slots[..n]) + (if slots[n].connected then 1 else 0)
  }

  // ---- changes ------------------------------------------------------------------------

  function FreshConn(id: u16, gattcIf: u16): Conn {
    Conn(id, gattcIf, 0, 0, false, false)
  }

  /** `free_conn`: the first entry with the id goes and the later ones close up. */
  function FreeConn(t: Tables, id: u16): Tables {
    var i := FindConn(t, id);
    if i < 0 then t else t.(conns := t.conns[..i] + t.conns[i + 1..])
  }

  /** `node_add`: the slot used, or -1 when the table is full. */
  function AddedAt(t: Tables, bda: Bda): int {
    var i := Reusable(t, bda);
    if i >= 0 then i else if |t.slots| < NODE_MAX_COUNT then |t.slots| else -1
  }

  function AddNode(t: Tables, bda: Bda, id: u16): Tables {
    var k := AddedAt(t, bda);
    if k < 0 then t
    else if k < |t.slots| then t.(slots := t.slots[k := t.slots[k].(connId := id, connected := true)])
    else t.(slots := t.slots + [Slot(bda, id, true)])
  }

  /** `node_remove`: the first slot with the id, connected or not, is marked. */
  function RemoveNode(t: Tables, id: u16): Tables {
    var i := HolderOf(t, id);
    if i < 0 then t else t.(slots := t.slots[i := t.slots[i].(connected := false)])
  }

  /** What the radio stack reports. */
  datatype Event =
    | Connect(id: u16, gattcIf: u16, bda: Bda)
    | ServicesFound(id: u16, cmdHandle: Option<u16>, telHandle: Option<u16>)
    | Notify(id: u16, data: seq<byte>)
    | Disconnect(id: u16)

  /** The bytes put on the serial line for one emitted frame. */
  function Emitted(nid: int, data: seq<byte>): seq<byte> {
    [nid % 256] + data[..|data| % 256]
  }

  function Synthetic(command: byte): seq<byte> {
    Wire(Packet(command, []))
  }

  datatype Reaction = Reaction(tables: Tables, serial: seq<byte>)

  function OnConnect(t: Tables, id: u16, gattcIf: u16, bda: Bda): Reaction {
    if |t.conns| >= MAX_CONNS then Reaction(t, [])
    else
      var accepted := t.(conns := t.conns + [FreshConn(id, gattcIf)]);
      if AddedAt(accepted, bda) < 0 then Reaction(accepted, [])
      else
        var added := AddNode(accepted, bda, id);
        var nid := NodeId(added, id);
        Reaction(added, if nid >= 0 then Emitted(nid, Synthetic(PING)) else [])
  }

  /** What service discovery writes into a connection's entry. */
  function Served(c: Conn, cmdHandle: Option<u16>, telHandle: Option<u16>): Conn {
    var c1 := match cmdHandle case Some(h) => c.(cmdHandle := h, cmdFound := true) case None => c;
    match telHandle case Some(h) => c1.(telHandle := h, telFound := true) case None => c1
  }

  function OnServicesFound(t: Tables, id: u16, cmdHandle: Option<u16>, telHandle: Option<u16>): Tables {
    var i := FindConn(t, id);
    if i < 0 then t else t.(conns := t.conns[i := Served(t.conns[i], cmdHandle, telHandle)])
  }

  /** A notification is forwarded when it looks like a packet and its connection has a slot. */
  function OnNotify(t: Tables, id: u16, data: seq<byte>): seq<byte> {
    if |data| < HEADER_SIZE || !MagicAt(data, 0) then []
    else
      var nid := NodeId(t, id);
      if nid >= 0 then Emitted(nid, data) else []
  }

  /** A notification goes up, as it is but for the narrow length argument, under the id of the
      first connected slot with its connection, if and only if it starts like a packet and
      there is such a slot. */
  lemma NotifyForwardedIff(t: Tables, id: u16, data: seq<byte>)
    requires |t.slots| <= NODE_MAX_COUNT
    ensures OnNotify(t, id, data) != [] <==>
      |data| >= 4 && data[0] == 0x4C && data[1] == 0x4B && exists n :: n in t.slots && n.connected && n.connId == id
    ensures OnNotify(t, id, data) != [] ==>
      exists k: byte :: IsFirst(t.slots, k, id) && OnNotify(t, id, data) == [k] + data[..|data| % 256]
  {
    var nid := NodeId(t, id);
    if nid >= 0 {
      assert t.slots[nid] in t.slots && IsFirst(t.slots, nid, id);
    }
  }

  /** Slot k is the first connected one with this connection. */
  predicate IsFirst(slots: seq<Slot>, k: nat, id: u16) {
    k < |slots| && slots[k].connected && slots[k].connId == id &&
    forall j :: 0 <= j < k ==> !(slots[j].connected && slots[j].connId == id)
  }

  function OnDisconnect(t: Tables, id: u16): Reaction {
    var nid := NodeId(t, id);
    Reaction(FreeConn(RemoveNode(t, id), id), if nid >= 0 then Emitted(nid, Synthetic(ERROR)) else [])
  }

  /** A connection is announced to the host, by a PING under the slot it got, if and only if
      both tables have room for it. */
  lemma ConnectAnnouncedIff(t: Tables, id: u16, gattcIf: u16, bda: Bda)
    requires |t.slots| <= NODE_MAX_COUNT
    ensures var r := OnConnect(t, id, gattcIf, bda);
      (r.serial != [] <==>
        |t.conns| < 8 && (|t.slots| < 8 || exists n :: n in t.slots && !n.connected && n.bda == bda)) &&
      (r.serial != [] ==>
        exists k: byte :: IsFirst(r.tables.slots, k, id) && r.serial == [k, 0x4C, 0x4B, 0x01, 0])
  {
    var at, r := AddedAt(t, bda), OnConnect(t, id, gattcIf, bda);
    if |t.conns| < MAX_CONNS && at >= 0 {
      assert r.tables.slots[at].connected && r.tables.slots[at].connId == id;
      assert IsFirst(r.tables.slots, NodeId(r.tables, id), id);
    }
    if at >= 0 && at < |t.slots| {
      assert t.slots[at] in t.slots;
    }
  }

  /** A disconnection is announced, by an ERROR, if and only if its connection has a slot. */
  lemma DisconnectAnnouncedIff(t: Tables, id: u16)
    requires |t.slots| <= NODE_MAX_COUNT
    ensures var r := OnDisconnect(t, id);
      (r.serial != [] <==> exists n :: n in t.slots && n.connected && n.connId == id) &&
      (r.serial != [] ==> exists k: byte :: IsFirst(t.slots, k, id) && r.serial == [k, 0x4C, 0x4B, 0xFF, 0])
  {
    var nid := NodeId(t, id);
    if nid >= 0 {
      assert t.slots[nid] in t.slots && IsFirst(t.slots, nid, id);
    }
  }

  function React(t: Tables, e: Event): Reaction {
    match e
    case Connect(id, gattcIf, bda) => OnConnect(t, id, gattcIf, bda)
    case ServicesFound(id, cmd, tel) => Reaction(OnServicesFound(t, id, cmd, tel), [])
    case Notify(id, data) => Reaction(t, OnNotify(t, id, data))
    case Disconnect(id) => OnDisconnect(t, id)
  }

  // ---- sending ------------------------------------------------------------------------

  /** One GATT write. */
  datatype Write = Write(connId: u16, gattcIf: u16, handle: u16, data: seq<byte>)

  /** `ble_central_send_to_node`: an unknown connection, or one whose command characteristic
      is not known yet, gets nothing. */
  function SendToNode(t: Tables, id: u16, data: seq<byte>): seq<Write> {
    var i := FindConn(t, id);
    if i < 0 || !t.conns[i].cmdFound then []
    else [Write(id, t.conns[i].gattcIf, t.conns[i].cmdHandle, data)]
  }

  /** The sends a broadcast makes to the first k slots. */
  function Broadcast(t: Tables, k: nat, data: seq<byte>): seq<Write>
    requires k <= |t.slots|
  {
    if k == 0 then []
    else
      var last := if t.slots[k - 1].connected then SendToNode(t, t.slots[k - 1].connId, data) else [];
      Broadcast(t, k - 1, data) + last
  }

  /** Where the parser's dispatch of a packet goes. */
  function Route(t: Tables, node: byte, data: seq<byte>): seq<Write> {
    if node == BROADCAST then Broadcast(t, |t.slots|, data)
    else if node < |t.slots| && t.slots[node].connected then SendToNode(t, t.slots[node].connId, data)
    else []
  }
}
