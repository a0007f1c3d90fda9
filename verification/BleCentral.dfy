/** The router's tables as the firmware keeps them: two fixed arrays with counters, changed
    in place by the radio's events. */
module BleCentral {
  import opened Protocol
  import opened RouterTables

  class Central {
    const conns: array<Conn>
    var connCount: nat
    const nodes: array<Slot>
    var nodeCount: nat
    var serial: seq<byte>     // the bytes written to the host so far
    var writes: seq<Write>    // the GATT writes made so far

    ghost predicate Valid()
      reads this
    {
      conns.Length == MAX_CONNS && connCount <= MAX_CONNS &&
      nodes.Length == NODE_MAX_COUNT && nodeCount <= NODE_MAX_COUNT
    }

    ghost function State(): Tables
      requires Valid()
      reads this, conns, nodes
    {
      Tables(conns[..connCount], nodes[..nodeCount])
    }

    constructor ()
      ensures Valid() && fresh(conns) && fresh(nodes)
      ensures State() == Tables([], []) && serial == [] && writes == []
    {
      conns := new Conn[MAX_CONNS](_ => FreshConn(0, 0));
      nodes := new Slot[NODE_MAX_COUNT](_ => Slot([], 0, false));
      connCount, nodeCount, serial, writes := 0, 0, [], [];
    }

    method FindConn(id: u16) returns (i: int)
      requires Valid()
      ensures i == RouterTables.FindConn(State(), id)
    {
      ghost var p := (c: Conn) => c.id == id;
      for k := 0 to connCount
        invariant forall j :: 0 <= j < k ==> conns[j].id != id
      {
        if conns[k].id == id {
          FirstUnique(State().conns, p, k);
          return k;
        }
      }
      FirstUnique(State().conns, p, -1);
      return -1;
    }

    method AllocConn(id: u16, gattcIf: u16) returns (ok: bool)
      requires Valid()
      modifies this`connCount, conns
      ensures Valid() && State().slots == old(State()).slots
      ensures ok <==> old(connCount) < MAX_CONNS
      ensures State().conns == old(State()).conns + if ok then [FreshConn(id, gattcIf)] else []
    {
      if connCount >= MAX_CONNS {
        return false;
      }
      conns[connCount] := FreshConn(id, gattcIf);
      connCount := connCount + 1;
      return true;
    }

    method FreeConn(id: u16)
      requires Valid()
      modifies this`connCount, conns
      ensures Valid() && State() == RouterTables.FreeConn(old(State()), id)
    {
      var i := FindConn(id);
      if i < 0 {
        return;
      }
      CloseUp(i);
      connCount := connCount - 1;
      assert conns[..connCount] == conns[..connCount + 1][..connCount];
    }

    /** `memmove(&s_conns[i], &s_conns[i + 1], remaining * sizeof(gattc_conn_t))`. */
    method CloseUp(i: nat)
      requires Valid() && i < connCount
      modifies conns
      ensures conns[..connCount - 1] == old(conns[..i]) + old(conns[i + 1..connCount])
    {
      for k := i to connCount - 1
        invariant forall j :: 0 <= j < i ==> conns[j] == old(conns[j])
        invariant forall j :: i <= j < k ==> conns[j] == old(conns[j + 1])
        invariant forall j :: k <= j < conns.Length ==> conns[j] == old(conns[j])
      {
        conns[k] := conns[k + 1];
      }
    }

    method NodeAdd(bda: Bda, id: u16) returns (k: int)
      requires Valid()
      modifies this`nodeCount, nodes
      ensures Valid() && State() == AddNode(old(State()), bda, id) && k == AddedAt(old(State()), bda)
    {
      ghost var p := (n: Slot) => !n.connected && n.bda == bda;
      for i := 0 to nodeCount
        invariant State() == old(State())
        invariant forall j :: 0 <= j < i ==> !p(nodes[j])
      {
        if !nodes[i].connected && nodes[i].bda == bda {
          FirstUnique(State().slots, p, i);
          nodes[i] := nodes[i].(connId := id, connected := true);
          return i;
        }
      }
      FirstUnique(State().slots, p, -1);
      if nodeCount >= NODE_MAX_COUNT {
        return -1;
      }
      nodes[nodeCount] := Slot(bda, id, true);
      nodeCount := nodeCount + 1;
      return nodeCount - 1;
    }

    method NodeRemove(id: u16)
      requires Valid()
      modifies nodes
      ensures Valid() && State() == RemoveNode(old(State()), id)
    {
      ghost var p := (n: Slot) => n.connId == id;
      for i := 0 to nodeCount
        invariant State() == old(State())
        invariant forall j :: 0 <= j < i ==> nodes[j].connId != id
      {
        if nodes[i].connId == id {
          FirstUnique(State().slots, p, i);
          nodes[i] := nodes[i].(connected := false);
          return;
        }
      }
      FirstUnique(State().slots, p, -1);
    }

    method NodeIdByConnId(id: u16) returns (i: int)
      requires Valid()
      ensures i == NodeId(State(), id)
    {
      ghost var p := (n: Slot) => n.connId == id && n.connected;
      for k := 0 to nodeCount
        invariant forall j :: 0 <= j < k ==> !p(nodes[j])
      {
        if nodes[k].connId == id && nodes[k].connected {
          FirstUnique(State().slots, p, k);
          return k;
        }
      }
      FirstUnique(State().slots, p, -1);
      return -1;
    }

    method NodeCountConnected() returns (n: nat)
      requires Valid()
      ensures n == CountConnected(State().slots)
    {
      n := 0;
      for i := 0 to nodeCount
        invariant n == CountConnected(nodes[..i])
      {
        assert nodes[..i + 1][..i] == nodes[..i];
        if nodes[i].connected {
          n := n + 1;
        }
      }
    }

    method Emit(nid: int, data: seq<byte>)
      modifies this`serial
      ensures serial == old(serial) + Emitted(nid, data)
    {
      serial := serial + [nid % 256];
      serial := serial + data[..|data| % 256];
    }

    method OnConnect(id: u16, gattcIf: u16, bda: Bda)
      requires Valid()
      modifies this, conns, nodes
      ensures Valid() && writes == old(writes)
      ensures var r := RouterTables.OnConnect(old(State()), id, gattcIf, bda);
        State() == r.tables && serial == old(serial) + r.serial
    {
      var ok := AllocConn(id, gattcIf);
      if ok {
        var k := NodeAdd(bda, id);
        if k >= 0 {
          var nid := NodeIdByConnId(id);
          if nid >= 0 {
            Emit(nid, Synthetic(PING));
          }
        }
      }
    }

    method OnServicesFound(id: u16, cmd: Option<u16>, tel: Option<u16>)
      requires Valid()
      modifies conns
      ensures Valid() && State() == RouterTables.OnServicesFound(old(State()), id, cmd, tel)
    {
      var i := FindConn(id);
      if i >= 0 {
        if cmd.Some? {
          conns[i] := conns[i].(cmdHandle := cmd.value, cmdFound := true);
        }
        if tel.Some? {
          conns[i] := conns[i].(telHandle := tel.value, telFound := true);
        }
      }
    }

    method OnDisconnect(id: u16)
      requires Valid()
      modifies this, conns, nodes
      ensures Valid() && writes == old(writes)
      ensures var r := RouterTables.OnDisconnect(old(State()), id);
        State() == r.tables && serial == old(serial) + r.serial
    {
      var nid := NodeIdByConnId(id);
      if nid >= 0 {
        Emit(nid, Synthetic(ERROR));
      }
      NodeRemove(id);
      FreeConn(id);
    }

    /** The cases of `gattc_event_handler`. */
    method Handle(e: Event)
      requires Valid()
      modifies this, conns, nodes
      ensures Valid() && writes == old(writes)
      ensures var r := React(old(State()), e);
        State() == r.tables && serial == old(serial) + r.serial
    {
      match e
      case Connect(id, gattcIf, bda) => OnConnect(id, gattcIf, bda);
      case ServicesFound(id, cmd, tel) => OnServicesFound(id, cmd, tel);
      case Notify(id, data) =>
        if |data| >= HEADER_SIZE && MagicAt(data, 0) {
          var nid := NodeIdByConnId(id);
          if nid >= 0 {
            Emit(nid, data);
          }
        }
      case Disconnect(id) => OnDisconnect(id);
    }

    method SendToNode(id: u16, data: seq<byte>) returns (ok: bool)
      requires Valid()
      modifies this`writes
      ensures writes == old(writes) + RouterTables.SendToNode(State(), id, data)
      ensures ok <==> RouterTables.SendToNode(State(), id, data) != []
    {
      var i := FindConn(id);
      if i < 0 || !conns[i].cmdFound {
        return false;
      }
      writes := writes + [Write(id, conns[i].gattcIf, conns[i].cmdHandle, data)];
      return true;
    }

    /** What the command parser does with a complete packet. */
    method Forward(node: byte, data: seq<byte>)
      requires Valid()
      modifies this`writes
      ensures writes == old(writes) + Route(State(), node, data)
    {
      if node == BROADCAST {
        for n := 0 to nodeCount
          invariant writes == old(writes) + Broadcast(State(), n, data)
        {
          if nodes[n].connected {
            var _ := SendToNode(nodes[n].connId, data);
          }
        }
      } else if node < nodeCount && nodes[node].connected {
        var _ := SendToNode(nodes[node].connId, data);
      }
    }
  }
}
