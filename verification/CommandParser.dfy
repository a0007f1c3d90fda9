/** The router's command parser: one byte at a time into a packet buffer, with the first
    byte of each frame taken as the node id. */
module CommandParser {
  import opened Protocol

  /** Between bytes: the node id, if one has been read, and the bytes held in the buffer. */
  datatype RxState = RxState(haveNid: bool, nodeId: byte, buf: seq<byte>)

  /** One packet handed to the radio: its target, its length byte and the bytes sent. */
  datatype Dispatch = Dispatch(node: byte, length: byte, data: seq<byte>)

  datatype Rx = Rx(state: RxState, out: seq<Dispatch>)

  /** `uint8_t total_len = KLIP_HEADER_SIZE + pkt->length`. */
  function TotalLength(length: byte): byte {
    (HEADER_SIZE + length) % 256
  }

  function Step(s: RxState, b: byte): Rx {
    if !s.haveNid then Rx(RxState(true, b, []), [])
    else if |s.buf| >= MAX_PACKET_SIZE then Rx(RxState(false, s.nodeId, []), [])
    else
      var buf := s.buf + [b];
      if |buf| < HEADER_SIZE then Rx(s.(buf := buf), [])
      else if !MagicAt(buf, 0) then Rx(s.(buf := buf[1..]), [])
      else
        var total := TotalLength(buf[3]);
        if |buf| < total then Rx(s.(buf := buf), [])
        else Rx(RxState(false, s.nodeId, []), [Dispatch(s.nodeId, buf[3], buf[..total])])
  }

  function Run(s: RxState, bytes: seq<byte>): Rx {
    if bytes == [] then Rx(s, [])
    else
      var before := Run(s, bytes[..|bytes| - 1]);
      var last := Step(before.state, bytes[|bytes| - 1]);
      Rx(last.state, before.out + last.out)
  }

  class Parser {
    const rxBuffer: array<byte>
    var rxOffset: nat
    var rxNodeId: byte
    var rxHaveNid: bool
    var dispatched: seq<Dispatch>  // the packets handed on so far, in order

    ghost predicate Valid()
      reads this
    {
      rxBuffer.Length == MAX_PACKET_SIZE && rxOffset <= MAX_PACKET_SIZE
    }

    ghost function State(): RxState
      requires Valid()
      reads this, rxBuffer
    {
      RxState(rxHaveNid, rxNodeId, if rxHaveNid then rxBuffer[..rxOffset] else [])
    }

    constructor ()
      ensures Valid() && fresh(rxBuffer)
      ensures State() == RxState(false, 0xFF, []) && dispatched == []
    {
      rxBuffer := new byte[MAX_PACKET_SIZE];
      rxOffset, rxNodeId, rxHaveNid, dispatched := 0, 0xFF, false, [];
    }

    method Init()
      requires Valid()
      modifies this`rxOffset, this`rxHaveNid
      ensures Valid() && State() == RxState(false, rxNodeId, [])
    {
      rxOffset, rxHaveNid := 0, false;
    }

    method Feed(data: seq<byte>)
      requires Valid()
      modifies this, rxBuffer
      ensures Valid()
      ensures var r := Run(old(State()), data);
        State() == r.state && dispatched == old(dispatched) + r.out
    {
      for i := 0 to |data|
        invariant Valid()
        invariant State() == Run(old(State()), data[..i]).state
        invariant dispatched == old(dispatched) + Run(old(State()), data[..i]).out
      {
        assert data[..i + 1][..i] == data[..i];
        FeedByte(data[i]);
      }
      assert data[..|data|] == data;
    }

    /** The body of the receive loop. */
    method FeedByte(b: byte)
      requires Valid()
      modifies this, rxBuffer
      ensures Valid()
      ensures var r := Step(old(State()), b);
        State() == r.state && dispatched == old(dispatched) + r.out
    {
      if !rxHaveNid {
        rxNodeId, rxHaveNid, rxOffset := b, true, 0;
        return;
      }
      if rxOffset >= rxBuffer.Length {
        rxOffset, rxHaveNid := 0, false;
        return;
      }
      rxBuffer[rxOffset] := b;
      rxOffset := rxOffset + 1;
      ghost var buf := rxBuffer[..rxOffset];
      assert buf == old(State()).buf + [b];
      if rxOffset >= HEADER_SIZE {
        TakeHead();
      }
    }

    /** What follows once the buffer holds a header. */
    method TakeHead()
      requires Valid() && rxHaveNid && rxOffset >= HEADER_SIZE
      modifies this, rxBuffer
      ensures Valid()
      ensures rxNodeId == old(rxNodeId)
      ensures var buf := old(rxBuffer[..rxOffset]);
        var whole := MagicAt(buf, 0) && |buf| >= TotalLength(buf[3]);
        rxHaveNid == !whole &&
        dispatched ==
          old(dispatched) + (if whole then [Dispatch(rxNodeId, buf[3], buf[..TotalLength(buf[3])])] else []) &&
        (!whole ==> rxBuffer[..rxOffset] == if MagicAt(buf, 0) then buf else buf[1..])
    {
      ghost var buf := rxBuffer[..rxOffset];
      if rxBuffer[0] as int + 256 * (rxBuffer[1] as int) == MAGIC {
        var totalLen: byte := (HEADER_SIZE + rxBuffer[3]) % 256;
        if rxOffset >= totalLen {
          dispatched := dispatched + [Dispatch(rxNodeId, rxBuffer[3], rxBuffer[..totalLen])];
          assert rxBuffer[..totalLen] == buf[..totalLen];
          rxOffset, rxHaveNid := 0, false;
        }
      } else {
        rxOffset := rxOffset - 1;
        MoveDown();
        assert rxBuffer[..rxOffset] == buf[1..];
      }
    }

    /** `memmove(rx_buffer, rx_buffer + 1, rx_offset)`. */
    method MoveDown()
      requires Valid() && rxOffset < MAX_PACKET_SIZE
      modifies rxBuffer
      ensures rxBuffer[..rxOffset] == old(rxBuffer[1..rxOffset + 1])
    {
      for i := 0 to rxOffset
        invariant forall k :: 0 <= k < i ==> rxBuffer[k] == old(rxBuffer[k + 1])
        invariant forall k :: i <= k < rxBuffer.Length ==> rxBuffer[k] == old(rxBuffer[k])
      {
        rxBuffer[i] := rxBuffer[i + 1];
      }
    }
  }

  // ---- runs ---------------------------------------------------------------------------

  /** One run after another. */
  predicate Splits(s: RxState, a: seq<byte>, b: seq<byte>, all: seq<byte>) {
    var r := Run(s, a);
    var q := Run(r.state, b);
    Run(s, all) == Rx(q.state, r.out + q.out)
  }

  lemma {:induction false} RunAppend(s: RxState, a: seq<byte>, b: seq<byte>)
    ensures Splits(s, a, b, a + b)
  {
    if b == [] {
      assert a + b == a;
    } else {
      var front, last := b[..|b| - 1], b[|b| - 1];
      RunAppend(s, a, front);
      assert a + front + [last] == a + b;
      AppendOne(s, a, front, a + front, last, b, a + b);
    }
  }

  lemma AppendOne(s: RxState, a: seq<byte>, front: seq<byte>, shorter: seq<byte>, last: byte, b: seq<byte>,
                  longer: seq<byte>)
    requires Splits(s, a, front, shorter) && b == front + [last] && longer == shorter + [last]
    ensures Splits(s, a, b, longer)
  {
    var r := Run(s, a);
    var q := Run(r.state, front);
    RunSnoc(s, shorter, last);
    RunSnoc(r.state, front, last);
    Regroup(r.out, q.out, Step(q.state, last).out);
  }

  lemma Regroup(a: seq<Dispatch>, b: seq<Dispatch>, c: seq<Dispatch>)
    ensures a + b + c == a + (b + c)
  {
  }

  lemma RunSnoc(s: RxState, a: seq<byte>, b: byte)
    ensures var r := Run(s, a);
      var q := Step(r.state, b);
      Run(s, a + [b]) == Rx(q.state, r.out + q.out)
  {
    assert (a + [b])[..|a + [b]| - 1] == a;
  }

  lemma RunQuietSnoc(s: RxState, a: seq<byte>, b: byte, mid: RxState, end: RxState)
    requires Run(s, a) == Rx(mid, []) && Step(mid, b) == Rx(end, [])
    ensures Run(s, a + [b]) == Rx(end, [])
  {
    RunSnoc(s, a, b);
  }

  /** A stretch of bytes that only moves the parser along a given path of states. */
  lemma {:induction false} RunAlong(path: seq<RxState>, w: seq<byte>, j: nat, k: nat)
    requires j <= k < |path| && k <= |w|
    requires forall i :: j <= i < k ==> Step(path[i], w[i]) == Rx(path[i + 1], [])
    ensures Run(path[j], w[j..k]) == Rx(path[k], [])
  {
    if j < k {
      RunAlong(path, w, j, k - 1);
      var front, last := w[j..k - 1], w[k - 1];
      assert w[j..k] == front + [last];
      RunQuietSnoc(path[j], front, last, path[k - 1], path[k]);
    } else {
      assert w[j..k] == [];
    }
  }

  /** The first byte after a frame is taken as the next node id. */
  lemma RunFromIdle(s: RxState, id: byte, later: seq<byte>)
    requires !s.haveNid
    ensures Run(s, [id] + later) == Run(RxState(true, id, []), later)
  {
    RunAppend(s, [id], later);
    assert [] + [id] == [id];
    RunSnoc(s, [], id);
  }

  /** Feeding the pieces of a stream one after the other. */
  function RunPieces(s: RxState, pieces: seq<seq<byte>>): Rx
    decreases |pieces|
  {
    if pieces == [] then Rx(s, [])
    else
      var r := Run(s, pieces[0]);
      var q := RunPieces(r.state, pieces[1..]);
      Rx(q.state, r.out + q.out)
  }

  lemma {:induction false} PiecesDoNotMatter(s: RxState, pieces: seq<seq<byte>>)
    ensures RunPieces(s, pieces) == Run(s, Flatten(pieces))
    decreases |pieces|
  {
    if pieces != [] {
      var r := Run(s, pieces[0]);
      PiecesDoNotMatter(r.state, pieces[1..]);
      RunAppend(s, pieces[0], Flatten(pieces[1..]));
    }
  }

  // ---- what every stream keeps --------------------------------------------------------

  /** Between bytes: the buffer fits, and more than three bytes are only ever held behind a
      valid magic and short of the length they announce. */
  predicate Inv(s: RxState) {
    |s.buf| <= MAX_PACKET_SIZE &&
    (!s.haveNid ==> s.buf == []) &&
    (|s.buf| >= HEADER_SIZE ==> MagicAt(s.buf, 0) && |s.buf| < TotalLength(s.buf[3]))
  }

  /** A packet whose length byte does not wrap goes out whole and fits a payload; one whose
      length byte wraps goes out as at most three bytes of its own header. */
  predicate GoodDispatch(d: Dispatch) {
    if d.length <= 251 then
      d.length <= MAX_PAYLOAD_SIZE && |d.data| == HEADER_SIZE + d.length && d.data[3] == d.length &&
      Decode(d.data) == Some(Packet(d.data[2], d.data[HEADER_SIZE..]))
    else
      |d.data| == d.length - 252 && (|d.data| > 0 ==> d.data[0] == MAGIC_LO) && (|d.data| > 1 ==> d.data[1] == MAGIC_HI)
  }

  lemma StepKeepsInv(s: RxState, b: byte)
    requires Inv(s)
    ensures Inv(Step(s, b).state)
    ensures forall d :: d in Step(s, b).out ==> GoodDispatch(d)
  {
    var out := Step(s, b).out;
    if out != [] {
      var d := out[0];
      var buf := s.buf + [b];
      if d.length <= 251 {
        assert |s.buf| >= HEADER_SIZE ==> buf[3] == s.buf[3];
        assert d.data == buf;
      }
    }
  }

  // ---- where every packet comes from ---------------------------------------------------

  /** Before byte j the parser waits for a node id. */
  predicate Idle(s: RxState, stream: seq<byte>, j: nat)
    requires j <= |stream|
  {
    !Run(s, stream[..j]).state.haveNid
  }

  /** Byte p was the last one the parser took as a node id before byte m. */
  predicate OpenedAt(s: RxState, stream: seq<byte>, m: nat, p: nat) {
    p < m <= |stream| && Idle(s, stream, p) && forall j :: p < j <= m ==> !Idle(s, stream, j)
  }

  /** The bytes held before byte m are the last ones, all behind their node id. */
  predicate HeldSince(s: RxState, stream: seq<byte>, m: nat, p: nat)
    requires m <= |stream|
  {
    var t := Run(s, stream[..m]).state;
    OpenedAt(s, stream, m, p) && t.nodeId == stream[p] && p + |t.buf| < m && t.buf == stream[m - |t.buf|..m]
  }

  lemma RunNext(s: RxState, stream: seq<byte>, m: nat)
    requires m < |stream|
    ensures var r := Run(s, stream[..m]);
      var last := Step(r.state, stream[m]);
      Run(s, stream[..m + 1]) == Rx(last.state, r.out + last.out)
  {
    assert stream[..m + 1] == stream[..m] + [stream[m]];
    RunSnoc(s, stream[..m], stream[m]);
  }

  /** A step keeps the node id, and some of the last bytes, as long as it does not go idle. */
  lemma StepHolds(t: RxState, b: byte)
    requires t.haveNid && Step(t, b).state.haveNid
    ensures var u, buf := Step(t, b).state, t.buf + [b];
      u.nodeId == t.nodeId && |u.buf| <= |buf| && u.buf == buf[|buf| - |u.buf|..]
  {
  }

  lemma SuffixNext(stream: seq<byte>, m: nat, held: seq<byte>, kept: seq<byte>)
    requires |held| <= m < |stream| && held == stream[m - |held|..m]
    requires var buf := held + [stream[m]]; |kept| <= |buf| && kept == buf[|buf| - |kept|..]
    ensures kept == stream[m + 1 - |kept|..m + 1]
  {
    assert held + [stream[m]] == stream[m - |held|..m + 1];
  }

  lemma OpenedNext(s: RxState, stream: seq<byte>, m: nat, p: nat)
    requires m < |stream| && !Idle(s, stream, m + 1)
    requires if Idle(s, stream, m) then p == m else OpenedAt(s, stream, m, p)
    ensures OpenedAt(s, stream, m + 1, p)
  {
    forall j | p < j <= m + 1 ensures !Idle(s, stream, j) {
      if j <= m {
        assert OpenedAt(s, stream, m, p);
      }
    }
  }

  lemma HeldNext(s: RxState, stream: seq<byte>, m: nat, p: nat)
    requires m < |stream| && !Idle(s, stream, m + 1)
    requires if Idle(s, stream, m) then p == m else HeldSince(s, stream, m, p)
    ensures HeldSince(s, stream, m + 1, p)
  {
    RunNext(s, stream, m);
    OpenedNext(s, stream, m, p);
    var t, u := Run(s, stream[..m]).state, Run(s, stream[..m + 1]).state;
    if t.haveNid {
      StepHolds(t, stream[m]);
      SuffixNext(stream, m, t.buf, u.buf);
    }
  }

  lemma {:induction false} AlwaysHeld(s: RxState, stream: seq<byte>, m: nat) returns (p: nat)
    requires !s.haveNid && m <= |stream|
    ensures Idle(s, stream, m) || HeldSince(s, stream, m, p)
  {
    p := 0;
    if m > 0 && !Idle(s, stream, m) {
      if Idle(s, stream, m - 1) {
        p := m - 1;
      } else {
        p := AlwaysHeld(s, stream, m - 1);
      }
      HeldNext(s, stream, m - 1, p);
    }
  }

  /** A packet handed to the radio, and the byte that completed it. */
  datatype Send = Send(at: nat, d: Dispatch)

  /** What the first m bytes of a stream lead to. */
  function Sends(s: RxState, stream: seq<byte>, m: nat): seq<Send>
    requires m <= |stream|
  {
    if m == 0 then []
    else
      var out := Step(Run(s, stream[..m - 1]).state, stream[m - 1]).out;
      Sends(s, stream, m - 1) + if out == [] then [] else [Send(m - 1, out[0])]
  }

  function Dispatches(sends: seq<Send>): (ds: seq<Dispatch>)
    ensures |ds| == |sends| && forall k :: 0 <= k < |sends| ==> ds[k] == sends[k].d
  {
    if sends == [] then [] else Dispatches(sends[..|sends| - 1]) + [sends[|sends| - 1].d]
  }

  /** The packet is a stretch of the stream that ends where it was completed, the whole of it
      unless its length byte wraps; its target is the byte with which the parser left its
      idle state, before the stretch; and completing it made the parser idle again. */
  predicate Framed(s: RxState, stream: seq<byte>, x: Send, p: nat, i: nat) {
    p < i <= x.at < |stream| && OpenedAt(s, stream, x.at, p) && Idle(s, stream, x.at + 1) &&
    x.d.node == stream[p] && x.d.data <= stream[i..x.at + 1] &&
    (x.d.length <= 251 ==> x.d.data == stream[i..x.at + 1])
  }

  lemma StepSends(t: RxState, b: byte)
    requires Inv(t) && Step(t, b).out != []
    ensures var out, buf := Step(t, b).out, t.buf + [b];
      out == [out[0]] && GoodDispatch(out[0]) && out[0].node == t.nodeId && t.haveNid && !Step(t, b).state.haveNid &&
      out[0].data <= buf && (out[0].length <= 251 ==> out[0].data == buf)
  {
    StepKeepsInv(t, b);
    var d, buf := Step(t, b).out[0], t.buf + [b];
    assert d in Step(t, b).out;
    assert |t.buf| >= HEADER_SIZE ==> buf[3] == t.buf[3];
  }

  lemma SendIsFramed(s: RxState, stream: seq<byte>, m: nat, p: nat, held: seq<byte>, d: Dispatch)
    requires m < |stream| && OpenedAt(s, stream, m, p) && Idle(s, stream, m + 1)
    requires p + |held| < m && held == stream[m - |held|..m] && d.node == stream[p]
    requires var buf := held + [stream[m]]; d.data <= buf && (d.length <= 251 ==> d.data == buf)
    ensures Framed(s, stream, Send(m, d), p, m - |held|)
  {
    assert held + [stream[m]] == stream[m - |held|..m + 1];
  }

  lemma {:induction false} InvAlways(s: RxState, stream: seq<byte>, m: nat)
    requires !s.haveNid && s.buf == [] && m <= |stream|
    ensures Inv(Run(s, stream[..m]).state)
  {
    if m > 0 {
      InvAlways(s, stream, m - 1);
      RunNext(s, stream, m - 1);
      StepKeepsInv(Run(s, stream[..m - 1]).state, stream[m - 1]);
    }
  }

  ghost predicate AllFramed(s: RxState, stream: seq<byte>, xs: seq<Send>) {
    forall x :: x in xs ==> GoodDispatch(x.d) && exists p, i :: Framed(s, stream, x, p, i)
  }

  predicate InOrder(xs: seq<Send>, m: nat) {
    (forall k :: 0 <= k < |xs| ==> xs[k].at < m) && forall k, l :: 0 <= k < l < |xs| ==> xs[k].at < xs[l].at
  }

  /** If byte m completes a packet, it is framed. */
  lemma OneMoreSend(s: RxState, stream: seq<byte>, m: nat)
    requires !s.haveNid && s.buf == [] && m < |stream|
    ensures var out := Step(Run(s, stream[..m]).state, stream[m]).out;
      out == [] || (out == [out[0]] && AllFramed(s, stream, [Send(m, out[0])]))
  {
    var t := Run(s, stream[..m]).state;
    InvAlways(s, stream, m);
    if Step(t, stream[m]).out != [] {
      StepSends(t, stream[m]);
      RunNext(s, stream, m);
      var p := AlwaysHeld(s, stream, m);
      SendIsFramed(s, stream, m, p, t.buf, Step(t, stream[m]).out[0]);
    }
  }

  lemma OneMoreFramed(s: RxState, stream: seq<byte>, xs: seq<Send>, x: Send)
    requires AllFramed(s, stream, xs) && AllFramed(s, stream, [x])
    ensures AllFramed(s, stream, xs + [x])
  {
    assert x in [x];
    assert forall y :: y in xs + [x] ==> y in xs || y == x;
  }

  lemma OneMoreInOrder(xs: seq<Send>, x: Send)
    requires InOrder(xs, x.at)
    ensures InOrder(xs + [x], x.at + 1) && Dispatches(xs + [x]) == Dispatches(xs) + [x.d]
  {
    assert (xs + [x])[..|xs|] == xs;
  }

  lemma {:induction false} SendsSoFar(s: RxState, stream: seq<byte>, m: nat)
    requires !s.haveNid && s.buf == [] && m <= |stream|
    ensures Run(s, stream[..m]).out == Dispatches(Sends(s, stream, m))
    ensures AllFramed(s, stream, Sends(s, stream, m)) && InOrder(Sends(s, stream, m), m)
  {
    if m > 0 {
      var n := m - 1;
      SendsSoFar(s, stream, n);
      RunNext(s, stream, n);
      OneMoreSend(s, stream, n);
      var before, out := Sends(s, stream, n), Step(Run(s, stream[..n]).state, stream[n]).out;
      if out != [] {
        OneMoreFramed(s, stream, before, Send(n, out[0]));
        OneMoreInOrder(before, Send(n, out[0]));
      } else {
        assert Sends(s, stream, m) == before;
      }
    }
  }

  /** On every byte stream: the buffer bounds hold throughout; every packet sent is framed,
      whole unless its length byte wraps; and the frames, each from its node id to its last
      byte, are disjoint and in the order of the packets. */
  lemma EveryStreamIsSafe(s: RxState, stream: seq<byte>)
    requires !s.haveNid && s.buf == []
    ensures forall m :: 0 <= m <= |stream| ==> Inv(Run(s, stream[..m]).state)
    ensures var xs := Sends(s, stream, |stream|);
      Run(s, stream).out == Dispatches(xs) && AllFramed(s, stream, xs) &&
      forall k, l, p, i :: 0 <= k < l < |xs| && Framed(s, stream, xs[l], p, i) ==> xs[k].at < p
  {
    forall m | 0 <= m <= |stream| ensures Inv(Run(s, stream[..m]).state) {
      InvAlways(s, stream, m);
    }
    SendsSoFar(s, stream, |stream|);
    assert stream[..|stream|] == stream;
    var xs := Sends(s, stream, |stream|);
    forall k, l, p, i | 0 <= k < l < |xs| && Framed(s, stream, xs[l], p, i) ensures xs[k].at < p {
      assert xs[k] in xs;
      var q, j :| Framed(s, stream, xs[k], q, j);
      assert Idle(s, stream, xs[k].at + 1);
    }
  }
}
