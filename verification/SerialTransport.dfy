/** The host's serial transport: an incremental parser that pops frames off a byte buffer
    and skips one byte at a time where no frame starts. */
module SerialTransport {
  import opened Protocol

  const FRAMED_HEADER_SIZE := 5

  datatype Parsed = Parsed(frames: seq<Frame>, rest: seq<byte>)

  /** What `_process_buffer` makes of a buffer: the callbacks in order and what stays behind. */
  function Parse(buf: seq<byte>): Parsed
    decreases |buf|
  {
    if |buf| < FRAMED_HEADER_SIZE then Parsed([], buf)
    else if !MagicAt(buf, 1) then Parse(buf[1..])
    else
      var n := FRAMED_HEADER_SIZE + buf[4];
      if |buf| < n then Parsed([], buf)
      else
        var later := Parse(buf[n..]);
        match Decode(buf[1..n])
        case Some(p) => Parsed([Frame(buf[0], p)] + later.frames, later.rest)
        case None => later
  }

  /** The frame at the head of a buffer never fails to decode. */
  lemma HeadDecodes(buf: seq<byte>)
    requires |buf| >= FRAMED_HEADER_SIZE && MagicAt(buf, 1)
    requires |buf| >= FRAMED_HEADER_SIZE + buf[4]
    ensures Decode(buf[1..FRAMED_HEADER_SIZE + buf[4]])
         == Some(Packet(buf[3], buf[FRAMED_HEADER_SIZE..FRAMED_HEADER_SIZE + buf[4]]))
  {
    var frame := buf[1..FRAMED_HEADER_SIZE + buf[4]];
    assert frame[0] == buf[1] && frame[1] == buf[2] && frame[2] == buf[3] && frame[3] == buf[4];
    assert frame[HEADER_SIZE..HEADER_SIZE + frame[3]] == buf[FRAMED_HEADER_SIZE..FRAMED_HEADER_SIZE + buf[4]];
  }

  class Transport {
    var buffer: seq<byte>
    var received: seq<Frame>  // the on_packet callbacks so far, in order
    var isOpen: bool
    var sent: seq<byte>       // the bytes written to the port so far

    constructor ()
      ensures buffer == [] && received == [] && !isOpen && sent == []
    {
      buffer, received, isOpen, sent := [], [], false, [];
    }

    method Open()
      modifies this`isOpen
      ensures isOpen
    {
      isOpen := true;
    }

    /** Fails (the RuntimeError and the struct.error of the source) without writing anything. */
    method SendPacket(nodeId: int, packet: Packet) returns (ok: bool)
      modifies this`sent
      ensures ok <==> isOpen && Fits(packet)
      ensures sent == if ok then old(sent) + FrameBytes(Frame(nodeId % 256, packet)) else old(sent)
    {
      ok := false;
      if !isOpen {
        return;
      }
      match Encode(packet)
      case None =>
      case Some(bytes) =>
        sent := sent + ([nodeId % 256] + bytes);
        ok := true;
    }

    method Poll(data: seq<byte>)
      modifies this`buffer, this`received
      ensures isOpen && data != [] ==>
        var p := Parse(old(buffer) + data);
        received == old(received) + p.frames && buffer == p.rest
      ensures !isOpen || data == [] ==> received == old(received) && buffer == old(buffer)
    {
      if !isOpen {
        return;
      }
      if data != [] {
        buffer := buffer + data;
        ProcessBuffer();
      }
    }

    method ProcessBuffer()
      modifies this`buffer, this`received
      ensures received == old(received) + Parse(old(buffer)).frames
      ensures buffer == Parse(old(buffer)).rest
    {
      while |buffer| >= FRAMED_HEADER_SIZE
        invariant Parse(buffer).rest == Parse(old(buffer)).rest
        invariant received + Parse(buffer).frames == old(received) + Parse(old(buffer)).frames
        decreases |buffer|
      {
        var nodeId := buffer[0];
        if !MagicAt(buffer, 1) {
          buffer := buffer[1..];
          continue;
        }
        var length := buffer[4];
        var frameLen := FRAMED_HEADER_SIZE + length;
        if |buffer| < frameLen {
          break;
        }
        var klipFrame := buffer[1..frameLen];
        HeadDecodes(buffer);
        ghost var was, done := buffer, received;
        buffer := buffer[frameLen..];
        match Decode(klipFrame)
        case None =>
        case Some(packet) =>
          received := received + [Frame(nodeId, packet)];
          assert received + Parse(buffer).frames == done + Parse(was).frames;
      }
    }
  }

  // ---- fragmentation ------------------------------------------------------------------

  /** A buffer the parser cannot make progress on. */
  predicate Stuck(buf: seq<byte>) {
    Parse(buf) == Parsed([], buf)
  }

  /** Parsing on, with more data behind what was left. */
  function Resumed(p: Parsed, more: seq<byte>): Parsed {
    var q := Parse(p.rest + more);
    Parsed(p.frames + q.frames, q.rest)
  }

  /** Cutting a buffer in two and parsing the parts one after the other changes nothing. */
  lemma {:induction false} ParseAppend(a: seq<byte>, b: seq<byte>)
    ensures Parse(a + b) == Resumed(Parse(a), b)
    decreases |a|
  {
    if |a| < FRAMED_HEADER_SIZE {
    } else if !MagicAt(a, 1) {
      ParseAppend(a[1..], b);
      SkipsOne(a, b);
    } else if FRAMED_HEADER_SIZE + a[4] <= |a| {
      var n := FRAMED_HEADER_SIZE + a[4];
      ParseAppend(a[n..], b);
      TakesFrame(a, b);
      TakesFrame(a, []);
      assert a + [] == a && a[n..] + [] == a[n..];
      OneFrameEarlier(Frame(a[0], Packet(a[3], a[FRAMED_HEADER_SIZE..n])), Parse(a[n..]), b);
    }
  }

  lemma OneFrameEarlier(f: Frame, p: Parsed, more: seq<byte>)
    ensures var r := Resumed(p, more);
      Resumed(Parsed([f] + p.frames, p.rest), more) == Parsed([f] + r.frames, r.rest)
  {
  }

  lemma SkipsOne(a: seq<byte>, b: seq<byte>)
    requires |a| >= FRAMED_HEADER_SIZE && !MagicAt(a, 1)
    ensures Parse(a + b) == Parse(a[1..] + b)
  {
    assert (a + b)[1..] == a[1..] + b;
  }

  lemma TakesFrame(a: seq<byte>, b: seq<byte>)
    requires |a| >= FRAMED_HEADER_SIZE && MagicAt(a, 1) && |a| >= FRAMED_HEADER_SIZE + a[4]
    ensures var n := FRAMED_HEADER_SIZE + a[4];
      var later := Parse(a[n..] + b);
      Parse(a + b) == Parsed([Frame(a[0], Packet(a[3], a[FRAMED_HEADER_SIZE..n]))] + later.frames, later.rest)
  {
    var n := FRAMED_HEADER_SIZE + a[4];
    var ab := a + b;
    assert ab[n..] == a[n..] + b;
    assert ab[FRAMED_HEADER_SIZE..n] == a[FRAMED_HEADER_SIZE..n];
    HeadDecodes(ab);
  }

  lemma {:induction false} RestIsStuck(a: seq<byte>)
    ensures Stuck(Parse(a).rest)
    decreases |a|
  {
    if |a| < FRAMED_HEADER_SIZE {
    } else if !MagicAt(a, 1) {
      RestIsStuck(a[1..]);
    } else if FRAMED_HEADER_SIZE + a[4] <= |a| {
      RestIsStuck(a[FRAMED_HEADER_SIZE + a[4]..]);
    }
  }

  /** The state after a series of reads, starting from the buffer left by earlier ones. */
  function PollAll(buf: seq<byte>, pieces: seq<seq<byte>>): Parsed
    decreases |pieces|
  {
    if pieces == [] then Parsed([], buf)
    else
      var p := if pieces[0] == [] then Parsed([], buf) else Parse(buf + pieces[0]);
      var q := PollAll(p.rest, pieces[1..]);
      Parsed(p.frames + q.frames, q.rest)
  }

  /** However a stream is cut into reads, the callbacks and the leftover buffer are those of
      reading it in one piece. */
  lemma {:induction false} FragmentationIndependent(buf: seq<byte>, pieces: seq<seq<byte>>)
    requires Stuck(buf)
    ensures PollAll(buf, pieces) == Parse(buf + Flatten(pieces))
    decreases |pieces|
  {
    if pieces == [] {
      assert buf + Flatten(pieces) == buf;
    } else {
      var data, later := pieces[0], Flatten(pieces[1..]);
      assert buf + Flatten(pieces) == (buf + data) + later;
      ParseAppend(buf + data, later);
      RestIsStuck(buf + data);
      assert data == [] ==> buf + data == buf;
      FragmentationIndependent(Parse(buf + data).rest, pieces[1..]);
    }
  }
}
