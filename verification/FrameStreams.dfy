/** The two independent parsers on the same byte streams. */
module FrameStreams {
  import opened Protocol
  import opened SerialTransport
  import opened CommandParser

  /** Some line noise, possibly none, and then a frame. */
  datatype Segment = Segment(noise: seq<byte>, frame: Frame)

  /** No two neighbouring bytes of s look like the magic. */
  predicate NoMagic(s: seq<byte>) {
    forall i: nat :: i + 2 <= |s| ==> !MagicAt(s, i)
  }

  /** Noise behind its first byte, up to and including the next node id, holds no magic. */
  predicate Harmless(g: Segment) {
    Fits(g.frame.packet) && (g.noise != [] ==> NoMagic(g.noise[1..] + [g.frame.node]))
  }

  function SegmentBytes(g: Segment): seq<byte>
    requires Harmless(g)
  {
    g.noise + FrameBytes(g.frame)
  }

  function StreamBytes(gs: seq<Segment>): seq<byte>
    requires forall g :: g in gs ==> Harmless(g)
  {
    if gs == [] then [] else SegmentBytes(gs[0]) + StreamBytes(gs[1..])
  }

  function FramesOf(gs: seq<Segment>): seq<Frame> {
    if gs == [] then [] else [gs[0].frame] + FramesOf(gs[1..])
  }

  // ---- the host on noise and frames ---------------------------------------------------

  lemma HeadFrame(f: Frame, tail: seq<byte>)
    requires Fits(f.packet)
    ensures var r := Parse(tail);
      Parse(FrameBytes(f) + tail) == Parsed([f] + r.frames, r.rest)
  {
    var buf := FrameBytes(f) + tail;
    var n := FRAMED_HEADER_SIZE + |f.packet.payload|;
    assert buf[1] == MAGIC_LO && buf[2] == MAGIC_HI && buf[3] == f.packet.command && buf[4] == |f.packet.payload|;
    HeadDecodes(buf);
    assert buf[FRAMED_HEADER_SIZE..n] == f.packet.payload;
    assert buf[n..] == tail;
  }

  lemma {:induction false} NoiseSkipped(noise: seq<byte>, f: Frame, tail: seq<byte>)
    requires Harmless(Segment(noise, f))
    ensures Parse(noise + FrameBytes(f) + tail) == Parse(FrameBytes(f) + tail)
  {
    if noise == [] {
      assert noise + FrameBytes(f) == FrameBytes(f);
    } else {
      var buf := noise + FrameBytes(f) + tail;
      var seen := noise[1..] + [f.node];
      var rest := noise[1..];
      if |noise| == 1 {
        assert buf[1] == f.node && buf[2] == MAGIC_LO;
      } else {
        assert buf[1] == seen[0] && buf[2] == seen[1];
        assert !MagicAt(seen, 0);
        assert rest[1..] + [f.node] == seen[1..];
        forall i: nat | i + 2 <= |seen[1..]| ensures !MagicAt(seen[1..], i) {
          assert !MagicAt(seen, i + 1);
        }
      }
      assert !MagicAt(buf, 1);
      assert buf[1..] == rest + FrameBytes(f) + tail;
      NoiseSkipped(rest, f, tail);
    }
  }

  /** The host recovers every frame intact, whatever harmless noise stands between them. */
  lemma {:induction false} HostRecovers(gs: seq<Segment>)
    requires forall g :: g in gs ==> Harmless(g)
    ensures Parse(StreamBytes(gs)) == Parsed(FramesOf(gs), [])
  {
    if gs != [] {
      var tail := StreamBytes(gs[1..]);
      HostRecovers(gs[1..]);
      NoiseSkipped(gs[0].noise, gs[0].frame, tail);
      HeadFrame(gs[0].frame, tail);
    }
  }

  // ---- the router on noise and frames -------------------------------------------------

  /** The packet the router sends for a frame that it read with node id n. */
  function Sent(n: byte, p: Packet): Dispatch
    requires Fits(p)
  {
    Dispatch(n, |p.payload|, Wire(p))
  }

  /** The node id the router takes for a frame behind noise: the first noise byte. */
  function TakenId(g: Segment): byte {
    if g.noise == [] then g.frame.node else g.noise[0]
  }

  lemma StepPiles(n: byte, p: Packet, k: nat)
    requires |p.payload| <= MAX_PAYLOAD_SIZE && k < |Wire(p)|
    ensures var w := Wire(p);
      Step(RxState(true, n, w[..k]), w[k])
        == if k + 1 < |w| then Rx(RxState(true, n, w[..k + 1]), []) else Rx(RxState(false, n, []), [Sent(n, p)])
  {
    var w := Wire(p);
    assert w[..k] + [w[k]] == w[..k + 1];
    assert w[..|w|] == w;
    assert TotalLength(w[3]) == |w|;
  }

  /** Bytes j to k of a packet pile up behind its first j bytes. */
  lemma PilesUp(n: byte, p: Packet, j: nat, k: nat)
    requires |p.payload| <= MAX_PAYLOAD_SIZE && j <= k < |Wire(p)|
    ensures Run(RxState(true, n, Wire(p)[..j]), Wire(p)[j..k]) == Rx(RxState(true, n, Wire(p)[..k]), [])
  {
    var w := Wire(p);
    var path := seq(|w|, i requires 0 <= i < |w| => RxState(true, n, w[..i]));
    forall i | j <= i < k ensures Step(path[i], w[i]) == Rx(path[i + 1], []) {
      StepPiles(n, p, i);
    }
    RunAlong(path, w, j, k);
  }

  /** The rest of a packet completes it. */
  lemma Completes(n: byte, p: Packet, j: nat)
    requires |p.payload| <= MAX_PAYLOAD_SIZE && j < HEADER_SIZE
    ensures Run(RxState(true, n, Wire(p)[..j]), Wire(p)[j..]) == Rx(RxState(false, n, []), [Sent(n, p)])
  {
    var w := Wire(p);
    var k := |w| - 1;
    PilesUp(n, p, j, k);
    StepPiles(n, p, k);
    assert w[j..] == w[j..k] + [w[k]];
    RunSnoc(RxState(true, n, w[..j]), w[j..k], w[k]);
  }

  /** What the four-byte window shows while it slides over noise. */
  function Window(t: seq<byte>, k: nat): seq<byte>
    requires k <= |t|
  {
    if k < HEADER_SIZE then t[..k] else t[k - 3..k]
  }

  lemma StepSlides(n: byte, t: seq<byte>, k: nat)
    requires k < |t|
    requires k >= 3 ==> !MagicAt(t, k - 3)
    ensures Step(RxState(true, n, Window(t, k)), t[k]) == Rx(RxState(true, n, Window(t, k + 1)), [])
  {
    var buf := Window(t, k) + [t[k]];
    if k < 3 {
      assert buf == t[..k + 1];
    } else {
      assert buf == t[k - 3..k + 1];
      assert buf[0] == t[k - 3] && buf[1] == t[k - 2];
      assert buf[1..] == Window(t, k + 1);
    }
  }

  lemma WindowSlides(n: byte, t: seq<byte>, k: nat)
    requires k <= |t|
    requires forall i: nat :: i + HEADER_SIZE <= k ==> !MagicAt(t, i)
    ensures Run(RxState(true, n, []), t[..k]) == Rx(RxState(true, n, Window(t, k)), [])
  {
    var path := seq(k + 1, i requires 0 <= i <= k => RxState(true, n, Window(t, i)));
    forall i | 0 <= i < k ensures Step(path[i], t[i]) == Rx(path[i + 1], []) {
      if i >= 3 {
        assert !MagicAt(t, i - 3);
      }
      StepSlides(n, t, i);
    }
    RunAlong(path, t, 0, k);
  }

  lemma RouterCrossesNoise(id: byte, seen: seq<byte>, p: Packet)
    requires |p.payload| <= MAX_PAYLOAD_SIZE && NoMagic(seen)
    ensures Run(RxState(true, id, []), seen + Wire(p)) == Rx(RxState(false, id, []), [Sent(id, p)])
  {
    var w := Wire(p);
    var t := seen + w;
    var k := |seen| + 3;
    forall i: nat | i + HEADER_SIZE <= k ensures !MagicAt(t, i) {
      if i + 2 <= |seen| {
        assert !MagicAt(seen, i);
      } else {
        assert t[i + 1] == MAGIC_LO;
      }
    }
    WindowSlides(id, t, k);
    assert Window(t, k) == w[..3];
    assert t[k..] == w[3..] && t == t[..k] + t[k..];
    RunAppend(RxState(true, id, []), t[..k], t[k..]);
    Completes(id, p, 3);
  }

  /** A frame behind noise is sent whole, under the id the router took. */
  lemma RouterTakesSegment(s: RxState, g: Segment)
    requires !s.haveNid && Harmless(g) && Sendable(g.frame)
    ensures Run(s, SegmentBytes(g)) == Rx(RxState(false, TakenId(g), []), [Sent(TakenId(g), g.frame.packet)])
  {
    var w := Wire(g.frame.packet);
    var id := TakenId(g);
    if g.noise == [] {
      assert SegmentBytes(g) == [id] + w;
      RunFromIdle(s, id, w);
      Completes(id, g.frame.packet, 0);
    } else {
      var seen := g.noise[1..] + [g.frame.node];
      assert SegmentBytes(g) == [id] + (seen + w);
      RunFromIdle(s, id, seen + w);
      RouterCrossesNoise(id, seen, g.frame.packet);
    }
  }

  function SentAll(gs: seq<Segment>): seq<Dispatch>
    requires forall g :: g in gs ==> Harmless(g)
  {
    if gs == [] then []
    else
      assert Harmless(gs[0]);
      [Sent(TakenId(gs[0]), gs[0].frame.packet)] + SentAll(gs[1..])
  }

  /** The router sends the same packets, each to the first byte read since the frame before
      it: the frame's own node id exactly where there was no noise. */
  lemma {:induction false} RouterRecovers(s: RxState, gs: seq<Segment>)
    requires !s.haveNid
    requires forall g :: g in gs ==> Harmless(g) && Sendable(g.frame)
    ensures var r := Run(s, StreamBytes(gs));
      r.out == SentAll(gs) && !r.state.haveNid
    decreases |gs|
  {
    if gs != [] {
      var r := Run(s, SegmentBytes(gs[0]));
      RouterTakesSegment(s, gs[0]);
      RouterRecovers(r.state, gs[1..]);
      RunAppend(s, SegmentBytes(gs[0]), StreamBytes(gs[1..]));
    }
  }

  // ---- both together ------------------------------------------------------------------

  function SentFrames(fs: seq<Frame>): seq<Dispatch>
    requires forall f :: f in fs ==> Fits(f.packet)
  {
    if fs == [] then [] else [Sent(fs[0].node, fs[0].packet)] + SentFrames(fs[1..])
  }

  lemma {:induction false} SameTargetsIff(gs: seq<Segment>)
    requires forall g :: g in gs ==> Harmless(g)
    ensures forall f :: f in FramesOf(gs) ==> Fits(f.packet)
    ensures SentAll(gs) == SentFrames(FramesOf(gs)) <==> forall g :: g in gs ==> TakenId(g) == g.frame.node
  {
    if gs != [] {
      SameTargetsIff(gs[1..]);
      var sent, wanted := SentAll(gs), SentFrames(FramesOf(gs));
      assert FramesOf(gs)[1..] == FramesOf(gs[1..]);
      assert sent[1..] == SentAll(gs[1..]) && wanted[1..] == SentFrames(FramesOf(gs[1..]));
      assert sent == [sent[0]] + sent[1..] && wanted == [wanted[0]] + wanted[1..];
      assert sent == wanted <==> TakenId(gs[0]) == gs[0].frame.node && sent[1..] == wanted[1..];
      assert forall g :: g in gs <==> g == gs[0] || g in gs[1..];
    }
  }

  /** The exact comparison on noisy streams, however the stream is cut on its way to either
      side: same packets, same order, nothing left over; the node ids agree if and only if
      every stretch of noise starts with the id of the frame behind it. */
  lemma NoisyStreamComparison(s: RxState, gs: seq<Segment>, toHost: seq<seq<byte>>, toRouter: seq<seq<byte>>)
    requires !s.haveNid
    requires forall g :: g in gs ==> Harmless(g) && Sendable(g.frame)
    requires Flatten(toHost) == Flatten(toRouter) == StreamBytes(gs)
    ensures forall f :: f in FramesOf(gs) ==> Fits(f.packet)
    ensures PollAll([], toHost) == Parsed(FramesOf(gs), [])
    ensures RunPieces(s, toRouter).out == SentAll(gs) && !RunPieces(s, toRouter).state.haveNid
    ensures SentAll(gs) == SentFrames(FramesOf(gs)) <==> forall g :: g in gs ==> TakenId(g) == g.frame.node
  {
    HostRecovers(gs);
    assert [] + Flatten(toHost) == Flatten(toHost);
    FragmentationIndependent([], toHost);
    RouterRecovers(s, gs);
    PiecesDoNotMatter(s, toRouter);
    SameTargetsIff(gs);
  }

  function FrameStream(fs: seq<Frame>): seq<byte>
    requires forall f :: f in fs ==> Fits(f.packet)
  {
    if fs == [] then [] else FrameBytes(fs[0]) + FrameStream(fs[1..])
  }

  function Quiet(fs: seq<Frame>): seq<Segment> {
    if fs == [] then [] else [Segment([], fs[0])] + Quiet(fs[1..])
  }

  lemma {:induction false} QuietStream(fs: seq<Frame>)
    requires forall f :: f in fs ==> Fits(f.packet)
    ensures (forall g :: g in Quiet(fs) ==> Harmless(g)) && StreamBytes(Quiet(fs)) == FrameStream(fs)
    ensures FramesOf(Quiet(fs)) == fs && SentAll(Quiet(fs)) == SentFrames(fs)
    ensures forall g :: g in Quiet(fs) ==> g.noise == [] && g.frame in fs
  {
    if fs != [] {
      QuietStream(fs[1..]);
      assert [] + FrameBytes(fs[0]) == FrameBytes(fs[0]);
    }
  }

  /** The round trip: whatever the fragmentation, both sides get exactly the frames written,
      in order, and end with nothing pending. */
  lemma RoundTrip(s: RxState, fs: seq<Frame>, toHost: seq<seq<byte>>, toRouter: seq<seq<byte>>)
    requires !s.haveNid
    requires forall f :: f in fs ==> Fits(f.packet) && Sendable(f)
    requires Flatten(toHost) == Flatten(toRouter) == FrameStream(fs)
    ensures PollAll([], toHost) == Parsed(fs, [])
    ensures RunPieces(s, toRouter).out == SentFrames(fs) && !RunPieces(s, toRouter).state.haveNid
  {
    QuietStream(fs);
    NoisyStreamComparison(s, Quiet(fs), toHost, toRouter);
  }

  /** A single frame comes out of the router as itself if and only if its payload fits the
      firmware's buffer; the length bytes 245 to 255 are the ones the encoder still accepts
      and the router does not carry. */
  lemma RouterCarriesIff(s: RxState, f: Frame)
    requires !s.haveNid && s.buf == [] && Fits(f.packet)
    ensures Run(s, FrameBytes(f)).out == [Sent(f.node, f.packet)] <==> Sendable(f)
  {
    if Sendable(f) {
      RouterTakesSegment(s, Segment([], f));
      assert SegmentBytes(Segment([], f)) == FrameBytes(f);
    } else {
      EveryStreamIsSafe(s, FrameBytes(f));
      var sends := Sends(s, FrameBytes(f), |FrameBytes(f)|);
      assert !GoodDispatch(Sent(f.node, f.packet));
      assert |sends| > 0 ==> sends[0] in sends;
    }
  }

  // ---- frames the router has no room for ------------------------------------------------

  /** A payload that overruns the router's buffer, whose length byte does not wrap. */
  predicate Overruns(f: Frame) {
    MAX_PAYLOAD_SIZE < |f.packet.payload| <= 251
  }

  /** While there is room, the bytes of a packet too long for the buffer pile up as well. */
  lemma LongPiles(n: byte, p: Packet, k: nat)
    requires |p.payload| <= 251 && k < MAX_PACKET_SIZE < |Wire(p)|
    ensures Step(RxState(true, n, Wire(p)[..k]), Wire(p)[k]) == Rx(RxState(true, n, Wire(p)[..k + 1]), [])
  {
    var w := Wire(p);
    assert w[..k] + [w[k]] == w[..k + 1];
    assert TotalLength(w[3]) == |w|;
  }

  lemma LongFills(n: byte, p: Packet)
    requires |p.payload| <= 251 && MAX_PACKET_SIZE < |Wire(p)|
    ensures Run(RxState(true, n, []), Wire(p)[..MAX_PACKET_SIZE])
      == Rx(RxState(true, n, Wire(p)[..MAX_PACKET_SIZE]), [])
  {
    var w := Wire(p);
    var path := seq(MAX_PACKET_SIZE + 1, i requires 0 <= i < MAX_PACKET_SIZE + 1 => RxState(true, n, w[..i]));
    forall i | 0 <= i < MAX_PACKET_SIZE ensures Step(path[i], w[i]) == Rx(path[i + 1], []) {
      LongPiles(n, p, i);
    }
    RunAlong(path, w, 0, MAX_PACKET_SIZE);
    assert w[..0] == [] && w[0..MAX_PACKET_SIZE] == w[..MAX_PACKET_SIZE];
  }

  /** What is left of an overrunning payload when the router has dropped what it held: the byte
      that did not fit is gone too. */
  function Spill(f: Frame): seq<byte>
    requires Overruns(f)
  {
    f.packet.payload[245..]
  }

  lemma LongDrops(n: byte, p: Packet)
    requires |p.payload| <= 251 && MAX_PACKET_SIZE < |Wire(p)|
    ensures Run(RxState(true, n, []), Wire(p)[..MAX_PACKET_SIZE + 1]) == Rx(RxState(false, n, []), [])
  {
    var held, last := Wire(p)[..MAX_PACKET_SIZE], Wire(p)[MAX_PACKET_SIZE];
    LongFills(n, p);
    RunQuietSnoc(RxState(true, n, []), held, last, RxState(true, n, held), RxState(false, n, []));
    assert Wire(p)[..MAX_PACKET_SIZE + 1] == held + [last];
  }

  /** An overrun drops the packet without sending anything and leaves the router idle. */
  lemma OverrunGoesIdle(s: RxState, f: Frame)
    requires !s.haveNid && Overruns(f)
    ensures Run(s, FrameBytes(f)[..250]) == Rx(RxState(false, f.node, []), [])
    ensures FrameBytes(f) == FrameBytes(f)[..250] + Spill(f)
  {
    var dropped := Wire(f.packet)[..MAX_PACKET_SIZE + 1];
    LongDrops(f.node, f.packet);
    RunFromIdle(s, f.node, dropped);
    assert FrameBytes(f)[..250] == [f.node] + dropped;
    assert FrameBytes(f)[250..] == Spill(f);
  }

  /** So a frame with a payload of 245 to 251 bytes does what its last bytes would do by
      themselves, read from idle. */
  lemma OverrunIsItsSpill(s: RxState, f: Frame)
    requires !s.haveNid && Overruns(f)
    ensures Run(s, FrameBytes(f)) == Run(RxState(false, f.node, []), Spill(f))
  {
    OverrunGoesIdle(s, f);
    RunAppend(s, FrameBytes(f)[..250], Spill(f));
    assert [] + Run(RxState(false, f.node, []), Spill(f)).out == Run(RxState(false, f.node, []), Spill(f)).out;
  }

  /** The shortest one leaves nothing behind: the frames that follow it come out unharmed. */
  lemma OverrunThenFrames(s: RxState, f: Frame, fs: seq<Frame>)
    requires !s.haveNid && |f.packet.payload| == 245
    requires forall g :: g in fs ==> Fits(g.packet) && Sendable(g)
    ensures var r := Run(s, FrameBytes(f) + FrameStream(fs)); r.out == SentFrames(fs) && !r.state.haveNid
  {
    var idle := RxState(false, f.node, []);
    OverrunIsItsSpill(s, f);
    assert Spill(f) == [];
    RunAppend(s, FrameBytes(f), FrameStream(fs));
    QuietStream(fs);
    RouterRecovers(idle, Quiet(fs));
    assert [] + SentFrames(fs) == SentFrames(fs);
  }

  /** What a wrapped length sends: up to three bytes of the header. */
  function Stub(f: Frame): Dispatch
    requires 252 <= |f.packet.payload| <= 255
  {
    Dispatch(f.node, |f.packet.payload|, Wire(f.packet)[..|f.packet.payload| - 252])
  }

  lemma HeadPiles(n: byte, p: Packet)
    requires Fits(p)
    ensures Run(RxState(true, n, []), Wire(p)[..3]) == Rx(RxState(true, n, Wire(p)[..3]), [])
  {
    var w := Wire(p);
    var path := seq(4, i requires 0 <= i < 4 => RxState(true, n, w[..i]));
    forall i | 0 <= i < 3 ensures Step(path[i], w[i]) == Rx(path[i + 1], []) {
      assert w[..i] + [w[i]] == w[..i + 1];
    }
    RunAlong(path, w, 0, 3);
    assert w[0..3] == w[..3] && w[..0] == [];
  }

  lemma HeadSent(s: RxState, f: Frame)
    requires !s.haveNid && 252 <= |f.packet.payload| <= 255
    ensures Run(s, [f.node] + Wire(f.packet)[..HEADER_SIZE]) == Rx(RxState(false, f.node, []), [Stub(f)])
  {
    var w := Wire(f.packet);
    HeadPiles(f.node, f.packet);
    HeadWraps(f.node, f.packet);
    RunSnoc(RxState(true, f.node, []), w[..3], w[3]);
    assert w[..HEADER_SIZE] == w[..3] + [w[3]] && [] + [Stub(f)] == [Stub(f)];
    RunFromIdle(s, f.node, w[..HEADER_SIZE]);
  }

  /** A payload of 252 to 255 bytes makes the length wrap: the stub is sent at once, and the
      whole payload is read as if it were a stream of its own. */
  lemma WrapReadsPayloadAfresh(s: RxState, f: Frame)
    requires !s.haveNid && 252 <= |f.packet.payload| <= 255
    ensures var r := Run(RxState(false, f.node, []), f.packet.payload);
      Run(s, FrameBytes(f)) == Rx(r.state, [Stub(f)] + r.out)
  {
    var head := [f.node] + Wire(f.packet)[..HEADER_SIZE];
    HeadSent(s, f);
    RunAppend(s, head, f.packet.payload);
    assert FrameBytes(f) == head + f.packet.payload;
  }

  lemma HeadWraps(node: byte, p: Packet)
    requires 252 <= |p.payload| <= 255
    ensures Step(RxState(true, node, Wire(p)[..3]), Wire(p)[3])
      == Rx(RxState(false, node, []), [Dispatch(node, |p.payload|, Wire(p)[..|p.payload| - 252])])
  {
    var w := Wire(p);
    assert w[..3] + [w[3]] == w[..4];
    assert w[..4][..|p.payload| - 252] == w[..|p.payload| - 252];
  }
}
