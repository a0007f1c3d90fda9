/** A firmware image from the host's sender to the node's boot partition and back: both
    serial directions, the router's parser and tables, and the node's receiver. */
module OtaDelivery {
  import opened Protocol
  import opened Crc32
  import opened OtaSenders
  import opened NodeOta
  import opened HostOta
  import opened CommandParser
  import opened SerialTransport
  import opened FrameStreams
  import opened RouterTables
  import RouterRuns
  import HostMirror

  // ---- down: host, router, radio ------------------------------------------------------

  /** The frames that carry packets to one node. */
  function FramesTo(node: byte, ps: seq<Packet>): (fs: seq<Frame>)
    ensures |fs| == |ps|
    ensures forall f :: f in fs ==> f.packet in ps
  {
    if ps == [] then [] else [Frame(node, ps[0])] + FramesTo(node, ps[1..])
  }

  /** The frames of a whole upload. */
  function UploadFrames(node: byte, image: seq<byte>): (fs: seq<Frame>)
    requires |image| < 0x1_0000_0000
    ensures forall f :: f in fs ==> Fits(f.packet) && Sendable(f)
  {
    TransferFits(BeginPayload(image), image);
    FramesTo(node, OtaPackets(image))
  }

  /** Every write the parser's dispatches lead to. */
  function RouteAll(t: Tables, ds: seq<Dispatch>): seq<Write> {
    if ds == [] then [] else Route(t, ds[0].node, ds[0].data) + RouteAll(t, ds[1..])
  }

  function DataOf(writes: seq<Write>): seq<seq<byte>> {
    if writes == [] then [] else [writes[0].data] + DataOf(writes[1..])
  }

  lemma {:induction false} AllReachOwner(events: seq<Event>, node: byte, ps: seq<Packet>)
    requires RouterRuns.FreshRun(events) && node != BROADCAST && RouterRuns.Ready(RouterRuns.Run(events).t, node)
    requires forall p :: p in ps ==> Fits(p)
    ensures var w := RouterRuns.Run(events);
      var writes := RouteAll(w.t, SentFrames(FramesTo(node, ps)));
      DataOf(writes) == Wires(ps) && forall x :: x in writes ==> RouterRuns.Reaches(w, node, x, x.data)
  {
    if ps != [] {
      var w, fs := RouterRuns.Run(events), FramesTo(node, ps);
      AllReachOwner(events, node, ps[1..]);
      RouterRuns.UnicastReachesOwner(events, node, Wire(ps[0]));
      assert fs[1..] == FramesTo(node, ps[1..]);
      assert SentFrames(fs) == [FrameStreams.Sent(node, ps[0])] + SentFrames(fs[1..]);
      var first := Route(w.t, node, Wire(ps[0]));
      var later := RouteAll(w.t, SentFrames(fs[1..]));
      assert RouteAll(w.t, SentFrames(fs)) == first + later;
      assert first == [first[0]];
    }
  }

  // ---- the node -----------------------------------------------------------------------

  /** The node takes a written value as a packet and hands it to its receiver. */
  function Receive(o: Ota, data: seq<byte>): Outcome {
    match Decode(data)
    case Some(p) => Handle(o, p, ALL_WELL)
    case None => Outcome(o, [])
  }

  function ReceiveAll(o: Ota, data: seq<seq<byte>>): Outcome {
    if data == [] then Outcome(o, [])
    else
      var r := ReceiveAll(o, data[..|data| - 1]);
      var last := Receive(r.next, data[|data| - 1]);
      Outcome(last.next, r.status + last.status)
  }

  lemma ReceiveOneMore(o: Ota, ws: seq<seq<byte>>, p: Packet, k: nat)
    requires k < |ws| && Fits(p) && ws[k] == Wire(p)
    ensures var r := ReceiveAll(o, ws[..k]);
      var last := Handle(r.next, p, ALL_WELL);
      ReceiveAll(o, ws[..k + 1]) == Outcome(last.next, r.status + last.status)
  {
    assert ws[..k + 1][..k] == ws[..k];
    DecodeIffEncoded(ws[k], p);
  }

  /** After the announcement and k chunks, the receiver holds k chunks' worth of the image. */
  lemma {:induction false} ReceivesChunks(o: Ota, announcement: seq<byte>, image: seq<byte>, ws: seq<seq<byte>>, k: nat)
    requires |announcement| == 8 && |image| <= CAPACITY && k <= ChunkCount(|image|)
    requires |ws| == ChunkCount(|image|) + 2 && ws[0] == Wire(Packet(OTA_BEGIN, announcement))
    requires forall j :: 0 <= j < ChunkCount(|image|) ==>
      |Chunk(image, j)| < 256 && ws[j + 1] == Wire(DataPacket(Chunk(image, j)))
    ensures ReceiveAll(o, ws[..k + 1]) == Outcome(
      Ota(true, FromCrcBytes(announcement[4..8]), Reach(|image|, k), FromLittleEndian32(announcement[..4]),
          image[..Reach(|image|, k)], o.boot), [STATUS_IN_PROGRESS])
  {
    if k == 0 {
      assert ws[..0] == [];
      ReceiveOneMore(o, ws, Packet(OTA_BEGIN, announcement), 0);
      assert image[..Reach(|image|, 0)] == [];
    } else {
      ReceivesChunks(o, announcement, image, ws, k - 1);
      ReceiveOneMore(o, ws, DataPacket(Chunk(image, k - 1)), k);
      CountAndReach(|image|, k - 1);
      assert image[..Reach(|image|, k)] == image[..Reach(|image|, k - 1)] + Chunk(image, k - 1);
    }
  }

  /** The announcement says what the node checks. */
  lemma AnnouncementRoundTrip(image: seq<byte>)
    requires |image| < 0x1_0000_0000
    ensures FromLittleEndian32(BeginPayload(image)[..4]) == |image|
    ensures FromCrcBytes(BeginPayload(image)[4..8]) == Crc(image)
  {
    LittleEndian32RoundTrip(|image|);
    CrcBytesRoundTrip(Crc(image));
    assert BeginPayload(image)[..4] == LittleEndian32(|image|);
    assert BeginPayload(image)[4..8] == CrcBytes(Crc(image));
  }

  lemma TransferCommits(o: Ota, announcement: seq<byte>, image: seq<byte>, ws: seq<seq<byte>>)
    requires |announcement| == 8 && |image| <= CAPACITY
    requires |ws| == ChunkCount(|image|) + 2 && ws[0] == Wire(Packet(OTA_BEGIN, announcement))
    requires ws[|ws| - 1] == Wire(END_PACKET)
    requires forall j :: 0 <= j < ChunkCount(|image|) ==>
      |Chunk(image, j)| < 256 && ws[j + 1] == Wire(DataPacket(Chunk(image, j)))
    requires Passes(FromCrcBytes(announcement[4..8]), image)
    ensures var loaded := ReceiveAll(o, ws[..|ws| - 1]);
      loaded.next == Ota(true, FromCrcBytes(announcement[4..8]), |image|,
                         FromLittleEndian32(announcement[..4]), image, o.boot)
    ensures var done := ReceiveAll(o, ws);
      done.next.boot == Some(image) && done.status == [STATUS_IN_PROGRESS, STATUS_OK]
  {
    var n := ChunkCount(|image|);
    ReceivesChunks(o, announcement, image, ws, n);
    CountAndReach(|image|, n);
    assert image[..Reach(|image|, n)] == image;
    ReceiveOneMore(o, ws, END_PACKET, n + 1);
    CommitsIff(ReceiveAll(o, ws[..n + 1]).next, ALL_WELL);
    assert ws[..n + 2] == ws;
  }

  /** With every flash call succeeding, the packets leave the whole image in the partition,
      counted and checked, and the last one commits it. */
  lemma NodeCommitsImage(o: Ota, image: seq<byte>)
    requires |image| <= CAPACITY
    ensures forall p :: p in OtaPackets(image) ==> Fits(p)
    ensures var ws := Wires(OtaPackets(image));
      var done := ReceiveAll(o, ws);
      ReceiveAll(o, ws[..|ws| - 1]).next == Ota(true, Crc(image), |image|, |image|, image, o.boot) &&
      done.next.boot == Some(image) && done.status == [STATUS_IN_PROGRESS, STATUS_OK]
  {
    AnnouncementRoundTrip(image);
    AnnouncedTransferCommits(o, BeginPayload(image), image, OtaPackets(image), Crc(image));
  }

  lemma AnnouncedTransferCommits(o: Ota, announcement: seq<byte>, image: seq<byte>, ps: seq<Packet>, crc: bv32)
    requires |announcement| == 8 && |image| <= CAPACITY && Passes(crc, image) && ps == Transfer(announcement, image)
    requires FromLittleEndian32(announcement[..4]) == |image| && FromCrcBytes(announcement[4..8]) == crc
    ensures forall p :: p in ps ==> Fits(p)
    ensures var ws := Wires(ps);
      var done := ReceiveAll(o, ws);
      ReceiveAll(o, ws[..|ws| - 1]).next == Ota(true, crc, |image|, |image|, image, o.boot) &&
      done.next.boot == Some(image) && done.status == [STATUS_IN_PROGRESS, STATUS_OK]
  {
    TransferFits(announcement, image);
    TransferWires(announcement, image);
    TransferCommits(o, announcement, image, Wires(ps));
  }

  /** However the host's byte stream is cut, the firmware reaches the owner of the slot and
      no one else, fills its partition and becomes its boot image. */
  lemma FirmwareArrives(image: seq<byte>, node: byte, rx: RxState, pieces: seq<seq<byte>>, events: seq<Event>, o: Ota)
    requires |image| <= CAPACITY && node != BROADCAST && !rx.haveNid
    requires RouterRuns.FreshRun(events) && RouterRuns.Ready(RouterRuns.Run(events).t, node)
    requires Flatten(pieces) == FrameStream(UploadFrames(node, image))
    ensures var w := RouterRuns.Run(events);
      var writes := RouteAll(w.t, RunPieces(rx, pieces).out);
      var done := ReceiveAll(o, DataOf(writes));
      (forall x :: x in writes ==> RouterRuns.Reaches(w, node, x, x.data)) &&
      done.next.boot == Some(image) && done.status == [STATUS_IN_PROGRESS, STATUS_OK]
  {
    var ps := OtaPackets(image);
    TransferFits(BeginPayload(image), image);
    RoundTrip(rx, FramesTo(node, ps), pieces, pieces);
    AllReachOwner(events, node, ps);
    NodeCommitsImage(o, image);
  }

  // ---- up: node, router, host ---------------------------------------------------------

  function StatusPacket(status: byte): Packet {
    Packet(OTA_STATUS, [status])
  }

  /** What the router writes to the serial line for a node's statuses. */
  function StatusSerial(t: Tables, connId: u16, statuses: seq<byte>): seq<byte> {
    if statuses == [] then []
    else OnNotify(t, connId, Wire(StatusPacket(statuses[0]))) + StatusSerial(t, connId, statuses[1..])
  }

  function StatusFrames(node: byte, statuses: seq<byte>): seq<Frame> {
    if statuses == [] then [] else [Frame(node, StatusPacket(statuses[0]))] + StatusFrames(node, statuses[1..])
  }

  /** The host's coroutine after k further packets. */
  function SentTimes(h: Host, chunks: nat, k: nat): Host {
    if k == 0 then h else HostOta.Sent(SentTimes(h, chunks, k - 1), chunks)
  }

  lemma {:induction false} SendingAll(chunks: nat, k: nat)
    requires k <= chunks
    ensures SentTimes(Host(Sending(0), Absent), chunks, k) == Host(Sending(k), Absent)
  {
    if k > 0 {
      SendingAll(chunks, k - 1);
    }
  }

  lemma OwnNodeId(events: seq<Event>, node: byte)
    requires RouterRuns.FreshRun(events) && RouterRuns.Ready(RouterRuns.Run(events).t, node)
    ensures var t := RouterRuns.Run(events).t; NodeId(t, t.slots[node].connId) == node
  {
    RouterRuns.FreshRunsKeepInv(events);
    var t := RouterRuns.Run(events).t;
    FirstUnique(t.slots, (n: Slot) => n.connId == t.slots[node].connId && n.connected, node);
  }

  lemma {:induction false} StatusesOnTheLine(node: byte, t: Tables, connId: u16, statuses: seq<byte>)
    requires NodeId(t, connId) == node
    ensures forall f :: f in StatusFrames(node, statuses) ==> Fits(f.packet) && Sendable(f)
    ensures StatusSerial(t, connId, statuses) == FrameStream(StatusFrames(node, statuses))
  {
    if statuses != [] {
      var first, later := Frame(node, StatusPacket(statuses[0])), StatusFrames(node, statuses[1..]);
      StatusesOnTheLine(node, t, connId, statuses[1..]);
      HostMirror.NodeFrame(node, Wire(first.packet));
      assert Wire(first.packet)[HEADER_SIZE..] == [statuses[0]];
      HostMirror.FrameStreamAppend([first], later);
    }
  }

  /** The node's statuses reach the host under the node's id, in any fragmentation. */
  lemma StatusesArrive(node: byte, statuses: seq<byte>, pieces: seq<seq<byte>>, events: seq<Event>)
    requires RouterRuns.FreshRun(events) && RouterRuns.Ready(RouterRuns.Run(events).t, node)
    requires var t := RouterRuns.Run(events).t; Flatten(pieces) == StatusSerial(t, t.slots[node].connId, statuses)
    ensures PollAll([], pieces).frames == StatusFrames(node, statuses)
  {
    var t := RouterRuns.Run(events).t;
    OwnNodeId(events, node);
    StatusesOnTheLine(node, t, t.slots[node].connId, statuses);
    RoundTrip(RxState(false, 0xFF, []), StatusFrames(node, statuses), pieces, pieces);
  }

  /** They take the upload from its first wait to success, and no status does without both. */
  lemma HostReportsSuccessIff(chunks: nat, first: byte, second: byte)
    ensures var started := Resume(OnStatus(Host(AwaitBegin, Unresolved), [first]));
      var waiting := SentTimes(started, chunks, chunks + 1);
      Resume(OnStatus(waiting, [second])).phase == Finished(true) <==>
      first == STATUS_IN_PROGRESS && second == STATUS_OK
  {
    if first == STATUS_IN_PROGRESS {
      SendingAll(chunks, chunks);
    } else {
      StaysFinished(chunks, chunks + 1);
    }
  }

  lemma {:induction false} StaysFinished(chunks: nat, k: nat)
    ensures SentTimes(Host(Finished(false), Absent), chunks, k) == Host(Finished(false), Absent)
  {
    if k > 0 {
      StaysFinished(chunks, k - 1);
    }
  }

  /** What the host's coroutine makes of two frames it waited for. */
  function Verdict(chunks: nat, first: Frame, second: Frame): Phase {
    var started := Resume(OnStatus(Host(AwaitBegin, Unresolved), first.packet.payload));
    Resume(OnStatus(SentTimes(started, chunks, chunks + 1), second.packet.payload)).phase
  }

  /** The whole upload: the firmware goes down through the router in any fragmentation, the
      node's answers come up in any fragmentation, and at the end the firmware is the node's
      boot image and the host reports success. */
  lemma UploadSucceeds(image: seq<byte>, node: byte, rx: RxState, down: seq<seq<byte>>, up: seq<seq<byte>>,
                       events: seq<Event>, o: Ota)
    requires |image| <= CAPACITY && node != BROADCAST && !rx.haveNid
    requires RouterRuns.FreshRun(events) && RouterRuns.Ready(RouterRuns.Run(events).t, node)
    requires Flatten(down) == FrameStream(UploadFrames(node, image))
    requires var t := RouterRuns.Run(events).t;
      var done := ReceiveAll(o, DataOf(RouteAll(t, RunPieces(rx, down).out)));
      Flatten(up) == StatusSerial(t, t.slots[node].connId, done.status)
    ensures var frames := PollAll([], up).frames;
      |frames| == 2 && frames[0].node == frames[1].node == node &&
      Verdict(ChunkCount(|image|), frames[0], frames[1]) == Finished(true)
    ensures ReceiveAll(o, DataOf(RouteAll(RouterRuns.Run(events).t, RunPieces(rx, down).out))).next.boot == Some(image)
  {
    FirmwareArrives(image, node, rx, down, events, o);
    StatusesArrive(node, [STATUS_IN_PROGRESS, STATUS_OK], up, events);
    TwoStatuses(node);
    HostReportsSuccessIff(ChunkCount(|image|), STATUS_IN_PROGRESS, STATUS_OK);
  }

  lemma TwoStatuses(node: byte)
    ensures StatusFrames(node, [STATUS_IN_PROGRESS, STATUS_OK])
      == [Frame(node, StatusPacket(STATUS_IN_PROGRESS)), Frame(node, StatusPacket(STATUS_OK))]
  {
    var ok := [STATUS_OK];
    assert [STATUS_IN_PROGRESS, STATUS_OK][1..] == ok;
    assert ok[1..] == [];
    assert StatusFrames(node, ok) == [Frame(node, StatusPacket(STATUS_OK))] + StatusFrames(node, ok[1..]);
  }
}
