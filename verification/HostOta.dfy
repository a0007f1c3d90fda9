/** The host's side of a firmware upload: a coroutine with two waits on a pending future. */
module HostOta {
  import opened Protocol
  import opened OtaSenders

  datatype Phase = AwaitBegin | Sending(next: nat) | AwaitEnd | Finished(ok: bool)

  datatype Future = Absent | Unresolved | Resolved(status: byte)

  datatype Host = Host(phase: Phase, future: Future)

  /** `on_ota_status`: only the first status after a future was created counts. */
  function OnStatus(h: Host, payload: seq<byte>): Host {
    if h.future.Unresolved? then h.(future := Resolved(if payload != [] then payload[0] else STATUS_ERROR)) else h
  }

  /** The coroutine wakes up with the status it waited for. */
  function Resume(h: Host): Host {
    if !h.future.Resolved? then h
    else if h.phase.AwaitBegin? then
      Host(if h.future.status == STATUS_IN_PROGRESS then Sending(0) else Finished(false), Absent)
    else if h.phase.AwaitEnd? then Host(Finished(h.future.status == STATUS_OK), Absent)
    else h
  }

  /** `asyncio.wait_for` gives up. */
  function TimeOut(h: Host): Host {
    if h.future.Unresolved? && (h.phase.AwaitBegin? || h.phase.AwaitEnd?) then Host(Finished(false), Absent) else h
  }

  /** The next packet of the transfer goes out; the end mark opens the second wait. */
  function Sent(h: Host, chunks: nat): Host {
    if !h.phase.Sending? then h
    else if h.phase.next < chunks then h.(phase := Sending(h.phase.next + 1))
    else Host(AwaitEnd, Unresolved)
  }

  /** A wait is decided at once by the first status that comes, an empty one counting as an
      error: the upload goes on only with IN_PROGRESS and succeeds only with OK. Later statuses,
      and any that come while nothing is waited for, change nothing. */
  lemma FirstAnswerDecides(first: seq<byte>, second: seq<byte>)
    ensures Resume(OnStatus(Host(AwaitBegin, Unresolved), first))
      == if first != [] && first[0] == 0x02 then Host(Sending(0), Absent) else Host(Finished(false), Absent)
    ensures Resume(OnStatus(Host(AwaitEnd, Unresolved), first))
      == Host(Finished(first != [] && first[0] == 0x00), Absent)
    ensures forall h :: OnStatus(OnStatus(h, first), second) == OnStatus(h, first)
    ensures forall h: Host :: h.future.Absent? ==> OnStatus(h, first) == h
  {
  }

  /** How far an upload has come: the packets handed over are a prefix of the transfer. */
  predicate OnTrack(ps: seq<Packet>, size: nat, phase: Phase, sent: nat, outbox: seq<Packet>) {
    |ps| == ChunkCount(size) + 2 &&
    match phase
    case AwaitBegin => outbox == ps[..1]
    case Sending(k) => k <= ChunkCount(size) && sent == Reach(size, k) && outbox == ps[..k + 1]
    case AwaitEnd => sent == size && outbox == ps
    case Finished(_) => outbox <= ps
  }

  lemma NextOnTrack(announcement: seq<byte>, data: seq<byte>, k: nat, sent: nat, outbox: seq<Packet>)
    requires OnTrack(Transfer(announcement, data), |data|, Sending(k), sent, outbox)
    ensures var ps := Transfer(announcement, data);
      if k < ChunkCount(|data|) then
        OnTrack(ps, |data|, Sending(k + 1), sent + |Chunk(data, k)|, outbox + [DataPacket(Chunk(data, k))])
      else
        OnTrack(ps, |data|, AwaitEnd, sent, outbox + [END_PACKET])
  {
    var ps := Transfer(announcement, data);
    OneFurther(ps, |data|, k, sent, outbox);
    if k < ChunkCount(|data|) {
      CountAndReach(|data|, k);
      assert ps[k + 1] == DataPacket(Chunk(data, k));
    }
  }

  lemma OneFurther(ps: seq<Packet>, size: nat, k: nat, sent: nat, outbox: seq<Packet>)
    requires OnTrack(ps, size, Sending(k), sent, outbox)
    ensures var more := outbox + [ps[k + 1]];
      if k < ChunkCount(size) then OnTrack(ps, size, Sending(k + 1), Reach(size, k + 1), more)
      else OnTrack(ps, size, AwaitEnd, sent, more)
  {
    CountAndReach(size, k);
    Grows(ps, k + 1);
  }

  lemma Grows(ps: seq<Packet>, k: nat)
    requires k < |ps|
    ensures ps[..k + 1] == ps[..k] + [ps[k]]
    ensures k == |ps| - 1 ==> ps[..k] + [ps[k]] == ps
  {
  }

  class OtaHandler {
    var pending: map<byte, Future>  // futures by node id
    // the locals of the push_firmware coroutine
    var node: byte
    var firmware: seq<byte>
    var announcement: seq<byte>     // the payload of the OTA_BEGIN packet
    var phase: Phase
    var sent: nat                   // the bytes reported to the progress callback
    var outbox: seq<Packet>         // the packets handed to the transport, in order

    ghost function State(): Host
      reads this
    {
      Host(phase, if node in pending then pending[node] else Absent)
    }

    ghost predicate Valid()
      reads this
    {
      |firmware| < 0x1_0000_0000 &&
      (forall n :: n in pending ==> !pending[n].Absent?) &&
      OnTrack(Transfer(announcement, firmware), |firmware|, phase, sent, outbox)
    }

    /** The session stays the one that was started. */
    ghost predicate Same(n: byte, image: seq<byte>, head: seq<byte>)
      reads this
    {
      node == n && firmware == image && announcement == head
    }

    /** `push_firmware` up to its first wait. The image is too long for the size field of
        OTA_BEGIN from 4 GiB on; struct.pack raises then, and nothing is sent. */
    constructor (nodeId: byte, image: seq<byte>)
      requires |image| < 0x1_0000_0000
      ensures Valid() && node == nodeId && firmware == image && announcement == BeginPayload(image)
      ensures State() == Host(AwaitBegin, Unresolved)
    {
      node, firmware, sent := nodeId, image, 0;
      pending := map[nodeId := Unresolved];
      phase := AwaitBegin;
      announcement := BeginPayload(image);
      outbox := [Packet(OTA_BEGIN, announcement)];
    }

    method OnOtaStatus(nodeId: byte, packet: Packet)
      requires Valid()
      modifies this`pending
      ensures Valid()
      ensures State() == if nodeId == node then OnStatus(old(State()), packet.payload) else old(State())
    {
      if nodeId in pending && pending[nodeId].Unresolved? {
        var status := if packet.payload != [] then packet.payload[0] else STATUS_ERROR;
        pending := pending[nodeId := Resolved(status)];
      }
    }

    method Wake()
      requires Valid()
      modifies this
      ensures Valid() && outbox == old(outbox)
      ensures Same(old(node), old(firmware), old(announcement))
      ensures State() == Resume(old(State()))
    {
      if node !in pending || !pending[node].Resolved? || !(phase.AwaitBegin? || phase.AwaitEnd?) {
        return;
      }
      var status := pending[node].status;
      pending := pending - {node};
      if phase.AwaitBegin? {
        if status != STATUS_IN_PROGRESS {
          phase := Finished(false);
        } else {
          phase, sent := Sending(0), 0;
        }
      } else {
        phase := Finished(status == STATUS_OK);
      }
    }

    method GiveUp()
      requires Valid()
      modifies this
      ensures Valid() && outbox == old(outbox)
      ensures Same(old(node), old(firmware), old(announcement))
      ensures State() == TimeOut(old(State()))
    {
      if node in pending && pending[node].Unresolved? && (phase.AwaitBegin? || phase.AwaitEnd?) {
        pending := pending - {node};
        phase := Finished(false);
      }
    }

    method SendNext()
      requires Valid() && phase.Sending?
      modifies this
      ensures Valid() && Same(old(node), old(firmware), old(announcement))
      ensures State() == Sent(old(State()), ChunkCount(|firmware|))
      ensures |outbox| == |old(outbox)| + 1
    {
      if phase.next < ChunkCount(|firmware|) {
        SendChunk();
      } else {
        SendEnd();
      }
    }

    method SendChunk()
      requires Valid() && phase.Sending? && phase.next < ChunkCount(|firmware|)
      modifies this`outbox, this`sent, this`phase
      ensures Valid() && phase == Sending(old(phase).next + 1)
      ensures |outbox| == |old(outbox)| + 1
    {
      NextOnTrack(announcement, firmware, phase.next, sent, outbox);
      var chunk := Chunk(firmware, phase.next);
      outbox := outbox + [DataPacket(chunk)];
      sent := sent + |chunk|;
      phase := Sending(phase.next + 1);
    }

    method SendEnd()
      requires Valid() && phase.Sending? && phase.next == ChunkCount(|firmware|)
      modifies this`pending, this`outbox, this`phase
      ensures Valid() && phase == AwaitEnd && pending == old(pending)[node := Unresolved]
      ensures |outbox| == |old(outbox)| + 1
    {
      NextOnTrack(announcement, firmware, phase.next, sent, outbox);
      pending := pending[node := Unresolved];
      outbox := outbox + [END_PACKET];
      phase := AwaitEnd;
    }
  }
}
