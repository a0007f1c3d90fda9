/** The two firmware senders, the host's and the router's, and the packets both produce. */
module OtaSenders {
  import opened Protocol
  import opened Crc32

  const CHUNK_SIZE := 244

  function ChunkCount(size: nat): nat {
    (size + CHUNK_SIZE - 1) / CHUNK_SIZE
  }

  function Reach(size: nat, k: nat): (end: nat)
    ensures end <= size
  {
    if CHUNK_SIZE * k < size then CHUNK_SIZE * k else size
  }

  function Chunk(data: seq<byte>, k: nat): seq<byte> {
    data[Reach(|data|, k)..Reach(|data|, k + 1)]
  }

  function Chunks(data: seq<byte>): seq<seq<byte>> {
    seq(ChunkCount(|data|), k requires 0 <= k => Chunk(data, k))
  }

  function BeginPayload(data: seq<byte>): (p: seq<byte>)
    requires |data| < 0x1_0000_0000
    ensures |p| == 8
  {
    LittleEndian32(|data|) + CrcBytes(Crc(data))
  }

  function DataPacket(chunk: seq<byte>): Packet {
    Packet(OTA_DATA, chunk)
  }

  const END_PACKET := Packet(OTA_END, [])

  /** An announcement, the chunks of the data and the end mark. */
  function Transfer(announcement: seq<byte>, data: seq<byte>): (ps: seq<Packet>)
    ensures |ps| == ChunkCount(|data|) + 2
    ensures ps[0] == Packet(OTA_BEGIN, announcement) && ps[|ps| - 1] == END_PACKET
    ensures forall k :: 0 <= k < ChunkCount(|data|) ==> ps[k + 1] == DataPacket(Chunk(data, k))
  {
    [Packet(OTA_BEGIN, announcement)] +
    seq(ChunkCount(|data|), k requires 0 <= k => DataPacket(Chunk(data, k))) + [END_PACKET]
  }

  /** The whole transfer of an image. */
  function OtaPackets(data: seq<byte>): (ps: seq<Packet>)
    requires |data| < 0x1_0000_0000
  {
    Transfer(BeginPayload(data), data)
  }

  // ---- what the packets carry ---------------------------------------------------------

  lemma CountAndReach(size: nat, k: nat)
    ensures k < ChunkCount(size) <==> CHUNK_SIZE * k < size
    ensures k < ChunkCount(size) ==> Reach(size, k) == CHUNK_SIZE * k && Reach(size, k) < Reach(size, k + 1)
    ensures k + 1 < ChunkCount(size) ==> Reach(size, k + 1) == Reach(size, k) + CHUNK_SIZE
    ensures Reach(size, k + 1) <= Reach(size, k) + CHUNK_SIZE
    ensures Reach(size, ChunkCount(size)) == size
  {
  }

  lemma {:induction false} ChunksSoFar(data: seq<byte>, k: nat)
    requires k <= ChunkCount(|data|)
    ensures Flatten(Chunks(data)[..k]) == data[..Reach(|data|, k)]
  {
    if k > 0 {
      ChunksSoFar(data, k - 1);
      FlattenSnoc(Chunks(data), k - 1);
      assert data[..Reach(|data|, k)] == data[..Reach(|data|, k - 1)] + Chunk(data, k - 1);
    }
  }

  /** The data packets carry the image, in order and in full, in the smallest possible
      number of packets, each but the last one filled. */
  lemma ChunksCarryImage(data: seq<byte>)
    ensures Flatten(Chunks(data)) == data
    ensures (|Chunks(data)| - 1) * CHUNK_SIZE < |data| <= |Chunks(data)| * CHUNK_SIZE ||
      (data == [] && Chunks(data) == [])
    ensures forall k :: 0 <= k < |Chunks(data)| ==> 0 < |Chunks(data)[k]| <= MAX_PAYLOAD_SIZE
    ensures forall k :: 0 <= k < |Chunks(data)| - 1 ==> |Chunks(data)[k]| == MAX_PAYLOAD_SIZE
  {
    var n := ChunkCount(|data|);
    ChunksSoFar(data, n);
    assert Chunks(data)[..n] == Chunks(data);
    CountAndReach(|data|, n);
    forall k | 0 <= k < n
      ensures 0 < |Chunks(data)[k]| <= MAX_PAYLOAD_SIZE && (k + 1 < n ==> |Chunks(data)[k]| == MAX_PAYLOAD_SIZE)
    {
      CountAndReach(|data|, k);
    }
  }

  /** Every packet of a transfer fits the firmware's buffers. */
  lemma TransferFits(announcement: seq<byte>, data: seq<byte>)
    requires |announcement| == 8
    ensures forall p :: p in Transfer(announcement, data) ==> Fits(p) && |p.payload| <= MAX_PAYLOAD_SIZE
  {
    var ps := Transfer(announcement, data);
    forall p | p in ps ensures |p.payload| <= MAX_PAYLOAD_SIZE {
      var i :| 0 <= i < |ps| && ps[i] == p;
      if 0 < i < |ps| - 1 {
        CountAndReach(|data|, i - 1);
        assert p == DataPacket(Chunk(data, i - 1));
      }
    }
  }

  // ---- the host's generator -----------------------------------------------------------

  /** `_chunks(data, CHUNK_SIZE)`. */
  method ChunkList(data: seq<byte>) returns (chunks: seq<seq<byte>>)
    ensures chunks == Chunks(data)
  {
    chunks := [];
    var i := 0;
    while i < |data|
      invariant i == CHUNK_SIZE * |chunks|
      invariant |chunks| <= ChunkCount(|data|)
      invariant chunks == Chunks(data)[..|chunks|]
      decreases |data| - i
    {
      CountAndReach(|data|, |chunks|);
      var end := if i + CHUNK_SIZE < |data| then i + CHUNK_SIZE else |data|;
      chunks := chunks + [data[i..end]];
      i := i + CHUNK_SIZE;
    }
    CountAndReach(|data|, |chunks|);
  }

  // ---- the router's sender ------------------------------------------------------------

  function Wires(ps: seq<Packet>): (ws: seq<seq<byte>>)
    requires forall p :: p in ps ==> Fits(p)
    ensures |ws| == |ps| && forall i :: 0 <= i < |ps| ==> ws[i] == Wire(ps[i])
  {
    if ps == [] then [] else [Wire(ps[0])] + Wires(ps[1..])
  }

  lemma TransferWires(announcement: seq<byte>, data: seq<byte>)
    requires forall p :: p in Transfer(announcement, data) ==> Fits(p)
    ensures var all := Wires(Transfer(announcement, data));
      |all| == ChunkCount(|data|) + 2 && Fits(Packet(OTA_BEGIN, announcement)) &&
      all[0] == Wire(Packet(OTA_BEGIN, announcement)) && all[|all| - 1] == Wire(END_PACKET) &&
      forall k :: 0 <= k < ChunkCount(|data|) ==>
        |Chunk(data, k)| < 256 && all[k + 1] == Wire(DataPacket(Chunk(data, k)))
  {
    var ps := Transfer(announcement, data);
    assert ps[0] in ps;
    forall k | 0 <= k < ChunkCount(|data|) ensures |Chunk(data, k)| < 256 {
      assert ps[k + 1] in ps;
    }
  }

  lemma PrefixGrows(all: seq<seq<byte>>, k: nat)
    requires k < |all|
    ensures all[..k + 1] == all[..k] + [all[k]]
    ensures k == |all| - 1 ==> all[..k + 1] == all
  {
  }

  class RouterSender {
    const buf: array<byte>
    var written: seq<seq<byte>>  // the packets the radio accepted so far, in order
    var linkBudget: nat          // how many more writes the radio will accept

    ghost predicate Valid()
      reads this
    {
      buf.Length == MAX_PACKET_SIZE
    }

    constructor (linkBudget: nat)
      ensures Valid() && fresh(buf) && written == [] && this.linkBudget == linkBudget
    {
      buf := new byte[MAX_PACKET_SIZE];
      written := [];
      this.linkBudget := linkBudget;
    }

    /** `ble_central_send_to_node`, on a link that may stop accepting. */
    method Send(len: nat) returns (ok: bool)
      requires Valid() && len <= buf.Length
      modifies this`written, this`linkBudget
      ensures ok <==> old(linkBudget) > 0
      ensures ok ==> written == old(written) + [buf[..len]] && linkBudget == old(linkBudget) - 1
      ensures !ok ==> written == old(written) && linkBudget == old(linkBudget)
    {
      ok := linkBudget > 0;
      if ok {
        written := written + [buf[..len]];
        linkBudget := linkBudget - 1;
      }
    }

    /** Puts a command, a length and a payload behind the magic already in the buffer. */
    method Fill(command: byte, payload: seq<byte>)
      requires Valid() && |payload| <= MAX_PAYLOAD_SIZE
      requires buf[0] == MAGIC_LO && buf[1] == MAGIC_HI
      modifies buf
      ensures buf[0] == MAGIC_LO && buf[1] == MAGIC_HI
      ensures buf[..HEADER_SIZE + |payload|] == Wire(Packet(command, payload))
    {
      buf[2] := command;
      buf[3] := |payload|;
      for i := 0 to |payload|
        invariant buf[0] == MAGIC_LO && buf[1] == MAGIC_HI && buf[2] == command && buf[3] == |payload|
        invariant forall k :: 0 <= k < i ==> buf[HEADER_SIZE + k] == payload[k]
      {
        buf[HEADER_SIZE + i] := payload[i];
      }
    }

    /** Fills the buffer and offers it to the radio. */
    method SendPacket(command: byte, payload: seq<byte>) returns (ok: bool)
      requires Valid() && |payload| <= MAX_PAYLOAD_SIZE
      requires buf[0] == MAGIC_LO && buf[1] == MAGIC_HI
      modifies this`written, this`linkBudget, buf
      ensures buf[0] == MAGIC_LO && buf[1] == MAGIC_HI
      ensures ok <==> old(linkBudget) > 0
      ensures ok ==> written == old(written) + [Wire(Packet(command, payload))] && linkBudget == old(linkBudget) - 1
      ensures !ok ==> written == old(written) && linkBudget == old(linkBudget)
    {
      Fill(command, payload);
      ok := Send(HEADER_SIZE + |payload|);
    }

    /** `ota_push_to_node`: refuses an empty image, and stops at the first refused write. */
    method PushToNode(data: seq<byte>) returns (ok: bool)
      requires Valid() && written == [] && |data| < 0x1_0000_0000
      modifies this, buf
      ensures Valid()
      ensures data == [] ==> !ok && written == []
      ensures forall p :: p in OtaPackets(data) ==> Fits(p)
      ensures data != [] ==>
        var n := if old(linkBudget) < |OtaPackets(data)| then old(linkBudget) else |OtaPackets(data)|;
        written == Wires(OtaPackets(data))[..n] && (ok <==> n == |OtaPackets(data)|)
    {
      TransferFits(BeginPayload(data), data);
      if data == [] {
        return false;
      }
      ok := SendTransfer(BeginPayload(data), data);
    }

    method SendTransfer(announcement: seq<byte>, data: seq<byte>) returns (ok: bool)
      requires Valid() && written == [] && |announcement| == 8
      requires forall p :: p in Transfer(announcement, data) ==> Fits(p)
      modifies this, buf
      ensures Valid()
      ensures var ps := Transfer(announcement, data);
        var n := if old(linkBudget) < |ps| then old(linkBudget) else |ps|;
        written == Wires(ps)[..n] && (ok <==> n == |ps|)
    {
      ghost var all := Wires(Transfer(announcement, data));
      TransferWires(announcement, data);
      buf[0], buf[1] := MAGIC_LO, MAGIC_HI;
      ok := SendPacket(OTA_BEGIN, announcement);
      if !ok {
        return;
      }
      assert written == all[..1];
      ok := SendChunks(data, all);
      if !ok {
        return;
      }
      PrefixGrows(all, |all| - 1);
      ok := SendPacket(OTA_END, []);
    }

    method SendChunks(data: seq<byte>, ghost all: seq<seq<byte>>) returns (ok: bool)
      requires Valid() && buf[0] == MAGIC_LO && buf[1] == MAGIC_HI
      requires |all| == ChunkCount(|data|) + 2 && written == all[..1]
      requires forall k :: 0 <= k < ChunkCount(|data|) ==>
        |Chunk(data, k)| < 256 && all[k + 1] == Wire(DataPacket(Chunk(data, k)))
      modifies this, buf
      ensures Valid() && buf[0] == MAGIC_LO && buf[1] == MAGIC_HI
      ensures ok <==> old(linkBudget) >= ChunkCount(|data|)
      ensures written == all[..if ok then |all| - 1 else old(linkBudget) + 1]
      ensures ok ==> linkBudget == old(linkBudget) - ChunkCount(|data|)
    {
      var offset := 0;
      ghost var k := 0;
      while offset < |data|
        invariant 0 <= k <= ChunkCount(|data|) && offset == Reach(|data|, k)
        invariant buf[0] == MAGIC_LO && buf[1] == MAGIC_HI
        invariant Valid() && written == all[..k + 1] && linkBudget == old(linkBudget) - k
        decreases |data| - offset
      {
        CountAndReach(|data|, k);
        var chunk := if |data| - offset > MAX_PAYLOAD_SIZE then MAX_PAYLOAD_SIZE else |data| - offset;
        assert data[offset..offset + chunk] == Chunk(data, k);
        ok := SendPacket(OTA_DATA, data[offset..offset + chunk]);
        if !ok {
          return;
        }
        PrefixGrows(all, k + 1);
        offset := offset + chunk;
        k := k + 1;
      }
      CountAndReach(|data|, k);
      ok := true;
    }
  }
}
