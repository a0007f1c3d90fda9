/** The KlipLink packet format: [magic u16 LE][command u8][length u8][payload], and the
    serial frame that puts a node id in front of it. */
module Protocol {

  type byte = x: int | 0 <= x < 256
  type u16 = x: int | 0 <= x < 0x1_0000
  type u32 = x: int | 0 <= x < 0x1_0000_0000

  datatype Option<+T> = None | Some(value: T)

  const MAGIC := 0x4B4C
  const MAGIC_LO: byte := 0x4C
  const MAGIC_HI: byte := 0x4B
  const HEADER_SIZE := 4
  const MAX_PAYLOAD_SIZE := 244
  const MAX_PACKET_SIZE := HEADER_SIZE + MAX_PAYLOAD_SIZE
  const BROADCAST: byte := 0xFF

  const PING: byte := 0x01
  const NEOPIXEL_SET: byte := 0x50
  const NEOPIXEL_SET_ALL: byte := 0x51
  const NEOPIXEL_SET_RANGE: byte := 0x52
  const LED_ZONE_SET: byte := 0x53
  const LED_ZONE_CLR: byte := 0x54
  const OTA_BEGIN: byte := 0x80
  const OTA_DATA: byte := 0x81
  const OTA_END: byte := 0x82
  const OTA_STATUS: byte := 0x83
  const ERROR: byte := 0xFF

  const STATUS_OK: byte := 0
  const STATUS_ERROR: byte := 1
  const STATUS_IN_PROGRESS: byte := 2

  datatype Packet = Packet(command: byte, payload: seq<byte>)

  datatype Frame = Frame(node: byte, packet: Packet)

  /** The length field is one byte wide. */
  predicate Fits(p: Packet) {
    |p.payload| < 256
  }

  /** A payload the firmware buffers have room for. */
  predicate Sendable(f: Frame) {
    |f.packet.payload| <= MAX_PAYLOAD_SIZE
  }

  predicate MagicAt(s: seq<byte>, i: nat)
    requires i + 2 <= |s|
  {
    var lo: int, hi: int := s[i], s[i + 1];
    lo + 256 * hi == MAGIC
  }

  function Wire(p: Packet): seq<byte>
    requires Fits(p)
  {
    [MAGIC_LO, MAGIC_HI, p.command, |p.payload|] + p.payload
  }

  /** `KlipPacket.encode`: struct.pack raises when the length does not fit its byte. */
  function Encode(p: Packet): Option<seq<byte>> {
    if Fits(p) then Some(Wire(p)) else None
  }

  /** `KlipPacket.decode`. */
  function Decode(data: seq<byte>): Option<Packet> {
    if |data| < HEADER_SIZE then None
    else if !MagicAt(data, 0) then None
    else if |data| < HEADER_SIZE + data[3] then None
    else Some(Packet(data[2], data[HEADER_SIZE..HEADER_SIZE + data[3]]))
  }

  /** Decoding inverts encoding exactly: a packet comes out of a buffer if and only if the
      buffer starts with that packet's encoding. */
  lemma DecodeIffEncoded(data: seq<byte>, p: Packet)
    ensures Decode(data) == Some(p) <==> Encode(p).Some? && Encode(p).value <= data
  {
    if Decode(data) == Some(p) {
      assert data[..HEADER_SIZE + data[3]] == Wire(p);
    }
    if Encode(p).Some? && Encode(p).value <= data {
      var w := Wire(p);
      assert forall i :: 0 <= i < |w| ==> data[i] == w[i];
      assert data[0] == w[0] && data[1] == w[1] && data[2] == w[2] && data[3] == w[3];
      assert data[HEADER_SIZE..HEADER_SIZE + data[3]] == p.payload;
    }
  }

  /** The layout on the air and on the line: magic 4C 4B, command, length, payload. */
  lemma WireLayout(p: Packet)
    requires Fits(p)
    ensures var w := Wire(p);
      |w| == 4 + |p.payload| && w[0] == 0x4C && w[1] == 0x4B && w[2] == p.command && w[3] == |p.payload| &&
      w[4..] == p.payload
  {
  }

  function FrameBytes(f: Frame): seq<byte>
    requires Fits(f.packet)
  {
    [f.node] + Wire(f.packet)
  }

  function Flatten(chunks: seq<seq<byte>>): seq<byte> {
    if chunks == [] then [] else chunks[0] + Flatten(chunks[1..])
  }

  lemma {:induction false} FlattenAppend(a: seq<seq<byte>>, b: seq<seq<byte>>)
    ensures Flatten(a + b) == Flatten(a) + Flatten(b)
  {
    if a == [] {
      assert a + b == b;
    } else {
      var t := a[1..];
      assert a + b == [a[0]] + (t + b);
      FlattenAppend(t, b);
      assert Flatten(a + b) == a[0] + Flatten(t + b);
    }
  }

  lemma FlattenSnoc(a: seq<seq<byte>>, k: nat)
    requires k < |a|
    ensures Flatten(a[..k + 1]) == Flatten(a[..k]) + a[k]
  {
    FlattenAppend(a[..k], [a[k]]);
    assert a[..k + 1] == a[..k] + [a[k]];
    assert Flatten([a[k]]) == a[k] + Flatten([]);
  }

  /** `struct.pack("<I", n)`. */
  function LittleEndian32(n: u32): seq<byte> {
    [n % 256, n / 256 % 256, n / 0x1_0000 % 256, n / 0x100_0000]
  }

  function FromLittleEndian32(b: seq<byte>): u32
    requires |b| == 4
  {
    var b0: int, b1: int, b2: int, b3: int := b[0], b[1], b[2], b[3];
    b0 + 256 * b1 + 0x1_0000 * b2 + 0x100_0000 * b3
  }

  lemma LittleEndian32RoundTrip(n: u32)
    ensures FromLittleEndian32(LittleEndian32(n)) == n
    ensures var b := LittleEndian32(n);
      |b| == 4 &&
      var b0: int, b1: int, b2: int, b3: int := b[0], b[1], b[2], b[3];
      n == b0 + 256 * b1 + 0x1_0000 * b2 + 0x100_0000 * b3
  {
    assert n / 0x1_0000 == n / 256 / 256;
    assert n / 0x100_0000 == n / 0x1_0000 / 256;
  }
}
