/** CRC-32 as section 8 of RFC 1952 defines it, in the chainable form that both
    `zlib.crc32` and `esp_rom_crc32_le` offer. */
module Crc32 {
  import opened Protocol

  const POLYNOMIAL: bv32 := 0xEDB88320

  /** The low k bits of a number, least significant first. */
  function Bits(n: nat, k: nat): (bits: seq<bool>)
    ensures |bits| == k
    decreases k, n
  {
    if k == 0 then [] else [n % 2 == 1] + Bits(n / 2, k - 1)
  }

  function FromBits(bits: seq<bool>): nat {
    if bits == [] then 0 else (if bits[0] then 1 else 0) + 2 * FromBits(bits[1..])
  }

  /** Eight bits as the low end of a register. */
  function Pack(b: seq<bool>): bv32
    requires |b| == 8
  {
    (if b[0] then 0x01 else 0) | (if b[1] then 0x02 else 0) | (if b[2] then 0x04 else 0) | (if b[3] then 0x08 else 0) |
    (if b[4] then 0x10 else 0) | (if b[5] then 0x20 else 0) | (if b[6] then 0x40 else 0) | (if b[7] then 0x80 else 0)
  }

  function Unpack(c: bv32): seq<bool> {
    [c & 0x01 != 0, c & 0x02 != 0, c & 0x04 != 0, c & 0x08 != 0,
     c & 0x10 != 0, c & 0x20 != 0, c & 0x40 != 0, c & 0x80 != 0]
  }

  /** The byte as the low eight bits of a register. */
  function Word(b: byte): bv32 {
    Pack(Bits(b, 8))
  }

  /** The low eight bits of a register as a byte. */
  function LowByte(c: bv32): byte {
    FromBitsBound(Unpack(c));
    FromBits(Unpack(c))
  }

  function Xor(a: bv32, b: bv32): bv32 {
    a ^ b
  }

  function LowPart(x: bv32): bv32 {
    x & 0xFF
  }

  function Down(c: bv32): bv32 {
    c >> 8
  }

  function Shift(c: bv32): bv32 {
    if c & 1 == 1 then (c >> 1) ^ POLYNOMIAL else c >> 1
  }

  function Shifts(c: bv32, k: nat): bv32
    decreases k, c
  {
    if k == 0 then c else Shift(Shifts(c, k - 1))
  }

  /** Entry n of the table that `make_crc_table` builds, for n below 256. */
  function Table(n: bv32): bv32 {
    Shifts(n, 8)
  }

  /** One byte of the register update: the table form of RFC 1952. */
  function Update(c: bv32, b: byte): bv32 {
    Xor(Table(LowPart(Xor(c, Word(b)))), Down(c))
  }

  function Fold(c: bv32, data: seq<byte>): bv32 {
    if data == [] then c
    else Update(Fold(c, data[..|data| - 1]), data[|data| - 1])
  }

  function Not(c: bv32): bv32 {
    c ^ 0xFFFFFFFF
  }

  /** `update_crc(crc, buf)`. */
  function UpdateCrc(crc: bv32, data: seq<byte>): bv32 {
    Not(Fold(Not(crc), data))
  }

  function Crc(data: seq<byte>): bv32 {
    UpdateCrc(0, data)
  }

  /** The `crc32` field of OTA_BEGIN, little-endian. */
  function CrcBytes(c: bv32): seq<byte> {
    [LowByte(c), LowByte(c >> 8), LowByte(c >> 16), LowByte(c >> 24)]
  }

  function FromCrcBytes(b: seq<byte>): bv32
    requires |b| == 4
  {
    Word(b[0]) | (Word(b[1]) << 8) | (Word(b[2]) << 16) | (Word(b[3]) << 24)
  }

  // ---- bytes and registers ------------------------------------------------------------

  lemma {:induction false} FromBitsOfBits(n: nat, k: nat)
    requires n < Power2(k)
    ensures FromBits(Bits(n, k)) == n
  {
    if k > 0 {
      FromBitsOfBits(n / 2, k - 1);
      assert Bits(n, k)[1..] == Bits(n / 2, k - 1);
    }
  }

  function Power2(k: nat): nat {
    if k == 0 then 1 else 2 * Power2(k - 1)
  }

  lemma {:induction false} BitsOfFromBits(bits: seq<bool>)
    ensures Bits(FromBits(bits), |bits|) == bits
  {
    if bits != [] {
      BitsOfFromBits(bits[1..]);
    }
  }

  lemma {:induction false} FromBitsBelow(bits: seq<bool>)
    ensures FromBits(bits) < Power2(|bits|)
  {
    if bits != [] {
      FromBitsBelow(bits[1..]);
    }
  }

  lemma Power8()
    ensures Power2(8) == 256
  {
    assert Power2(4) == 16;
  }

  lemma FromBitsBound(bits: seq<bool>)
    requires |bits| == 8
    ensures FromBits(bits) < 256
  {
    FromBitsBelow(bits);
    Power8();
  }

  lemma PackInjective(p: seq<bool>, q: seq<bool>)
    requires |p| == |q| == 8 && Pack(p) == Pack(q)
    ensures p == q
  {
    UnpackPack(p);
    UnpackPack(q);
  }

  lemma UnpackPack(p: seq<bool>)
    requires |p| == 8
    ensures Unpack(Pack(p)) == p
  {
  }

  lemma PackUnpack(c: bv32)
    ensures Pack(Unpack(c)) == c & 0xFF
  {
  }

  /** The register word determines the byte. */
  lemma WordInjective(a: byte, b: byte)
    requires Word(a) == Word(b)
    ensures a == b
  {
    PackInjective(Bits(a, 8), Bits(b, 8));
    Power8();
    FromBitsOfBits(a, 8);
    FromBitsOfBits(b, 8);
  }

  lemma WordOfLowByte(c: bv32)
    ensures Word(LowByte(c)) == c & 0xFF
  {
    BitsOfFromBits(Unpack(c));
    PackUnpack(c);
  }

  lemma JoinBytes(c: bv32)
    ensures (c & 0xFF) | (((c >> 8) & 0xFF) << 8) | (((c >> 16) & 0xFF) << 16) | (((c >> 24) & 0xFF) << 24) == c
  {
  }

  /** The least significant byte comes first. */
  lemma CrcBytesLayout(c: bv32)
    ensures var b := CrcBytes(c);
      |b| == 4 && Word(b[0]) == c & 0xFF && Word(b[1]) == (c >> 8) & 0xFF &&
      Word(b[2]) == (c >> 16) & 0xFF && Word(b[3]) == (c >> 24) & 0xFF
  {
    WordOfLowByte(c);
    WordOfLowByte(c >> 8);
    WordOfLowByte(c >> 16);
    WordOfLowByte(c >> 24);
  }

  lemma CrcBytesRoundTrip(c: bv32)
    ensures FromCrcBytes(CrcBytes(c)) == c
  {
    WordOfLowByte(c);
    WordOfLowByte(c >> 8);
    WordOfLowByte(c >> 16);
    WordOfLowByte(c >> 24);
    JoinBytes(c);
  }

  // ---- chaining -----------------------------------------------------------------------

  lemma {:induction false} FoldAppend(c: bv32, a: seq<byte>, b: seq<byte>)
    ensures Fold(c, a + b) == Fold(Fold(c, a), b)
  {
    if b == [] {
      assert a + b == a;
    } else {
      var n := |b| - 1;
      FoldAppend(c, a, b[..n]);
      assert (a + b)[..|a + b| - 1] == a + b[..n];
    }
  }

  lemma NotNot(x: bv32)
    ensures Not(Not(x)) == x
  {
  }

  /** Section 8 of RFC 1952: the CRC of a buffer can be updated block by block. */
  lemma UpdateCrcChains(crc: bv32, a: seq<byte>, b: seq<byte>)
    ensures UpdateCrc(crc, a + b) == UpdateCrc(UpdateCrc(crc, a), b)
  {
    FoldAppend(Not(crc), a, b);
    NotNot(Fold(Not(crc), a));
  }

  lemma CrcChains(a: seq<byte>, b: seq<byte>)
    ensures UpdateCrc(Crc(a), b) == Crc(a + b)
  {
    UpdateCrcChains(0, a, b);
  }
}

/** Why a changed image is caught: every step of the register is a bijection, and four
    consecutive bytes act on it like one exclusive-or of a 32-bit word. */
module Crc32Detection {
  import opened Protocol
  import opened Crc32

  function Lift(y: bv32): bv32 {
    y << 8
  }

  predicate TopByteZero(y: bv32) {
    y & 0xFF000000 == 0
  }

  lemma XorOfShifts(a: bv32, b: bv32, p: bv32)
    ensures (a ^ b) >> 1 == (a >> 1) ^ (b >> 1)
    ensures (a ^ b) & 1 == (a & 1) ^ (b & 1)
    ensures (a & 1 == 0 || a & 1 == 1) && (b & 1 == 0 || b & 1 == 1)
    ensures ((a >> 1) ^ p) ^ (b >> 1) == ((a >> 1) ^ (b >> 1)) ^ p
    ensures (a >> 1) ^ ((b >> 1) ^ p) == ((a >> 1) ^ (b >> 1)) ^ p
    ensures ((a >> 1) ^ p) ^ ((b >> 1) ^ p) == (a >> 1) ^ (b >> 1)
  {
  }

  lemma ShiftOfXor(a: bv32, b: bv32)
    ensures Shift(a ^ b) == Shift(a) ^ Shift(b)
  {
    XorOfShifts(a, b, POLYNOMIAL);
    if a & 1 == 1 {
      if b & 1 == 1 { assert (a ^ b) & 1 == 0; } else { assert (a ^ b) & 1 == 1; }
    } else {
      if b & 1 == 1 { assert (a ^ b) & 1 == 1; } else { assert (a ^ b) & 1 == 0; }
    }
  }

  lemma ShiftLinear(a: bv32, b: bv32)
    ensures Shift(Xor(a, b)) == Xor(Shift(a), Shift(b))
  {
    ShiftOfXor(a, b);
  }

  lemma ShiftInjective(a: bv32, b: bv32)
    requires Shift(a) == Shift(b)
    ensures a == b
  {
  }

  lemma EightShifts(c: bv32)
    ensures Table(c) == Shift(Shift(Shift(Shift(Shift(Shift(Shift(Shift(c))))))))
  {
    assert Shifts(c, 1) == Shift(c);
    assert Shifts(c, 2) == Shift(Shifts(c, 1));
    assert Shifts(c, 3) == Shift(Shifts(c, 2));
    assert Shifts(c, 4) == Shift(Shifts(c, 3));
    assert Shifts(c, 5) == Shift(Shifts(c, 4));
    assert Shifts(c, 6) == Shift(Shifts(c, 5));
    assert Shifts(c, 7) == Shift(Shifts(c, 6));
  }

  lemma {:induction false} ShiftsLinear(a: bv32, b: bv32, k: nat)
    ensures Shifts(Xor(a, b), k) == Xor(Shifts(a, k), Shifts(b, k))
  {
    if k > 0 {
      ShiftsLinear(a, b, k - 1);
      ShiftLinear(Shifts(a, k - 1), Shifts(b, k - 1));
    }
  }

  lemma {:induction false} ShiftsInjective(a: bv32, b: bv32, k: nat)
    requires Shifts(a, k) == Shifts(b, k)
    ensures a == b
  {
    if k > 0 {
      ShiftInjective(Shifts(a, k - 1), Shifts(b, k - 1));
      ShiftsInjective(a, b, k - 1);
    }
  }

  lemma TableLinear(a: bv32, b: bv32)
    ensures Table(Xor(a, b)) == Xor(Table(a), Table(b))
  {
    ShiftsLinear(a, b, 8);
  }

  lemma TableInjective(a: bv32, b: bv32)
    requires Table(a) == Table(b)
    ensures a == b
  {
    ShiftsInjective(a, b, 8);
  }

  predicate Even(c: bv32) {
    c & 1 == 0
  }

  function Half(c: bv32): bv32 {
    c >> 1
  }

  function HighPart(x: bv32): bv32 {
    x & 0xFFFFFF00
  }

  lemma ShiftEven(c: bv32)
    requires Even(c)
    ensures Shift(c) == Half(c)
  {
  }

  lemma ZeroBits(h: bv32)
    requires LowPart(h) == 0
    ensures Even(h) && Even(Half(h)) && Even(Half(Half(h))) && Even(Half(Half(Half(h))))
    ensures var m := Half(Half(Half(Half(h))));
      Even(m) && Even(Half(m)) && Even(Half(Half(m))) && Even(Half(Half(Half(m)))) &&
      Half(Half(Half(Half(m)))) == Down(h)
  {
  }

  /** Eight shifts that meet only zero bits move the register down by a byte. */
  lemma TableOfHigh(h: bv32)
    requires LowPart(h) == 0
    ensures Table(h) == Down(h)
  {
    ZeroBits(h);
    EightShifts(h);
    var m := Half(Half(Half(Half(h))));
    ShiftEven(h);
    ShiftEven(Half(h));
    ShiftEven(Half(Half(h)));
    ShiftEven(Half(Half(Half(h))));
    ShiftEven(m);
    ShiftEven(Half(m));
    ShiftEven(Half(Half(m)));
    ShiftEven(Half(Half(Half(m))));
  }

  lemma SplitRegister(x: bv32)
    ensures x == Xor(LowPart(x), HighPart(x))
    ensures LowPart(HighPart(x)) == 0
    ensures Down(HighPart(x)) == Down(x)
  {
  }

  lemma WordSmall(b: byte)
    ensures Word(b) & 0xFFFFFF00 == 0
  {
  }

  lemma HighUnchanged(c: bv32, w: bv32)
    requires w & 0xFFFFFF00 == 0
    ensures Down(Xor(c, w)) == Down(c)
  {
  }

  /** The table form of the update is eight shifts of the register mixed with the byte. */
  lemma UpdateIsTable(c: bv32, b: byte)
    ensures Update(c, b) == Table(Xor(c, Word(b)))
  {
    var x := Xor(c, Word(b));
    SplitRegister(x);
    TableLinear(LowPart(x), HighPart(x));
    TableOfHigh(HighPart(x));
    WordSmall(b);
    HighUnchanged(c, Word(b));
  }

  lemma XorCancels(a: bv32, b: bv32, c: bv32)
    requires Xor(b, a) == Xor(c, a)
    ensures b == c
  {
  }

  lemma UpdateInjective(c: bv32, d: bv32, b: byte)
    requires Update(c, b) == Update(d, b)
    ensures c == d
  {
    UpdateIsTable(c, b);
    UpdateIsTable(d, b);
    TableInjective(Xor(c, Word(b)), Xor(d, Word(b)));
    XorCancels(Word(b), c, d);
  }

  /** Different registers stay different under the same bytes. */
  lemma {:induction false} FoldInjective(c: bv32, d: bv32, data: seq<byte>)
    requires Fold(c, data) == Fold(d, data)
    ensures c == d
  {
    if data != [] {
      var n := |data| - 1;
      UpdateInjective(Fold(c, data[..n]), Fold(d, data[..n]), data[n]);
      FoldInjective(c, d, data[..n]);
    }
  }

  lemma LiftFacts(y: bv32)
    requires TopByteZero(y)
    ensures LowPart(Lift(y)) == 0 && Down(Lift(y)) == y
  {
  }

  lemma Slide(x: bv32, y: bv32)
    requires TopByteZero(y)
    ensures Xor(Table(x), y) == Table(Xor(x, Lift(y)))
  {
    LiftFacts(y);
    TableOfHigh(Lift(y));
    TableLinear(x, Lift(y));
  }

  /** Bytes stacked into a word, lowest first. */
  function Stack(w: seq<byte>): bv32 {
    if w == [] then 0 else Xor(Word(w[0]), Lift(Stack(w[1..])))
  }

  function Above(n: nat): bv32 {
    if n == 0 then 0xFFFFFFFF else if n == 1 then 0xFFFFFF00 else if n == 2 then 0xFFFF0000
    else if n == 3 then 0xFF000000 else 0
  }

  predicate Within(y: bv32, n: nat) {
    y & Above(n) == 0
  }

  lemma StackedWithin(a: bv32, y: bv32, n: nat)
    requires n < 3 && a & 0xFFFFFF00 == 0 && Within(y, n)
    ensures Within(Xor(a, Lift(y)), n + 1)
  {
    if n == 0 {
    } else if n == 1 {
    } else {
    }
  }

  lemma {:induction false} StackWithin(w: seq<byte>)
    requires |w| <= 3
    ensures Within(Stack(w), |w|)
  {
    if w != [] {
      StackWithin(w[1..]);
      WordSmall(w[0]);
      StackedWithin(Word(w[0]), Stack(w[1..]), |w| - 1);
    }
  }

  lemma WithinThree(y: bv32, n: nat)
    requires n <= 3 && Within(y, n)
    ensures TopByteZero(y)
  {
  }

  lemma StackTopByteZero(w: seq<byte>)
    requires |w| <= 3
    ensures TopByteZero(Stack(w))
  {
    StackWithin(w);
    WithinThree(Stack(w), |w|);
  }

  lemma BytesSplit(a: bv32, b: bv32, x: bv32, y: bv32)
    requires a & 0xFFFFFF00 == 0 && b & 0xFFFFFF00 == 0
    requires TopByteZero(x) && TopByteZero(y)
    requires Xor(a, Lift(x)) == Xor(b, Lift(y))
    ensures a == b && x == y
  {
  }

  lemma {:induction false} StackInjective(v: seq<byte>, w: seq<byte>)
    requires |v| == |w| <= 4 && Stack(v) == Stack(w)
    ensures v == w
  {
    if v != [] {
      WordSmall(v[0]);
      WordSmall(w[0]);
      StackTopByteZero(v[1..]);
      StackTopByteZero(w[1..]);
      BytesSplit(Word(v[0]), Word(w[0]), Stack(v[1..]), Stack(w[1..]));
      WordInjective(v[0], w[0]);
      StackInjective(v[1..], w[1..]);
      assert v == [v[0]] + v[1..] && w == [w[0]] + w[1..];
    }
  }

  function TableTimes(c: bv32, n: nat): bv32
    decreases n, c
  {
    if n == 0 then c else TableTimes(Table(c), n - 1)
  }

  lemma {:induction false} TableTimesInjective(a: bv32, b: bv32, n: nat)
    requires TableTimes(a, n) == TableTimes(b, n)
    ensures a == b
    decreases n
  {
    if n > 0 {
      TableTimesInjective(Table(a), Table(b), n - 1);
      TableInjective(a, b);
    }
  }

  lemma FoldHead(c: bv32, w: seq<byte>)
    requires w != []
    ensures Fold(c, w) == Fold(Update(c, w[0]), w[1..])
  {
    var first := [w[0]];
    assert w == first + w[1..];
    FoldAppend(c, first, w[1..]);
    assert first[..0] == [];
    assert Fold(c, first) == Update(Fold(c, []), w[0]);
  }

  lemma XorAssociates(a: bv32, b: bv32, c: bv32)
    ensures Xor(Xor(a, b), c) == Xor(a, Xor(b, c))
  {
  }

  /** Up to four bytes act like one exclusive-or of their word, followed by shifts only. */
  lemma {:induction false} BytesActAsWord(c: bv32, w: seq<byte>)
    requires |w| <= 4
    ensures Fold(c, w) == TableTimes(Xor(c, Stack(w)), |w|)
    decreases |w|
  {
    if w == [] {
      XorZero(c);
    } else {
      var x, y := Xor(c, Word(w[0])), Stack(w[1..]);
      FoldHead(c, w);
      UpdateIsTable(c, w[0]);
      BytesActAsWord(Table(x), w[1..]);
      StackTopByteZero(w[1..]);
      Slide(x, y);
      XorAssociates(c, Word(w[0]), Lift(y));
    }
  }

  lemma XorZero(c: bv32)
    ensures Xor(c, 0) == c
  {
  }

  lemma XorSame(c: bv32, a: bv32, b: bv32)
    requires Xor(c, a) == Xor(c, b)
    ensures a == b
  {
  }

  lemma FoldOfFewInjective(c: bv32, v: seq<byte>, w: seq<byte>)
    requires |v| == |w| <= 4 && Fold(c, v) == Fold(c, w)
    ensures v == w
  {
    BytesActAsWord(c, v);
    BytesActAsWord(c, w);
    TableTimesInjective(Xor(c, Stack(v)), Xor(c, Stack(w)), |v|);
    XorSame(c, Stack(v), Stack(w));
    StackInjective(v, w);
  }

  lemma SameCrcSameBurst(prefix: seq<byte>, v: seq<byte>, w: seq<byte>, suffix: seq<byte>)
    requires |v| == |w| <= 4
    requires Crc(prefix + v + suffix) == Crc(prefix + w + suffix)
    ensures v == w
  {
    var c := Fold(Not(0), prefix);
    FoldAppend(Not(0), prefix + v, suffix);
    FoldAppend(Not(0), prefix + w, suffix);
    FoldAppend(Not(0), prefix, v);
    FoldAppend(Not(0), prefix, w);
    NotInjective(Fold(Not(0), prefix + v + suffix), Fold(Not(0), prefix + w + suffix));
    FoldInjective(Fold(c, v), Fold(c, w), suffix);
    FoldOfFewInjective(c, v, w);
  }

  lemma NotInjective(a: bv32, b: bv32)
    requires Not(a) == Not(b)
    ensures a == b
  {
  }

  /** An image changed only inside four consecutive bytes has a different CRC. */
  lemma BurstDetected(prefix: seq<byte>, v: seq<byte>, w: seq<byte>, suffix: seq<byte>)
    requires |v| == |w| <= 4 && v != w
    ensures Crc(prefix + v + suffix) != Crc(prefix + w + suffix)
  {
    if Crc(prefix + v + suffix) == Crc(prefix + w + suffix) {
      SameCrcSameBurst(prefix, v, w, suffix);
    }
  }
}
