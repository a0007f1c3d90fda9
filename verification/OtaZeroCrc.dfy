/** Where the receiver checks nothing: an image whose CRC is zero announces itself as
    unchecked, and the announced size is never compared. */
module OtaZeroCrc {
  import opened Protocol
  import opened Crc32
  import opened OtaSenders
  import opened NodeOta
  import opened HostOta
  import opened OtaHistory
  import opened OtaSession
  import opened OtaOutcomes

  const IMAGE: seq<byte> := [0x9D, 0x0A, 0xD9, 0x6D]

  /** Entries of the table, four shifts at a time. */
  lemma TableEntries()
    ensures Table(0x62) == 0xA3BC0074 && Table(0x81) == 0x9ABFB3B6
  {
    assert Shifts(0x62, 4) == 0x3B6E20CE;
    assert Shifts(0x81, 4) == 0x1DB7106C;
  }

  lemma MoreTableEntries()
    ensures Table(0x90) == 0xF00F9344 && Table(0xD9) == 0xFF0F6A70
  {
    assert Shifts(0x90, 4) == 0x00000009;
    assert Shifts(0xD9, 4) == 0xF00F9349;
  }

  lemma FirstByte()
    ensures Update(0xFFFFFFFF, 0x9D) == 0xA343FF8B
  {
    assert Word(0x9D) == 0x9D;
    TableEntries();
  }

  lemma SecondByte()
    ensures Update(0xA343FF8B, 0x0A) == 0x9A1CF049
  {
    assert Word(0x0A) == 0x0A;
    TableEntries();
  }

  lemma ThirdByte()
    ensures Update(0x9A1CF049, 0xD9) == 0xF0958FB4
  {
    assert Word(0xD9) == 0xD9;
    MoreTableEntries();
  }

  lemma FourthByte()
    ensures Update(0xF0958FB4, 0x6D) == 0xFFFFFFFF
  {
    assert Word(0x6D) == 0x6D;
    MoreTableEntries();
  }

  lemma FoldOfFour(c: bv32, w: seq<byte>)
    requires |w| == 4
    ensures Fold(c, w) == Update(Update(Update(Update(c, w[0]), w[1]), w[2]), w[3])
  {
    assert w[..3][..2] == w[..2] && w[..2][..1] == w[..1] && w[..1][..0] == [];
    assert Fold(c, w[..1]) == Update(Fold(c, []), w[0]);
    assert Fold(c, w[..2]) == Update(Fold(c, w[..1]), w[1]);
    assert Fold(c, w[..3]) == Update(Fold(c, w[..2]), w[2]);
  }

  lemma ImageHasZeroCrc()
    ensures Crc(IMAGE) == 0
  {
    FoldOfFour(Not(0), IMAGE);
    FirstByte();
    SecondByte();
    ThirdByte();
    FourthByte();
  }

  /** For every image whose CRC is zero there is a run, from any node and empty channels, that
      loses the whole image, commits nothing at all in its place and reports success. */
  lemma ZeroCrcIsUnchecked(image: seq<byte>, node: Ota)
    requires |image| < 0x1_0000_0000 && Crc(image) == 0
    ensures exists events :: Ends(OtaPackets(image), Origin(node, [], []), events, true, [[]])
  {
    TookNothing(image, []);
    TookLater(image, [], 0, ChunkCount(|image|), []);
    assert Possible(0, image, node, [], []);
    DrainedEnds(image, node, [], []);
  }

  /** So for an image that fits one chunk success means delivery if and only if its CRC is not
      zero, */
  lemma SmallImageDeliveredIff(image: seq<byte>, node: Ota)
    requires 0 < |image| <= CHUNK_SIZE && !node.active
    ensures var ps := OtaPackets(image);
      (forall events :: Trusted(Being(image), Run(ps, Start(ps, Origin(node, [], [])), events))) <==> Crc(image) != 0
  {
    DeliveredFromIdleIff(image, node);
    OneChunkMistakableIff(Crc(image), image);
  }

  /** and there are such images whose CRC is. */
  lemma SuccessWithoutDelivery()
    ensures exists image: seq<byte>, events ::
      |image| == 4 &&
      var s := Run(OtaPackets(image), Start(OtaPackets(image), Origin(IDLE, [], [])), events);
      s.host.phase == Finished(true) && image !in s.commits
  {
    ImageHasZeroCrc();
    ZeroCrcIsUnchecked(IMAGE, IDLE);
    var events :| Ends(OtaPackets(IMAGE), Origin(IDLE, [], []), events, true, [[]]);
    var s := Run(OtaPackets(IMAGE), Start(OtaPackets(IMAGE), Origin(IDLE, [], [])), events);
    assert s.host.phase == Finished(true) && IMAGE !in s.commits;
  }
}
