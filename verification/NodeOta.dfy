/** The node's firmware receiver: begin, write, verify by read-back, commit. */
module NodeOta {
  import opened Protocol
  import opened Crc32
  import opened Crc32Detection

  /** The receiver's session, the update partition and the boot selection. */
  datatype Ota = Ota(
    active: bool,
    expected: bv32,          // s_expected_crc
    received: nat,           // s_received_bytes
    total: u32,              // s_total_bytes
    image: seq<byte>,        // what has been written to the update partition
    boot: Option<seq<byte>>  // the image selected for the next boot, if one was committed
  )

  /** What the flash driver and the allocator answer during one command. */
  datatype Io = Io(
    partitionFound: bool, beginOk: bool, writeOk: bool,
    mallocOk: bool, endOk: bool, setBootOk: bool
  )

  const ALL_WELL := Io(true, true, true, true, true, true)

  /** The size of an OTA partition (node/partitions.csv). */
  const CAPACITY: nat := 0x11_0000

  datatype Outcome = Outcome(next: Ota, status: seq<byte>)

  function Begin(o: Ota, size: u32, crc: bv32, io: Io): Outcome {
    if !io.partitionFound || !io.beginOk then Outcome(o.(active := false), [])
    else Outcome(Ota(true, crc, 0, size, [], o.boot), [STATUS_IN_PROGRESS])
  }

  function Write(o: Ota, data: seq<byte>, io: Io): Outcome {
    if !o.active then Outcome(o, [])
    else if !io.writeOk || |o.image| + |data| > CAPACITY then Outcome(o.(active := false), [STATUS_ERROR])
    else Outcome(o.(image := o.image + data, received := o.received + |data|), [])
  }

  /** Whether the read-back check lets an image through. */
  predicate Accepts(expected: bv32, image: seq<byte>, mallocOk: bool) {
    expected == 0 || expected == (if mallocOk then Crc(image) else 0)
  }

  /** A successful end reboots the node: the session statics are gone, the boot choice stays. */
  function Restarted(o: Ota): Ota {
    Ota(false, 0, 0, 0, o.image, o.boot)
  }

  function End(o: Ota, io: Io): Outcome {
    if !o.active then Outcome(o, [])
    else if !Accepts(o.expected, o.image, io.mallocOk) || !io.endOk || !io.setBootOk
    then Outcome(o.(active := false), [STATUS_ERROR])
    else Outcome(Restarted(o.(boot := Some(o.image))), [STATUS_OK])
  }

  /** The OTA cases of the node's packet dispatch; other commands leave the receiver alone. */
  function Handle(o: Ota, p: Packet, io: Io): Outcome {
    if p.command == OTA_BEGIN then
      if |p.payload| < 8 then Outcome(o, [])
      else Begin(o, FromLittleEndian32(p.payload[..4]), FromCrcBytes(p.payload[4..8]), io)
    else if p.command == OTA_DATA then Write(o, p.payload, io)
    else if p.command == OTA_END then End(o, io)
    else Outcome(o, [])
  }

  class OtaHandler {
    var active: bool
    var expectedCrc: bv32
    var receivedBytes: u32
    var totalBytes: u32
    var image: seq<byte>
    var boot: Option<seq<byte>>
    var notified: seq<byte>  // the status callbacks so far, in order

    ghost predicate Valid()
      reads this
    {
      active ==> receivedBytes == |image| <= CAPACITY
    }

    ghost function State(): Ota
      reads this
    {
      Ota(active, expectedCrc, receivedBytes, totalBytes, image, boot)
    }

    constructor ()
      ensures Valid() && State() == Ota(false, 0, 0, 0, [], None) && notified == []
    {
      active, expectedCrc, receivedBytes, totalBytes := false, 0, 0, 0;
      image, boot, notified := [], None, [];
    }

    method BeginUpdate(size: u32, crc: bv32, io: Io)
      requires Valid()
      modifies this
      ensures Valid()
      ensures var r := Begin(old(State()), size, crc, io);
        State() == r.next && notified == old(notified) + r.status
    {
      if active {
        Abort();
      }
      if !io.partitionFound {
        return;
      }
      if !io.beginOk {
        return;
      }
      image := [];
      expectedCrc, totalBytes, receivedBytes, active := crc, size, 0, true;
      notified := notified + [STATUS_IN_PROGRESS];
    }

    method WriteChunk(data: seq<byte>, io: Io)
      requires Valid()
      modifies this
      ensures Valid()
      ensures var r := Write(old(State()), data, io);
        State() == r.next && notified == old(notified) + r.status
    {
      if !active {
        return;
      }
      if !io.writeOk || |image| + |data| > CAPACITY {
        Abort();
        notified := notified + [STATUS_ERROR];
        return;
      }
      image := image + data;
      receivedBytes := receivedBytes + |data|;
    }

    method Abort()
      requires Valid()
      modifies this`active
      ensures Valid() && !active
    {
      if !active {
        return;
      }
      active := false;
    }

    /** The read-back loop: 256 bytes at a time, and no pass at all without a buffer. */
    method ReadBack(mallocOk: bool) returns (crc: bv32)
      requires Valid() && active
      ensures crc == if mallocOk then Crc(image) else 0
    {
      crc := 0;
      if mallocOk {
        EmptyCrc();
        var offset := 0;
        while offset < receivedBytes
          invariant 0 <= offset <= receivedBytes
          invariant crc == Crc(image[..offset])
        {
          var chunk := if receivedBytes - offset < 256 then receivedBytes - offset else 256;
          var block := image[offset..offset + chunk];
          CrcOfPrefix(image, offset, chunk);
          crc := UpdateCrc(crc, block);
          offset := offset + chunk;
        }
        assert image[..offset] == image;
      }
    }

    method EndUpdate(io: Io)
      requires Valid()
      modifies this
      ensures Valid()
      ensures var r := End(old(State()), io);
        State() == r.next && notified == old(notified) + r.status
    {
      if !active {
        return;
      }
      if expectedCrc != 0 {
        var actual := ReadBack(io.mallocOk);
        if actual != expectedCrc {
          active := false;
          notified := notified + [STATUS_ERROR];
          return;
        }
      }
      if !io.endOk {
        active := false;
        notified := notified + [STATUS_ERROR];
        return;
      }
      if !io.setBootOk {
        active := false;
        notified := notified + [STATUS_ERROR];
        return;
      }
      boot := Some(image);
      active := false;
      notified := notified + [STATUS_OK];
      expectedCrc, receivedBytes, totalBytes := 0, 0, 0;
    }

    /** The OTA cases of `dispatch_packet`. */
    method Dispatch(p: Packet, io: Io)
      requires Valid()
      modifies this
      ensures Valid()
      ensures var r := Handle(old(State()), p, io);
        State() == r.next && notified == old(notified) + r.status
    {
      if p.command == OTA_BEGIN {
        if |p.payload| >= 8 {
          BeginUpdate(FromLittleEndian32(p.payload[..4]), FromCrcBytes(p.payload[4..8]), io);
        }
      } else if p.command == OTA_DATA {
        WriteChunk(p.payload, io);
      } else if p.command == OTA_END {
        EndUpdate(io);
      }
    }
  }

  lemma CrcOfPrefix(data: seq<byte>, k: nat, n: nat)
    requires k + n <= |data|
    ensures UpdateCrc(Crc(data[..k]), data[k..k + n]) == Crc(data[..k + n])
  {
    assert data[..k + n] == data[..k] + data[k..k + n];
    CrcChains(data[..k], data[k..k + n]);
  }

  lemma EmptyCrc()
    ensures Crc([]) == 0
  {
    NotNot(0);
  }

  /** What a commit vouches for. */
  predicate Passes(expected: bv32, image: seq<byte>) {
    expected == 0 || Crc(image) == expected
  }

  /** Whether the end of a session commits: for a nonzero expected CRC exactly when the stored
      image has that CRC, a read-back buffer was there and the flash calls succeeded; for a
      zero one whatever the image holds. The announced size plays no part. */
  predicate EndsWell(o: Ota, io: Io) {
    (o.expected == 0 || (io.mallocOk && Crc(o.image) == o.expected)) && io.endOk && io.setBootOk
  }

  /** The end of an open session is always answered, at once, and closes it: with OK if it
      commits, and in every other case with ERROR and the boot choice as it was. */
  lemma CommitsIff(o: Ota, io: Io)
    requires o.active
    ensures var r := Handle(o, Packet(OTA_END, []), io);
      r == End(o, io) && r.status == [if EndsWell(o, io) then STATUS_OK else STATUS_ERROR] &&
      r.next.boot == (if EndsWell(o, io) then Some(o.image) else o.boot) && !r.next.active
  {
  }

  /** A beginning is answered if and only if the partition and the flash are there for it; then
      the session is the announced one, and otherwise there is none. */
  lemma BeginsIff(o: Ota, size: u32, crc: bv32, io: Io)
    ensures var r := Begin(o, size, crc, io);
      if io.partitionFound && io.beginOk
      then r.status == [STATUS_IN_PROGRESS] && r.next == Ota(true, crc, 0, size, [], o.boot)
      else r.status == [] && !r.next.active && r.next.boot == o.boot
  {
  }

  /** Data for an open session is stored behind what there is, without an answer, if the flash
      takes it and it fits; otherwise the session ends with exactly one ERROR. */
  lemma WritesIff(o: Ota, data: seq<byte>, io: Io)
    requires o.active
    ensures var r := Handle(o, Packet(OTA_DATA, data), io);
      if io.writeOk && |o.image| + |data| <= 0x11_0000
      then r.status == [] && r.next == o.(image := o.image + data, received := o.received + |data|)
      else r.status == [STATUS_ERROR] && r.next == o.(active := false)
  {
  }

  /** Without an open session data and an end go unanswered and change nothing; so does, at any
      time, an announcement that is too short, and any other command. */
  lemma ElseSilent(o: Ota, p: Packet, io: Io)
    requires match p.command
             case 0x80 => |p.payload| < 8
             case 0x81 => !o.active
             case 0x82 => !o.active
             case _ => true
    ensures Handle(o, p, io) == Outcome(o, [])
  {
  }

  /** What each kind of transfer packet can do to the receiver, whatever the flash answers. */
  lemma HandleFacts(o: Ota, p: Packet, io: Io)
    ensures var r := Handle(o, p, io);
      (p.command == OTA_BEGIN && |p.payload| == 8 ==>
        r.next.boot == o.boot && (r.status == [] || r.status == [STATUS_IN_PROGRESS]) &&
        (r.next.active ==> r.next.expected == FromCrcBytes(p.payload[4..8]) && r.next.image == [])) &&
      (p.command == OTA_DATA ==>
        r.next.boot == o.boot && (r.status == [] || r.status == [STATUS_ERROR]) &&
        (r.next.active ==>
          o.active && r.next.expected == o.expected &&
          r.next.image == o.image + p.payload && |r.next.image| <= CAPACITY)) &&
      (p.command == OTA_END ==>
        !r.next.active && (r.status == [] || r.status == [STATUS_ERROR] || r.status == [STATUS_OK]) &&
        r.next.boot == (if r.status == [STATUS_OK] then Some(o.image) else o.boot) &&
        (r.status == [STATUS_OK] ==> o.active && Passes(o.expected, o.image)))
  {
    if o.active {
      CommitsIff(o, io);
    }
  }

  /** An OK is only ever the answer to the end mark. */
  lemma OkComesFromEnd(o: Ota, p: Packet, io: Io)
    ensures var r := Handle(o, p, io); STATUS_OK in r.status ==> p.command == OTA_END && r.status == [STATUS_OK]
  {
  }

  /** A stored image that differs from the sent one inside four consecutive bytes is never
      committed, unless the sent image's CRC happens to be zero. */
  lemma BurstNeverCommitted(o: Ota, io: Io, prefix: seq<byte>, sent: seq<byte>, stored: seq<byte>, suffix: seq<byte>)
    requires |sent| == |stored| <= 4 && sent != stored
    requires o.active && o.image == prefix + stored + suffix
    requires o.expected == Crc(prefix + sent + suffix) && o.expected != 0
    ensures End(o, io).status == [STATUS_ERROR] && End(o, io).next.boot == o.boot
  {
    BurstDetected(prefix, sent, stored, suffix);
  }
}
