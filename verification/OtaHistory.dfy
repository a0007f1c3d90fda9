/** What the node alone makes of a stream of commands of which some get lost: the histories to
    which every distributed upload comes down. */
module OtaHistory {
  import opened Protocol
  import opened Crc32
  import opened OtaSenders
  import opened NodeOta

  /** A node that follows no session. */
  const IDLE := Ota(false, 0, 0, 0, [], None)

  predicate Has(s: seq<byte>, status: byte) {
    exists i :: 0 <= i < |s| && s[i] == status
  }

  /** An IN_PROGRESS with an OK behind it: what makes the host report success. */
  predicate FakeSession(s: seq<byte>) {
    exists i, j :: 0 <= i < j < |s| && s[i] == STATUS_IN_PROGRESS && s[j] == STATUS_OK
  }

  /** What becomes of a command: it gets lost, or the node takes it, perhaps after a restart. */
  datatype Fate = Lost | Taken(io: Io, restarted: bool)

  /** The node, the statuses it sent and the images it selected for boot. */
  datatype History = History(node: Ota, statuses: seq<byte>, commits: seq<seq<byte>>)

  function Awake(o: Ota, restarted: bool): Ota {
    if restarted then Restarted(o) else o
  }

  function Committed(o: Ota, p: Packet, io: Io): seq<seq<byte>> {
    if p.command == OTA_END && Handle(o, p, io).status == [STATUS_OK] then [o.image] else []
  }

  function Take(h: History, p: Packet, f: Fate): History {
    match f
    case Lost => h
    case Taken(io, restarted) =>
      var now := Awake(h.node, restarted);
      var r := Handle(now, p, io);
      History(r.next, h.statuses + r.status, h.commits + Committed(now, p, io))
  }

  /** The history of a node fed the first packets of a stream. */
  function Fed(o: Ota, packets: seq<Packet>, fates: seq<Fate>): History
    requires |fates| <= |packets|
  {
    if fates == [] then History(o, [], [])
    else
      var n := |fates| - 1;
      Take(Fed(o, packets, fates[..n]), packets[n], fates[n])
  }

  lemma FedSnoc(o: Ota, packets: seq<Packet>, fates: seq<Fate>, f: Fate)
    requires |fates| < |packets|
    ensures Fed(o, packets, fates + [f]) == Take(Fed(o, packets, fates), packets[|fates|], f)
  {
    assert (fates + [f])[..|fates|] == fates;
  }

  /** One history after another. */
  function Joined(a: History, b: History): History {
    History(b.node, a.statuses + b.statuses, a.commits + b.commits)
  }

  lemma TakeJoins(a: History, b: History, p: Packet, f: Fate)
    ensures Take(Joined(a, b), p, f) == Joined(a, Take(b, p, f))
  {
    if f.Taken? {
      var now := Awake(b.node, f.restarted);
      var status := Handle(now, p, f.io).status;
      assert a.statuses + b.statuses + status == a.statuses + (b.statuses + status);
      assert a.commits + b.commits + Committed(now, p, f.io) == a.commits + (b.commits + Committed(now, p, f.io));
    }
  }

  lemma {:induction false} FedSplit(o: Ota, packets: seq<Packet>, fates: seq<Fate>, k: nat)
    requires k <= |fates| <= |packets|
    ensures var h := Fed(o, packets, fates[..k]);
      Fed(o, packets, fates) == Joined(h, Fed(h.node, packets[k..], fates[k..]))
  {
    var n := |fates|;
    var h := Fed(o, packets, fates[..k]);
    if k == n {
      assert fates[..k] == fates && fates[k..] == [];
      assert h.statuses + [] == h.statuses && h.commits + [] == h.commits;
    } else {
      var front := fates[..n - 1];
      FedSplit(o, packets, front, k);
      assert front[..k] == fates[..k] && fates[k..][..n - 1 - k] == front[k..];
      assert fates[k..][n - 1 - k] == fates[n - 1] && packets[k..][n - 1 - k] == packets[n - 1];
      TakeJoins(h, Fed(h.node, packets[k..], front[k..]), packets[n - 1], fates[n - 1]);
    }
  }

  /** Only the packets that are fed matter. */
  lemma {:induction false} FedSame(o: Ota, p: seq<Packet>, q: seq<Packet>, fates: seq<Fate>)
    requires |fates| <= |p| && |fates| <= |q| && p[..|fates|] == q[..|fates|]
    ensures Fed(o, p, fates) == Fed(o, q, fates)
  {
    if fates != [] {
      var n := |fates| - 1;
      assert p[..n] == p[..n + 1][..n] && q[..n] == q[..n + 1][..n];
      assert p[n] == p[..n + 1][n] && q[n] == q[..n + 1][n];
      FedSame(o, p, q, fates[..n]);
    }
  }

  function Losses(n: nat): (fates: seq<Fate>)
    ensures |fates| == n && forall f :: f in fates ==> f == Lost
  {
    seq(n, _ => Lost)
  }

  lemma {:induction false} LossesFeedNothing(o: Ota, packets: seq<Packet>, fates: seq<Fate>, n: nat)
    requires |fates| + n <= |packets|
    ensures Fed(o, packets, fates + Losses(n)) == Fed(o, packets, fates)
  {
    var more := fates + Losses(n);
    if n == 0 {
      assert more == fates;
    } else {
      LossesFeedNothing(o, packets, fates, n - 1);
      assert more[..|more| - 1] == fates + Losses(n - 1) && more[|more| - 1] == Lost;
    }
  }

  /** The boot choice is the last image committed. */
  function BootAfter(o: Ota, commits: seq<seq<byte>>): Option<seq<byte>> {
    if commits == [] then o.boot else Some(commits[|commits| - 1])
  }

  lemma TakeBoots(o: Ota, p: Packet, io: Io)
    ensures Handle(o, p, io).next.boot == BootAfter(o, Committed(o, p, io))
    ensures STATUS_OK in Handle(o, p, io).status <==> Committed(o, p, io) != []
  {
    OkComesFromEnd(o, p, io);
  }

  lemma {:induction false} FedBoots(o: Ota, packets: seq<Packet>, fates: seq<Fate>)
    requires |fates| <= |packets|
    ensures var h := Fed(o, packets, fates);
      h.node.boot == BootAfter(o, h.commits) && (Has(h.statuses, STATUS_OK) <==> h.commits != [])
  {
    if fates != [] {
      var n := |fates| - 1;
      FedBoots(o, packets, fates[..n]);
      var h := Fed(o, packets, fates[..n]);
      if fates[n].Taken? {
        TakeBoots(Awake(h.node, fates[n].restarted), packets[n], fates[n].io);
        HasInSum(h.statuses, Handle(Awake(h.node, fates[n].restarted), packets[n], fates[n].io).status, STATUS_OK);
      }
    }
  }

  lemma HasInSum(a: seq<byte>, b: seq<byte>, status: byte)
    ensures Has(a + b, status) <==> Has(a, status) || Has(b, status)
  {
    var s := a + b;
    forall i | 0 <= i < |a| ensures s[i] == a[i] {
    }
    forall i | 0 <= i < |b| ensures s[|a| + i] == b[i] {
    }
    if Has(s, status) {
      var i :| 0 <= i < |s| && s[i] == status;
      assert if i < |a| then a[i] == status else b[i - |a|] == status;
    }
    if Has(b, status) {
      var i :| 0 <= i < |b| && b[i] == status;
      assert s[|a| + i] == status;
    }
  }

  lemma FakeInSum(a: seq<byte>, b: seq<byte>)
    ensures FakeSession(a + b) <==>
      FakeSession(a) || FakeSession(b) || (Has(a, STATUS_IN_PROGRESS) && Has(b, STATUS_OK))
  {
    var s := a + b;
    forall i | 0 <= i < |b| ensures s[|a| + i] == b[i] {
    }
    if FakeSession(s) {
      var i, j :| 0 <= i < j < |s| && s[i] == STATUS_IN_PROGRESS && s[j] == STATUS_OK;
      if j < |a| {
        assert a[i] == STATUS_IN_PROGRESS && a[j] == STATUS_OK;
      } else if i < |a| {
        assert a[i] == STATUS_IN_PROGRESS && b[j - |a|] == STATUS_OK;
      } else {
        assert b[i - |a|] == STATUS_IN_PROGRESS && b[j - |a|] == STATUS_OK;
      }
    }
    if FakeSession(a) {
      var i, j :| 0 <= i < j < |a| && a[i] == STATUS_IN_PROGRESS && a[j] == STATUS_OK;
      assert s[i] == STATUS_IN_PROGRESS && s[j] == STATUS_OK;
    }
    if FakeSession(b) {
      var i, j :| 0 <= i < j < |b| && b[i] == STATUS_IN_PROGRESS && b[j] == STATUS_OK;
      assert s[|a| + i] == STATUS_IN_PROGRESS && s[|a| + j] == STATUS_OK;
    }
    if Has(a, STATUS_IN_PROGRESS) && Has(b, STATUS_OK) {
      var i :| 0 <= i < |a| && a[i] == STATUS_IN_PROGRESS;
      var j :| 0 <= j < |b| && b[j] == STATUS_OK;
      assert s[i] == STATUS_IN_PROGRESS && s[|a| + j] == STATUS_OK;
    }
  }

  // ---- the transfer of one image --------------------------------------------------------

  /** The shape of the transfer of an image announced with a CRC. */
  predicate IsUpload(ps: seq<Packet>, crc: bv32, image: seq<byte>) {
    |ps| == ChunkCount(|image|) + 2 &&
    ps[0].command == OTA_BEGIN && |ps[0].payload| == 8 && FromCrcBytes(ps[0].payload[4..8]) == crc &&
    (forall k :: 0 <= k < ChunkCount(|image|) ==> ps[k + 1] == DataPacket(Chunk(image, k))) &&
    ps[|ps| - 1] == END_PACKET
  }

  lemma OtaPacketsIsUpload(image: seq<byte>)
    requires |image| < 0x1_0000_0000
    ensures IsUpload(OtaPackets(image), Crc(image), image)
  {
    assert BeginPayload(image)[4..8] == CrcBytes(Crc(image));
    CrcBytesRoundTrip(Crc(image));
  }

  /** The chunks of an image that are marked, put together. */
  function Picked(image: seq<byte>, keep: seq<bool>): seq<byte> {
    if keep == [] then []
    else Picked(image, keep[..|keep| - 1]) + if keep[|keep| - 1] then Chunk(image, |keep| - 1) else []
  }

  /** c is base and, behind it, some of the first n chunks of the image. */
  ghost predicate Took(image: seq<byte>, base: seq<byte>, n: nat, c: seq<byte>) {
    exists keep: seq<bool> :: |keep| == n && c == base + Picked(image, keep)
  }

  lemma TookNothing(image: seq<byte>, base: seq<byte>)
    ensures Took(image, base, 0, base)
  {
    var keep: seq<bool> := [];
    assert |keep| == 0 && base == base + Picked(image, keep);
  }

  lemma PickedSnoc(image: seq<byte>, keep: seq<bool>, kept: bool)
    ensures Picked(image, keep + [kept]) == Picked(image, keep) + if kept then Chunk(image, |keep|) else []
  {
    assert (keep + [kept])[..|keep|] == keep;
  }

  lemma TookNext(image: seq<byte>, base: seq<byte>, n: nat, c: seq<byte>)
    requires Took(image, base, n, c)
    ensures Took(image, base, n + 1, c) && Took(image, base, n + 1, c + Chunk(image, n))
  {
    var keep: seq<bool> :| |keep| == n && c == base + Picked(image, keep);
    PickedSnoc(image, keep, false);
    PickedSnoc(image, keep, true);
    assert |keep + [false]| == n + 1 && c == base + Picked(image, keep + [false]);
    assert |keep + [true]| == n + 1 && c + Chunk(image, n) == base + Picked(image, keep + [true]);
  }

  lemma {:induction false} TookLater(image: seq<byte>, base: seq<byte>, n: nat, m: nat, c: seq<byte>)
    requires Took(image, base, n, c) && n <= m
    ensures Took(image, base, m, c)
    decreases m
  {
    if n < m {
      TookLater(image, base, n, m - 1, c);
      TookNext(image, base, m - 1, c);
    }
  }

  lemma ImageGrows(image: seq<byte>, i: nat)
    ensures 0 < i <= ChunkCount(|image|) ==>
      image[..Reach(|image|, i)] == image[..Reach(|image|, i - 1)] + Chunk(image, i - 1)
    ensures image[..Reach(|image|, ChunkCount(|image|))] == image
    ensures image[..Reach(|image|, 0)] == []
  {
    CountAndReach(|image|, ChunkCount(|image|));
    if 0 < i {
      assert Chunk(image, i - 1) == image[Reach(|image|, i - 1)..Reach(|image|, i)];
    }
  }

  /** The node's image is base and some of the first n chunks. */
  ghost predicate Collected(base: seq<byte>, expected: bv32, image: seq<byte>, n: nat, o: Ota) {
    o.expected == expected && Took(image, base, n, o.image) && (o.image == base || |o.image| <= CAPACITY)
  }

  /** What a session that collects chunks behind base can commit. */
  ghost predicate Committable(base: seq<byte>, expected: bv32, image: seq<byte>, c: seq<byte>) {
    Took(image, base, ChunkCount(|image|), c) && Passes(expected, c) && (c == base || |c| <= CAPACITY)
  }

  /** After its OTA_BEGIN and n chunks the node follows this transfer, or the session it
      followed before if it did not take the announcement. */
  ghost predicate Follows(crc: bv32, image: seq<byte>, o: Ota, n: nat, h: History) {
    if Has(h.statuses, STATUS_IN_PROGRESS) then Collected([], crc, image, n, h.node)
    else o.active && Collected(o.image, o.expected, image, n, h.node)
  }

  ghost predicate CommitsOwn(crc: bv32, image: seq<byte>, o: Ota, statuses: seq<byte>, c: seq<byte>) {
    if Has(statuses, STATUS_IN_PROGRESS) then Committable([], crc, image, c)
    else o.active && Committable(o.image, o.expected, image, c)
  }

  /** What a node can have made of the first n packets of a transfer. */
  ghost predicate Own(crc: bv32, image: seq<byte>, o: Ota, n: nat, h: History) {
    if n == 0 then h == History(o, [], [])
    else if n <= ChunkCount(|image|) + 1 then
      h.commits == [] && !Has(h.statuses, STATUS_OK) && (h.node.active ==> Follows(crc, image, o, n - 1, h))
    else
      (h.commits == [] && !Has(h.statuses, STATUS_OK)) ||
      (|h.commits| == 1 && CommitsOwn(crc, image, o, h.statuses, h.commits[0]))
  }

  lemma OwnBegin(crc: bv32, image: seq<byte>, o: Ota, p: Packet, f: Fate)
    requires p.command == OTA_BEGIN && |p.payload| == 8 && FromCrcBytes(p.payload[4..8]) == crc
    ensures Own(crc, image, o, 1, Take(History(o, [], []), p, f))
  {
    TookNothing(image, []);
    TookNothing(image, o.image);
    if f.Taken? {
      var now := Awake(o, f.restarted);
      BeginFacts(now, p, f.io);
      assert [] + Handle(now, p, f.io).status == Handle(now, p, f.io).status;
    }
  }

  lemma BeginFacts(o: Ota, p: Packet, io: Io)
    requires p.command == OTA_BEGIN && |p.payload| == 8
    ensures var r := Handle(o, p, io);
      Committed(o, p, io) == [] && !Has(r.status, STATUS_OK) &&
      (r.next.active <==> Has(r.status, STATUS_IN_PROGRESS)) &&
      (r.next.active ==> r.next.expected == FromCrcBytes(p.payload[4..8]) && r.next.image == [])
  {
    HandleFacts(o, p, io);
    var r := Handle(o, p, io);
    assert r.status == [STATUS_IN_PROGRESS] ==> r.status[0] == STATUS_IN_PROGRESS;
  }

  lemma CollectedNext(base: seq<byte>, expected: bv32, image: seq<byte>, n: nat, o: Ota, next: Ota)
    requires Collected(base, expected, image, n, o)
    requires next == o ||
      (next.expected == o.expected && next.image == o.image + Chunk(image, n) && |next.image| <= CAPACITY)
    ensures Collected(base, expected, image, n + 1, next)
  {
    TookNext(image, base, n, o.image);
  }

  lemma DataFacts(o: Ota, chunk: seq<byte>, io: Io)
    ensures var r := Handle(o, DataPacket(chunk), io);
      Committed(o, DataPacket(chunk), io) == [] && !Has(r.status, STATUS_OK) && !Has(r.status, STATUS_IN_PROGRESS) &&
      (r.next.active ==>
        o.active && r.next.expected == o.expected && r.next.image == o.image + chunk && |r.next.image| <= CAPACITY)
  {
    HandleFacts(o, DataPacket(chunk), io);
  }

  lemma OwnData(crc: bv32, image: seq<byte>, o: Ota, n: nat, h: History, p: Packet, f: Fate)
    requires n < ChunkCount(|image|) && Own(crc, image, o, n + 1, h) && p == DataPacket(Chunk(image, n))
    ensures Own(crc, image, o, n + 2, Take(h, p, f))
  {
    var next := Take(h, p, f);
    if f.Taken? {
      var now := Awake(h.node, f.restarted);
      DataFacts(now, Chunk(image, n), f.io);
      var status := Handle(now, p, f.io).status;
      HasInSum(h.statuses, status, STATUS_OK);
      HasInSum(h.statuses, status, STATUS_IN_PROGRESS);
    }
    if next.node.active {
      if Has(h.statuses, STATUS_IN_PROGRESS) {
        CollectedNext([], crc, image, n, h.node, next.node);
      } else {
        CollectedNext(o.image, o.expected, image, n, h.node, next.node);
      }
    }
  }

  lemma EndFacts(o: Ota, io: Io)
    ensures var r := Handle(o, END_PACKET, io);
      !Has(r.status, STATUS_IN_PROGRESS) &&
      if Committed(o, END_PACKET, io) == [] then !Has(r.status, STATUS_OK)
      else Committed(o, END_PACKET, io) == [o.image] && o.active && Passes(o.expected, o.image)
  {
    HandleFacts(o, END_PACKET, io);
  }

  lemma OwnEnd(crc: bv32, image: seq<byte>, o: Ota, h: History, p: Packet, f: Fate)
    requires Own(crc, image, o, ChunkCount(|image|) + 1, h) && p == END_PACKET
    ensures Own(crc, image, o, ChunkCount(|image|) + 2, Take(h, p, f))
  {
    if f.Taken? {
      var now := Awake(h.node, f.restarted);
      EndFacts(now, f.io);
      var status := Handle(now, p, f.io).status;
      HasInSum(h.statuses, status, STATUS_OK);
      HasInSum(h.statuses, status, STATUS_IN_PROGRESS);
    }
  }

  lemma OwnNext(ps: seq<Packet>, crc: bv32, image: seq<byte>, o: Ota, n: nat, h: History, f: Fate)
    requires IsUpload(ps, crc, image) && n < |ps| && Own(crc, image, o, n, h)
    ensures Own(crc, image, o, n + 1, Take(h, ps[n], f))
  {
    if n == 0 {
      OwnBegin(crc, image, o, ps[0], f);
    } else if n < |ps| - 1 {
      assert ps[n - 1 + 1] == DataPacket(Chunk(image, n - 1));
      OwnData(crc, image, o, n - 1, h, ps[n], f);
    } else {
      OwnEnd(crc, image, o, h, ps[n], f);
    }
  }

  lemma {:induction false} OwnHistory(ps: seq<Packet>, crc: bv32, image: seq<byte>, o: Ota, fates: seq<Fate>)
    requires IsUpload(ps, crc, image) && |fates| <= |ps|
    ensures Own(crc, image, o, |fates|, Fed(o, ps, fates))
  {
    if fates != [] {
      var n := |fates| - 1;
      OwnHistory(ps, crc, image, o, fates[..n]);
      OwnNext(ps, crc, image, o, n, Fed(o, ps, fates[..n]), fates[n]);
    }
  }

  /** Behind its announcement a transfer brings no further IN_PROGRESS. */
  lemma {:induction false} NoMoreProgress(ps: seq<Packet>, crc: bv32, image: seq<byte>, o: Ota, fates: seq<Fate>)
    requires IsUpload(ps, crc, image) && |fates| < |ps|
    ensures !Has(Fed(o, ps[1..], fates).statuses, STATUS_IN_PROGRESS)
  {
    if fates != [] {
      var n := |fates| - 1;
      NoMoreProgress(ps, crc, image, o, fates[..n]);
      var h := Fed(o, ps[1..], fates[..n]);
      if fates[n].Taken? {
        var now := Awake(h.node, fates[n].restarted);
        if n < |ps| - 2 {
          assert ps[1..][n] == DataPacket(Chunk(image, n));
          DataFacts(now, Chunk(image, n), fates[n].io);
        } else {
          EndFacts(now, fates[n].io);
        }
        HasInSum(h.statuses, Handle(now, ps[1..][n], fates[n].io).status, STATUS_IN_PROGRESS);
      }
    }
  }

  // ---- every possible commit happens ----------------------------------------------------

  lemma {:induction false} PickedGrows(image: seq<byte>, keep: seq<bool>, k: nat)
    requires k <= |keep|
    ensures |Picked(image, keep[..k])| <= |Picked(image, keep)|
  {
    if k < |keep| {
      PickedGrows(image, keep[..|keep| - 1], k);
      assert keep[..|keep| - 1][..k] == keep[..k];
    } else {
      assert keep[..k] == keep;
    }
  }

  lemma PickedNext(image: seq<byte>, base: seq<byte>, keep: seq<bool>, k: nat)
    requires k < |keep|
    ensures base + Picked(image, keep[..k + 1])
      == base + Picked(image, keep[..k]) + if keep[k] then Chunk(image, k) else []
  {
    assert keep[..k + 1][..k] == keep[..k];
  }

  /** A chunk that is to be kept fits. */
  lemma KeptChunkFits(image: seq<byte>, base: seq<byte>, keep: seq<bool>, k: nat)
    requires k < |keep| == ChunkCount(|image|) && keep[k]
    requires var c := base + Picked(image, keep); c == base || |c| <= CAPACITY
    ensures |base + Picked(image, keep[..k])| + |Chunk(image, k)| <= CAPACITY
  {
    PickedGrows(image, keep, k + 1);
    PickedNext(image, base, keep, k);
    CountAndReach(|image|, k);
  }

  const WELL := Taken(ALL_WELL, false)

  /** The announcement's fate, and then the chunks': the marked ones are taken. */
  function Marked(first: Fate, keep: seq<bool>): (fates: seq<Fate>)
    ensures |fates| == |keep| + 1
  {
    if keep == [] then [first]
    else Marked(first, keep[..|keep| - 1]) + [if keep[|keep| - 1] then WELL else Lost]
  }

  /** A history of a node that follows a session with this image so far. */
  predicate At(h: History, expected: bv32, image: seq<byte>, statuses: seq<byte>) {
    h.node.active && h.node.expected == expected && h.node.image == image && h.statuses == statuses && h.commits == []
  }

  lemma ChunkFed(h: History, chunk: seq<byte>, kept: bool, x: bv32, c: seq<byte>, statuses: seq<byte>)
    requires At(h, x, c, statuses) && (kept ==> |c| + |chunk| <= CAPACITY)
    ensures At(Take(h, DataPacket(chunk), if kept then WELL else Lost), x, c + if kept then chunk else [], statuses)
  {
    assert c + [] == c && statuses + [] == statuses;
  }

  lemma ChunkMarked(h: History, p: Packet, image: seq<byte>, base: seq<byte>, keep: seq<bool>, k: nat, x: bv32,
                    statuses: seq<byte>)
    requires k < |keep| == ChunkCount(|image|) && p == DataPacket(Chunk(image, k))
    requires var c := base + Picked(image, keep); c == base || |c| <= CAPACITY
    requires At(h, x, base + Picked(image, keep[..k]), statuses)
    ensures At(Take(h, p, if keep[k] then WELL else Lost), x, base + Picked(image, keep[..k + 1]), statuses)
  {
    PickedNext(image, base, keep, k);
    if keep[k] {
      KeptChunkFits(image, base, keep, k);
    }
    ChunkFed(h, Chunk(image, k), keep[k], x, base + Picked(image, keep[..k]), statuses);
  }

  lemma FedMarks(o: Ota, ps: seq<Packet>, first: Fate, keep: seq<bool>, k: nat)
    requires k < |keep| && k + 1 < |ps|
    ensures Fed(o, ps, Marked(first, keep[..k + 1]))
      == Take(Fed(o, ps, Marked(first, keep[..k])), ps[k + 1], if keep[k] then WELL else Lost)
  {
    assert keep[..k + 1][..k] == keep[..k];
    var fates := Marked(first, keep[..k + 1]);
    assert fates[..k + 1] == Marked(first, keep[..k]);
  }

  lemma {:induction false} MarkedFed(ps: seq<Packet>, crc: bv32, image: seq<byte>, o: Ota, first: Fate, base: seq<byte>,
                                     keep: seq<bool>, k: nat, x: bv32, statuses: seq<byte>)
    requires IsUpload(ps, crc, image) && k <= |keep| == ChunkCount(|image|)
    requires var c := base + Picked(image, keep); c == base || |c| <= CAPACITY
    requires At(Take(History(o, [], []), ps[0], first), x, base, statuses)
    ensures At(Fed(o, ps, Marked(first, keep[..k])), x, base + Picked(image, keep[..k]), statuses)
  {
    if k == 0 {
      assert Marked(first, keep[..k])[..0] == [] && base + Picked(image, keep[..0]) == base;
    } else {
      MarkedFed(ps, crc, image, o, first, base, keep, k - 1, x, statuses);
      FedMarks(o, ps, first, keep, k - 1);
      ChunkMarked(Fed(o, ps, Marked(first, keep[..k - 1])), ps[k], image, base, keep, k - 1, x, statuses);
    }
  }

  lemma EndCommits(o: Ota)
    requires o.active && Passes(o.expected, o.image)
    ensures Handle(o, END_PACKET, ALL_WELL).status == [STATUS_OK]
  {
    CommitsIff(o, ALL_WELL);
  }

  lemma EndFed(h: History, x: bv32, c: seq<byte>, statuses: seq<byte>)
    requires At(h, x, c, statuses) && Passes(x, c)
    ensures var t := Take(h, END_PACKET, WELL); t.commits == [c] && t.statuses == statuses + [STATUS_OK]
  {
    EndCommits(h.node);
  }

  lemma CommittableFed(ps: seq<Packet>, crc: bv32, image: seq<byte>, o: Ota, first: Fate, base: seq<byte>, x: bv32,
                       c: seq<byte>, statuses: seq<byte>) returns (fates: seq<Fate>)
    requires IsUpload(ps, crc, image) && Committable(base, x, image, c)
    requires At(Take(History(o, [], []), ps[0], first), x, base, statuses)
    ensures |fates| == |ps|
    ensures var h := Fed(o, ps, fates); h.commits == [c] && h.statuses == statuses + [STATUS_OK]
  {
    var n := ChunkCount(|image|);
    var keep: seq<bool> :| |keep| == n && c == base + Picked(image, keep);
    MarkedFed(ps, crc, image, o, first, base, keep, n, x, statuses);
    assert keep[..n] == keep;
    var loaded := Marked(first, keep);
    fates := loaded + [WELL];
    assert fates[..n + 1] == loaded;
    EndFed(Fed(o, ps, loaded), x, c, statuses);
  }

  lemma BeginFed(o: Ota, p: Packet)
    requires p.command == OTA_BEGIN && |p.payload| == 8
    ensures At(Take(History(o, [], []), p, WELL), FromCrcBytes(p.payload[4..8]), [], [STATUS_IN_PROGRESS])
  {
  }

  // ---- what a transfer adds -------------------------------------------------------------

  /** What an upload of the image can commit on a node with statuses left in the channel: some
      of its chunks that pass its own check or, where an older session can be taken for it,
      some of its chunks behind that session's image that pass that session's check. */
  ghost predicate Possible(crc: bv32, image: seq<byte>, o: Ota, left: seq<byte>, c: seq<byte>) {
    Committable([], crc, image, c) ||
    (o.active && Has(left, STATUS_IN_PROGRESS) && Committable(o.image, o.expected, image, c))
  }

  lemma OwnOutcome(ps: seq<Packet>, crc: bv32, image: seq<byte>, o: Ota, left: seq<byte>, fates: seq<Fate>)
    requires IsUpload(ps, crc, image) && |fates| <= |ps|
    ensures var h := Fed(o, ps, fates);
      |h.commits| <= 1 && (h.commits != [] ==> |fates| == |ps|) &&
      (h.commits == [] && FakeSession(left + h.statuses) ==> FakeSession(left)) &&
      (h.commits != [] && Has(left + h.statuses, STATUS_IN_PROGRESS) ==> Possible(crc, image, o, left, h.commits[0]))
  {
    var h := Fed(o, ps, fates);
    OwnHistory(ps, crc, image, o, fates);
    FakeInSum(left, h.statuses);
    HasInSum(left, h.statuses, STATUS_IN_PROGRESS);
  }

  lemma PossibleFed(ps: seq<Packet>, crc: bv32, image: seq<byte>, o: Ota, left: seq<byte>, c: seq<byte>)
      returns (fates: seq<Fate>)
    requires IsUpload(ps, crc, image) && Possible(crc, image, o, left, c)
    ensures |fates| == |ps|
    ensures var h := Fed(o, ps, fates); h.commits == [c] && FakeSession(left + h.statuses)
  {
    if Committable([], crc, image, c) {
      BeginFed(o, ps[0]);
      fates := CommittableFed(ps, crc, image, o, WELL, [], crc, c, [STATUS_IN_PROGRESS]);
      var statuses := [STATUS_IN_PROGRESS] + [STATUS_OK];
      assert statuses[0] == STATUS_IN_PROGRESS && statuses[1] == STATUS_OK;
      FakeInSum(left, statuses);
    } else {
      fates := CommittableFed(ps, crc, image, o, Lost, o.image, o.expected, c, []);
      var statuses := [] + [STATUS_OK];
      assert statuses[0] == STATUS_OK;
      FakeInSum(left, statuses);
    }
  }

  /** If nothing of a transfer gets lost, the node's image is the part of the firmware that has
      arrived, and only the whole of it can be committed. */
  predicate Whole(image: seq<byte>, n: nat, h: History) {
    if n == 0 then h.commits == []
    else if n <= ChunkCount(|image|) + 1 then
      h.commits == [] && (h.node.active ==> h.node.image == image[..Reach(|image|, n - 1)])
    else forall c :: c in h.commits ==> c == image
  }

  lemma WholeNext(ps: seq<Packet>, crc: bv32, image: seq<byte>, n: nat, h: History, f: Fate)
    requires IsUpload(ps, crc, image) && n < |ps| && Whole(image, n, h) && f.Taken?
    ensures Whole(image, n + 1, Take(h, ps[n], f))
  {
    var now := Awake(h.node, f.restarted);
    ImageGrows(image, n);
    if n == 0 {
      BeginFacts(now, ps[0], f.io);
    } else if n < |ps| - 1 {
      assert ps[n - 1 + 1] == DataPacket(Chunk(image, n - 1));
      DataFacts(now, Chunk(image, n - 1), f.io);
    } else {
      EndFacts(now, f.io);
    }
  }

  lemma {:induction false} WholeHistory(ps: seq<Packet>, crc: bv32, image: seq<byte>, o: Ota, fates: seq<Fate>)
    requires IsUpload(ps, crc, image) && |fates| <= |ps| && forall f :: f in fates ==> f.Taken?
    ensures Whole(image, |fates|, Fed(o, ps, fates))
  {
    if fates != [] {
      var n := |fates| - 1;
      WholeHistory(ps, crc, image, o, fates[..n]);
      WholeNext(ps, crc, image, n, Fed(o, ps, fates[..n]), fates[n]);
    }
  }
}
