/** An upload on which nothing goes wrong on the way: in every order in which host, node and
    channels take their turns it comes to its end, whatever the node's flash answers to the
    end mark, and if that is well too the end is success. */
module OtaProgress {
  import opened Protocol
  import opened Crc32
  import opened OtaSenders
  import opened NodeOta
  import opened HostOta
  import opened OtaHistory
  import opened OtaSession

  /** The flash takes the session and its data; the read-back buffer, the final flash call and
      the boot selection, which only the end mark needs, may fail. */
  predicate Stores(io: Io) {
    io.partitionFound && io.beginOk && io.writeOk
  }

  /** Nothing is lost, nothing expires, no node restarts and the flash takes the data; all is
      well if the end mark's calls succeed too. */
  predicate Lossless(e: Event, well: bool) {
    match e
    case NodeHandles(io) => Stores(io) && (well ==> io == ALL_WELL)
    case StatusArrives => true
    case CoroutineWakes => true
    case HostSends => true
    case _ => false
  }

  predicate ChannelExact(ps: seq<Packet>, s: Session) {
    s.handled <= s.sent <= |ps| && |s.down| == s.sent - s.handled &&
    forall j :: 0 <= j < |s.down| ==> s.down[j] == Wired(s.handled + j, ps[s.handled + j])
  }

  /** The node holds exactly the part of the image whose packets it took, and in the end the
      image is committed or, if not all is well, nothing. */
  predicate NodeExact(ps: seq<Packet>, crc: bv32, image: seq<byte>, well: bool, s: Session) {
    if s.handled == 0 then s.commits == []
    else if s.handled < |ps| then
      s.commits == [] && s.node.active && s.node.expected == crc &&
      s.node.image == image[..Reach(|image|, s.handled - 1)]
    else (s.commits == [] && !well) || (s.commits == [image] && s.node.boot == Some(image))
  }

  /** An answer is on its way up or with the host. */
  predicate Answered(s: Session, status: byte) {
    (s.up == [status] && s.host.future.Unresolved?) || (s.up == [] && s.host.future == Resolved(status))
  }

  predicate Unanswered(s: Session) {
    s.up == [] && s.host.future.Unresolved?
  }

  predicate HostExact(ps: seq<Packet>, s: Session) {
    match s.host.phase
    case AwaitBegin => s.sent == 1 && if s.handled == 0 then Unanswered(s) else Answered(s, STATUS_IN_PROGRESS)
    case Sending(k) => s.sent == k + 1 <= |ps| - 1 && s.handled >= 1 && s.up == [] && s.host.future.Absent?
    case AwaitEnd =>
      s.sent == |ps| && s.handled >= 1 && if s.handled < |ps| then Unanswered(s)
      else Answered(s, if s.commits == [] then STATUS_ERROR else STATUS_OK)
    case Finished(ok) => ok == (s.commits != []) && s.handled == |ps| && s.up == [] && s.host.future.Absent?
  }

  predicate Smooth(ps: seq<Packet>, crc: bv32, image: seq<byte>, well: bool, s: Session) {
    ChannelExact(ps, s) && NodeExact(ps, crc, image, well, s) && HostExact(ps, s)
  }

  /** How many turns are left at most. */
  function Left(ps: seq<Packet>, s: Session): int {
    3 * (|ps| - s.handled) + (|ps| - s.sent) + 2 * |s.up| + if s.host.future.Resolved? then 1 else 0
  }

  /** A turn that changes something keeps the session smooth and brings it nearer its end. */
  predicate Advances(ps: seq<Packet>, crc: bv32, image: seq<byte>, well: bool, s: Session, t: Session) {
    Smooth(ps, crc, image, well, t) && (t == s || Left(ps, t) < Left(ps, s))
  }

  lemma HostAdvances(ps: seq<Packet>, crc: bv32, image: seq<byte>, well: bool, s: Session, e: Event)
    requires IsUpload(ps, crc, image) && Smooth(ps, crc, image, well, s)
    requires e.StatusArrives? || e.CoroutineWakes? || e.HostSends?
    ensures Advances(ps, crc, image, well, s, Next(ps, s, e))
  {
    if e.HostSends? {
      SendAdvances(ps, crc, image, well, s);
    }
  }

  lemma SendAdvances(ps: seq<Packet>, crc: bv32, image: seq<byte>, well: bool, s: Session)
    requires IsUpload(ps, crc, image) && Smooth(ps, crc, image, well, s)
    ensures Advances(ps, crc, image, well, s, Next(ps, s, HostSends))
  {
    var t := Next(ps, s, HostSends);
    assert ChannelExact(ps, t);
  }

  /** What the node makes of packet i when it has taken all before it. */
  lemma HandlesExactly(ps: seq<Packet>, crc: bv32, image: seq<byte>, o: Ota, i: nat, io: Io)
    requires IsUpload(ps, crc, image) && |image| <= CAPACITY && Passes(crc, image) && i < |ps| && Stores(io)
    requires i > 0 ==> o.active && o.expected == crc && o.image == image[..Reach(|image|, i - 1)]
    ensures var r := Handle(o, ps[i], io);
      r.status == Answer(ps, i, EndsWell(o, io)) &&
      if i < |ps| - 1 then r.next.active && r.next.expected == crc && r.next.image == image[..Reach(|image|, i)]
      else o.image == image && (EndsWell(o, io) ==> r.next.boot == Some(image)) && (io == ALL_WELL ==> EndsWell(o, io))
  {
    ImageGrows(image, i);
    if 0 < i < |ps| - 1 {
      assert ps[i - 1 + 1] == DataPacket(Chunk(image, i - 1));
      WritesIff(o, Chunk(image, i - 1), io);
    } else if i == |ps| - 1 {
      CommitsIff(o, io);
    }
  }

  /** What the node answers to packet i. */
  function Answer(ps: seq<Packet>, i: nat, endsWell: bool): seq<byte> {
    if i == 0 then [STATUS_IN_PROGRESS]
    else if i < |ps| - 1 then []
    else [if endsWell then STATUS_OK else STATUS_ERROR]
  }

  /** The session after the node took a packet with outcome r and what it committed. */
  function AfterTaking(s: Session, r: Outcome, commits: seq<seq<byte>>): Session
    requires s.down != []
  {
    s.(node := r.next, down := s.down[1..], up := s.up + r.status, handled := s.down[0].index + 1, commits := commits)
  }

  lemma ChannelAdvances(ps: seq<Packet>, s: Session, r: Outcome, commits: seq<seq<byte>>)
    requires ChannelExact(ps, s) && s.down != []
    ensures s.down[0] == Wired(s.handled, ps[s.handled]) && s.handled < |ps|
    ensures ChannelExact(ps, AfterTaking(s, r, commits))
  {
    assert s.down[0] == Wired(s.handled + 0, ps[s.handled + 0]);
  }

  lemma NodeAnswers(ps: seq<Packet>, crc: bv32, image: seq<byte>, well: bool, s: Session, r: Outcome, endsWell: bool)
    requires |ps| >= 2 && Smooth(ps, crc, image, well, s) && s.handled < |ps|
    requires s.down != [] && s.down[0].index == s.handled && r.status == Answer(ps, s.handled, endsWell)
    ensures var t := AfterTaking(s, r, if s.handled == |ps| - 1 && endsWell then [image] else []);
      HostExact(ps, t) && Left(ps, t) < Left(ps, s)
  {
  }

  lemma NodeAdvances(ps: seq<Packet>, crc: bv32, image: seq<byte>, well: bool, s: Session, io: Io)
    requires IsUpload(ps, crc, image) && |image| <= CAPACITY && Passes(crc, image) && Smooth(ps, crc, image, well, s)
    requires Lossless(NodeHandles(io), well)
    ensures Advances(ps, crc, image, well, s, Next(ps, s, NodeHandles(io)))
  {
    if s.down != [] {
      var i := s.handled;
      var r, endsWell := Handle(s.node, ps[i], io), EndsWell(s.node, io);
      var commits := if i == |ps| - 1 && endsWell then [image] else [];
      ChannelAdvances(ps, s, r, commits);
      HandlesExactly(ps, crc, image, s.node, i, io);
      NodeAnswers(ps, crc, image, well, s, r, endsWell);
      TakingIsNext(ps, crc, image, well, s, r, io, commits);
    }
  }

  lemma TakingIsNext(ps: seq<Packet>, crc: bv32, image: seq<byte>, well: bool, s: Session, r: Outcome, io: Io,
                     commits: seq<seq<byte>>)
    requires IsUpload(ps, crc, image) && NodeExact(ps, crc, image, well, s) && s.handled < |ps|
    requires s.down != [] && s.down[0] == Wired(s.handled, ps[s.handled])
    requires r == Handle(s.node, ps[s.handled], io) && r.status == Answer(ps, s.handled, EndsWell(s.node, io))
    requires s.handled == |ps| - 1 ==> s.node.image == image
    requires commits == if s.handled == |ps| - 1 && EndsWell(s.node, io) then [image] else []
    ensures Next(ps, s, NodeHandles(io)) == AfterTaking(s, r, commits)
  {
    var i := s.handled;
    assert 0 < i < |ps| - 1 ==> ps[i - 1 + 1] == DataPacket(Chunk(image, i - 1));
  }

  lemma TurnAdvances(ps: seq<Packet>, crc: bv32, image: seq<byte>, well: bool, s: Session, e: Event)
    requires IsUpload(ps, crc, image) && |image| <= CAPACITY && Passes(crc, image) && Smooth(ps, crc, image, well, s)
    requires Lossless(e, well)
    ensures Advances(ps, crc, image, well, s, Next(ps, s, e))
  {
    if e.NodeHandles? {
      NodeAdvances(ps, crc, image, well, s, e.io);
    } else {
      HostAdvances(ps, crc, image, well, s, e);
    }
  }

  /** Only a finished session has no turn left that changes something. */
  lemma NeverStuck(ps: seq<Packet>, crc: bv32, image: seq<byte>, well: bool, s: Session)
    requires IsUpload(ps, crc, image) && |image| <= CAPACITY && Smooth(ps, crc, image, well, s)
    ensures s.host.phase.Finished? || exists e :: Lossless(e, true) && Next(ps, s, e) != s
  {
    if !s.host.phase.Finished? {
      var e := if s.down != [] then NodeHandles(ALL_WELL) else if s.up != [] then StatusArrives
        else if s.host.phase.Sending? then HostSends else CoroutineWakes;
      assert Lossless(e, true) && Next(ps, s, e) != s;
    }
  }

  /** Every turn of a run changed something. */
  predicate Busy(ps: seq<Packet>, s: Session, events: seq<Event>)
    requires |ps| >= 2
  {
    events == [] ||
    (Busy(ps, s, events[..|events| - 1]) && Run(ps, s, events) != Run(ps, s, events[..|events| - 1]))
  }

  lemma {:induction false} RunAdvances(ps: seq<Packet>, crc: bv32, image: seq<byte>, well: bool, s: Session,
                                       events: seq<Event>)
    requires IsUpload(ps, crc, image) && |image| <= CAPACITY && Passes(crc, image) && Smooth(ps, crc, image, well, s)
    requires forall e :: e in events ==> Lossless(e, well)
    ensures Smooth(ps, crc, image, well, Run(ps, s, events))
    ensures Busy(ps, s, events) ==> Left(ps, Run(ps, s, events)) + |events| <= Left(ps, s)
  {
    if events != [] {
      var before := events[..|events| - 1];
      RunAdvances(ps, crc, image, well, s, before);
      assert events[|events| - 1] in events;
      TurnAdvances(ps, crc, image, well, Run(ps, s, before), events[|events| - 1]);
    }
  }

  lemma LeftIsNatural(ps: seq<Packet>, crc: bv32, image: seq<byte>, well: bool, s: Session)
    requires Smooth(ps, crc, image, well, s)
    ensures Left(ps, s) >= 0
  {
  }

  lemma StartIsSmooth(ps: seq<Packet>, crc: bv32, image: seq<byte>, well: bool, node: Ota)
    requires IsUpload(ps, crc, image)
    ensures var s := Start(ps, Origin(node, [], [])); Smooth(ps, crc, image, well, s) && Left(ps, s) == 4 * |ps| - 1
  {
    assert [] + [ps[0]] == [ps[0]];
  }

  lemma RunEnds(ps: seq<Packet>, crc: bv32, image: seq<byte>, well: bool, node: Ota, events: seq<Event>)
    requires IsUpload(ps, crc, image) && |image| <= CAPACITY && Passes(crc, image)
    requires forall e :: e in events ==> Lossless(e, well)
    ensures Smooth(ps, crc, image, well, Run(ps, Start(ps, Origin(node, [], [])), events))
    ensures Busy(ps, Start(ps, Origin(node, [], [])), events) ==> |events| < 4 * |ps|
  {
    StartIsSmooth(ps, crc, image, well, node);
    RunAdvances(ps, crc, image, well, Start(ps, Origin(node, [], [])), events);
    LeftIsNatural(ps, crc, image, well, Run(ps, Start(ps, Origin(node, [], [])), events));
  }

  /** From any node and empty channels, in every order of turns and whatever the node's calls
      answer to the end mark: the upload either has ended, with the image committed, selected
      for boot and reported a success, or with nothing committed and reported a failure, or
      some turn is still to be taken. If all is well it is not the failure. */
  lemma UploadNeverStuck(image: seq<byte>, node: Ota, events: seq<Event>, well: bool)
    requires |image| <= CAPACITY && forall e :: e in events ==> Lossless(e, well)
    ensures var ps := OtaPackets(image);
      var s := Run(ps, Start(ps, Origin(node, [], [])), events);
      (s.host.phase == Finished(true) && s.commits == [image] && s.node.boot == Some(image)) ||
      (s.host.phase == Finished(false) && s.commits == [] && !well) ||
      exists e :: Lossless(e, true) && Next(ps, s, e) != s
  {
    var ps := OtaPackets(image);
    OtaPacketsIsUpload(image);
    RunEnds(ps, Crc(image), image, well, node, events);
    NeverStuck(ps, Crc(image), image, well, Run(ps, Start(ps, Origin(node, [], [])), events));
  }

  /** And it does end: no run has four or more turns per packet that change something. */
  lemma UploadEnds(image: seq<byte>, node: Ota, events: seq<Event>, well: bool)
    requires |image| <= CAPACITY && forall e :: e in events ==> Lossless(e, well)
    requires Busy(OtaPackets(image), Start(OtaPackets(image), Origin(node, [], [])), events)
    ensures |events| < 4 * |OtaPackets(image)|
  {
    var ps := OtaPackets(image);
    OtaPacketsIsUpload(image);
    RunEnds(ps, Crc(image), image, well, node, events);
  }
}
