/** Exactly what an upload can end in: which images a run that reports success, or failure, can
    have committed, and from that exactly when a success report can be trusted, and for what. */
module OtaOutcomes {
  import opened Protocol
  import opened Crc32
  import opened OtaSenders
  import opened NodeOta
  import opened HostOta
  import opened OtaHistory
  import opened OtaSession

  // ---- runs that exist ----------------------------------------------------------------

  ghost predicate Leads(ps: seq<Packet>, s: Session, t: Session)
    requires |ps| >= 2
  {
    exists events: seq<Event> :: Run(ps, s, events) == t
  }

  lemma LeadsNowhere(ps: seq<Packet>, s: Session)
    requires |ps| >= 2
    ensures Leads(ps, s, s)
  {
    assert Run(ps, s, []) == s;
  }

  lemma LeadsByOne(ps: seq<Packet>, s: Session, t: Session, e: Event)
    requires |ps| >= 2 && Leads(ps, s, t)
    ensures Leads(ps, s, Next(ps, t, e))
  {
    var events: seq<Event> :| Run(ps, s, events) == t;
    OneStep(ps, s, events, e);
  }

  lemma LeadsOn(ps: seq<Packet>, s: Session, t: Session, u: Session)
    requires |ps| >= 2 && Leads(ps, s, t) && Leads(ps, t, u)
    ensures Leads(ps, s, u)
  {
    var a: seq<Event> :| Run(ps, s, a) == t;
    var b: seq<Event> :| Run(ps, t, b) == u;
    RunAppend(ps, s, a, b);
  }

  lemma {:induction false} LoseStatuses(ps: seq<Packet>, s: Session, k: nat)
    requires |ps| >= 2 && k <= |s.up|
    ensures Leads(ps, s, s.(up := s.up[k..]))
  {
    if k == 0 {
      assert s.(up := s.up[0..]) == s;
      LeadsNowhere(ps, s);
    } else {
      var t := s.(up := s.up[k - 1..]);
      LoseStatuses(ps, s, k - 1);
      LeadsByOne(ps, s, t, StatusLost(0));
      assert Without(t.up, 0) == s.up[k..];
    }
  }

  /** The session after the host took the first status. */
  function StatusTaken(s: Session): Session
    requires s.up != []
  {
    s.(host := Resume(OnStatus(s.host, [s.up[0]])), up := s.up[1..])
  }

  lemma TakeStatus(ps: seq<Packet>, s: Session)
    requires |ps| >= 2 && s.up != []
    ensures Leads(ps, s, StatusTaken(s))
  {
    LeadsNowhere(ps, s);
    LeadsByOne(ps, s, s, StatusArrives);
    LeadsByOne(ps, s, Next(ps, s, StatusArrives), CoroutineWakes);
  }

  /** Only host and status channel have changed. */
  predicate SameNode(s: Session, t: Session) {
    t.node == s.node && t.commits == s.commits && t.down == s.down
  }

  /** The host takes a status further up the channel; those before it are lost. */
  lemma SkipTo(ps: seq<Packet>, s: Session, i: nat) returns (t: Session)
    requires |ps| >= 2 && i < |s.up|
    ensures Leads(ps, s, t) && t.host == Resume(OnStatus(s.host, [s.up[i]])) && t.up == s.up[i + 1..] && SameNode(s, t)
  {
    var gone := s.(up := s.up[i..]);
    LoseStatuses(ps, s, i);
    t := StatusTaken(gone);
    TakeStatus(ps, gone);
    LeadsOn(ps, s, gone, t);
  }

  /** The packets under way, in order. */
  predicate Carrying(down: seq<Wired>, packets: seq<Packet>) {
    |down| == |packets| && forall j :: 0 <= j < |down| ==> down[j].packet == packets[j]
  }

  /** The host has sent OTA_BEGIN and k more packets, and nothing else has happened. */
  predicate SentUpTo(ps: seq<Packet>, s: Session, t: Session, packets: seq<Packet>, k: nat) {
    k < |ps| && t.up == s.up && t.commits == s.commits && t.node == s.node &&
    t.host == (if k <= |ps| - 2 then Host(Sending(k), Absent) else Host(AwaitEnd, Unresolved)) &&
    Carrying(t.down, packets + ps[1..k + 1])
  }

  lemma SendOne(ps: seq<Packet>, s: Session, t: Session, packets: seq<Packet>, k: nat)
    requires k + 1 < |ps| && SentUpTo(ps, s, t, packets, k)
    ensures SentUpTo(ps, s, Next(ps, t, HostSends), packets, k + 1)
  {
    assert packets + ps[1..k + 2] == packets + ps[1..k + 1] + [ps[k + 1]];
  }

  lemma {:induction false} SendAll(ps: seq<Packet>, s: Session, packets: seq<Packet>, k: nat) returns (t: Session)
    requires 2 <= |ps| && k < |ps| && s.host == Host(Sending(0), Absent) && Carrying(s.down, packets)
    ensures Leads(ps, s, t) && SentUpTo(ps, s, t, packets, k)
  {
    if k == 0 {
      t := s;
      LeadsNowhere(ps, s);
      assert packets + ps[1..1] == packets;
    } else {
      var before := SendAll(ps, s, packets, k - 1);
      LeadsByOne(ps, s, before, HostSends);
      SendOne(ps, s, before, packets, k - 1);
      t := Next(ps, before, HostSends);
    }
  }

  // ---- the node's fates are free ----------------------------------------------------------

  /** What a fate of the first packet under way makes of a session. */
  predicate Fares(s: Session, t: Session, h: History) {
    t.node == h.node && t.up == s.up + h.statuses && t.commits == s.commits + h.commits && t.host == s.host
  }

  lemma FateHappens(ps: seq<Packet>, s: Session, f: Fate) returns (t: Session)
    requires |ps| >= 2 && s.down != []
    ensures Leads(ps, s, t) && t.down == s.down[1..] && Fares(s, t, Take(History(s.node, [], []), s.down[0].packet, f))
  {
    LeadsNowhere(ps, s);
    match f
    case Lost =>
      LeadsByOne(ps, s, s, PacketLost(0));
      t := Next(ps, s, PacketLost(0));
      assert s.up + [] == s.up && s.commits + [] == s.commits;
    case Taken(io, restarted) =>
      var now := if restarted then Next(ps, s, NodeRestarts) else s;
      if restarted {
        LeadsByOne(ps, s, s, NodeRestarts);
      }
      LeadsByOne(ps, s, now, NodeHandles(io));
      t := Next(ps, now, NodeHandles(io));
  }

  lemma FaresOn(s: Session, t: Session, u: Session, h: History, p: Packet, f: Fate)
    requires Fares(s, t, h) && Fares(t, u, Take(History(t.node, [], []), p, f))
    ensures Fares(s, u, Take(h, p, f))
  {
    var start := History(h.node, [], []);
    assert h.statuses + [] == h.statuses && h.commits + [] == h.commits;
    TakeJoins(h, start, p, f);
    var one := Take(start, p, f);
    assert s.up + h.statuses + one.statuses == s.up + (h.statuses + one.statuses);
    assert s.commits + h.commits + one.commits == s.commits + (h.commits + one.commits);
  }

  /** Any fates of the packets under way can come about, while the host does nothing. */
  lemma {:induction false} FatesHappen(ps: seq<Packet>, s: Session, packets: seq<Packet>, fates: seq<Fate>)
      returns (t: Session)
    requires |ps| >= 2 && Carrying(s.down, packets) && |fates| <= |packets|
    ensures Leads(ps, s, t) && Fares(s, t, Fed(s.node, packets, fates)) && t.down == s.down[|fates|..]
  {
    if fates == [] {
      t := s;
      LeadsNowhere(ps, s);
      assert s.up + [] == s.up && s.commits + [] == s.commits;
    } else {
      var n := |fates| - 1;
      var before := FatesHappen(ps, s, packets, fates[..n]);
      t := FateHappens(ps, before, fates[n]);
      LeadsOn(ps, s, before, t);
      FaresOn(s, before, t, Fed(s.node, packets, fates[..n]), packets[n], fates[n]);
    }
  }

  // ---- every history happens --------------------------------------------------------------

  /** The part of the fates that can come about before the host has heard anything. */
  function Early(from: Origin, fates: seq<Fate>): seq<Fate> {
    if |fates| <= |from.older| + 1 then fates else fates[..|from.older| + 1]
  }

  /** The node deals with the older commands and OTA_BEGIN. */
  lemma EarlyHappens(ps: seq<Packet>, from: Origin, fates: seq<Fate>) returns (t: Session)
    requires |ps| >= 2 && |fates| <= |Commands(ps, from)|
    ensures Leads(ps, Start(ps, from), t) && t.host == Host(AwaitBegin, Unresolved)
    ensures var early := Early(from, fates);
      var h := Fed(from.node, Commands(ps, from), early);
      t.node == h.node && t.up == from.left + h.statuses && t.commits == h.commits &&
      Carrying(t.down, (from.older + [ps[0]])[|early|..])
  {
    var s, first, early := Start(ps, from), from.older + [ps[0]], Early(from, fates);
    t := FatesHappen(ps, s, first, early);
    assert first == Commands(ps, from)[..|first|];
    assert first[..|early|] == Commands(ps, from)[..|early|];
    FedSame(from.node, first, Commands(ps, from), early);
    var h := Fed(from.node, first, early);
    assert [] + h.commits == h.commits;
  }

  lemma EarlyThenLater(ps: seq<Packet>, from: Origin, fates: seq<Fate>)
    requires |ps| >= 2 && |fates| <= |Commands(ps, from)|
    ensures var all, k := Commands(ps, from), |Early(from, fates)|;
      var h := Fed(from.node, all, Early(from, fates));
      Fed(from.node, all, fates) == Joined(h, Fed(h.node, all[k..], fates[k..])) &&
      (from.older + [ps[0]])[k..] + ps[1..] == all[k..]
  {
    var k := |Early(from, fates)|;
    assert fates[..k] == Early(from, fates);
    FedSplit(from.node, Commands(ps, from), fates, k);
    DropsJoin(from.older, ps, k);
  }

  lemma DropsJoin(a: seq<Packet>, b: seq<Packet>, k: nat)
    requires b != [] && k <= |a| + 1
    ensures (a + [b[0]])[k..] + b[1..] == (a + b)[k..]
  {
    assert a + b == a + [b[0]] + b[1..];
  }

  /** The host takes status i for its answer and sends everything. */
  lemma HostGoesOn(ps: seq<Packet>, from: Origin, fates: seq<Fate>, i: nat) returns (t: Session)
    requires |ps| >= 2 && |fates| <= |Commands(ps, from)|
    requires var known := from.left + Fed(from.node, Commands(ps, from), Early(from, fates)).statuses;
      i < |known| && known[i] == STATUS_IN_PROGRESS
    ensures Leads(ps, Start(ps, from), t) && t.host == Host(AwaitEnd, Unresolved)
    ensures var h := Fed(from.node, Commands(ps, from), Early(from, fates));
      t.node == h.node && t.commits == h.commits && t.up == (from.left + h.statuses)[i + 1..]
    ensures Carrying(t.down, (from.older + [ps[0]])[|Early(from, fates)|..] + ps[1..])
  {
    var waiting := EarlyHappens(ps, from, fates);
    var going := SkipTo(ps, waiting, i);
    LeadsOn(ps, Start(ps, from), waiting, going);
    t := SendAll(ps, going, (from.older + [ps[0]])[|Early(from, fates)|..], |ps| - 1);
    LeadsOn(ps, Start(ps, from), going, t);
    assert ps[1..|ps| - 1 + 1] == ps[1..];
  }

  lemma TailsJoin(a: seq<byte>, b: seq<byte>, c: seq<byte>, i: nat)
    requires i <= |a + b|
    ensures (a + b)[i..] + c == (a + (b + c))[i..]
  {
  }

  /** And the node deals with it. */
  lemma GoesOn(ps: seq<Packet>, from: Origin, fates: seq<Fate>, i: nat) returns (t: Session)
    requires |ps| >= 2 && |fates| <= |Commands(ps, from)|
    requires var known := from.left + Fed(from.node, Commands(ps, from), Early(from, fates)).statuses;
      i < |known| && known[i] == STATUS_IN_PROGRESS
    ensures Leads(ps, Start(ps, from), t) && t.host == Host(AwaitEnd, Unresolved)
    ensures var h := Fed(from.node, Commands(ps, from), fates);
      i < |from.left + h.statuses| && t.up == (from.left + h.statuses)[i + 1..] && t.commits == h.commits
  {
    var all, k := Commands(ps, from), |Early(from, fates)|;
    var h := Fed(from.node, all, Early(from, fates));
    EarlyThenLater(ps, from, fates);
    var ready := HostGoesOn(ps, from, fates, i);
    t := FatesHappen(ps, ready, all[k..], fates[k..]);
    LeadsOn(ps, Start(ps, from), ready, t);
    TailsJoin(from.left, h.statuses, Fed(h.node, all[k..], fates[k..]).statuses, i + 1);
  }

  /** An IN_PROGRESS that the host is sent at all is sent early. */
  lemma ProgressIsEarly(ps: seq<Packet>, crc: bv32, image: seq<byte>, from: Origin, fates: seq<Fate>, i: nat)
    requires IsUpload(ps, crc, image) && |fates| <= |Commands(ps, from)|
    requires var known := from.left + Fed(from.node, Commands(ps, from), fates).statuses;
      i < |known| && known[i] == STATUS_IN_PROGRESS
    ensures var known := from.left + Fed(from.node, Commands(ps, from), Early(from, fates)).statuses;
      i < |known| && known[i] == STATUS_IN_PROGRESS
  {
    var all, early := Commands(ps, from), Early(from, fates);
    var k := |early|;
    assert fates[..k] == early;
    FedSplit(from.node, all, fates, k);
    var h1 := Fed(from.node, all, early);
    var h2 := Fed(h1.node, all[k..], fates[k..]);
    var known := from.left + h1.statuses;
    assert from.left + (h1.statuses + h2.statuses) == known + h2.statuses;
    if i >= |known| {
      assert h2.statuses[i - |known|] == STATUS_IN_PROGRESS;
      assert all[k..] == ps[1..];
      NoMoreProgress(ps, crc, image, h1.node, fates[k..]);
    }
  }

  lemma SuccessHappens(ps: seq<Packet>, crc: bv32, image: seq<byte>, from: Origin, fates: seq<Fate>)
      returns (t: Session)
    requires IsUpload(ps, crc, image) && |fates| <= |Commands(ps, from)|
    requires FakeSession(from.left + Fed(from.node, Commands(ps, from), fates).statuses)
    ensures Leads(ps, Start(ps, from), t) && t.host.phase == Finished(true)
    ensures t.commits == Fed(from.node, Commands(ps, from), fates).commits
  {
    var sent := from.left + Fed(from.node, Commands(ps, from), fates).statuses;
    var i, j :| 0 <= i < j < |sent| && sent[i] == STATUS_IN_PROGRESS && sent[j] == STATUS_OK;
    ProgressIsEarly(ps, crc, image, from, fates, i);
    var waiting := GoesOn(ps, from, fates, i);
    t := TakesOk(ps, waiting, sent, i, j);
    LeadsOn(ps, Start(ps, from), waiting, t);
  }

  lemma TakesOk(ps: seq<Packet>, s: Session, sent: seq<byte>, i: nat, j: nat) returns (t: Session)
    requires |ps| >= 2 && s.host == Host(AwaitEnd, Unresolved) && i < j < |sent| && sent[j] == STATUS_OK
    requires s.up == sent[i + 1..]
    ensures Leads(ps, s, t) && t.host.phase == Finished(true) && t.commits == s.commits
  {
    assert s.up[j - i - 1] == sent[j];
    t := SkipTo(ps, s, j - i - 1);
  }

  lemma FailureHappens(ps: seq<Packet>, crc: bv32, image: seq<byte>, from: Origin, fates: seq<Fate>)
      returns (t: Session)
    requires IsUpload(ps, crc, image) && |fates| <= |Commands(ps, from)|
    requires |fates| <= |from.older| + 1 ||
      Has(from.left + Fed(from.node, Commands(ps, from), fates).statuses, STATUS_IN_PROGRESS)
    ensures Leads(ps, Start(ps, from), t) && t.host.phase == Finished(false)
    ensures t.commits == Fed(from.node, Commands(ps, from), fates).commits
  {
    var waiting;
    if |fates| <= |from.older| + 1 {
      waiting := EarlyHappens(ps, from, fates);
    } else {
      var sent := from.left + Fed(from.node, Commands(ps, from), fates).statuses;
      var i :| 0 <= i < |sent| && sent[i] == STATUS_IN_PROGRESS;
      ProgressIsEarly(ps, crc, image, from, fates, i);
      waiting := GoesOn(ps, from, fates, i);
    }
    LeadsByOne(ps, Start(ps, from), waiting, WaitExpires);
    t := Next(ps, waiting, WaitExpires);
  }

  // ---- the exact outcomes -------------------------------------------------------------

  /** A run that ends with this report and these commits, in this order. */
  predicate Ends(ps: seq<Packet>, from: Origin, events: seq<Event>, ok: bool, commits: seq<seq<byte>>)
    requires |ps| >= 2
  {
    var s := Run(ps, Start(ps, from), events);
    s.host.phase == Finished(ok) && s.commits == commits
  }

  /** The node and all the statuses sent once the older commands have met their fates. */
  function Settled(from: Origin, f: seq<Fate>): History
    requires |f| == |from.older|
  {
    var h := Fed(from.node, from.older, f);
    History(h.node, from.left + h.statuses, h.commits)
  }

  /** The older commands' commits and, behind them, one that the upload adds. */
  ghost predicate Adds(crc: bv32, image: seq<byte>, h: History, commits: seq<seq<byte>>) {
    exists c :: Possible(crc, image, h.node, h.statuses, c) && commits == h.commits + [c]
  }

  /** What a report can stand for when the older commands have come to this: their commits,
      for a success only if an OK already follows an IN_PROGRESS, or one more. */
  ghost predicate CanEndFrom(crc: bv32, image: seq<byte>, h: History, ok: bool, commits: seq<seq<byte>>) {
    (commits == h.commits && (ok ==> FakeSession(h.statuses))) || Adds(crc, image, h, commits)
  }

  ghost predicate CanEnd(crc: bv32, image: seq<byte>, from: Origin, ok: bool, commits: seq<seq<byte>>) {
    exists f :: |f| == |from.older| && CanEndFrom(crc, image, Settled(from, f), ok, commits)
  }

  /** Fates of all commands, cut where the transfer begins. */
  lemma Cut(ps: seq<Packet>, from: Origin, fates: seq<Fate>) returns (f: seq<Fate>, own: seq<Fate>)
    requires |ps| >= 2 && |fates| <= |Commands(ps, from)|
    ensures |f| == |from.older| && |own| <= |ps| && (own != [] ==> fates == f + own)
    ensures var h := Settled(from, f);
      var all, added := Fed(from.node, Commands(ps, from), fates), Fed(h.node, ps, own);
      all.commits == h.commits + added.commits && from.left + all.statuses == h.statuses + added.statuses
  {
    var all, m := Commands(ps, from), |from.older|;
    var long := if |fates| < m then fates + Losses(m - |fates|) else fates;
    if |fates| < m {
      LossesFeedNothing(from.node, all, fates, m - |fates|);
    }
    f, own := long[..m], long[m..];
    FedSplit(from.node, all, long, m);
    assert all[..m] == from.older && all[m..] == ps;
    FedSame(from.node, all, from.older, f);
    assert long == f + own;
    var h, added := Fed(from.node, from.older, f), Fed(Fed(from.node, from.older, f).node, ps, own);
    assert from.left + (h.statuses + added.statuses) == from.left + h.statuses + added.statuses;
  }

  /** What the upload's own commands come to behind the older ones. */
  lemma OwnCanEnd(ps: seq<Packet>, crc: bv32, image: seq<byte>, h: History, own: seq<Fate>, ok: bool)
    requires IsUpload(ps, crc, image) && |own| <= |ps|
    requires ok ==> FakeSession(h.statuses + Fed(h.node, ps, own).statuses)
    requires !ok ==> |own| <= 1 || Has(h.statuses + Fed(h.node, ps, own).statuses, STATUS_IN_PROGRESS)
    ensures CanEndFrom(crc, image, h, ok, h.commits + Fed(h.node, ps, own).commits)
  {
    OwnOutcome(ps, crc, image, h.node, h.statuses, own);
    var added := Fed(h.node, ps, own).commits;
    if added == [] {
      assert h.commits + [] == h.commits;
    } else {
      assert added == [added[0]];
    }
  }

  lemma HistoryCanEnd(ps: seq<Packet>, crc: bv32, image: seq<byte>, from: Origin, fates: seq<Fate>, ok: bool)
    requires IsUpload(ps, crc, image) && |fates| <= |Commands(ps, from)|
    requires var sent := from.left + Fed(from.node, Commands(ps, from), fates).statuses;
      if ok then FakeSession(sent) else |fates| <= |from.older| + 1 || Has(sent, STATUS_IN_PROGRESS)
    ensures CanEnd(crc, image, from, ok, Fed(from.node, Commands(ps, from), fates).commits)
  {
    var f, own := Cut(ps, from, fates);
    OwnCanEnd(ps, crc, image, Settled(from, f), own, ok);
  }

  lemma CanEndHappens(ps: seq<Packet>, crc: bv32, image: seq<byte>, from: Origin, ok: bool, commits: seq<seq<byte>>)
      returns (t: Session)
    requires IsUpload(ps, crc, image) && CanEnd(crc, image, from, ok, commits)
    ensures Leads(ps, Start(ps, from), t) && t.host.phase == Finished(ok) && t.commits == commits
  {
    var f :| |f| == |from.older| && CanEndFrom(crc, image, Settled(from, f), ok, commits);
    var h, all, own := Settled(from, f), Commands(ps, from), [];
    if Adds(crc, image, h, commits) {
      var c :| Possible(crc, image, h.node, h.statuses, c) && commits == h.commits + [c];
      own := PossibleFed(ps, crc, image, h.node, h.statuses, c);
    }
    var added := Fed(h.node, ps, own);
    JoinFates(ps, from, f, own);
    if own == [] {
      assert h.commits + [] == h.commits && h.statuses + [] == h.statuses;
    }
    if ok {
      t := SuccessHappens(ps, crc, image, from, f + own);
    } else {
      t := FailureHappens(ps, crc, image, from, f + own);
    }
  }

  lemma JoinFates(ps: seq<Packet>, from: Origin, f: seq<Fate>, own: seq<Fate>)
    requires |ps| >= 2 && |f| == |from.older| && |own| <= |ps|
    ensures var h := Settled(from, f);
      var all, added := Fed(from.node, Commands(ps, from), f + own), Fed(h.node, ps, own);
      all.commits == h.commits + added.commits && from.left + all.statuses == h.statuses + added.statuses
  {
    var all, m := Commands(ps, from), |from.older|;
    FedSplit(from.node, all, f + own, m);
    assert (f + own)[..m] == f && (f + own)[m..] == own;
    assert all[..m] == from.older && all[m..] == ps;
    FedSame(from.node, all, from.older, f);
    var h, added := Fed(from.node, from.older, f), Fed(Fed(from.node, from.older, f).node, ps, own);
    assert from.left + (h.statuses + added.statuses) == from.left + h.statuses + added.statuses;
  }

  /** What a report can stand for, success or failure, whatever is lost, delayed, refused or cut
      off: exactly the ends that the node alone can come to. */
  lemma OutcomesOf(ps: seq<Packet>, crc: bv32, image: seq<byte>, from: Origin, ok: bool, commits: seq<seq<byte>>)
    requires IsUpload(ps, crc, image)
    ensures (exists events :: Ends(ps, from, events, ok, commits)) <==> CanEnd(crc, image, from, ok, commits)
  {
    forall events | Ends(ps, from, events, ok, commits) ensures CanEnd(crc, image, from, ok, commits) {
      var fates := RunIsHistory(ps, from, events);
      HistoryCanEnd(ps, crc, image, from, fates, ok);
    }
    if CanEnd(crc, image, from, ok, commits) {
      var t := CanEndHappens(ps, crc, image, from, ok, commits);
      var events: seq<Event> :| Run(ps, Start(ps, from), events) == t;
      assert Ends(ps, from, events, ok, commits);
    }
  }

  /** The same for the firmware the host was given. */
  lemma UploadOutcomes(image: seq<byte>, from: Origin, ok: bool, commits: seq<seq<byte>>)
    requires |image| < 0x1_0000_0000
    ensures (exists events :: Ends(OtaPackets(image), from, events, ok, commits)) <==>
      CanEnd(Crc(image), image, from, ok, commits)
  {
    OtaPacketsIsUpload(image);
    OutcomesOf(OtaPackets(image), Crc(image), image, from, ok, commits);
  }

  // ---- at any moment --------------------------------------------------------------------

  /** In every run, from any origin, at any moment: what was committed is what the older
      commands committed and perhaps one of the possible images behind it, and the boot choice
      is the last of them. */
  lemma CommitsArePossible(ps: seq<Packet>, crc: bv32, image: seq<byte>, from: Origin, events: seq<Event>)
    requires IsUpload(ps, crc, image)
    ensures var s := Run(ps, Start(ps, from), events);
      CanEnd(crc, image, from, false, s.commits) && s.node.boot == BootAfter(from.node, s.commits)
  {
    var fates := RunIsHistory(ps, from, events);
    HistoryCanEnd(ps, crc, image, from, fates, false);
    FedBoots(from.node, Commands(ps, from), fates);
  }

  /** If no packet is lost on the way down, then in every run, with any losses on the way up,
      flash failures, timeouts and restarts: behind the older commands' own commits, none of
      them lost, the only image that can be committed is the firmware itself. */
  lemma ReliableDownlinkCommitsOnlyTheImage(image: seq<byte>, from: Origin, events: seq<Event>) returns (f: seq<Fate>)
    requires |image| < 0x1_0000_0000 && forall e :: e in events ==> !e.PacketLost?
    ensures |f| <= |from.older| && forall g :: g in f ==> g.Taken?
    ensures var s := Run(OtaPackets(image), Start(OtaPackets(image), from), events);
      var earlier := Fed(from.node, from.older, f).commits;
      s.commits == earlier || (|f| == |from.older| && s.commits == earlier + [image])
  {
    OtaPacketsIsUpload(image);
    f := ReliableCommits(OtaPackets(image), Crc(image), image, from, events);
  }

  lemma {:induction false} NothingLost(ps: seq<Packet>, s: Session, events: seq<Event>)
    requires |ps| >= 2 && !s.lost && forall e :: e in events ==> !e.PacketLost?
    ensures !Run(ps, s, events).lost
  {
    if events != [] {
      NothingLost(ps, s, events[..|events| - 1]);
    }
  }

  lemma ReliableCommits(ps: seq<Packet>, crc: bv32, image: seq<byte>, from: Origin, events: seq<Event>)
      returns (f: seq<Fate>)
    requires IsUpload(ps, crc, image) && forall e :: e in events ==> !e.PacketLost?
    ensures |f| <= |from.older| && forall g :: g in f ==> g.Taken?
    ensures var s := Run(ps, Start(ps, from), events);
      var earlier := Fed(from.node, from.older, f).commits;
      s.commits == earlier || (|f| == |from.older| && s.commits == earlier + [image])
  {
    var all, m := Commands(ps, from), |from.older|;
    var fates := RunIsHistory(ps, from, events);
    NothingLost(ps, Start(ps, from), events);
    var k := if |fates| < m then |fates| else m;
    f := fates[..k];
    FedSplit(from.node, all, fates, k);
    assert all[..k] == from.older[..k];
    FedSame(from.node, all, from.older, f);
    var h := Fed(from.node, from.older, f);
    if k == m {
      assert all[m..] == ps;
      WholeHistory(ps, crc, image, h.node, fates[m..]);
      OwnOutcome(ps, crc, image, h.node, [], fates[m..]);
      OnlyOne(Fed(h.node, ps, fates[m..]).commits, image);
      assert h.commits + [] == h.commits;
    } else {
      assert fates[k..] == [] && h.commits + [] == h.commits;
    }
  }

  lemma OnlyOne(commits: seq<seq<byte>>, image: seq<byte>)
    requires |commits| <= 1 && forall c :: c in commits ==> c == image
    ensures commits == [] || commits == [image]
  {
    assert |commits| == 1 ==> commits[0] in commits;
  }

  // ---- when a success report can be trusted ---------------------------------------------

  predicate Truthful(s: Session) {
    s.host.phase == Finished(true) ==> s.commits != []
  }

  /** Success stands for a boot image with some quality. */
  predicate Trusted(good: seq<byte> -> bool, s: Session) {
    s.host.phase == Finished(true) ==> s.commits != [] && good(s.commits[|s.commits| - 1])
  }

  /** The boot image has passed the check against the firmware's CRC. */
  function Passing(crc: bv32): seq<byte> -> bool {
    c => Passes(crc, c)
  }

  /** The boot image is the firmware. */
  function Being(image: seq<byte>): seq<byte> -> bool {
    c => c == image
  }

  /** Whatever the older commands have come to: if the host can be told a success already, the
      last thing they committed is good, and so is all the upload can still commit. */
  ghost predicate GoodFrom(good: seq<byte> -> bool, crc: bv32, image: seq<byte>, h: History) {
    (FakeSession(h.statuses) ==> h.commits != [] && good(h.commits[|h.commits| - 1])) &&
    forall c :: Possible(crc, image, h.node, h.statuses, c) ==> good(c)
  }

  ghost predicate AlwaysGood(good: seq<byte> -> bool, crc: bv32, image: seq<byte>, from: Origin) {
    forall f :: |f| == |from.older| ==> GoodFrom(good, crc, image, Settled(from, f))
  }

  lemma BadEnd(good: seq<byte> -> bool, crc: bv32, image: seq<byte>, h: History) returns (commits: seq<seq<byte>>)
    requires !GoodFrom(good, crc, image, h)
    ensures CanEndFrom(crc, image, h, true, commits) && (commits == [] || !good(commits[|commits| - 1]))
  {
    commits := h.commits;
    if c :| Possible(crc, image, h.node, h.statuses, c) && !good(c) {
      commits := h.commits + [c];
      assert Adds(crc, image, h, commits);
    }
  }

  lemma GoodEnd(good: seq<byte> -> bool, crc: bv32, image: seq<byte>, h: History, commits: seq<seq<byte>>)
    requires GoodFrom(good, crc, image, h) && CanEndFrom(crc, image, h, true, commits)
    ensures commits != [] && good(commits[|commits| - 1])
  {
  }

  lemma CanEndBadly(good: seq<byte> -> bool, crc: bv32, image: seq<byte>, from: Origin)
      returns (commits: seq<seq<byte>>)
    requires !AlwaysGood(good, crc, image, from)
    ensures CanEnd(crc, image, from, true, commits) && (commits == [] || !good(commits[|commits| - 1]))
  {
    var f :| |f| == |from.older| && !GoodFrom(good, crc, image, Settled(from, f));
    commits := BadEnd(good, crc, image, Settled(from, f));
  }

  lemma CanOnlyEndWell(good: seq<byte> -> bool, crc: bv32, image: seq<byte>, from: Origin, commits: seq<seq<byte>>)
    requires AlwaysGood(good, crc, image, from) && CanEnd(crc, image, from, true, commits)
    ensures commits != [] && good(commits[|commits| - 1])
  {
    var f :| |f| == |from.older| && CanEndFrom(crc, image, Settled(from, f), true, commits);
    GoodEnd(good, crc, image, Settled(from, f), commits);
  }

  /** A run's trust is a matter of its end. */
  lemma TrustOfEnd(good: seq<byte> -> bool, ps: seq<Packet>, from: Origin, events: seq<Event>, commits: seq<seq<byte>>)
    requires |ps| >= 2 && Ends(ps, from, events, true, commits)
    ensures Trusted(good, Run(ps, Start(ps, from), events)) <==> commits != [] && good(commits[|commits| - 1])
  {
  }

  lemma TrustFails(ps: seq<Packet>, crc: bv32, image: seq<byte>, from: Origin, good: seq<byte> -> bool)
      returns (events: seq<Event>)
    requires IsUpload(ps, crc, image) && !AlwaysGood(good, crc, image, from)
    ensures !Trusted(good, Run(ps, Start(ps, from), events))
  {
    var commits := CanEndBadly(good, crc, image, from);
    OutcomesOf(ps, crc, image, from, true, commits);
    events :| Ends(ps, from, events, true, commits);
    TrustOfEnd(good, ps, from, events, commits);
  }

  lemma TrustHolds(ps: seq<Packet>, crc: bv32, image: seq<byte>, from: Origin, good: seq<byte> -> bool,
                   events: seq<Event>)
    requires IsUpload(ps, crc, image) && AlwaysGood(good, crc, image, from)
    ensures Trusted(good, Run(ps, Start(ps, from), events))
  {
    var s := Run(ps, Start(ps, from), events);
    if s.host.phase == Finished(true) {
      assert Ends(ps, from, events, true, s.commits);
      OutcomesOf(ps, crc, image, from, true, s.commits);
      CanOnlyEndWell(good, crc, image, from, s.commits);
    }
  }

  lemma TrustedIff(ps: seq<Packet>, crc: bv32, image: seq<byte>, from: Origin, good: seq<byte> -> bool)
    requires IsUpload(ps, crc, image)
    ensures (forall events :: Trusted(good, Run(ps, Start(ps, from), events))) <==> AlwaysGood(good, crc, image, from)
  {
    if AlwaysGood(good, crc, image, from) {
      forall events ensures Trusted(good, Run(ps, Start(ps, from), events)) {
        TrustHolds(ps, crc, image, from, good, events);
      }
    } else {
      var events := TrustFails(ps, crc, image, from, good);
      assert !Trusted(good, Run(ps, Start(ps, from), events));
    }
  }

  lemma SuccessNeedsCommit(ps: seq<Packet>, crc: bv32, image: seq<byte>, from: Origin, events: seq<Event>)
    requires IsUpload(ps, crc, image) && !FakeSession(from.left)
    ensures Truthful(Run(ps, Start(ps, from), events))
  {
    var s := Run(ps, Start(ps, from), events);
    var fates := RunIsHistory(ps, from, events);
    var h := Fed(from.node, Commands(ps, from), fates);
    FedBoots(from.node, Commands(ps, from), fates);
    FakeInSum(from.left, h.statuses);
    if s.commits == [] {
      FakeHasOk(h.statuses);
    }
  }

  lemma FakeHasOk(s: seq<byte>)
    ensures FakeSession(s) ==> Has(s, STATUS_OK)
  {
  }

  /** A leftover IN_PROGRESS and a later leftover OK make a whole upload the node never saw. */
  lemma FakeSuccess(ps: seq<Packet>, crc: bv32, image: seq<byte>, from: Origin) returns (t: Session)
    requires IsUpload(ps, crc, image) && FakeSession(from.left)
    ensures Leads(ps, Start(ps, from), t) && t.host.phase == Finished(true) && t.commits == []
  {
    assert from.left + [] == from.left;
    t := SuccessHappens(ps, crc, image, from, []);
  }

  /** From any node, any leftovers and any older commands: in every run a success report follows
      a commit made since the upload began if and only if no IN_PROGRESS followed by an OK was
      left behind. */
  lemma TruthfulIff(image: seq<byte>, from: Origin)
    requires |image| < 0x1_0000_0000
    ensures var ps := OtaPackets(image);
      (forall events :: Truthful(Run(ps, Start(ps, from), events))) <==> !FakeSession(from.left)
  {
    var ps := OtaPackets(image);
    OtaPacketsIsUpload(image);
    if FakeSession(from.left) {
      var t := FakeSuccess(ps, Crc(image), image, from);
      var events: seq<Event> :| Run(ps, Start(ps, from), events) == t;
      assert !Truthful(Run(ps, Start(ps, from), events));
    } else {
      forall events ensures Truthful(Run(ps, Start(ps, from), events)) {
        SuccessNeedsCommit(ps, Crc(image), image, from, events);
      }
    }
  }

  /** From any origin: in every run a success report stands for a boot image that was committed
      since and passed the firmware's own check if and only if that is so of everything the
      older commands can lead to. */
  lemma VouchedIff(image: seq<byte>, from: Origin)
    requires |image| < 0x1_0000_0000
    ensures var ps := OtaPackets(image);
      (forall events :: Trusted(Passing(Crc(image)), Run(ps, Start(ps, from), events))) <==>
      AlwaysGood(Passing(Crc(image)), Crc(image), image, from)
  {
    OtaPacketsIsUpload(image);
    TrustedIff(OtaPackets(image), Crc(image), image, from, Passing(Crc(image)));
  }

  /** And it stands for the firmware itself if and only if the older commands can lead to no
      other image. */
  lemma DeliveredIff(image: seq<byte>, from: Origin)
    requires |image| < 0x1_0000_0000
    ensures var ps := OtaPackets(image);
      (forall events :: Trusted(Being(image), Run(ps, Start(ps, from), events))) <==>
      AlwaysGood(Being(image), Crc(image), image, from)
  {
    OtaPacketsIsUpload(image);
    TrustedIff(OtaPackets(image), Crc(image), image, from, Being(image));
  }

  // ---- with no older command under way --------------------------------------------------

  lemma DrainedGood(good: seq<byte> -> bool, crc: bv32, image: seq<byte>, node: Ota, left: seq<byte>)
    ensures AlwaysGood(good, crc, image, Origin(node, left, [])) <==>
      !FakeSession(left) && forall c :: Possible(crc, image, node, left, c) ==> good(c)
  {
    var from := Origin(node, left, []);
    assert left + [] == left;
    assert Settled(from, []) == History(node, left, []);
    forall f: seq<Fate> | |f| == 0 ensures f == [] {
    }
    if AlwaysGood(good, crc, image, from) {
      assert GoodFrom(good, crc, image, Settled(from, []));
    }
  }

  /** Every image the older session could commit in this one's place passes this one's check. */
  ghost predicate NoForeignCommit(crc: bv32, image: seq<byte>, node: Ota, left: seq<byte>) {
    node.active && Has(left, STATUS_IN_PROGRESS) ==>
      forall c :: Committable(node.image, node.expected, image, c) ==> Passes(crc, c)
  }

  lemma VouchedDrainedIff(image: seq<byte>, node: Ota, left: seq<byte>)
    requires |image| < 0x1_0000_0000
    ensures var ps, from := OtaPackets(image), Origin(node, left, []);
      (forall events :: Trusted(Passing(Crc(image)), Run(ps, Start(ps, from), events))) <==>
      !FakeSession(left) && NoForeignCommit(Crc(image), image, node, left)
  {
    VouchedIff(image, Origin(node, left, []));
    DrainedGood(Passing(Crc(image)), Crc(image), image, node, left);
    ForeignOrOwn(Crc(image), image, node, left);
  }

  lemma ForeignOrOwn(crc: bv32, image: seq<byte>, node: Ota, left: seq<byte>)
    ensures (forall c :: Possible(crc, image, node, left, c) ==> Passing(crc)(c)) <==>
      NoForeignCommit(crc, image, node, left)
  {
    if forall c :: Possible(crc, image, node, left, c) ==> Passing(crc)(c) {
      forall c | node.active && Has(left, STATUS_IN_PROGRESS) && Committable(node.image, node.expected, image, c)
        ensures Passes(crc, c)
      {
        assert Possible(crc, image, node, left, c) && Passing(crc)(c);
      }
    }
  }

  lemma DeliveredDrainedIff(image: seq<byte>, node: Ota, left: seq<byte>)
    requires |image| < 0x1_0000_0000
    ensures var ps, from := OtaPackets(image), Origin(node, left, []);
      (forall events :: Trusted(Being(image), Run(ps, Start(ps, from), events))) <==>
      !FakeSession(left) && forall c :: Possible(Crc(image), image, node, left, c) ==> c == image
  {
    DeliveredIff(image, Origin(node, left, []));
    DrainedGood(Being(image), Crc(image), image, node, left);
  }

  /** Nothing an earlier session left behind can pass for this one, except a session for an
      image with the same CRC. */
  predicate Clean(crc: bv32, node: Ota, left: seq<byte>) {
    !FakeSession(left) && (node.active && Has(left, STATUS_IN_PROGRESS) ==> node.expected == crc)
  }

  /** In every run whose origin is clean whatever becomes of the older commands, with all that
      is lost, delayed, refused by the flash or cut off by a restart: a success report stands
      for a boot image that passed the check against the announced CRC, and with no older
      command under way there is at most one commit and it did. */
  lemma UploadIsSafe(image: seq<byte>, from: Origin, events: seq<Event>)
    requires |image| < 0x1_0000_0000
    requires forall f :: |f| == |from.older| ==> Clean(Crc(image), Settled(from, f).node, Settled(from, f).statuses)
    ensures var s := Run(OtaPackets(image), Start(OtaPackets(image), from), events);
      Trusted(Passing(Crc(image)), s) && s.node.boot == BootAfter(from.node, s.commits) &&
      (from.older == [] ==> |s.commits| <= 1 && forall c :: c in s.commits ==> Passes(Crc(image), c))
  {
    OtaPacketsIsUpload(image);
    CleanRunIsSafe(OtaPackets(image), Crc(image), image, from, events);
  }

  lemma CleanRunIsSafe(ps: seq<Packet>, crc: bv32, image: seq<byte>, from: Origin, events: seq<Event>)
    requires IsUpload(ps, crc, image)
    requires forall f :: |f| == |from.older| ==> Clean(crc, Settled(from, f).node, Settled(from, f).statuses)
    ensures var s := Run(ps, Start(ps, from), events);
      Trusted(Passing(crc), s) && s.node.boot == BootAfter(from.node, s.commits) &&
      (from.older == [] ==> |s.commits| <= 1 && forall c :: c in s.commits ==> Passes(crc, c))
  {
    forall f | |f| == |from.older| ensures GoodFrom(Passing(crc), crc, image, Settled(from, f)) {
      assert Clean(crc, Settled(from, f).node, Settled(from, f).statuses);
    }
    TrustHolds(ps, crc, image, from, Passing(crc), events);
    CommitsArePossible(ps, crc, image, from, events);
    var s := Run(ps, Start(ps, from), events);
    var f :| |f| == |from.older| && CanEndFrom(crc, image, Settled(from, f), false, s.commits);
    assert GoodFrom(Passing(crc), crc, image, Settled(from, f));
    if from.older == [] {
      assert f == [] && Settled(from, f).commits == [];
    }
  }

  /** The node follows an unchecked older session whose IN_PROGRESS is still in the channel:
      a run that loses all of the new upload but its end mark commits the older image. */
  lemma ForeignCommit(image: seq<byte>, node: Ota)
    requires |image| < 0x1_0000_0000 && node.active && node.expected == 0 && !Passes(Crc(image), node.image)
    ensures !FakeSession([STATUS_IN_PROGRESS])
    ensures exists events :: Ends(OtaPackets(image), Origin(node, [STATUS_IN_PROGRESS], []), events, true, [node.image])
  {
    var left := [STATUS_IN_PROGRESS];
    assert left[0] == STATUS_IN_PROGRESS;
    TookNothing(image, node.image);
    TookLater(image, node.image, 0, ChunkCount(|image|), node.image);
    assert Possible(Crc(image), image, node, left, node.image);
    DrainedEnds(image, node, left, node.image);
  }

  /** With no older command under way every possible image is committed by some run that
      reports success. */
  lemma DrainedEnds(image: seq<byte>, node: Ota, left: seq<byte>, c: seq<byte>)
    requires |image| < 0x1_0000_0000 && Possible(Crc(image), image, node, left, c)
    ensures exists events :: Ends(OtaPackets(image), Origin(node, left, []), events, true, [c])
  {
    var from := Origin(node, left, []);
    assert left + [] == left && [] + [c] == [c];
    assert Settled(from, []) == History(node, left, []);
    assert Adds(Crc(image), image, Settled(from, []), [c]);
    assert CanEndFrom(Crc(image), image, Settled(from, []), true, [c]);
    UploadOutcomes(image, from, true, [c]);
  }

  // ---- when success means delivery ------------------------------------------------------

  /** Some of an image's chunks, not all, have its CRC, or its CRC is zero. */
  ghost predicate Mistakable(crc: bv32, image: seq<byte>) {
    exists keep: seq<bool> ::
      |keep| == ChunkCount(|image|) && Picked(image, keep) != image && Passes(crc, Picked(image, keep))
  }

  lemma {:induction false} PickedFits(image: seq<byte>, keep: seq<bool>)
    requires |keep| <= ChunkCount(|image|)
    ensures |Picked(image, keep)| <= Reach(|image|, |keep|)
  {
    if keep != [] {
      PickedFits(image, keep[..|keep| - 1]);
      CountAndReach(|image|, |keep| - 1);
    }
  }

  /** From a node that follows no older session, with nothing left in either channel: success
      means delivery in every run if and only if no proper selection of the image's chunks
      passes for it. */
  lemma DeliveredFromIdleIff(image: seq<byte>, node: Ota)
    requires |image| <= CAPACITY && !node.active
    ensures var ps := OtaPackets(image);
      (forall events :: Trusted(Being(image), Run(ps, Start(ps, Origin(node, [], [])), events))) <==>
      !Mistakable(Crc(image), image)
  {
    DeliveredDrainedIff(image, node, []);
    MistakableIff(Crc(image), image, node);
  }

  lemma MistakableIff(crc: bv32, image: seq<byte>, node: Ota)
    requires |image| <= CAPACITY
    ensures Mistakable(crc, image) <==> exists c :: Possible(crc, image, node, [], c) && c != image
  {
    if Mistakable(crc, image) {
      var keep: seq<bool> :|
        |keep| == ChunkCount(|image|) && Picked(image, keep) != image && Passes(crc, Picked(image, keep));
      var c := Picked(image, keep);
      PickedFits(image, keep);
      assert c == [] + Picked(image, keep);
      assert Possible(crc, image, node, [], c);
    }
    if c :| Possible(crc, image, node, [], c) && c != image {
      var keep: seq<bool> :| |keep| == ChunkCount(|image|) && c == [] + Picked(image, keep);
      assert Picked(image, keep) == c;
    }
  }

  /** For an image of one chunk the condition is that its CRC is not zero. */
  lemma OneChunkMistakableIff(crc: bv32, image: seq<byte>)
    requires 0 < |image| <= CHUNK_SIZE && crc == Crc(image)
    ensures Mistakable(crc, image) <==> crc == 0
  {
    assert ChunkCount(|image|) == 1 && Chunk(image, 0) == image;
    EmptyCrc();
    var none := [false];
    assert Picked(image, none) == [] by {
      assert none[..0] == [];
    }
    if crc == 0 {
      assert |none| == ChunkCount(|image|) && Picked(image, none) != image && Passes(crc, Picked(image, none));
    }
    if Mistakable(crc, image) {
      var keep: seq<bool> :| |keep| == 1 && Picked(image, keep) != image && Passes(crc, Picked(image, keep));
      assert keep[..0] == [];
      assert Picked(image, keep) == if keep[0] then [] + image else [] + [];
    }
  }
}
