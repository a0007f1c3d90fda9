/** One firmware upload as a distributed run: the host's coroutine, a channel of packets
    down, a channel of statuses up, and the node, with loss, timeouts, flash failures and
    node restarts at any point, and with whatever earlier uploads have left in the channels. */
module OtaSession {
  import opened Protocol
  import opened Crc32
  import opened OtaSenders
  import opened NodeOta
  import opened HostOta
  import opened OtaHistory

  /** A packet on its way down, with its position among all there were. */
  datatype Wired = Wired(index: nat, packet: Packet)

  datatype Session = Session(
    host: Host,
    down: seq<Wired>,
    up: seq<byte>,
    node: Ota,
    commits: seq<seq<byte>>,  // the images selected for boot since the session began
    sent: nat,                // how many packets went into the channel, older ones included
    handled: nat,             // one more than the position of the last packet the node took
    lost: bool                // whether a packet was lost on the way down
  )

  datatype Event =
    | StatusArrives
    | CoroutineWakes
    | WaitExpires
    | HostSends
    | NodeHandles(io: Io)
    | PacketLost(i: nat)
    | StatusLost(i: nat)
    | NodeRestarts

  /** Where a session starts from: the node, the statuses on their way up and the commands on
      their way down, as earlier sessions left them. */
  datatype Origin = Origin(node: Ota, left: seq<byte>, older: seq<Packet>)

  /** All the commands there are: the older ones, then the transfer. */
  function Commands(ps: seq<Packet>, from: Origin): seq<Packet> {
    from.older + ps
  }

  function WiredUp(packets: seq<Packet>): seq<Wired> {
    seq(|packets|, k requires 0 <= k < |packets| => Wired(k, packets[k]))
  }

  /** A session just started: OTA_BEGIN is under way, behind the older commands, and the host
      waits. */
  function Start(ps: seq<Packet>, from: Origin): Session
    requires ps != []
  {
    var down := from.older + [ps[0]];
    Session(Host(AwaitBegin, Unresolved), WiredUp(down), from.left, from.node, [], |down|, 0, false)
  }

  function Without<T>(s: seq<T>, i: nat): seq<T>
    requires i < |s|
  {
    s[..i] + s[i + 1..]
  }

  /** An event that is not possible leaves the session as it is. */
  function Next(ps: seq<Packet>, s: Session, e: Event): Session
    requires |ps| >= 2
  {
    match e
    case StatusArrives => if s.up == [] then s else s.(host := OnStatus(s.host, [s.up[0]]), up := s.up[1..])
    case CoroutineWakes => s.(host := Resume(s.host))
    case WaitExpires => s.(host := TimeOut(s.host))
    case HostSends =>
      if !s.host.phase.Sending? || s.host.phase.next > |ps| - 2 then s
      else
        s.(host := HostOta.Sent(s.host, |ps| - 2), sent := s.sent + 1,
           down := s.down + [Wired(s.sent, ps[s.host.phase.next + 1])])
    case NodeHandles(io) =>
      if s.down == [] then s
      else
        var p := s.down[0].packet;
        var r := Handle(s.node, p, io);
        s.(node := r.next, down := s.down[1..], up := s.up + r.status, handled := s.down[0].index + 1,
           commits := s.commits + Committed(s.node, p, io))
    case PacketLost(i) => if i < |s.down| then s.(down := Without(s.down, i), lost := true) else s
    case StatusLost(i) => if i < |s.up| then s.(up := Without(s.up, i)) else s
    case NodeRestarts => s.(node := Restarted(s.node))
  }

  function Run(ps: seq<Packet>, s: Session, events: seq<Event>): Session
    requires |ps| >= 2
  {
    if events == [] then s
    else Next(ps, Run(ps, s, events[..|events| - 1]), events[|events| - 1])
  }

  // ---- the channels -------------------------------------------------------------------

  predicate ChannelOk(all: seq<Packet>, s: Session) {
    s.handled <= s.sent <= |all| &&
    (forall j :: 0 <= j < |s.down| ==>
      s.handled <= s.down[j].index < s.sent && s.down[j].packet == all[s.down[j].index]) &&
    (forall i, j :: 0 <= i < j < |s.down| ==> s.down[i].index < s.down[j].index) &&
    (!s.lost ==> |s.down| == s.sent - s.handled && forall j :: 0 <= j < |s.down| ==> s.down[j].index == s.handled + j)
  }

  /** m is the number of older commands. */
  predicate PhaseOk(ps: seq<Packet>, m: nat, h: Host, sent: nat) {
    match h.phase
    case AwaitBegin => sent == m + 1 && !h.future.Absent?
    case Sending(k) => sent == m + k + 1 && k <= |ps| - 2 && h.future.Absent?
    case AwaitEnd => sent == m + |ps| && !h.future.Absent?
    case Finished(_) => h.future.Absent? && m + 1 <= sent <= m + |ps|
  }

  /** What the host has been told, and may still be told, was sent in that order. */
  predicate HostOk(m: nat, sent: seq<byte>, s: Session) {
    (Has(s.up, STATUS_IN_PROGRESS) ==> Has(sent, STATUS_IN_PROGRESS)) && (FakeSession(s.up) ==> FakeSession(sent)) &&
    (GoneOn(m, s) ==> Has(sent, STATUS_IN_PROGRESS)) &&
    (GoneOn(m, s) && !s.host.phase.Finished? && Has(s.up, STATUS_OK) ==> FakeSession(sent)) &&
    (s.host.phase.AwaitEnd? && s.host.future == Resolved(STATUS_OK) ==> FakeSession(sent)) &&
    (s.host.phase == Finished(true) ==> FakeSession(sent))
  }

  /** The host has taken an IN_PROGRESS for its answer. */
  predicate GoneOn(m: nat, s: Session) {
    (s.host.phase.AwaitBegin? && s.host.future == Resolved(STATUS_IN_PROGRESS)) ||
    s.host.phase.Sending? || s.host.phase.AwaitEnd? || s.sent > m + 1
  }

  lemma HostTakesStatus(ps: seq<Packet>, m: nat, sent: seq<byte>, s: Session)
    requires |ps| >= 2 && HostOk(m, sent, s) && PhaseOk(ps, m, s.host, s.sent) && s.up != []
    ensures HostOk(m, sent, Next(ps, s, StatusArrives))
  {
    var t := Next(ps, s, StatusArrives);
    assert s.up == [s.up[0]] + t.up;
    HasInSum([s.up[0]], t.up, STATUS_IN_PROGRESS);
    HasInSum([s.up[0]], t.up, STATUS_OK);
    FakeInSum([s.up[0]], t.up);
    assert [s.up[0]][0] == s.up[0];
  }

  lemma WithoutHas(u: seq<byte>, i: nat)
    requires i < |u|
    ensures forall b :: Has(Without(u, i), b) ==> Has(u, b)
    ensures FakeSession(Without(u, i)) ==> FakeSession(u)
  {
    var v := Without(u, i);
    assert forall k :: 0 <= k < |v| ==> v[k] == u[if k < i then k else k + 1];
    forall b | Has(v, b) ensures Has(u, b) {
      var k :| 0 <= k < |v| && v[k] == b;
      assert u[if k < i then k else k + 1] == b;
    }
    if FakeSession(v) {
      var k, l :| 0 <= k < l < |v| && v[k] == STATUS_IN_PROGRESS && v[l] == STATUS_OK;
      assert u[if k < i then k else k + 1] == STATUS_IN_PROGRESS && u[if l < i then l else l + 1] == STATUS_OK;
    }
  }

  lemma StatusGoesMissing(ps: seq<Packet>, m: nat, sent: seq<byte>, s: Session, i: nat)
    requires |ps| >= 2 && HostOk(m, sent, s) && i < |s.up|
    ensures HostOk(m, sent, Next(ps, s, StatusLost(i)))
  {
    WithoutHas(s.up, i);
  }

  lemma HostTurns(ps: seq<Packet>, m: nat, sent: seq<byte>, s: Session, e: Event)
    requires |ps| >= 2 && HostOk(m, sent, s) && PhaseOk(ps, m, s.host, s.sent)
    requires e.CoroutineWakes? || e.WaitExpires? || e.HostSends?
    ensures HostOk(m, sent, Next(ps, s, e)) && PhaseOk(ps, m, Next(ps, s, e).host, Next(ps, s, e).sent)
  {
  }

  lemma StatusComes(m: nat, sent: seq<byte>, s: Session, t: Session, status: seq<byte>)
    requires HostOk(m, sent, s) && t.host == s.host && t.sent == s.sent && t.up == s.up + status
    ensures HostOk(m, sent + status, t)
  {
    HasInSum(sent, status, STATUS_IN_PROGRESS);
    FakeInSum(sent, status);
    HasInSum(s.up, status, STATUS_IN_PROGRESS);
    HasInSum(s.up, status, STATUS_OK);
    FakeInSum(s.up, status);
  }

  // ---- every run is a history -----------------------------------------------------------

  /** The node is where the history leaves it, or has restarted since. */
  predicate Tracks(h: History, s: Session) {
    h.commits == s.commits && (s.node == h.node || s.node == Restarted(h.node))
  }

  /** The history a session stands for: the fates of all commands up to the last one taken. */
  predicate StandsFor(ps: seq<Packet>, from: Origin, s: Session, fates: seq<Fate>)
    requires |ps| >= 2
  {
    var all, m := Commands(ps, from), |from.older|;
    ChannelOk(all, s) && PhaseOk(ps, m, s.host, s.sent) && |fates| == s.handled &&
    var h := Fed(from.node, all, fates);
    Tracks(h, s) &&
    HostOk(m, from.left + h.statuses, s) && (!s.lost ==> forall f :: f in fates ==> f.Taken?)
  }

  lemma ChannelSends(ps: seq<Packet>, from: Origin, s: Session)
    requires |ps| >= 2 && ChannelOk(Commands(ps, from), s) && PhaseOk(ps, |from.older|, s.host, s.sent)
    ensures ChannelOk(Commands(ps, from), Next(ps, s, HostSends))
  {
    if s.host.phase.Sending? && s.host.phase.next <= |ps| - 2 {
      assert Commands(ps, from)[s.sent] == ps[s.host.phase.next + 1];
    }
  }

  lemma ChannelLoses(ps: seq<Packet>, all: seq<Packet>, s: Session, i: nat)
    requires |ps| >= 2 && ChannelOk(all, s) && i < |s.down|
    ensures ChannelOk(all, Next(ps, s, PacketLost(i)))
  {
    var t := Next(ps, s, PacketLost(i));
    assert forall k :: 0 <= k < |t.down| ==> t.down[k] == s.down[if k < i then k else k + 1];
  }

  lemma ChannelFirst(all: seq<Packet>, s: Session)
    requires ChannelOk(all, s) && s.down != []
    ensures var first := s.down[0];
      s.handled <= first.index < |all| && first.packet == all[first.index] && (!s.lost ==> first.index == s.handled)
  {
    assert !s.lost ==> s.down[0].index == s.handled + 0;
  }

  lemma ChannelDelivers(ps: seq<Packet>, all: seq<Packet>, s: Session, io: Io)
    requires |ps| >= 2 && ChannelOk(all, s) && s.down != []
    ensures ChannelOk(all, Next(ps, s, NodeHandles(io)))
  {
    var t := Next(ps, s, NodeHandles(io));
    assert forall k :: 0 <= k < |t.down| ==> t.down[k] == s.down[k + 1];
  }

  /** The fates up to command i, when those after the last one taken were lost. */
  function UpTo(fates: seq<Fate>, i: nat, f: Fate): (more: seq<Fate>)
    requires |fates| <= i
    ensures |more| == i + 1
  {
    fates + Losses(i - |fates|) + [f]
  }

  lemma FedUpTo(o: Ota, all: seq<Packet>, fates: seq<Fate>, i: nat, f: Fate)
    requires |fates| <= i < |all|
    ensures Fed(o, all, UpTo(fates, i, f)) == Take(Fed(o, all, fates), all[i], f)
  {
    LossesFeedNothing(o, all, fates, i - |fates|);
    FedSnoc(o, all, fates + Losses(i - |fates|), f);
  }

  lemma NothingLostUpTo(fates: seq<Fate>, f: Fate)
    requires f.Taken? && forall g :: g in fates ==> g.Taken?
    ensures forall g :: g in UpTo(fates, |fates|, f) ==> g.Taken?
  {
    assert UpTo(fates, |fates|, f) == fates + [f];
  }

  lemma TakeTracks(ps: seq<Packet>, h: History, s: Session, io: Io)
    requires |ps| >= 2 && Tracks(h, s) && s.down != []
    ensures var p := s.down[0].packet;
      var next := Take(h, p, Taken(io, s.node != h.node));
      Tracks(next, Next(ps, s, NodeHandles(io))) && next.statuses == h.statuses + Handle(s.node, p, io).status
  {
  }

  /** The node takes a command: those in front of it that did not arrive are lost for good. */
  lemma HandledStandsFor(ps: seq<Packet>, from: Origin, s: Session, fates: seq<Fate>, io: Io) returns (more: seq<Fate>)
    requires |ps| >= 2 && StandsFor(ps, from, s, fates) && s.down != []
    ensures StandsFor(ps, from, Next(ps, s, NodeHandles(io)), more)
  {
    var all, i := Commands(ps, from), s.down[0].index;
    var h := Fed(from.node, all, fates);
    var f := Taken(io, s.node != h.node);
    ChannelFirst(all, s);
    more := UpTo(fates, i, f);
    FedUpTo(from.node, all, fates, i, f);
    TakeTracks(ps, h, s, io);
    ChannelDelivers(ps, all, s, io);
    var status := Handle(s.node, s.down[0].packet, io).status;
    StatusComes(|from.older|, from.left + h.statuses, s, Next(ps, s, NodeHandles(io)), status);
    assert from.left + h.statuses + status == from.left + (h.statuses + status);
    if !s.lost {
      NothingLostUpTo(fates, f);
    }
  }

  /** What happens to the channels alone, and a restart, leave the history as it is. */
  lemma ChannelStandsFor(ps: seq<Packet>, from: Origin, s: Session, fates: seq<Fate>, e: Event)
    requires |ps| >= 2 && StandsFor(ps, from, s, fates)
    requires e.StatusArrives? || e.StatusLost? || e.PacketLost? || e.NodeRestarts?
    ensures StandsFor(ps, from, Next(ps, s, e), fates)
  {
    var all, m := Commands(ps, from), |from.older|;
    var sent := from.left + Fed(from.node, all, fates).statuses;
    match e
    case StatusArrives => if s.up != [] { HostTakesStatus(ps, m, sent, s); }
    case StatusLost(i) => if i < |s.up| { StatusGoesMissing(ps, m, sent, s, i); }
    case PacketLost(i) => if i < |s.down| { ChannelLoses(ps, all, s, i); }
    case NodeRestarts =>
  }

  lemma NextStandsFor(ps: seq<Packet>, from: Origin, s: Session, fates: seq<Fate>, e: Event) returns (more: seq<Fate>)
    requires |ps| >= 2 && StandsFor(ps, from, s, fates)
    ensures StandsFor(ps, from, Next(ps, s, e), more)
  {
    more := fates;
    if e.NodeHandles? {
      if s.down != [] { more := HandledStandsFor(ps, from, s, fates, e.io); }
    } else if e.HostSends? || e.CoroutineWakes? || e.WaitExpires? {
      HostTurns(ps, |from.older|, from.left + Fed(from.node, Commands(ps, from), fates).statuses, s, e);
      ChannelSends(ps, from, s);
    } else {
      ChannelStandsFor(ps, from, s, fates, e);
    }
  }

  lemma StartStandsFor(ps: seq<Packet>, from: Origin)
    requires |ps| >= 2
    ensures StandsFor(ps, from, Start(ps, from), [])
  {
    assert from.left + [] == from.left;
    var down := from.older + [ps[0]];
    assert forall k :: 0 <= k < |down| ==> down[k] == Commands(ps, from)[k];
  }

  /** Every run comes down to a history of the node fed the commands in order: the same
      commits, and the host was told what it was told by statuses sent in that order. */
  lemma {:induction false} RunIsHistory(ps: seq<Packet>, from: Origin, events: seq<Event>) returns (fates: seq<Fate>)
    requires |ps| >= 2
    ensures StandsFor(ps, from, Run(ps, Start(ps, from), events), fates)
  {
    if events == [] {
      fates := [];
      StartStandsFor(ps, from);
    } else {
      var n := |events| - 1;
      var before := RunIsHistory(ps, from, events[..n]);
      fates := NextStandsFor(ps, from, Run(ps, Start(ps, from), events[..n]), before, events[n]);
    }
  }

  // ---- putting runs together ------------------------------------------------------------

  lemma {:induction false} RunAppend(ps: seq<Packet>, s: Session, a: seq<Event>, b: seq<Event>)
    requires |ps| >= 2
    ensures Run(ps, s, a + b) == Run(ps, Run(ps, s, a), b)
  {
    if b == [] {
      assert a + b == a;
    } else {
      var n := |b| - 1;
      RunAppend(ps, s, a, b[..n]);
      assert (a + b)[..|a + b| - 1] == a + b[..n];
    }
  }

  lemma OneStep(ps: seq<Packet>, s: Session, events: seq<Event>, e: Event)
    requires |ps| >= 2
    ensures Run(ps, s, events + [e]) == Next(ps, Run(ps, s, events), e)
  {
    assert (events + [e])[..|events + [e]| - 1] == events;
  }
}
