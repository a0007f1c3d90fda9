/** The host's watch over nodes with an active heater. A pass over the nodes waits whenever it
    raises an alarm, and the setters may run meanwhile. */
module Heartbeat {
  import opened Protocol

  /** Seconds of silence after which a node is given up. */
  const TIMEOUT := 2.0

  /** The two dictionaries, and the pass under way: its time, the nodes of its snapshot not
      yet visited, and the node whose alarm it is waiting for. */
  datatype State = State(
    lastHb: map<int, real>, active: map<int, bool>,
    now: real, todo: set<int>, calling: Option<int>
  )

  const START := State(map[], map[], 0.0, {}, None)

  datatype Event =
    | SetActive(node: int, on: bool, time: real)
    | Response(node: int, time: real)
    | Wake(time: real)
    | Visit(node: int, connected: bool)
    | Return

  predicate IsActive(s: State, n: int) {
    n in s.active && s.active[n]
  }

  predicate Late(lastHb: map<int, real>, n: int, now: real) {
    var last := if n in lastHb then lastHb[n] else now;
    now - last > TIMEOUT
  }

  /** The next node of a pass can be visited. */
  predicate Due(s: State, n: int) {
    s.calling.None? && n in s.todo
  }

  predicate Fires(s: State, e: Event, n: int) {
    e.Visit? && e.node == n && Due(s, n) && e.connected && Late(s.lastHb, n, s.now)
  }

  function Watched(active: map<int, bool>): set<int> {
    set n | n in active && active[n]
  }

  function Silent(nodes: set<int>, lastHb: map<int, real>, now: real): set<int> {
    set n | n in nodes && Late(lastHb, n, now)
  }

  function Next(s: State, e: Event): State {
    match e
    case SetActive(n, on, time) =>
      s.(active := s.active[n := on], lastHb := if on then s.lastHb[n := time] else s.lastHb)
    case Response(n, time) => s.(lastHb := s.lastHb[n := time])
    case Wake(time) =>
      if s.calling.None? && s.todo == {} then s.(now := time, todo := Watched(s.active)) else s
    case Visit(n, _) =>
      if Due(s, n) then s.(todo := s.todo - {n}, calling := if Fires(s, e, n) then Some(n) else None) else s
    case Return =>
      if s.calling.Some? then s.(active := s.active[s.calling.value := false], calling := None) else s
  }

  function Run(s: State, events: seq<Event>): State {
    if events == [] then s else Next(Run(s, events[..|events| - 1]), events[|events| - 1])
  }

  // ---- when an alarm is raised ----------------------------------------------------------

  /** A sign of life: a response, or the activation the watch begins with. */
  predicate Sign(e: Event, n: int) {
    (e.Response? && e.node == n) || (e.SetActive? && e.on && e.node == n)
  }

  predicate Timed(e: Event) {
    e.SetActive? || e.Response? || e.Wake?
  }

  /** The clock does not go back. */
  predicate Ordered(events: seq<Event>) {
    forall i, j :: 0 <= i < j < |events| && Timed(events[i]) && Timed(events[j]) ==> events[i].time <= events[j].time
  }

  predicate SignAt(events: seq<Event>, i: int, n: int) {
    0 <= i < |events| && Sign(events[i], n)
  }

  /** The time noted for a node is that of its last sign of life; a node that is watched has
      given one. */
  ghost predicate Knows(s: State, events: seq<Event>, n: int) {
    (n in s.lastHb <==> exists i :: SignAt(events, i, n)) &&
    (n in s.lastHb ==> exists i :: SignAt(events, i, n) && events[i].time == s.lastHb[n]) &&
    (n in s.lastHb ==> forall i :: SignAt(events, i, n) ==> events[i].time <= s.lastHb[n]) &&
    (IsActive(s, n) || n in s.todo ==> n in s.lastHb)
  }

  lemma {:induction false} RunsKnow(events: seq<Event>, n: int)
    requires Ordered(events)
    ensures Knows(Run(START, events), events, n)
  {
    if events != [] {
      var last := |events| - 1;
      var before, e := events[..last], events[last];
      RunsKnow(before, n);
      var was, s := Run(START, before), Run(START, events);
      forall i | SignAt(events, i, n) && i < last ensures SignAt(before, i, n) {
      }
      if Sign(e, n) {
        assert SignAt(events, last, n);
      } else if n in s.lastHb {
        var i :| SignAt(before, i, n) && before[i].time == was.lastHb[n];
        assert SignAt(events, i, n);
      }
    }
  }

  /** A visit of a connected node raises the alarm if and only if every sign of life the node
      ever gave is more than two seconds older than the pass. */
  lemma FiresIff(events: seq<Event>, n: int)
    requires Ordered(events) && Due(Run(START, events), n)
    ensures var s := Run(START, events);
      Fires(s, Visit(n, true), n) <==> forall i :: SignAt(events, i, n) ==> s.now - events[i].time > 2.0
  {
    RunsKnow(events, n);
    var s := Run(START, events);
    var i :| SignAt(events, i, n) && events[i].time == s.lastHb[n];
  }

  // ---- how often ------------------------------------------------------------------------

  function Alarms(s: State, events: seq<Event>, n: int): nat {
    if events == [] then 0
    else
      var before := events[..|events| - 1];
      Alarms(s, before, n) + if Fires(Run(s, before), events[|events| - 1], n) then 1 else 0
  }

  predicate NotActivated(events: seq<Event>, n: int) {
    forall e :: e in events ==> !(e.SetActive? && e.on && e.node == n)
  }

  /** An alarm for the node can still come without a new activation. */
  predicate Armed(s: State, n: int) {
    n in s.todo || (IsActive(s, n) && s.calling != Some(n))
  }

  /** Each activation is good for one alarm: until the next there is at most one, and none
      once the node is neither watched nor in the snapshot of the pass under way. */
  lemma {:induction false} OneAlarmPerActivation(s: State, events: seq<Event>, n: int)
    requires NotActivated(events, n)
    ensures Alarms(s, events, n) + (if Armed(Run(s, events), n) then 1 else 0) <= if Armed(s, n) then 1 else 0
  {
    if events != [] {
      OneAlarmPerActivation(s, events[..|events| - 1], n);
      assert events[|events| - 1] in events;
    }
  }

  // ---- a watch switched off during a pass -----------------------------------------------

  /** The clock has reached the pass under way. */
  predicate NoEarlier(events: seq<Event>, now: real) {
    forall e :: e in events && Timed(e) ==> e.time >= now
  }

  /** The pass under way will find the node silent, if it finds it connected. */
  predicate WillAlarm(s: State, n: int) {
    n in s.todo && Late(s.lastHb, n, s.now)
  }

  /** A node that is switched off can only be alarmed by the pass under way. */
  predicate OffTrack(s: State, n: int, was: State) {
    !IsActive(s, n) && (n in s.todo ==> s.now == was.now) && (WillAlarm(s, n) ==> WillAlarm(was, n))
  }

  lemma {:induction false} OffStaysOff(s: State, events: seq<Event>, n: int)
    requires !IsActive(s, n) && NotActivated(events, n) && NoEarlier(events, s.now)
    ensures OffTrack(Run(s, events), n, s)
    ensures Alarms(s, events, n) > 0 ==> WillAlarm(s, n)
  {
    if events != [] {
      var before, e := events[..|events| - 1], events[|events| - 1];
      OffStaysOff(s, before, n);
      assert e in events;
      OffNext(Run(s, before), e, n, s);
    }
  }

  lemma OffNext(s: State, e: Event, n: int, was: State)
    requires OffTrack(s, n, was) && !(e.SetActive? && e.on && e.node == n) && (Timed(e) ==> e.time >= was.now)
    ensures OffTrack(Next(s, e), n, was) && (Fires(s, e, n) ==> WillAlarm(was, n))
  {
  }

  /** The pass goes by its snapshot: a node whose watch is switched off can still be alarmed,
      without a new activation, if and only if it is in the snapshot, not yet visited, and
      already silent for too long. */
  lemma OffCanAlarmIff(s: State, n: int)
    requires !IsActive(s, n)
    ensures (exists events :: NotActivated(events, n) && NoEarlier(events, s.now) && Alarms(s, events, n) > 0) <==>
      WillAlarm(s, n)
  {
    if WillAlarm(s, n) {
      var events := if s.calling.Some? then [Return, Visit(n, true)] else [Visit(n, true)];
      assert events[..|events| - 1] == if s.calling.Some? then [Return] else [];
      assert s.calling.Some? ==> [Return][..0] == [];
      assert NotActivated(events, n) && NoEarlier(events, s.now) && Alarms(s, events, n) > 0;
    }
    forall events | NotActivated(events, n) && NoEarlier(events, s.now) && Alarms(s, events, n) > 0
      ensures WillAlarm(s, n)
    {
      OffStaysOff(s, events, n);
    }
  }

  /** Two nodes are watched and fall silent; the pass waits for the first one's alarm while the
      second one's watch is switched off. */
  const SWITCHED_OFF: seq<Event> :=
    [SetActive(1, true, 0.0)] + [SetActive(2, true, 0.0)] + [Wake(3.0)] + [Visit(1, true)] + [SetActive(2, false, 3.5)]

  /** It is alarmed all the same. */
  lemma SwitchedOffStillAlarms()
    ensures var s := Run(START, SWITCHED_OFF);
      !IsActive(s, 2) && Alarms(s, [Return, Visit(2, true)], 2) == 1
  {
    var e1 := [SetActive(1, true, 0.0)];
    var e2 := e1 + [SetActive(2, true, 0.0)];
    var e3 := e2 + [Wake(3.0)];
    var e4 := e3 + [Visit(1, true)];
    assert [] + e1 == e1;
    OneMore(START, [], e1[0]);
    OneMore(START, e1, SetActive(2, true, 0.0));
    OneMore(START, e2, Wake(3.0));
    assert Run(START, e3).todo == {1, 2};
    OneMore(START, e3, Visit(1, true));
    OneMore(START, e4, SetActive(2, false, 3.5));
    var s := Run(START, SWITCHED_OFF);
    assert s.calling == Some(1) && 2 in s.todo && s.now == 3.0 && s.lastHb[2] == 0.0;
    assert [] + [Return] == [Return] && [Return] + [Visit(2, true)] == [Return, Visit(2, true)];
    OneMore(s, [], Return);
    OneMore(s, [Return], Visit(2, true));
  }

  // ---- an activation during the alarm ---------------------------------------------------

  /** Nothing else is said about the node's heater and no alarm is raised for it. */
  predicate LeftAlone(s: State, events: seq<Event>, n: int) {
    Alarms(s, events, n) == 0 && forall e :: e in events && e.SetActive? ==> e.node != n
  }

  /** An activation lasts if and only if it does not come while the pass waits for that
      node's alarm: the pass switches the watch off when the call returns. */
  lemma {:induction false} ActivationLastsIff(s: State, time: real, events: seq<Event>, n: int)
    requires LeftAlone(Next(s, SetActive(n, true, time)), events, n)
    ensures var after := Run(Next(s, SetActive(n, true, time)), events);
      if s.calling == Some(n) then after.calling == Some(n) || !IsActive(after, n)
      else after.calling != Some(n) && IsActive(after, n)
  {
    if events != [] {
      ActivationLastsIff(s, time, events[..|events| - 1], n);
      assert events[|events| - 1] in events;
    }
  }

  // ---- the component --------------------------------------------------------------------

  class HeartbeatMonitor {
    var lastHb: map<int, real>
    var heaterActive: map<int, bool>

    ghost function AtRest(now: real): State
      reads this
    {
      State(lastHb, heaterActive, now, {}, None)
    }

    constructor ()
      ensures AtRest(0.0) == START
    {
      lastHb, heaterActive := map[], map[];
    }

    method SetHeaterActive(node: int, active: bool, time: real)
      modifies this
      ensures forall now :: AtRest(now) == Next(old(AtRest(now)), SetActive(node, active, time))
    {
      heaterActive := heaterActive[node := active];
      if active {
        lastHb := lastHb[node := time];
      }
    }

    method OnHeartbeatResponse(node: int, time: real)
      modifies this
      ensures forall now :: AtRest(now) == Next(old(AtRest(now)), Response(node, time))
    {
      lastHb := lastHb[node := time];
    }

    /** One pass of `run` that nothing disturbs, over the dictionary's keys in its order: the
        nodes asked for a heartbeat, the alarms raised, and the events of the pass. */
    method Pass(now: real, keys: seq<int>, connected: set<int>, ghost lastPass: real)
      returns (asked: set<int>, alarms: set<int>, ghost log: seq<Event>)
      requires KeysOf(keys, heaterActive)
      modifies this`heaterActive
      ensures asked == Watched(old(heaterActive)) * connected
      ensures alarms == Silent(asked, lastHb, now)
      ensures heaterActive == SwitchedOff(old(heaterActive), alarms)
      ensures AtRest(now) == Run(old(AtRest(lastPass)), log)
      ensures forall n :: Alarms(old(AtRest(lastPass)), log, n) == if n in alarms then 1 else 0
    {
      var snapshot := heaterActive;
      ghost var was := AtRest(lastPass);
      asked, alarms, log := {}, {}, [Wake(now)];
      LogWake(was, now, keys);
      for k := 0 to |keys|
        invariant PassSoFar(snapshot, keys, k, connected, lastHb, now, asked, alarms)
        invariant heaterActive == SwitchedOff(snapshot, alarms)
        invariant Logged(was, log, State(lastHb, heaterActive, now, ToVisit(snapshot, keys, k), None), alarms)
      {
        var node := keys[k];
        OneKeyMore(snapshot, keys, k, connected, lastHb, now, asked, alarms);
        if !snapshot[node] {
          continue;
        }
        ghost var s := State(lastHb, heaterActive, now, ToVisit(snapshot, keys, k), None);
        if node !in connected {
          LogVisit(was, log, s, alarms, node, false);
          log := log + [Visit(node, false)];
          continue;
        }
        asked := asked + {node};
        if Late(lastHb, node, now) {
          LogAlarm(was, log, s, alarms, node);
          log := log + [Visit(node, true)] + [Return];
          alarms := alarms + {node};
          SwitchedOffOneMore(snapshot, alarms - {node}, node);
          heaterActive := heaterActive[node := false];
        } else {
          LogVisit(was, log, s, alarms, node, true);
          log := log + [Visit(node, true)];
        }
      }
    }
  }

  ghost predicate KeysOf(keys: seq<int>, active: map<int, bool>) {
    (forall n :: n in keys <==> n in active) && forall i, j :: 0 <= i < j < |keys| ==> keys[i] != keys[j]
  }

  function ToVisit(active: map<int, bool>, keys: seq<int>, k: nat): set<int>
    requires k <= |keys|
  {
    set n | n in keys[k..] && n in active && active[n]
  }

  /** What the first k keys of a pass led to. */
  predicate PassSoFar(active: map<int, bool>, keys: seq<int>, k: nat, connected: set<int>, lastHb: map<int, real>,
                      now: real,
                      asked: set<int>, alarms: set<int>) {
    k <= |keys| && asked == (Watched(active) - ToVisit(active, keys, k)) * connected &&
    alarms == Silent(asked, lastHb, now)
  }

  lemma OneKeyMore(active: map<int, bool>, keys: seq<int>, k: nat, connected: set<int>, lastHb: map<int, real>,
                   now: real,
                   asked: set<int>, alarms: set<int>)
    requires KeysOf(keys, active) && k < |keys| && PassSoFar(active, keys, k, connected, lastHb, now, asked, alarms)
    ensures keys[k] in active && keys[k] !in asked && keys[k] !in alarms
    ensures !active[keys[k]] ==> ToVisit(active, keys, k + 1) == ToVisit(active, keys, k)
    ensures active[keys[k]] ==> keys[k] in ToVisit(active, keys, k)
    ensures active[keys[k]] ==> ToVisit(active, keys, k + 1) == ToVisit(active, keys, k) - {keys[k]}
    ensures var asks := active[keys[k]] && keys[k] in connected;
      var more, late := if asks then {keys[k]} else {}, if asks && Late(lastHb, keys[k], now) then {keys[k]} else {};
      PassSoFar(active, keys, k + 1, connected, lastHb, now, asked + more, alarms + late)
  {
    var node := keys[k];
    assert node in keys && keys[k..] == [node] + keys[k + 1..];
    assert node !in keys[k + 1..];
    var before, rest := ToVisit(active, keys, k), ToVisit(active, keys, k + 1);
    if active[node] {
      assert rest == before - {node};
      assert (Watched(active) - rest) * connected
        == (Watched(active) - before) * connected + if node in connected then {node} else {};
    } else {
      assert rest == before;
    }
  }

  function SwitchedOff(active: map<int, bool>, alarms: set<int>): map<int, bool> {
    map n | n in active :: active[n] && n !in alarms
  }

  /** The events so far lead to state s, with one alarm for each of the nodes. */
  ghost predicate Logged(was: State, log: seq<Event>, s: State, alarms: set<int>) {
    s == Run(was, log) && forall n :: Alarms(was, log, n) == if n in alarms then 1 else 0
  }

  lemma OneMore(s: State, events: seq<Event>, e: Event)
    ensures Run(s, events + [e]) == Next(Run(s, events), e)
    ensures forall n ::
      Alarms(s, events + [e], n) == Alarms(s, events, n) + if Fires(Run(s, events), e, n) then 1 else 0
  {
    assert (events + [e])[..|events|] == events;
  }

  lemma LogWake(was: State, now: real, keys: seq<int>)
    requires was.calling.None? && was.todo == {} && KeysOf(keys, was.active)
    ensures Logged(was, [Wake(now)], was.(now := now, todo := ToVisit(was.active, keys, 0)), {})
    ensures ToVisit(was.active, keys, 0) == Watched(was.active)
  {
    assert keys[0..] == keys;
    forall n ensures n in ToVisit(was.active, keys, 0) <==> n in Watched(was.active) {
      assert n in keys <==> n in was.active;
    }
    assert ToVisit(was.active, keys, 0) == Watched(was.active);
    assert [] + [Wake(now)] == [Wake(now)];
    OneMore(was, [], Wake(now));
  }

  lemma SwitchedOffOneMore(active: map<int, bool>, alarms: set<int>, node: int)
    requires node in active
    ensures SwitchedOff(active, alarms + {node}) == SwitchedOff(active, alarms)[node := false]
  {
  }

  lemma LogVisit(was: State, log: seq<Event>, s: State, alarms: set<int>, node: int, connected: bool)
    requires Logged(was, log, s, alarms) && Due(s, node) && !(connected && Late(s.lastHb, node, s.now))
    ensures Logged(was, log + [Visit(node, connected)], s.(todo := s.todo - {node}), alarms)
  {
    OneMore(was, log, Visit(node, connected));
  }

  lemma LogAlarm(was: State, log: seq<Event>, s: State, alarms: set<int>, node: int)
    requires Logged(was, log, s, alarms) && Due(s, node) && Late(s.lastHb, node, s.now) && node !in alarms
    ensures Logged(was, log + [Visit(node, true)] + [Return],
      s.(todo := s.todo - {node}, active := s.active[node := false]), alarms + {node})
  {
    OneMore(was, log, Visit(node, true));
    OneMore(was, log + [Visit(node, true)], Return);
  }
}
