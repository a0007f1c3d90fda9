/** The heater's control task and the radio callbacks that set its target and stop it,
    interleaved at the grain of their reads and writes of shared state. */
module Heater {

  /** Where the control task stands in its loop. */
  datatype Task =
    | Asleep                  // in the delay, about to look at the flag
    | Cleared                 // saw no emergency
    | Measured(err: real)     // temperature and target read
    | Decided(duty: int)      // about to set the duty
    | Staged                  // about to update it
    | Stopping                // saw an emergency, about to set the duty to 0
    | StopStaged              // about to update it

  /** Where the radio's callbacks stand; they run one after the other. */
  datatype Radio =
    | Idle
    | TargetStored            // heater_set_target, about to clear the flag
    | Raised                  // heater_emergency_off, about to set the duty to 0
    | OffStaged               // about to update it

  /** staged is the duty set last, duty the one the timer runs with since the last update. */
  datatype State = State(
    target: real, kp: real, ki: real, kd: real, emergency: bool, staged: int, duty: int,
    integral: real, prevErr: real, task: Task, radio: Radio
  )

  const START := State(0.0, 1.0, 0.1, 0.01, false, 0, 0, 0.0, 0.0, Asleep, Idle)

  /** The task's next access, with what the sensor would read at that moment; a new call of
      one of the setters; or the next access of the call under way. */
  datatype Action =
    | TaskStep(temp: real)
    | SetTarget(temp: real)
    | SetPid(kp: real, ki: real, kd: real)
    | EmergencyOff
    | RadioStep

  /** The controller's output as the 8-bit duty: clamped, then truncated. */
  function Clamp(out: real): (d: int)
    ensures 0 <= d <= 255
  {
    if out < 0.0 then 0 else if out > 255.0 then 255 else out.Floor
  }

  /** The controller; the loop's period is a tenth of a second. */
  function Control(kp: real, ki: real, kd: real, err: real, integral: real, prevErr: real): int {
    Clamp(kp * err + ki * integral + kd * ((err - prevErr) / 0.1))
  }

  function TaskNext(s: State, temp: real): State {
    match s.task
    case Asleep => s.(task := if s.emergency then Stopping else Cleared)
    case Cleared =>
      var err := s.target - temp;
      s.(integral := s.integral + err * 0.1, task := Measured(err))
    case Measured(err) =>
      s.(prevErr := err, task := Decided(Control(s.kp, s.ki, s.kd, err, s.integral, s.prevErr)))
    case Decided(d) => s.(staged := d, task := Staged)
    case Staged => s.(duty := s.staged, task := Asleep)
    case Stopping => s.(staged := 0, task := StopStaged)
    case StopStaged => s.(duty := s.staged, task := Asleep)
  }

  /** A setter is not called while another is under way. */
  function Next(s: State, a: Action): State {
    match a
    case TaskStep(temp) => TaskNext(s, temp)
    case SetTarget(temp) => if s.radio.Idle? then s.(target := temp, radio := TargetStored) else s
    case SetPid(kp, ki, kd) => if s.radio.Idle? then s.(kp := kp, ki := ki, kd := kd) else s
    case EmergencyOff => if s.radio.Idle? then s.(emergency := true, radio := Raised) else s
    case RadioStep =>
      match s.radio
      case Idle => s
      case TargetStored => s.(emergency := false, radio := Idle)
      case Raised => s.(staged := 0, radio := OffStaged)
      case OffStaged => s.(duty := s.staged, radio := Idle)
  }

  function Run(s: State, actions: seq<Action>): State {
    if actions == [] then s else Next(Run(s, actions[..|actions| - 1]), actions[|actions| - 1])
  }

  // ---- the duty and the integral --------------------------------------------------------

  predicate Bounded(s: State) {
    0 <= s.staged <= 255 && 0 <= s.duty <= 255 && (s.task.Decided? ==> 0 <= s.task.duty <= 255) &&
    (s.task.StopStaged? ==> s.staged == 0)
  }

  lemma {:induction false} DutyStaysInRange(actions: seq<Action>)
    ensures Bounded(Run(START, actions))
  {
    if actions != [] {
      DutyStaysInRange(actions[..|actions| - 1]);
    }
  }

  /** The errors measured in a run: one for each iteration that saw no emergency, the target
      of that moment minus the temperature. */
  function Errors(actions: seq<Action>): seq<real> {
    if actions == [] then []
    else
      var before, a := actions[..|actions| - 1], actions[|actions| - 1];
      var s := Run(START, before);
      Errors(before) + if a.TaskStep? && s.task.Cleared? then [s.target - a.temp] else []
  }

  function Sum(xs: seq<real>): real {
    if xs == [] then 0.0 else Sum(xs[..|xs| - 1]) + xs[|xs| - 1]
  }

  function LastOf(xs: seq<real>): real {
    if xs == [] then 0.0 else xs[|xs| - 1]
  }

  predicate Remembers(s: State, errors: seq<real>) {
    s.integral == Sum(errors) * 0.1 &&
    if s.task.Measured? then errors != [] && s.task.err == LastOf(errors) && s.prevErr == LastOf(errors[..|errors| - 1])
    else s.prevErr == LastOf(errors)
  }

  lemma Appended(errors: seq<real>, err: real)
    ensures var more := errors + [err];
      Sum(more) == Sum(errors) + err && LastOf(more) == err && more[..|more| - 1] == errors
  {
    assert (errors + [err])[..|errors|] == errors;
  }

  lemma StepRemembers(s: State, errors: seq<real>, a: Action)
    requires Remembers(s, errors)
    ensures var measures := a.TaskStep? && s.task.Cleared?;
      Remembers(Next(s, a), if measures then errors + [s.target - a.temp] else errors)
  {
    if a.TaskStep? && s.task.Cleared? {
      Appended(errors, s.target - a.temp);
    }
  }

  /** In every run the task remembers the history exactly: the integral is the sum of the
      errors times the period, and the previous error is the one measured before. */
  lemma {:induction false} IntegralIsSum(actions: seq<Action>)
    ensures Remembers(Run(START, actions), Errors(actions))
  {
    if actions != [] {
      var before, a := actions[..|actions| - 1], actions[|actions| - 1];
      IntegralIsSum(before);
      StepRemembers(Run(START, before), Errors(before), a);
      assert Errors(before) + [] == Errors(before);
    }
  }

  /** The 8-bit duty for an output: zero below zero, full above 255, and truncated between. */
  predicate DutyFor(out: real, d: int) {
    (out < 0.0 ==> d == 0) && (out > 255.0 ==> d == 255) &&
    (0.0 <= out <= 255.0 ==> d as real <= out < d as real + 1.0)
  }

  lemma ClampIsDuty(out: real)
    ensures DutyFor(out, Clamp(out))
  {
  }

  /** A product, kept in one piece. */
  function Times(a: real, b: real): real {
    a * b
  }

  /** The sum of the controller's three terms: of the error, of the integral and of the change
      of the error over the period. */
  function Output(kp: real, ki: real, kd: real, err: real, integral: real, prevErr: real): real {
    Times(kp, err) + Times(ki, integral) + Times(kd, (err - prevErr) / 0.1)
  }

  lemma ControlIsDuty(kp: real, ki: real, kd: real, err: real, integral: real, prevErr: real)
    ensures DutyFor(Output(kp, ki, kd, err, integral, prevErr), Control(kp, ki, kd, err, integral, prevErr))
  {
    ClampIsDuty(Output(kp, ki, kd, err, integral, prevErr));
  }

  lemma DutyOfMemory(s: State, temp: real)
    requires s.task.Measured?
    ensures Next(s, TaskStep(temp)).task.Decided?
    ensures DutyFor(Output(s.kp, s.ki, s.kd, s.task.err, s.integral, s.prevErr), Next(s, TaskStep(temp)).task.duty)
  {
    ControlIsDuty(s.kp, s.ki, s.kd, s.task.err, s.integral, s.prevErr);
  }

  lemma DutyOfTerms(s: State, temp: real, errors: seq<real>, gains: Settings)
      returns (err: real, integral: real, prevErr: real, out: real, duty: int)
    requires s.task.Measured? && Remembers(s, errors) && gains == Settings(s.target, s.kp, s.ki, s.kd)
    ensures errors != [] && err == errors[|errors| - 1] && integral == Sum(errors) * 0.1
    ensures prevErr == if |errors| == 1 then 0.0 else errors[|errors| - 2]
    ensures out == gains.kp * err + gains.ki * integral + gains.kd * ((err - prevErr) / 0.1)
    ensures Next(s, TaskStep(temp)).task == Decided(duty) && DutyFor(out, duty)
  {
    err, integral, prevErr := s.task.err, s.integral, s.prevErr;
    out, duty := Output(s.kp, s.ki, s.kd, err, integral, prevErr), Control(s.kp, s.ki, s.kd, err, integral, prevErr);
    DutyOfMemory(s, temp);
    OutputInFull(s.kp, s.ki, s.kd, err, integral, prevErr);
  }

  /** So every duty the task decides on is the truncated sum of the controller's three terms
      under the gains in force: of the last error, of the period times the sum of all of them,
      and of the last change over the period. */
  lemma DutyFollowsHistory(actions: seq<Action>, temp: real)
      returns (gains: Settings, err: real, integral: real, prevErr: real, out: real, duty: int)
    requires Run(START, actions).task.Measured?
    ensures var errors := Errors(actions);
      errors != [] && err == errors[|errors| - 1] && integral == Sum(errors) * 0.1 &&
      prevErr == if |errors| == 1 then 0.0 else errors[|errors| - 2]
    ensures gains == LastSet(actions)
    ensures out == gains.kp * err + gains.ki * integral + gains.kd * ((err - prevErr) / 0.1)
    ensures Next(Run(START, actions), TaskStep(temp)).task == Decided(duty)
    ensures (out < 0.0 ==> duty == 0) && (out > 255.0 ==> duty == 255)
    ensures 0.0 <= out <= 255.0 ==> duty as real <= out < duty as real + 1.0
  {
    IntegralIsSum(actions);
    SettingsInForce(actions);
    gains := LastSet(actions);
    err, integral, prevErr, out, duty := DutyOfTerms(Run(START, actions), temp, Errors(actions), gains);
  }

  lemma OutputInFull(kp: real, ki: real, kd: real, err: real, integral: real, prevErr: real)
    ensures Output(kp, ki, kd, err, integral, prevErr) == kp * err + ki * integral + kd * ((err - prevErr) / 0.1)
  {
  }

  /** An ordinary case: initial gains, target 200, a first reading of 190 and a duty of 11. */
  lemma FirstDuty(temp: real)
    ensures var s := Run(START, [SetTarget(200.0), RadioStep] + [TaskStep(0.0), TaskStep(190.0), TaskStep(temp)]);
      s.task == Decided(11)
  {
    var given, go := [SetTarget(200.0), RadioStep], [TaskStep(0.0), TaskStep(190.0), TaskStep(temp)];
    RunAppend(START, given, go);
    Twice(START, SetTarget(200.0), RadioStep);
    Thrice(Run(START, given), TaskStep(0.0), TaskStep(190.0), TaskStep(temp));
  }

  // ---- what is in force -----------------------------------------------------------------

  datatype Settings = Settings(target: real, kp: real, ki: real, kd: real)

  /** The settings are those of the last calls that were made: a setter is not called while
      another is under way. */
  function LastSet(actions: seq<Action>): Settings {
    if actions == [] then Settings(0.0, 1.0, 0.1, 0.01)
    else
      var before, a := actions[..|actions| - 1], actions[|actions| - 1];
      var was := LastSet(before);
      if !Run(START, before).radio.Idle? then was
      else
        match a
        case SetTarget(temp) => was.(target := temp)
        case SetPid(p, i, d) => was.(kp := p, ki := i, kd := d)
        case _ => was
  }

  lemma {:induction false} SettingsInForce(actions: seq<Action>)
    ensures var s := Run(START, actions); LastSet(actions) == Settings(s.target, s.kp, s.ki, s.kd)
  {
    if actions != [] {
      SettingsInForce(actions[..|actions| - 1]);
    }
  }

  // ---- the emergency --------------------------------------------------------------------

  predicate NoNewTarget(actions: seq<Action>) {
    forall a :: a in actions ==> !a.SetTarget?
  }

  /** The task looked at the flag before it was raised and has not set its duty yet. */
  predicate Stale(t: Task) {
    t.Cleared? || t.Measured? || t.Decided? || t.Staged?
  }

  /** How often the task gives the timer a duty it decided on itself. */
  function OwnWrites(s: State, actions: seq<Action>): nat {
    if actions == [] then 0
    else
      var before, a := actions[..|actions| - 1], actions[|actions| - 1];
      OwnWrites(s, before) + if a.TaskStep? && Run(s, before).task.Staged? then 1 else 0
  }

  predicate Alarmed(s: State) {
    s.emergency && !s.radio.TargetStored?
  }

  /** While no new target is set the flag stays up, and the task gets at most one of its own
      duties out: none if it was not already past the flag. */
  lemma {:induction false} OneStaleWrite(s: State, actions: seq<Action>)
    requires Alarmed(s) && NoNewTarget(actions)
    ensures var after := Run(s, actions);
      Alarmed(after) &&
      OwnWrites(s, actions) + (if Stale(after.task) then 1 else 0) <= if Stale(s.task) then 1 else 0
  {
    if actions != [] {
      OneStaleWrite(s, actions[..|actions| - 1]);
      assert actions[|actions| - 1] in actions;
    }
  }

  /** Accesses the task makes until an iteration that saw the flag is complete. */
  function StepsToOff(t: Task): nat {
    match t
    case Cleared => 7
    case Measured(_) => 6
    case Decided(_) => 5
    case Staged => 4
    case Asleep => 3
    case Stopping => 2
    case StopStaged => 1
  }

  function TaskSteps(actions: seq<Action>): nat {
    if actions == [] then 0
    else TaskSteps(actions[..|actions| - 1]) + if actions[|actions| - 1].TaskStep? then 1 else 0
  }

  /** The timer is off and nothing can switch it on but a new target. */
  predicate Off(s: State) {
    Alarmed(s) && s.duty == 0 && s.staged == 0 && !Stale(s.task)
  }

  /** However the callbacks interleave, once the task has made the accesses that complete an
      iteration that saw the flag, the heater is off, and stays off until a new target. */
  lemma {:induction false} EmergencyTakesEffect(s: State, actions: seq<Action>)
    requires Bounded(s) && Alarmed(s) && NoNewTarget(actions)
    ensures var after, left := Run(s, actions), StepsToOff(s.task) - TaskSteps(actions);
      Bounded(after) && Alarmed(after) && if left > 0 then StepsToOff(after.task) == left else Off(after)
  {
    if actions != [] {
      EmergencyTakesEffect(s, actions[..|actions| - 1]);
      assert actions[|actions| - 1] in actions;
    }
  }

  lemma {:induction false} OffStaysOff(s: State, actions: seq<Action>)
    requires Off(s) && NoNewTarget(actions)
    ensures Off(Run(s, actions))
  {
    if actions != [] {
      OffStaysOff(s, actions[..|actions| - 1]);
      assert actions[|actions| - 1] in actions;
    }
  }

  // ---- when the call itself is enough ---------------------------------------------------

  /** How many accesses the radio's calls have made; the second one ends the emergency call. */
  function RadioSteps(actions: seq<Action>): nat {
    if actions == [] then 0
    else RadioSteps(actions[..|actions| - 1]) + if actions[|actions| - 1].RadioStep? then 1 else 0
  }

  /** What happens from the call on: no new target, and new gains only where they are allowed
      to come without one. */
  predicate Allowed(actions: seq<Action>, retuned: bool) {
    forall a :: a in actions ==> !a.SetTarget? && (a.SetPid? ==> retuned)
  }

  /** With the gains it has, the task can still come to set a duty that is not zero. */
  predicate Overtaking(s: State) {
    match s.task
    case Cleared => Slope(s) != 0.0 || Offset(s) >= 1.0
    case Measured(err) => Control(s.kp, s.ki, s.kd, err, s.integral, s.prevErr) != 0
    case Decided(d) => d != 0
    case _ => false
  }

  /** The controller's next output is linear in the error it will measure. */
  function Slope(s: State): real {
    s.kp + s.ki * 0.1 + s.kd / 0.1
  }

  function Offset(s: State): real {
    s.ki * s.integral - s.kd * (s.prevErr / 0.1)
  }

  /** With the right gains it can. */
  predicate OvertakingOnceRetuned(s: State) {
    match s.task
    case Cleared => true
    case Measured(err) => err != 0.0 || s.integral != 0.0 || s.prevErr != 0.0
    case Decided(d) => d != 0
    case _ => false
  }

  predicate CanOvertake(s: State, retuned: bool) {
    if retuned then OvertakingOnceRetuned(s) else Overtaking(s)
  }

  /** k accesses into the call, nothing but zero is on its way to the timer. */
  predicate Calmed(s: State, k: nat, retuned: bool) {
    Alarmed(s) && !CanOvertake(s, retuned) && (k == 0 ==> s.radio.Raised?) && (k == 1 ==> s.radio.OffStaged?) &&
    (k >= 1 ==> s.staged == 0) && (k >= 2 ==> s.duty == 0)
  }

  lemma {:induction false} CallCalms(s: State, actions: seq<Action>, retuned: bool)
    requires s.radio.Idle? && !CanOvertake(s, retuned) && Allowed(actions, retuned)
    ensures Calmed(Run(Next(s, EmergencyOff), actions), RadioSteps(actions), retuned)
  {
    if actions != [] {
      var before := actions[..|actions| - 1];
      CallCalms(s, before, retuned);
      assert actions[|actions| - 1] in actions;
      CalmedNext(Run(Next(s, EmergencyOff), before), RadioSteps(before), actions[|actions| - 1], retuned);
    }
  }

  lemma CalmedNext(s: State, k: nat, a: Action, retuned: bool)
    requires Calmed(s, k, retuned) && !a.SetTarget? && (a.SetPid? ==> retuned)
    ensures Calmed(Next(s, a), k + if a.RadioStep? then 1 else 0, retuned)
  {
    if a.TaskStep? && s.task.Measured? && retuned {
      assert Control(s.kp, s.ki, s.kd, 0.0, 0.0, 0.0) == 0;
    } else if a.TaskStep? && s.task.Cleared? {
      ControlIsLinear(s, s.target - a.temp);
    }
  }

  lemma Scaled(kd: real, err: real, prevErr: real)
    ensures kd * ((err - prevErr) / 0.1) == kd / 0.1 * err - kd * (prevErr / 0.1)
  {
  }

  lemma Summed(kp: real, ki: real, d: real, err: real, integral: real)
    ensures kp * err + ki * (integral + err * 0.1) + d * err == (kp + ki * 0.1 + d) * err + ki * integral
  {
  }

  /** The duty decided on from the next measurement. */
  lemma ControlIsLinear(s: State, err: real)
    ensures Control(s.kp, s.ki, s.kd, err, s.integral + err * 0.1, s.prevErr) == Clamp(Slope(s) * err + Offset(s))
    ensures Slope(s) == 0.0 ==> Slope(s) * err == 0.0
  {
    Scaled(s.kd, err, s.prevErr);
    Summed(s.kp, s.ki, s.kd / 0.1, err, s.integral);
  }

  /** A run from the call on that ends with the heater running although the call returned. */
  predicate RunsOn(s: State, actions: seq<Action>, retuned: bool) {
    Allowed(actions, retuned) && RadioSteps(actions) >= 2 && Run(Next(s, EmergencyOff), actions).duty != 0
  }

  /** After the call: the task is where it was, and the radio is free. */
  lemma CallDone(s: State)
    requires s.radio.Idle?
    ensures var t := Run(Next(s, EmergencyOff), [RadioStep, RadioStep]);
      t == s.(emergency := true, staged := 0, duty := 0)
  {
    Twice(Next(s, EmergencyOff), RadioStep, RadioStep);
  }

  lemma Snoc(s: State, actions: seq<Action>, a: Action)
    ensures Run(s, actions + [a]) == Next(Run(s, actions), a)
    ensures RadioSteps(actions + [a]) == RadioSteps(actions) + if a.RadioStep? then 1 else 0
  {
    assert (actions + [a])[..|actions|] == actions;
  }

  /** From a decision it is two accesses to the timer. */
  lemma DecisionRunsOn(s: State, actions: seq<Action>, retuned: bool) returns (more: seq<Action>)
    requires Allowed(actions, retuned) && RadioSteps(actions) >= 2
    requires var t := Run(Next(s, EmergencyOff), actions); t.task.Decided? && t.task.duty != 0
    ensures RunsOn(s, more, retuned)
  {
    var up := Next(s, EmergencyOff);
    Snoc(up, actions, TaskStep(0.0));
    Snoc(up, actions + [TaskStep(0.0)], TaskStep(0.0));
    more := actions + [TaskStep(0.0)] + [TaskStep(0.0)];
  }

  lemma Inverse(x: real)
    requires x != 0.0
    ensures 1.0 / x * x == 1.0
  {
  }

  lemma UnitOutput(kp: real, ki: real, kd: real, err: real, integral: real, prevErr: real)
    requires var p, i, d := kp * err, ki * integral, kd * ((err - prevErr) / 0.1); p + i + d == 1.0
    ensures Control(kp, ki, kd, err, integral, prevErr) == 1
  {
    assert Clamp(1.0) == 1;
  }

  /** Gains under which a measurement that is not all zero leads to a duty of 1. */
  lemma SomeGains(err: real, integral: real, prevErr: real) returns (kp: real, ki: real, kd: real)
    requires err != 0.0 || integral != 0.0 || prevErr != 0.0
    ensures Control(kp, ki, kd, err, integral, prevErr) == 1
  {
    var slope := (err - prevErr) / 0.1;
    kp, ki, kd := 0.0, 0.0, 0.0;
    if err != 0.0 {
      kp := 1.0 / err;
      Inverse(err);
    } else if integral != 0.0 {
      ki := 1.0 / integral;
      Inverse(integral);
    } else {
      kd := 1.0 / slope;
      Inverse(slope);
    }
    assert kp == 0.0 ==> kp * err == 0.0;
    assert ki == 0.0 ==> ki * integral == 0.0;
    assert kd == 0.0 ==> kd * slope == 0.0;
    UnitOutput(kp, ki, kd, err, integral, prevErr);
  }

  /** A measurement under which the task decides on a duty that is not zero. */
  lemma SomeError(s: State) returns (err: real)
    requires s.task.Cleared? && Overtaking(s)
    ensures Control(s.kp, s.ki, s.kd, err, s.integral + err * 0.1, s.prevErr) != 0
  {
    if Slope(s) != 0.0 {
      err := (1.0 - Offset(s)) * (1.0 / Slope(s));
      Inverse(Slope(s));
      Reached(Slope(s), 1.0 / Slope(s), 1.0 - Offset(s));
      assert Clamp(1.0) == 1;
    } else {
      err := 0.0;
    }
    ControlIsLinear(s, err);
  }

  lemma Reached(slope: real, inverse: real, goal: real)
    requires inverse * slope == 1.0
    ensures slope * (goal * inverse) == goal
  {
    assert slope * (goal * inverse) == goal * (inverse * slope);
  }

  lemma MeasurementRunsOn(s: State, actions: seq<Action>, retuned: bool) returns (more: seq<Action>)
    requires Allowed(actions, retuned) && RadioSteps(actions) >= 2
    requires var t := Run(Next(s, EmergencyOff), actions); t.radio.Idle? && t.task.Measured? && CanOvertake(t, retuned)
    ensures RunsOn(s, more, retuned)
  {
    var up := Next(s, EmergencyOff);
    var t := Run(up, actions);
    if retuned {
      var kp, ki, kd := SomeGains(t.task.err, t.integral, t.prevErr);
      Snoc(up, actions, SetPid(kp, ki, kd));
      Snoc(up, actions + [SetPid(kp, ki, kd)], TaskStep(0.0));
      more := DecisionRunsOn(s, actions + [SetPid(kp, ki, kd)] + [TaskStep(0.0)], retuned);
    } else {
      Snoc(up, actions, TaskStep(0.0));
      more := DecisionRunsOn(s, actions + [TaskStep(0.0)], retuned);
    }
  }

  lemma ClearedRunsOn(s: State, call: seq<Action>, retuned: bool) returns (more: seq<Action>)
    requires Allowed(call, retuned) && RadioSteps(call) >= 2
    requires var t := Run(Next(s, EmergencyOff), call); t.radio.Idle? && t.task.Cleared? && CanOvertake(t, retuned)
    ensures RunsOn(s, more, retuned)
  {
    var t := Run(Next(s, EmergencyOff), call);
    var err := 1.0;
    if !retuned {
      err := SomeError(t);
    }
    Snoc(Next(s, EmergencyOff), call, TaskStep(t.target - err));
    more := MeasurementRunsOn(s, call + [TaskStep(t.target - err)], retuned);
  }

  lemma OvertakingRunsOn(s: State, retuned: bool) returns (actions: seq<Action>)
    requires s.radio.Idle? && CanOvertake(s, retuned)
    ensures RunsOn(s, actions, retuned)
  {
    var call := [RadioStep] + [RadioStep];
    var up := Next(s, EmergencyOff);
    CallDone(s);
    assert call == [RadioStep, RadioStep];
    Snoc(up, [], RadioStep);
    Snoc(up, [RadioStep], RadioStep);
    assert [] + [RadioStep] == [RadioStep];
    if s.task.Decided? {
      actions := DecisionRunsOn(s, call, retuned);
    } else if s.task.Measured? {
      actions := MeasurementRunsOn(s, call, retuned);
    } else {
      actions := ClearedRunsOn(s, call, retuned);
    }
  }

  lemma AtOnceIff(s: State, retuned: bool)
    requires s.radio.Idle?
    ensures (forall actions :: Allowed(actions, retuned) && RadioSteps(actions) >= 2 ==>
        Run(Next(s, EmergencyOff), actions).duty == 0) <==>
      !CanOvertake(s, retuned)
  {
    if CanOvertake(s, retuned) {
      var actions := OvertakingRunsOn(s, retuned);
      assert RunsOn(s, actions, retuned);
    } else {
      forall actions | Allowed(actions, retuned) && RadioSteps(actions) >= 2
        ensures Run(Next(s, EmergencyOff), actions).duty == 0
      {
        CallCalms(s, actions, retuned);
      }
    }
  }

  /** In the firmware new gains only come behind a new target. In every run with neither, the
      heater is off from the return of the call on if and only if, when the call was made, no
      duty but zero could follow: the task had not passed the flag, or had staged its duty
      already, or had decided on zero, or computes zero from what it has measured, or will
      compute zero whatever it measures. */
  lemma EmergencyAtOnceIff(s: State)
    requires s.radio.Idle?
    ensures (forall actions :: Allowed(actions, false) && RadioSteps(actions) >= 2 ==>
        Run(Next(s, EmergencyOff), actions).duty == 0) <==>
      !Overtaking(s)
  {
    AtOnceIff(s, false);
  }

  /** For the component alone, whose setters can be called in any order: if and only if,
      besides, what the task has measured and remembers is all zero. */
  lemma EmergencyAtOnceRetunedIff(s: State)
    requires s.radio.Idle?
    ensures (forall actions :: Allowed(actions, true) && RadioSteps(actions) >= 2 ==>
        Run(Next(s, EmergencyOff), actions).duty == 0) <==>
      !OvertakingOnceRetuned(s)
  {
    AtOnceIff(s, true);
  }

  /** With the initial gains and target zero, in a room at 25 degrees, the call is enough. */
  lemma ColdHeaterIsSafe(s: State)
    requires s.kp == 1.0 && s.ki == 0.1 && s.kd == 0.01 && s.task == Measured(-25.0)
    requires s.integral <= 0.0 && s.prevErr >= -25.0
    ensures !Overtaking(s) && OvertakingOnceRetuned(s)
  {
  }

  /** A whole emergency call between the task's decision and its write. */
  const OVERTAKEN: seq<Action> := [EmergencyOff, RadioStep, RadioStep, TaskStep(0.0), TaskStep(0.0)]

  /** The call has returned, the flag is up, and the heater runs with whatever the task had
      decided on, until the task's next look at the flag. */
  lemma EmergencyCanBeOvertaken(s: State)
    requires s.radio.Idle? && s.task.Decided?
    ensures var after := Run(s, OVERTAKEN);
      after.emergency && after.radio == Idle && after.duty == s.task.duty
  {
    var acts := OVERTAKEN;
    RunByPrefix(s, acts, 0);
    RunByPrefix(s, acts, 1);
    RunByPrefix(s, acts, 2);
    RunByPrefix(s, acts, 3);
    RunByPrefix(s, acts, 4);
    assert acts[..5] == acts;
  }

  /** A target of 240 degrees on a cold heater. */
  const FULL_POWER: seq<Action> := [SetTarget(240.0), RadioStep, TaskStep(0.0), TaskStep(0.0), TaskStep(0.0)]

  lemma FullPowerIsReachable()
    ensures var s := Run(START, FULL_POWER); s.radio == Idle && s.task == Decided(255)
  {
    var acts := FULL_POWER;
    RunByPrefix(START, acts, 0);
    RunByPrefix(START, acts, 1);
    RunByPrefix(START, acts, 2);
    RunByPrefix(START, acts, 3);
    RunByPrefix(START, acts, 4);
    assert acts[..5] == acts;
  }

  lemma {:induction false} RunAppend(s: State, a: seq<Action>, b: seq<Action>)
    ensures Run(s, a + b) == Run(Run(s, a), b)
  {
    if b == [] {
      assert a + b == a;
    } else {
      RunAppend(s, a, b[..|b| - 1]);
      assert (a + b)[..|a + b| - 1] == a + b[..|b| - 1];
    }
  }

  /** One run from the start: the emergency call has returned and the heater is at full power. */
  lemma FullPowerAfterEmergency()
    ensures var after := Run(START, FULL_POWER + OVERTAKEN);
      after.emergency && after.radio == Idle && after.duty == 255
  {
    FullPowerIsReachable();
    EmergencyCanBeOvertaken(Run(START, FULL_POWER));
    RunAppend(START, FULL_POWER, OVERTAKEN);
  }

  lemma RunByPrefix(s: State, actions: seq<Action>, k: nat)
    requires k < |actions|
    ensures Run(s, actions[..k + 1]) == Next(Run(s, actions[..k]), actions[k])
  {
    assert actions[..k + 1][..k] == actions[..k];
  }

  // ---- the component --------------------------------------------------------------------

  /** The module's variables and the task's locals; each method runs undisturbed. */
  class HeaterControl {
    var target: real
    var kp: real
    var ki: real
    var kd: real
    var emergency: bool
    var duty: int
    var integral: real
    var prevErr: real

    ghost function AtRest(): State
      reads this
    {
      State(target, kp, ki, kd, emergency, duty, duty, integral, prevErr, Asleep, Idle)
    }

    constructor ()
      ensures AtRest() == START
      ensures target == 0.0 && kp == 1.0 && ki == 0.1 && kd == 0.01 && !emergency && duty == 0
    {
      target, kp, ki, kd, emergency, duty, integral, prevErr := 0.0, 1.0, 0.1, 0.01, false, 0, 0.0, 0.0;
    }

    method SetTarget(temp: real)
      modifies this
      ensures AtRest() == Run(old(AtRest()), [Action.SetTarget(temp), RadioStep])
      ensures target == temp && !emergency && duty == old(duty)
    {
      Twice(AtRest(), Action.SetTarget(temp), RadioStep);
      target := temp;
      emergency := false;
    }

    method SetPid(kp: real, ki: real, kd: real)
      modifies this
      ensures AtRest() == Next(old(AtRest()), Action.SetPid(kp, ki, kd))
      ensures this.kp == kp && this.ki == ki && this.kd == kd && target == old(target) && duty == old(duty)
    {
      this.kp := kp;
      this.ki := ki;
      this.kd := kd;
    }

    method EmergencyOff()
      modifies this
      ensures AtRest() == Run(old(AtRest()), [Action.EmergencyOff, RadioStep, RadioStep])
      ensures emergency && duty == 0 && target == old(target)
    {
      Thrice(AtRest(), Action.EmergencyOff, RadioStep, RadioStep);
      emergency := true;
      SetDuty(0);
    }

    method SetDuty(d: int)
      modifies this`duty
      ensures duty == d
    {
      duty := d;
    }

    /** One iteration of `heater_task`: the accesses of the state machine's task, in order. */
    method Iterate(temp: real)
      modifies this
      ensures old(emergency) ==>
        AtRest() == Run(old(AtRest()), [TaskStep(temp), TaskStep(temp), TaskStep(temp)])
      ensures !old(emergency) ==>
        var measured := Run(old(AtRest()), [TaskStep(temp), TaskStep(temp)]);
        AtRest() == Run(measured, [TaskStep(temp), TaskStep(temp), TaskStep(temp)])
      ensures old(emergency) ==> duty == 0 && integral == old(integral) && prevErr == old(prevErr)
      ensures !old(emergency) ==>
        prevErr == target - temp && integral == old(integral) + prevErr * 0.1 &&
        DutyFor(Output(kp, ki, kd, prevErr, integral, old(prevErr)), duty)
    {
      ghost var was := AtRest();
      Thrice(was, TaskStep(temp), TaskStep(temp), TaskStep(temp));
      Twice(was, TaskStep(temp), TaskStep(temp));
      if emergency {
        SetDuty(0);
        return;
      }
      ghost var measured := Run(was, [TaskStep(temp), TaskStep(temp)]);
      Thrice(measured, TaskStep(temp), TaskStep(temp), TaskStep(temp));
      var err := target - temp;
      integral := integral + err * 0.1;
      var d := Control(kp, ki, kd, err, integral, prevErr);
      ControlIsDuty(kp, ki, kd, err, integral, prevErr);
      prevErr := err;
      SetDuty(d);
    }
  }

  lemma Twice(s: State, a: Action, b: Action)
    ensures Run(s, [a, b]) == Next(Next(s, a), b)
  {
    RunByPrefix(s, [a, b], 0);
    RunByPrefix(s, [a, b], 1);
    assert [a, b][..2] == [a, b];
  }

  lemma Thrice(s: State, a: Action, b: Action, c: Action)
    ensures Run(s, [a, b, c]) == Next(Next(Next(s, a), b), c)
  {
    Twice(s, a, b);
    assert [a, b, c][..2] == [a, b];
  }
}
