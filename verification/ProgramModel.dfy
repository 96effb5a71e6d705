/** The program executor as a value: one function per entry point, and what holds over every run. */
module ProgramModel {
  import opened Bytes
  import opened ProgramTypes

  /** The vehicle settings the starter step uses. */
  datatype Vehicle = Vehicle(starterRelayId: nat, starterMaxSec: nat, waitAfterSec: nat)

  /** What the rest of the firmware shows the executor during one call. */
  datatype Env = Env(now: nat, inputs: seq<bool>, engineRunning: bool, inputTriggers: seq<nat>, tempTriggers: seq<nat>)
  {
    predicate Valid() { |inputs| == INPUTS }
  }

  datatype Effect =
    | InputEnabled(input: nat, on: bool)
    | InputTrigger(trigger: nat, on: bool)
    | TempTrigger(trigger: nat, on: bool)
    | BatterySaver(on: bool)
    | Thermostat(on: bool)
    | ProgramAborted
    | InvalidRef

  /** Runtime of WAIT and pulse steps. */
  datatype StepRuntime = StepRuntime(phase: nat, startedAt: nat)

  /** Runtime of STARTER steps: not begun, cranking, waiting for the engine, pausing. */
  datatype StarterRuntime = StarterRuntime(phase: nat, startedAt: nat, attemptsLeft: nat)

  datatype Exec = Exec(
    running: bool, programId: nat, steps: seq<CompiledStep>, stepsSet: bool, actionsSet: bool, current: nat,
    rt: StepRuntime, starter: StarterRuntime,
    relays: seq<bool>,
    refs: seq<nat>,           // holders of the pool slots: scratch, steps, actions
    effects: seq<Effect>)     // asked of the other subsystems, oldest first
  {
    predicate Shaped() { |relays| == RELAYS && |refs| == 3 }

    function Step(): CompiledStep
      requires current < |steps|
    {
      steps[current]
    }
  }

  const Off: seq<bool> := [false, false, false, false, false]

  // ---- Leaving a program ---------------------------------------------------

  function ReleaseRef(r: nat): nat { if r == 0 then 0 else r - 1 }

  function AcquireRef(r: nat): nat { if r > 0 then (r + 1) % 256 else 1 }

  function Finish(st: Exec): (r: Exec)
    requires st.Shaped()
    ensures r.Shaped() && !r.running && !r.stepsSet && !r.actionsSet && r.relays == st.relays && r.effects == st.effects
  {
    var refs := if st.actionsSet then st.refs[2 := ReleaseRef(st.refs[2])] else st.refs;
    st.(running := false, programId := 0, stepsSet := false, actionsSet := false,
        refs := if st.stepsSet then refs[1 := ReleaseRef(refs[1])] else refs)
  }

  function Abort(st: Exec): (r: Exec)
    requires st.Shaped()
    ensures r.Shaped() && !r.running && r.relays == Off
  {
    var done := Finish(st.(relays := Off));
    done.(effects := done.effects + [ProgramAborted])
  }

  function AbortBadRef(st: Exec): (r: Exec)
    requires st.Shaped()
    ensures r.Shaped() && !r.running && r.relays == Off
  {
    var done := Abort(st);
    done.(effects := done.effects + [InvalidRef])
  }

  // ---- Entering a step -----------------------------------------------------

  /** What entering a step does: an instant action is over at once, a timed one waits for updates. */
  datatype Entry = BadRef | Instant(relays: seq<bool>, effects: seq<Effect>) | Timed(relays: seq<bool>, phase: nat)

  function TriggerEntry(ids: seq<nat>, id: nat, relays: seq<bool>, on: bool, temp: bool): Entry {
    var idx := if id == 0 then None else IndexOf(ids, id);
    if idx.None? || idx.value >= MAX_TRIGGERS then Instant(relays, [])
    else Instant(relays, [if temp then TempTrigger(idx.value, on) else InputTrigger(idx.value, on)])
  }

  function InputEntry(id: nat, relays: seq<bool>, on: bool): Entry {
    match InputIndex(id)
    case None => BadRef
    case Some(i) => Instant(relays, [InputEnabled(i, on)])
  }

  function RelayEntry(s: CompiledStep, relays: seq<bool>): Entry
    requires |relays| == RELAYS
  {
    match RelayIndex(s.relayId)
    case None => BadRef
    case Some(i) =>
      if s.action == RELAY_TOGGLE then Instant(relays[i := !relays[i]], [])
      else if s.Pulses() then Timed(relays[i := s.action == RELAY_PULSE_ON_OFF_ON], 1)
      else Instant(relays[i := s.action == RELAY_ON], [])
  }

  function EntryOf(s: CompiledStep, relays: seq<bool>, env: Env): (e: Entry)
    requires |relays| == RELAYS
    ensures !e.BadRef? ==> |e.relays| == RELAYS
    ensures e.Timed? <==> s.action == WAIT || s.Cranks() || (s.Pulses() && RelayIndex(s.relayId).Some?)
    ensures e.Timed? ==> e.phase == if s.Pulses() then 1 else 0
  {
    match s.action
    case RELAY_ON | RELAY_OFF | RELAY_TOGGLE | RELAY_PULSE_ON_OFF_ON | RELAY_PULSE_OFF_ON_OFF => RelayEntry(s, relays)
    case WAIT | STARTER_TIMED | STARTER_WAIT_INPUT => Timed(relays, 0)
    case INPUT_ENABLE => InputEntry(s.inputId, relays, true)
    case INPUT_DISABLE => InputEntry(s.inputId, relays, false)
    case INPUT_TRIGGER_ENABLE => TriggerEntry(env.inputTriggers, s.inputTriggerId, relays, true, false)
    case INPUT_TRIGGER_DISABLE => TriggerEntry(env.inputTriggers, s.inputTriggerId, relays, false, false)
    case TEMP_TRIGGER_ENABLE => TriggerEntry(env.tempTriggers, s.tempTriggerId, relays, true, true)
    case TEMP_TRIGGER_DISABLE => TriggerEntry(env.tempTriggers, s.tempTriggerId, relays, false, true)
    case BATTERY_SAVER_ON => Instant(relays, [BatterySaver(true)])
    case BATTERY_SAVER_OFF => Instant(relays, [BatterySaver(false)])
    case THERMOSTAT_ON => Instant(relays, [Thermostat(true)])
    case THERMOSTAT_OFF => Instant(relays, [Thermostat(false)])
    case UNKNOWN => Instant(relays, [])
  }

  /** Enters the current step and runs on through instant steps. */
  function Enter(st: Exec, env: Env): (r: Exec)
    requires st.Shaped() && st.running && st.current < |st.steps|
    ensures r.Shaped()
    decreases |st.steps| - st.current
  {
    var s := st.Step();
    var cleared := st.(rt := st.rt.(phase := 0), starter := st.starter.(phase := 0, attemptsLeft := 0));
    match EntryOf(s, st.relays, env)
    case BadRef => AbortBadRef(cleared)
    case Instant(relays, effects) =>
      NextStep(cleared.(relays := relays, effects := st.effects + effects), env)
    case Timed(relays, phase) =>
      if s.Cranks() then cleared.(relays := relays, starter := StarterRuntime(0, 0, 0))
      else cleared.(relays := relays, rt := StepRuntime(phase, env.now))
  }

  function NextStep(st: Exec, env: Env): (r: Exec)
    requires st.Shaped() && st.running && st.current < |st.steps|
    ensures r.Shaped()
    decreases |st.steps| - st.current, 0
  {
    var next := st.(current := st.current + 1);
    if next.current >= |st.steps| then Finish(next) else Enter(next, env)
  }

  // ---- Updates -------------------------------------------------------------

  function AttemptMs(s: CompiledStep, v: Vehicle): nat {
    var most := v.starterMaxSec * 1000;
    if s.action == STARTER_TIMED && 0 < s.ms < most then s.ms else most
  }

  function UpdatePulse(st: Exec, env: Env): (r: Exec)
    requires st.Shaped() && st.running && st.current < |st.steps| && st.Step().Pulses()
    ensures r.Shaped()
  {
    var s := st.Step();
    if (st.rt.phase != 1 && st.rt.phase != 2) || Since(env.now, st.rt.startedAt) < s.ms then st
    else
      match RelayIndex(s.relayId)
      case None => AbortBadRef(st)
      case Some(i) =>
        var on := (s.action == RELAY_PULSE_ON_OFF_ON) == (st.rt.phase == 2);
        var switched := st.(relays := st.relays[i := on]);
        if st.rt.phase == 1 then switched.(rt := StepRuntime(2, env.now)) else NextStep(switched.(rt := st.rt.(phase := 0)), env)
  }

  function Idle(st: Exec): Exec {
    st.(starter := st.starter.(phase := 0, attemptsLeft := 0))
  }

  function StartCrank(st: Exec, i: nat, env: Env): Exec
    requires st.Shaped() && i < RELAYS
  {
    st.(relays := st.relays[i := true], starter := st.starter.(phase := 1, startedAt := env.now))
  }

  function UpdateStarter(st: Exec, v: Vehicle, env: Env): (r: Exec)
    requires st.Shaped() && env.Valid() && st.running && st.current < |st.steps| && st.Step().Cranks()
    ensures r.Shaped()
  {
    var s := st.Step();
    match RelayIndex(v.starterRelayId)
    case None => AbortBadRef(st)
    case Some(i) =>
      var left := if st.starter.attemptsLeft == 0 then s.Attempts() else st.starter.attemptsLeft;
      var a := st.(starter := st.starter.(attemptsLeft := left));
      if st.starter.phase == 1 then
        if s.action == STARTER_WAIT_INPUT && InputIndex(s.inputId).None? then
          AbortBadRef(a.(relays := a.relays[i := false]))
        else if (s.action == STARTER_WAIT_INPUT && env.inputs[InputIndex(s.inputId).value])
                || Since(env.now, st.starter.startedAt) >= AttemptMs(s, v) then
          a.(relays := a.relays[i := false], starter := StarterRuntime(2, env.now, left))
        else a
      else if st.starter.phase == 2 then
        if Since(env.now, st.starter.startedAt) < v.waitAfterSec * 1000 then a
        else if env.engineRunning then NextStep(Idle(a), env)
        else if left > 1 then a.(starter := StarterRuntime(3, env.now, left - 1))
        else Finish(Idle(a))
      else if st.starter.phase == 3 then
        if Since(env.now, st.starter.startedAt) < 1000 then a else StartCrank(a, i, env)
      else StartCrank(a, i, env)
  }

  function Update(st: Exec, v: Vehicle, env: Env): (r: Exec)
    requires st.Shaped() && env.Valid()
    ensures r.Shaped()
  {
    if !st.running then st
    else if !st.stepsSet || !st.actionsSet || st.current >= |st.steps| then Abort(st)
    else
      var s := st.Step();
      if s.action == WAIT then (if Since(env.now, st.rt.startedAt) >= s.ms then NextStep(st, env) else st)
      else if s.Pulses() then UpdatePulse(st, env)
      else if s.Cranks() then UpdateStarter(st, v, env)
      else st
  }

  function Stop(st: Exec, v: Vehicle): (r: Exec)
    requires st.Shaped()
    ensures r.Shaped() && !r.running
  {
    if !st.running then st
    else if st.current < |st.steps| && st.Step().Cranks() && RelayIndex(v.starterRelayId).Some? then
      Finish(st.(relays := st.relays[RelayIndex(v.starterRelayId).value := false]))
    else Finish(st)
  }

  function Start(st: Exec, id: nat, load: Load, v: Vehicle, env: Env): (r: Exec)
    requires st.Shaped()
    ensures r.Shaped()
  {
    var stopped := Stop(st, v);
    var withSteps := stopped.refs[1 := AcquireRef(stopped.refs[1])];
    var refs := withSteps[2 := AcquireRef(withSteps[2])];
    match load
    case NoSteps => stopped
    case NoActions => stopped.(refs := withSteps[1 := ReleaseRef(withSteps[1])])
    case Loaded(steps) =>
      if steps == [] then Unloaded(stopped, refs) else Enter(Begun(stopped, id, steps, refs), env)
    case NotFound => Unloaded(stopped, refs)
  }

  /** Both buffers are given back when there is no program to run. */
  function Unloaded(st: Exec, refs: seq<nat>): (r: Exec)
    requires st.Shaped() && |refs| == 3
    ensures r.Shaped()
  {
    st.(refs := refs[2 := ReleaseRef(refs[2])][1 := ReleaseRef(refs[1])],
        stepsSet := false, actionsSet := false, steps := [])
  }

  /** The executor about to enter the first step of a loaded program. */
  function Begun(st: Exec, id: nat, steps: seq<CompiledStep>, refs: seq<nat>): Exec {
    st.(running := true, programId := id, steps := steps, stepsSet := true, actionsSet := true, current := 0,
        rt := StepRuntime(0, 0), starter := StarterRuntime(0, 0, 0), refs := refs)
  }

  /** What stands in the way of a start, a buffer or the program itself, or the program. */
  datatype Load = NoSteps | NoActions | NotFound | Loaded(steps: seq<CompiledStep>)
  {
    predicate Valid() { Loaded? ==> |steps| <= MAX_STEPS }
  }

  // ---- Runs ----------------------------------------------------------------

  /** `ForcedOff` is the relay safety check: it may switch relays off, never on. */
  datatype Op = StartOp(id: nat, load: Load, env: Env) | UpdateOp(env: Env) | StopOp | ForcedOff(relays: seq<bool>)

  predicate OpOk(st: Exec, op: Op) {
    match op
    case StartOp(_, load, env) => load.Valid() && env.Valid()
    case UpdateOp(env) => env.Valid()
    case StopOp => true
    case ForcedOff(relays) => |relays| == |st.relays| && forall i | 0 <= i < |relays| :: relays[i] ==> st.relays[i]
  }

  function Apply(st: Exec, op: Op, v: Vehicle): (r: Exec)
    requires st.Shaped() && OpOk(st, op)
    ensures r.Shaped()
  {
    match op
    case StartOp(id, load, env) => Start(st, id, load, v, env)
    case UpdateOp(env) => Update(st, v, env)
    case StopOp => Stop(st, v)
    case ForcedOff(relays) => st.(relays := relays)
  }

  predicate RunOk(st: Exec, ops: seq<Op>, v: Vehicle)
    requires st.Shaped()
    decreases |ops|
  {
    ops == [] || (OpOk(st, ops[0]) && RunOk(Apply(st, ops[0], v), ops[1..], v))
  }

  function Run(st: Exec, ops: seq<Op>, v: Vehicle): (r: Exec)
    requires st.Shaped() && RunOk(st, ops, v)
    ensures r.Shaped()
    decreases |ops|
  {
    if ops == [] then st else Run(Apply(st, ops[0], v), ops[1..], v)
  }

  /** Both buffers are held exactly while running, and a running program rests on a step that waits. */
  predicate Inv(st: Exec) {
    && st.Shaped()
    && (st.running ==>
          && st.stepsSet && st.actionsSet && st.refs[1] == 1 && st.refs[2] == 1
          && st.current < |st.steps| <= MAX_STEPS && Rests(st))
    && (!st.running ==> !st.stepsSet && !st.actionsSet && st.refs[1] == 0 && st.refs[2] == 0)
  }

  predicate Rests(st: Exec)
    requires st.current < |st.steps|
  {
    var s := st.Step();
    if s.Pulses() then st.rt.phase in {1, 2} && RelayIndex(s.relayId).Some?
    else if s.Cranks() then
      if st.starter.phase == 0 then st.starter.attemptsLeft == 0
      else st.starter.phase <= 3 && 1 <= st.starter.attemptsLeft && st.starter.attemptsLeft + (if st.starter.phase == 3 then 1 else 0) <= s.Attempts()
    else s.action == WAIT
  }

  /** With a valid starter relay, that relay is off between cranks. */
  predicate StarterSafe(st: Exec, v: Vehicle)
    requires st.Shaped()
  {
    (st.running && st.current < |st.steps| && st.Step().Cranks() && st.starter.phase in {2, 3}
     && RelayIndex(v.starterRelayId).Some?) ==> !st.relays[RelayIndex(v.starterRelayId).value]
  }

  /** A running program mid-step: buffers held, about to enter or leave a step. */
  predicate Holding(st: Exec) {
    && st.Shaped() && st.running && st.stepsSet && st.actionsSet && st.refs[1] == 1 && st.refs[2] == 1
    && st.current < |st.steps| <= MAX_STEPS
  }

  lemma {:induction false} EnterRests(st: Exec, env: Env)
    requires Holding(st)
    ensures Inv(Enter(st, env)) && forall v :: StarterSafe(Enter(st, env), v)
    decreases |st.steps| - st.current
  {
    hide EntryOf, NextStep;
    var cleared := st.(rt := st.rt.(phase := 0), starter := st.starter.(phase := 0, attemptsLeft := 0));
    match EntryOf(st.Step(), st.relays, env)
    case BadRef =>
    case Instant(relays, effects) =>
      NextRests(cleared.(relays := relays, effects := st.effects + effects), env);
    case Timed(_, _) =>
  }

  lemma {:induction false} NextRests(st: Exec, env: Env)
    requires Holding(st)
    ensures Inv(NextStep(st, env)) && forall v :: StarterSafe(NextStep(st, env), v)
    decreases |st.steps| - st.current, 0
  {
    hide Enter;
    if st.current + 1 < |st.steps| {
      EnterRests(st.(current := st.current + 1), env);
    }
  }

  lemma PulseKeeps(st: Exec, env: Env)
    requires Inv(st) && st.running && st.Step().Pulses()
    ensures Inv(UpdatePulse(st, env)) && forall v :: StarterSafe(UpdatePulse(st, env), v)
  {
    hide NextStep;
    var s := st.Step();
    var i := RelayIndex(s.relayId).value;
    if st.rt.phase == 2 && Since(env.now, st.rt.startedAt) >= s.ms {
      NextRests(st.(relays := st.relays[i := s.action == RELAY_PULSE_ON_OFF_ON], rt := st.rt.(phase := 0)), env);
    }
  }

  lemma StarterKeeps(st: Exec, v: Vehicle, env: Env)
    requires Inv(st) && StarterSafe(st, v) && env.Valid() && st.running && st.Step().Cranks()
    ensures Inv(UpdateStarter(st, v, env)) && StarterSafe(UpdateStarter(st, v, env), v)
  {
    hide NextStep;
    if st.starter.phase == 2 {
      NextRests(Idle(st), env);
    }
  }

  lemma UpdateKeeps(st: Exec, v: Vehicle, env: Env)
    requires Inv(st) && StarterSafe(st, v) && env.Valid()
    ensures Inv(Update(st, v, env)) && StarterSafe(Update(st, v, env), v)
  {
    hide NextStep, UpdatePulse, UpdateStarter;
    if st.running {
      if st.Step().action == WAIT {
        NextRests(st, env);
      } else if st.Step().Pulses() {
        PulseKeeps(st, env);
      } else {
        StarterKeeps(st, v, env);
      }
    }
  }

  lemma StopKeeps(st: Exec, v: Vehicle)
    requires Inv(st)
    ensures Inv(Stop(st, v))
  {
  }

  lemma StartKeeps(st: Exec, id: nat, load: Load, v: Vehicle, env: Env)
    requires Inv(st) && load.Valid()
    ensures Inv(Start(st, id, load, v, env)) && StarterSafe(Start(st, id, load, v, env), v)
  {
    hide Enter, Stop;
    StopKeeps(st, v);
    if load.Loaded? && load.steps != [] {
      var stopped := Stop(st, v);
      var withSteps := stopped.refs[1 := AcquireRef(stopped.refs[1])];
      EnterRests(Begun(stopped, id, load.steps, withSteps[2 := AcquireRef(withSteps[2])]), env);
    }
  }

  lemma ApplyKeeps(st: Exec, op: Op, v: Vehicle)
    requires Inv(st) && StarterSafe(st, v) && OpOk(st, op)
    ensures Inv(Apply(st, op, v)) && StarterSafe(Apply(st, op, v), v)
  {
    hide Start, Stop, Update;
    match op
    case StartOp(id, load, env) => StartKeeps(st, id, load, v, env);
    case UpdateOp(env) => UpdateKeeps(st, v, env);
    case StopOp => StopKeeps(st, v);
    case ForcedOff(_) =>
  }

  /** After any run both buffers are held exactly while running, a running program rests on a step that waits,
      and a valid starter relay is off between cranks. */
  lemma {:induction false} RunKeeps(st: Exec, ops: seq<Op>, v: Vehicle)
    requires Inv(st) && StarterSafe(st, v) && RunOk(st, ops, v)
    ensures Inv(Run(st, ops, v)) && StarterSafe(Run(st, ops, v), v)
    decreases |ops|
  {
    hide Apply;
    if ops != [] {
      ApplyKeeps(st, ops[0], v);
      RunKeeps(Apply(st, ops[0], v), ops[1..], v);
    }
  }

  /** The executor before its first program. */
  function Initial(relays: seq<bool>, scratch: nat): Exec {
    Exec(false, 0, [], false, false, 0, StepRuntime(0, 0), StarterRuntime(0, 0, 0), relays, [scratch, 0, 0], [])
  }

  /** From power-up, whatever happens: the range abort of an update is unreachable, and so are the
      invalid-relay branches of the pulse steps. */
  lemma NoUnreachableAbort(relays: seq<bool>, scratch: nat, ops: seq<Op>, v: Vehicle)
    requires |relays| == RELAYS && RunOk(Initial(relays, scratch), ops, v)
    ensures var st := Run(Initial(relays, scratch), ops, v);
            && st.refs[1] == st.refs[2] == (if st.running then 1 else 0)
            && st.stepsSet == st.actionsSet == st.running
            && (st.running ==> st.current < |st.steps| && (st.Step().Pulses() ==> RelayIndex(st.Step().relayId).Some?))
  {
    RunKeeps(Initial(relays, scratch), ops, v);
  }

  // ---- Leaving a starter step ----------------------------------------------

  /** However a STARTER step is left, a valid starter relay is off at that moment: either it was off before the
      next step was entered, or the program has ended with it off. */
  lemma StarterOffWhenLeaving(st: Exec, v: Vehicle, env: Env)
    requires Inv(st) && StarterSafe(st, v) && env.Valid()
    requires st.running && st.Step().Cranks() && RelayIndex(v.starterRelayId).Some?
    ensures var r, i := Update(st, v, env), RelayIndex(v.starterRelayId).value;
            || (r.running && r.current == st.current && r.steps == st.steps)
            || (!r.running && !r.relays[i])
            || (!st.relays[i] && r == NextStep(Idle(st), env))
    ensures !Stop(st, v).relays[RelayIndex(v.starterRelayId).value]
  {
    hide NextStep;
  }

  /** A crank in progress ends at the first update at which its time is up, or its input reads active, by unbounded
      time across clock wraps; until then it goes on unchanged. */
  lemma CrankEndsOnTime(st: Exec, v: Vehicle, env: Env, begun: nat, now: nat)
    requires Inv(st) && env.Valid() && st.running && st.Step().Cranks() && st.starter.phase == 1
    requires RelayIndex(v.starterRelayId).Some?
    requires begun <= now < begun + WORD && st.starter.startedAt == Millis(begun) && env.now == Millis(now)
    ensures var s, r, i := st.Step(), Update(st, v, env), RelayIndex(v.starterRelayId).value;
            && AttemptMs(s, v) <= v.starterMaxSec * 1000
            && (now - begun >= AttemptMs(s, v) ==> !r.relays[i] && (!r.running || r.starter.phase == 2))
            && (now - begun < AttemptMs(s, v) && s.action == STARTER_TIMED ==> r == st)
            && (s.action == STARTER_WAIT_INPUT && InputIndex(s.inputId).Some? ==>
                  (r == st <==> now - begun < AttemptMs(s, v) && !env.inputs[InputIndex(s.inputId).value]))
  {
    SinceIsElapsed(begun, now);
    hide Since;
  }

  // ---- At most max(1, retries) cranks --------------------------------------

  function CranksDone(st: Exec): int
    requires st.current < |st.steps|
  {
    if st.starter.phase == 0 then 0
    else st.Step().Attempts() - st.starter.attemptsLeft + (if st.starter.phase == 3 then 0 else 1)
  }

  predicate AtStarter(st: Exec, k: nat) {
    st.running && st.current == k < |st.steps| && st.Step().Cranks()
  }

  /** Cranks begun by a series of updates while step `k` lasts. */
  function CrankCount(st: Exec, v: Vehicle, envs: seq<Env>, k: nat): nat
    requires st.Shaped() && forall i | 0 <= i < |envs| :: envs[i].Valid()
    decreases |envs|
  {
    if envs == [] || !AtStarter(st, k) then 0
    else
      var next := Update(st, v, envs[0]);
      (if AtStarter(next, k) && next.starter.phase == 1 && st.starter.phase != 1 then 1 else 0)
      + CrankCount(next, v, envs[1..], k)
  }

  lemma UpdateCountsCranks(st: Exec, v: Vehicle, env: Env, k: nat)
    requires Inv(st) && env.Valid() && AtStarter(st, k)
    ensures var r := Update(st, v, env);
            AtStarter(r, k) ==>
              && r.Step() == st.Step()
              && CranksDone(r) == CranksDone(st) + (if r.starter.phase == 1 && st.starter.phase != 1 then 1 else 0)
              && CranksDone(r) <= st.Step().Attempts()
  {
    if st.starter.phase == 2 {
      NextMovesOn(Idle(st), env);
    }
    hide NextStep;
  }

  lemma {:induction false} EnterMovesOn(st: Exec, env: Env)
    requires st.Shaped() && st.running && st.current < |st.steps|
    ensures Enter(st, env).current >= st.current && Enter(st, env).steps == st.steps
    decreases |st.steps| - st.current
  {
    hide EntryOf, NextStep;
    var cleared := st.(rt := st.rt.(phase := 0), starter := st.starter.(phase := 0, attemptsLeft := 0));
    match EntryOf(st.Step(), st.relays, env)
    case Instant(relays, effects) =>
      NextMovesOn(cleared.(relays := relays, effects := st.effects + effects), env);
    case _ =>
  }

  lemma {:induction false} NextMovesOn(st: Exec, env: Env)
    requires st.Shaped() && st.running && st.current < |st.steps|
    ensures NextStep(st, env).current > st.current && NextStep(st, env).steps == st.steps
    decreases |st.steps| - st.current, 0
  {
    hide Enter;
    if st.current + 1 < |st.steps| {
      EnterMovesOn(st.(current := st.current + 1), env);
    }
  }

  /** One starter step cranks at most max(1, retries) times, however the updates fall. */
  lemma {:induction false} CranksAreBounded(st: Exec, v: Vehicle, envs: seq<Env>, k: nat)
    requires Inv(st) && StarterSafe(st, v) && AtStarter(st, k) && forall i | 0 <= i < |envs| :: envs[i].Valid()
    ensures CranksDone(st) + CrankCount(st, v, envs, k) <= st.Step().Attempts()
    decreases |envs|
  {
    hide Update;
    if envs != [] {
      UpdateKeeps(st, v, envs[0]);
      UpdateCountsCranks(st, v, envs[0], k);
      var next := Update(st, v, envs[0]);
      if AtStarter(next, k) {
        CranksAreBounded(next, v, envs[1..], k);
      }
    }
  }

  // ---- Termination ---------------------------------------------------------

  /** (steps left, attempts left, phases left), lexicographically. */
  function Rank(st: Exec): (nat, nat, nat)
    requires Inv(st)
  {
    if !st.running then (0, 0, 0)
    else
      var s, left := st.Step(), |st.steps| - st.current;
      if s.Cranks() then
        (left, if st.starter.phase == 0 then s.Attempts() else st.starter.attemptsLeft,
         match st.starter.phase
         case 0 => 4
         case 3 => 3
         case 1 => 2
         case _ => 1)
      else (left, 0, if st.rt.phase == 1 then 2 else 1)
  }

  predicate Less(a: (nat, nat, nat), b: (nat, nat, nat)) {
    a.0 < b.0 || (a.0 == b.0 && (a.1 < b.1 || (a.1 == b.1 && a.2 < b.2)))
  }

  /** An update either waits, changing nothing, or strictly lowers the rank. */
  lemma UpdateProgresses(st: Exec, v: Vehicle, env: Env)
    requires Inv(st) && StarterSafe(st, v) && env.Valid() && st.running
    ensures Inv(Update(st, v, env))
    ensures Update(st, v, env) == st || Less(Rank(Update(st, v, env)), Rank(st))
  {
    UpdateKeeps(st, v, env);
    if st.Step().action == WAIT {
      NextMovesOn(st, env);
    } else if st.Step().Pulses() {
      PulseProgresses(st, v, env);
    } else {
      StarterProgresses(st, v, env);
    }
    hide NextStep, UpdatePulse, UpdateStarter;
  }

  lemma PulseProgresses(st: Exec, v: Vehicle, env: Env)
    requires Inv(st) && st.running && st.Step().Pulses() && Inv(UpdatePulse(st, env))
    ensures UpdatePulse(st, env) == st || Less(Rank(UpdatePulse(st, env)), Rank(st))
  {
    var i := RelayIndex(st.Step().relayId).value;
    if st.rt.phase == 2 {
      NextMovesOn(st.(relays := st.relays[i := st.Step().action == RELAY_PULSE_ON_OFF_ON], rt := st.rt.(phase := 0)), env);
    }
    hide NextStep;
  }

  lemma StarterProgresses(st: Exec, v: Vehicle, env: Env)
    requires Inv(st) && env.Valid() && st.running && st.Step().Cranks() && Inv(UpdateStarter(st, v, env))
    ensures UpdateStarter(st, v, env) == st || Less(Rank(UpdateStarter(st, v, env)), Rank(st))
  {
    if st.starter.phase == 2 {
      NextMovesOn(Idle(st), env);
    }
    hide NextStep;
  }

  /** The wait of the current step is over. */
  predicate Due(st: Exec, v: Vehicle, env: Env)
    requires st.current < |st.steps|
  {
    var s := st.Step();
    if s.Cranks() then
      match st.starter.phase
      case 0 => true
      case 1 => Since(env.now, st.starter.startedAt) >= AttemptMs(s, v)
      case 2 => Since(env.now, st.starter.startedAt) >= v.waitAfterSec * 1000
      case _ => Since(env.now, st.starter.startedAt) >= 1000
    else Since(env.now, st.rt.startedAt) >= s.ms
  }

  lemma DueUpdatesProgress(st: Exec, v: Vehicle, env: Env)
    requires Inv(st) && StarterSafe(st, v) && env.Valid() && st.running && Due(st, v, env)
    ensures Inv(Update(st, v, env))
    ensures Less(Rank(Update(st, v, env)), Rank(st))
  {
    UpdateProgresses(st, v, env);
    if st.Step().action == WAIT {
      NextMovesOn(st, env);
    } else if st.Step().Pulses() && st.rt.phase == 2 {
      NextMovesOn(st.(relays := st.relays[RelayIndex(st.Step().relayId).value := st.Step().action == RELAY_PULSE_ON_OFF_ON],
                      rt := st.rt.(phase := 0)), env);
    } else if st.Step().Cranks() && st.starter.phase == 2 {
      NextMovesOn(Idle(st), env);
    }
    hide NextStep, Inv;
  }

  /** Updates that all find the wait over; runs that are not running are of no interest. */
  predicate AllDue(st: Exec, v: Vehicle, envs: seq<Env>)
    requires st.Shaped()
    decreases |envs|
  {
    envs == [] || !st.running
    || (envs[0].Valid() && st.current < |st.steps| && Due(st, v, envs[0]) && AllDue(Update(st, v, envs[0]), v, envs[1..]))
  }

  function RunUpdates(st: Exec, v: Vehicle, envs: seq<Env>): Exec
    requires st.Shaped() && forall i | 0 <= i < |envs| :: envs[i].Valid()
    decreases |envs|
  {
    if envs == [] then st else RunUpdates(Update(st, v, envs[0]), v, envs[1..])
  }

  function Weight(r: (nat, nat, nat)): nat { 2000 * r.0 + 5 * r.1 + r.2 }

  /** Every program ends: once enough updates have found the wait over, none is running. */
  lemma {:induction false} ProgramEnds(st: Exec, v: Vehicle, envs: seq<Env>)
    requires Inv(st) && StarterSafe(st, v) && AllDue(st, v, envs) && forall i | 0 <= i < |envs| :: envs[i].Valid()
    requires forall i | 0 <= i < |st.steps| :: st.steps[i].retries < 256
    requires |envs| >= Weight(Rank(st))
    ensures !RunUpdates(st, v, envs).running
    decreases |envs|
  {
    hide Update;
    if st.running {
      assert Weight(Rank(st)) > 0 by { RankBounds(st); }
      var next := Update(st, v, envs[0]);
      DueUpdatesProgress(st, v, envs[0]);
      UpdateKeeps(st, v, envs[0]);
      UpdateSteps(st, v, envs[0]);
      RankBounds(st);
      RankBounds(next);
      ProgramEnds(next, v, envs[1..]);
    } else {
      StaysStopped(st, v, envs);
    }
  }

  lemma RankBounds(st: Exec)
    requires Inv(st) && forall i | 0 <= i < |st.steps| :: st.steps[i].retries < 256
    ensures Rank(st).1 <= 255 && Rank(st).2 <= 4
    ensures st.running ==> Rank(st).0 > 0
  {
  }

  lemma UpdateSteps(st: Exec, v: Vehicle, env: Env)
    requires Inv(st) && env.Valid()
    ensures Update(st, v, env).steps == st.steps
  {
    if st.running {
      if st.Step().action == WAIT {
        NextMovesOn(st, env);
      } else if st.Step().Pulses() && st.rt.phase == 2 {
        NextMovesOn(st.(relays := st.relays[RelayIndex(st.Step().relayId).value := st.Step().action == RELAY_PULSE_ON_OFF_ON],
                        rt := st.rt.(phase := 0)), env);
      } else if st.Step().Cranks() && st.starter.phase == 2 {
        NextMovesOn(Idle(st), env);
      }
      hide NextStep;
    }
  }

  lemma {:induction false} StaysStopped(st: Exec, v: Vehicle, envs: seq<Env>)
    requires st.Shaped() && !st.running && forall i | 0 <= i < |envs| :: envs[i].Valid()
    ensures RunUpdates(st, v, envs) == st
    decreases |envs|
  {
    if envs != [] {
      StaysStopped(st, v, envs[1..]);
    }
  }
}
