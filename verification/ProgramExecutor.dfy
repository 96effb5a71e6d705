/** The executor object: fields, relays and pool slots updated in place, refining `ProgramModel`. */
module ProgramExecutor {
  import opened Bytes
  import opened ProgramTypes
  import opened ProgramModel
  import opened RelayController
  import opened PoolManager

  function ActionsOf(steps: seq<CompiledStep>): (r: seq<ActionId>)
    ensures |r| == |steps|
  {
    seq(|steps|, i requires 0 <= i < |steps| => steps[i].action)
  }

  class Executor {
    const relay: Controller
    const pool: Pool
    const stepsBytes: nat         // what `start` asks of the pool
    const actionsBytes: nat
    var running: bool
    var programId: nat
    var currentStep: nat
    var rt: StepRuntime
    var starter: StarterRuntime
    var localSteps: seq<CompiledStep>
    var localActions: seq<ActionId>
    var stepsSet: bool
    var actionsSet: bool
    var effects: seq<Effect>      // what the executor asked of the other subsystems, oldest first

    ghost predicate Valid()
      reads this, relay, pool
    {
      && relay.Valid() && pool.Valid()
      && localActions == ActionsOf(localSteps)
      && (this as object) != pool && (this as object) != relay && (relay as object) != pool
    }

    ghost function View(): (st: Exec)
      requires Valid()
      reads this, relay, pool
      ensures st.Shaped()
    {
      Exec(running, programId, localSteps, stepsSet, actionsSet, currentStep, rt, starter,
           relay.View(), pool.refs, effects)
    }

    constructor (relay: Controller, pool: Pool, stepsBytes: nat, actionsBytes: nat)
      requires relay.Valid() && pool.Valid() && (relay as object) != pool
      requires pool.refs[1] == 0 && pool.refs[2] == 0
      ensures Valid() && this.relay == relay && this.pool == pool && View() == Initial(relay.View(), pool.refs[0])
    {
      this.relay, this.pool, this.stepsBytes, this.actionsBytes := relay, pool, stepsBytes, actionsBytes;
      running, programId, currentStep, rt, starter := false, 0, 0, StepRuntime(0, 0), StarterRuntime(0, 0, 0);
      localSteps, localActions, stepsSet, actionsSet, effects := [], [], false, false, [];
    }

    method DoFinish()
      requires Valid()
      modifies this`running, this`programId, this`stepsSet, this`actionsSet, pool
      ensures Valid() && View() == Finish(old(View()))
    {
      running, programId := false, 0;
      if actionsSet {
        pool.Release(ProgramExecActions);
        actionsSet := false;
      }
      if stepsSet {
        pool.Release(ProgramExecSteps);
        stepsSet := false;
      }
    }

    method AbortWithError(now: nat)
      requires Valid()
      modifies this, pool, relay
      ensures Valid() && View() == Abort(old(View()))
    {
      relay.AllOff(now);
      DoFinish();
      effects := effects + [ProgramAborted];
    }

    method AbortInvalidRef(now: nat)
      requires Valid()
      modifies this, pool, relay
      ensures Valid() && View() == AbortBadRef(old(View()))
    {
      AbortWithError(now);
      effects := effects + [InvalidRef];
    }

    method ExecuteStep(env: Env)
      requires Valid() && running && currentStep < |localSteps|
      modifies this, pool, relay
      ensures Valid() && View() == Enter(old(View()), env)
      decreases |localSteps| - currentStep, 2
    {
      var s := localSteps[currentStep];
      EnterClears(View(), env);
      FlagCase(s, View().relays, env);
      TriggerCase(s, View().relays, env);
      assert localActions[currentStep] == s.action;
      hide Enter, NextStep, AbortBadRef, EntryOf, TriggerEntry, ActionsOf;
      rt, starter := rt.(phase := 0), starter.(phase := 0, attemptsLeft := 0);
      match localActions[currentStep] {
        case RELAY_ON | RELAY_OFF | RELAY_TOGGLE | RELAY_PULSE_ON_OFF_ON | RELAY_PULSE_OFF_ON_OFF =>
          ExecuteRelayStep(s, env);
        case INPUT_ENABLE | INPUT_DISABLE =>
          ExecuteInputStep(s, env);
        case BATTERY_SAVER_ON | BATTERY_SAVER_OFF =>
          ExecuteFlagStep(s, BatterySaver(s.action == BATTERY_SAVER_ON), env);
        case THERMOSTAT_ON | THERMOSTAT_OFF =>
          ExecuteFlagStep(s, Thermostat(s.action == THERMOSTAT_ON), env);
        case INPUT_TRIGGER_ENABLE | INPUT_TRIGGER_DISABLE =>
          ExecuteTriggerStep(s, env.inputTriggers, s.inputTriggerId, s.action == INPUT_TRIGGER_ENABLE, env);
        case TEMP_TRIGGER_ENABLE | TEMP_TRIGGER_DISABLE =>
          ExecuteTriggerStep(s, env.tempTriggers, s.tempTriggerId, s.action == TEMP_TRIGGER_ENABLE, env);
        case _ =>
          ExecutePlainStep(s, env);
      }
    }

    static lemma RelayCase(s: CompiledStep, relays: seq<bool>, env: Env)
      requires |relays| == RELAYS && (s.Pulses() || s.action in {RELAY_ON, RELAY_OFF, RELAY_TOGGLE})
      ensures EntryOf(s, relays, env) == RelayEntry(s, relays) && !s.Cranks()
    {
      hide RelayEntry;
    }

    static lemma FlagCase(s: CompiledStep, relays: seq<bool>, env: Env)
      requires |relays| == RELAYS
      ensures s.action in {BATTERY_SAVER_ON, BATTERY_SAVER_OFF} ==>
                EntryOf(s, relays, env) == Instant(relays, [BatterySaver(s.action == BATTERY_SAVER_ON)])
      ensures s.action in {THERMOSTAT_ON, THERMOSTAT_OFF} ==>
                EntryOf(s, relays, env) == Instant(relays, [Thermostat(s.action == THERMOSTAT_ON)])
    {
    }

    static lemma TriggerCase(s: CompiledStep, relays: seq<bool>, env: Env)
      requires |relays| == RELAYS
      ensures s.action in {INPUT_TRIGGER_ENABLE, INPUT_TRIGGER_DISABLE} ==>
                EntryOf(s, relays, env)
                == TriggerEntry(env.inputTriggers, s.inputTriggerId, relays, s.action == INPUT_TRIGGER_ENABLE, false)
      ensures s.action in {TEMP_TRIGGER_ENABLE, TEMP_TRIGGER_DISABLE} ==>
                EntryOf(s, relays, env)
                == TriggerEntry(env.tempTriggers, s.tempTriggerId, relays, s.action == TEMP_TRIGGER_ENABLE, true)
    {
      hide TriggerEntry;
    }

    static lemma InputCase(s: CompiledStep, relays: seq<bool>, env: Env)
      requires |relays| == RELAYS && s.action in {INPUT_ENABLE, INPUT_DISABLE}
      ensures EntryOf(s, relays, env) == InputEntry(s.inputId, relays, s.action == INPUT_ENABLE)
    {
      hide InputEntry;
    }

    /** What entering a step with cleared runtimes amounts to. */
    static lemma EnterCases(st: Exec, env: Env)
      requires st.Shaped() && st.running && st.current < |st.steps|
      requires st.rt.phase == 0 && st.starter.phase == 0 && st.starter.attemptsLeft == 0
      ensures var e := EntryOf(st.Step(), st.relays, env);
              Enter(st, env) == match e
                case BadRef => AbortBadRef(st)
                case Instant(relays, effects) => NextStep(st.(relays := relays, effects := st.effects + effects), env)
                case Timed(relays, phase) =>
                  if st.Step().Cranks() then st.(relays := relays, starter := StarterRuntime(0, 0, 0))
                  else st.(relays := relays, rt := StepRuntime(phase, env.now))
    {
      hide EntryOf, NextStep, AbortBadRef;
    }

    /** Entering a step starts from cleared runtimes. */
    static lemma EnterClears(st: Exec, env: Env)
      requires st.Shaped() && st.running && st.current < |st.steps|
      ensures Enter(st, env)
           == Enter(st.(rt := st.rt.(phase := 0), starter := st.starter.(phase := 0, attemptsLeft := 0)), env)
    {
      hide NextStep, EntryOf;
    }

    ghost predicate Entering(s: CompiledStep)
      reads this, relay, pool
    {
      && Valid() && running && currentStep < |localSteps| && s == localSteps[currentStep]
      && rt.phase == 0 && starter.phase == 0 && starter.attemptsLeft == 0
    }

    /** WAIT, the starter steps and unknown actions. */
    method ExecutePlainStep(s: CompiledStep, env: Env)
      requires Entering(s) && (s.action in {WAIT, UNKNOWN} || s.Cranks())
      modifies this, pool, relay
      ensures Valid() && View() == Enter(old(View()), env)
      decreases |localSteps| - currentStep, 1
    {
      EnterCases(View(), env);
      hide NextStep, Enter;
      if s.action == WAIT {
        rt := rt.(startedAt := env.now);
      } else if s.action == UNKNOWN {
        assert effects + [] == effects;
        DoNextStep(env);
      } else {
        starter := StarterRuntime(0, 0, 0);
      }
    }

    method ExecuteInputStep(s: CompiledStep, env: Env)
      requires Entering(s) && (s.action == INPUT_ENABLE || s.action == INPUT_DISABLE)
      modifies this, pool, relay
      ensures Valid() && View() == Enter(old(View()), env)
      decreases |localSteps| - currentStep, 1
    {
      EnterCases(View(), env);
      InputCase(s, View().relays, env);
      hide AbortBadRef, NextStep, Enter, EntryOf, InputIndex, ActionsOf;
      var idx := InputIndex(s.inputId);
      if idx.None? {
        AbortInvalidRef(env.now);
        return;
      }
      effects := effects + [InputEnabled(idx.value, s.action == INPUT_ENABLE)];
      DoNextStep(env);
    }

    method ExecuteFlagStep(s: CompiledStep, flag: Effect, env: Env)
      requires Entering(s) && EntryOf(s, View().relays, env) == Instant(View().relays, [flag])
      modifies this, pool, relay
      ensures Valid() && View() == Enter(old(View()), env)
      decreases |localSteps| - currentStep, 1
    {
      EnterCases(View(), env);
      hide NextStep, Enter, EntryOf, ActionsOf;
      effects := effects + [flag];
      DoNextStep(env);
    }

    method ExecuteRelayStep(s: CompiledStep, env: Env)
      requires Entering(s) && (s.Pulses() || s.action in {RELAY_ON, RELAY_OFF, RELAY_TOGGLE})
      modifies this, pool, relay
      ensures Valid() && View() == Enter(old(View()), env)
      decreases |localSteps| - currentStep, 1
    {
      EnterCases(View(), env);
      RelayCase(s, View().relays, env);
      hide AbortBadRef, NextStep, Enter, EntryOf, RelayIndex, ActionsOf;
      var idx := RelayIndex(s.relayId);
      if idx.None? {
        AbortInvalidRef(env.now);
        return;
      }
      assert effects + [] == effects;
      if s.Pulses() {
        relay.SetRelay(idx.value, s.action == RELAY_PULSE_ON_OFF_ON, env.now);
        rt := StepRuntime(1, env.now);
        return;
      }
      if s.action == RELAY_TOGGLE {
        relay.Toggle(idx.value, env.now);
      } else {
        relay.SetRelay(idx.value, s.action == RELAY_ON, env.now);
      }
      DoNextStep(env);
    }

    /** A trigger that is not configured is skipped. */
    method ExecuteTriggerStep(s: CompiledStep, ids: seq<nat>, id: nat, on: bool, env: Env)
      requires Entering(s)
      requires EntryOf(s, View().relays, env)
            == TriggerEntry(ids, id, View().relays, on, s.action in {TEMP_TRIGGER_ENABLE, TEMP_TRIGGER_DISABLE})
      modifies this, pool, relay
      ensures Valid() && View() == Enter(old(View()), env)
      decreases |localSteps| - currentStep, 1
    {
      hide NextStep, EntryOf, Enter, IndexOf, ActionsOf, AbortBadRef;
      EnterCases(View(), env);
      var idx := if id == 0 then None else IndexOf(ids, id);
      if idx.None? || idx.value >= MAX_TRIGGERS {
        assert effects + [] == effects;
        DoNextStep(env);
        return;
      }
      var temp := s.action == TEMP_TRIGGER_ENABLE || s.action == TEMP_TRIGGER_DISABLE;
      var effect := if temp then TempTrigger(idx.value, on) else InputTrigger(idx.value, on);
      effects := effects + [effect];
      DoNextStep(env);
    }

    method DoNextStep(env: Env)
      requires Valid() && running && currentStep < |localSteps|
      modifies this, pool, relay
      ensures Valid() && View() == NextStep(old(View()), env)
      decreases |localSteps| - currentStep, 0
    {
      hide Enter, Finish;
      currentStep := currentStep + 1;
      if currentStep >= |localSteps| {
        DoFinish();
      } else {
        ExecuteStep(env);
      }
    }

    method DoUpdate(v: Vehicle, env: Env)
      requires Valid() && env.Valid()
      modifies this, pool, relay
      ensures Valid() && View() == Update(old(View()), v, env)
    {
      hide Abort, NextStep, UpdatePulse, UpdateStarter;
      if !running {
        return;
      }
      if !stepsSet || !actionsSet || currentStep >= |localSteps| {
        AbortWithError(env.now);
        return;
      }
      var s := localSteps[currentStep];
      match localActions[currentStep] {
        case WAIT =>
          if Since(env.now, rt.startedAt) >= s.ms {
            DoNextStep(env);
          }
        case RELAY_PULSE_ON_OFF_ON | RELAY_PULSE_OFF_ON_OFF =>
          DoUpdatePulse(s, env);
        case STARTER_TIMED | STARTER_WAIT_INPUT =>
          DoUpdateStarter(s, v, env);
        case _ =>
      }
    }

    method DoUpdatePulse(s: CompiledStep, env: Env)
      requires Valid() && running && currentStep < |localSteps| && s == localSteps[currentStep] && s.Pulses()
      modifies this, pool, relay
      ensures Valid() && View() == UpdatePulse(old(View()), env)
    {
      hide NextStep, AbortBadRef;
      var onOffOn := s.action == RELAY_PULSE_ON_OFF_ON;
      var relayIdx := RelayIndex(s.relayId);
      if rt.phase == 1 {
        if Since(env.now, rt.startedAt) < s.ms {
          return;
        }
        if relayIdx.None? {
          AbortInvalidRef(env.now);
          return;
        }
        relay.SetRelay(relayIdx.value, !onOffOn, env.now);
        rt := StepRuntime(2, env.now);
      } else if rt.phase == 2 {
        if Since(env.now, rt.startedAt) < s.ms {
          return;
        }
        if relayIdx.None? {
          AbortInvalidRef(env.now);
          return;
        }
        relay.SetRelay(relayIdx.value, onOffOn, env.now);
        rt := rt.(phase := 0);
        DoNextStep(env);
      }
    }

    method DoUpdateStarter(s: CompiledStep, v: Vehicle, env: Env)
      requires Valid() && env.Valid() && running && currentStep < |localSteps| && s == localSteps[currentStep] && s.Cranks()
      modifies this, pool, relay
      ensures Valid() && View() == UpdateStarter(old(View()), v, env)
    {
      hide AbortBadRef, NextStep, Finish, Since, ActionsOf, RelayIndex;
      var starterRelay := RelayIndex(v.starterRelayId);
      if starterRelay.None? {
        AbortInvalidRef(env.now);
        return;
      }
      if starter.attemptsLeft == 0 {
        starter := starter.(attemptsLeft := if s.retries == 0 then 1 else s.retries);
      }
      if starter.phase == 1 {
        UpdateCrank(s, starterRelay.value, v, env);
      } else if starter.phase == 2 {
        UpdateAfterCrank(v, env);
      } else if starter.phase != 3 || Since(env.now, starter.startedAt) >= 1000 {
        relay.SetRelay(starterRelay.value, true, env.now);
        starter := starter.(phase := 1, startedAt := env.now);
      }
    }

    /** The crank goes on until its input reads active or its time is up. */
    method UpdateCrank(s: CompiledStep, starterRelay: nat, v: Vehicle, env: Env)
      requires Valid() && env.Valid() && running && currentStep < |localSteps| && s == localSteps[currentStep] && s.Cranks()
      requires starter.phase == 1 && starter.attemptsLeft > 0 && RelayIndex(v.starterRelayId) == Some(starterRelay)
      modifies this, pool, relay
      ensures Valid() && View() == UpdateStarter(old(View()), v, env)
    {
      hide AbortBadRef, NextStep, Finish, Since, ActionsOf, RelayIndex;
      var maxStarterMs := v.starterMaxSec * 1000;
      var attemptMs := if s.action == STARTER_TIMED && 0 < s.ms < maxStarterMs then s.ms else maxStarterMs;
      var halt := false;
      if s.action == STARTER_WAIT_INPUT {
        var inIdx := InputIndex(s.inputId);
        if inIdx.None? {
          relay.SetRelay(starterRelay, false, env.now);
          AbortInvalidRef(env.now);
          return;
        }
        if env.inputs[inIdx.value] {
          halt := true;
        }
      }
      if !halt && Since(env.now, starter.startedAt) >= attemptMs {
        halt := true;
      }
      if halt {
        relay.SetRelay(starterRelay, false, env.now);
        starter := starter.(phase := 2, startedAt := env.now);
      }
    }

    /** After a crank: go on if the engine runs, else try again or give up. */
    method UpdateAfterCrank(v: Vehicle, env: Env)
      requires Valid() && env.Valid() && running && currentStep < |localSteps| && localSteps[currentStep].Cranks()
      requires starter.phase == 2 && starter.attemptsLeft > 0 && RelayIndex(v.starterRelayId).Some?
      modifies this, pool, relay
      ensures Valid() && View() == UpdateStarter(old(View()), v, env)
    {
      hide AbortBadRef, NextStep, Finish, Since, ActionsOf, RelayIndex;
      if Since(env.now, starter.startedAt) < v.waitAfterSec * 1000 {
        return;
      }
      if env.engineRunning {
        starter := starter.(phase := 0, attemptsLeft := 0);
        DoNextStep(env);
      } else if starter.attemptsLeft > 1 {
        starter := StarterRuntime(3, env.now, starter.attemptsLeft - 1);
      } else {
        starter := starter.(phase := 0, attemptsLeft := 0);
        DoFinish();
      }
    }

    method DoStop(v: Vehicle, now: nat)
      requires Valid()
      modifies this, pool, relay
      ensures Valid() && View() == Stop(old(View()), v)
    {
      hide Finish;
      if running {
        if currentStep < |localSteps| {
          var id := localActions[currentStep];
          if id == STARTER_TIMED || id == STARTER_WAIT_INPUT {
            var starterRelay := RelayIndex(v.starterRelayId);
            if starterRelay.Some? {
              relay.SetRelay(starterRelay.value, false, now);
            }
          }
        }
        DoFinish();
      }
    }

    /** The answer to a load once the pool has been asked for both buffers: it grants a buffer of the slot's own size. */
    ghost function Granted(load: Load): Load
      requires |pool.sizes| == 3
    {
      if stepsBytes == 0 || stepsBytes != pool.sizes[1] then NoSteps
      else if actionsBytes == 0 || actionsBytes != pool.sizes[2] then NoActions
      else load
    }

    /** Takes both buffers or none. */
    method AcquireBoth() returns (ok: bool)
      requires Valid()
      modifies this`stepsSet, this`actionsSet, pool
      ensures Valid() && ok == Granted(NotFound).NotFound?
      ensures ok ==> stepsSet && actionsSet
                     && pool.refs == old(pool.refs)[1 := AcquireRef(old(pool.refs)[1])][2 := AcquireRef(old(pool.refs)[2])]
      ensures !ok ==> stepsSet == old(stepsSet) && actionsSet == old(actionsSet)
      ensures Granted(NotFound).NoSteps? ==> pool.refs == old(pool.refs)
      ensures Granted(NotFound).NoActions? ==>
                var withSteps := old(pool.refs)[1 := AcquireRef(old(pool.refs)[1])];
                pool.refs == withSteps[1 := ReleaseRef(withSteps[1])]
    {
      hide AcquireRef, ReleaseRef;
      var gotSteps := pool.Acquire(ProgramExecSteps, stepsBytes);
      if !gotSteps {
        return false;
      }
      var gotActions := pool.Acquire(ProgramExecActions, actionsBytes);
      if !gotActions {
        pool.Release(ProgramExecSteps);
        return false;
      }
      stepsSet, actionsSet := true, true;
      return true;
    }

    static method CopyActions(steps: seq<CompiledStep>) returns (actions: seq<ActionId>)
      ensures actions == ActionsOf(steps)
    {
      actions := [];
      var i := 0;
      while i < |steps|
        invariant i <= |steps| && actions == ActionsOf(steps[..i])
      {
        actions := actions + [steps[i].action];
        i := i + 1;
      }
      assert steps[..i] == steps;
    }

    method ReleaseBoth()
      requires Valid()
      modifies this`stepsSet, this`actionsSet, pool
      ensures Valid() && !stepsSet && !actionsSet
      ensures pool.refs == old(pool.refs)[2 := ReleaseRef(old(pool.refs)[2])][1 := ReleaseRef(old(pool.refs)[1])]
    {
      pool.Release(ProgramExecActions);
      pool.Release(ProgramExecSteps);
      actionsSet, stepsSet := false, false;
    }

    /** `load` is the configuration store's answer for this id. */
    method DoStart(id: nat, load: Load, v: Vehicle, env: Env) returns (ok: bool)
      requires Valid() && load.Valid() && (load.NotFound? || load.Loaded?)
      modifies this, pool, relay
      ensures Valid() && View() == Start(old(View()), id, Granted(load), v, env)
      ensures ok == (Granted(load).Loaded? && load.steps != [])
    {
      hide Stop, Enter, Finish, AcquireRef, ReleaseRef, ActionsOf;
      DoStop(v, env.now);
      ghost var stopped := View();
      ok := AcquireBoth();
      if !ok {
        return false;
      }
      ghost var refs := pool.refs;
      if load.NotFound? || load.steps == [] {
        ReleaseBoth();
        var none := CopyActions([]);
        localSteps, localActions := [], none;
        assert View() == Unloaded(stopped, refs);
        return false;
      }
      BeginFirst(id, load.steps, env);
      return true;
    }

    /** Enters the first step of a loaded program. */
    method BeginFirst(id: nat, steps: seq<CompiledStep>, env: Env)
      requires Valid() && stepsSet && actionsSet && steps != []
      modifies this, pool, relay
      ensures Valid() && View() == Enter(Begun(old(View()), id, steps, old(pool.refs)), env)
    {
      hide Enter, ActionsOf;
      var actions := CopyActions(steps);
      localSteps, localActions := steps, actions;
      programId, running, currentStep := id, true, 0;
      rt, starter := StepRuntime(0, 0), StarterRuntime(0, 0, 0);
      assert View() == Begun(old(View()), id, steps, old(pool.refs));
      ExecuteStep(env);
    }

    method IsInStarterStep() returns (r: bool)
      requires Valid()
      ensures r == (running && actionsSet && currentStep < |localSteps| && localSteps[currentStep].Cranks())
    {
      if !running || !actionsSet || currentStep >= |localSteps| {
        return false;
      }
      var id := localActions[currentStep];
      r := id == STARTER_TIMED || id == STARTER_WAIT_INPUT;
    }

    /** The current step waits for a stretch of time. */
    ghost predicate Timed()
      reads this
    {
      && running && stepsSet && actionsSet && currentStep < |localSteps|
      && (localSteps[currentStep].action == WAIT || (localSteps[currentStep].Pulses() && rt.phase in {1, 2}))
    }

    /** What is left of `ms` after `elapsed`. */
    static function Left(ms: nat, elapsed: nat): (left: nat)
      ensures left == 0 <==> elapsed >= ms
      ensures left > 0 ==> elapsed + left == ms
    {
      if elapsed < ms then ms - elapsed else 0
    }

    /** What is left of the current wait: by unbounded time exactly while it began less than a clock period ago, or
        would be over by the wrapped time as well. */
    method GetTimerRemainingMs(now: nat, ghost begun: nat, ghost time: nat) returns (r: nat)
      requires Valid() && now == Millis(time) && rt.startedAt == Millis(begun) && begun <= time
      ensures !Timed() ==> r == 0
      ensures Timed() ==> r == Left(localSteps[currentStep].ms, (time - begun) % WORD)
      ensures Timed() && localSteps[currentStep].ms < WORD ==>
                (r == Left(localSteps[currentStep].ms, time - begun)
                 <==> time - begun < WORD || (time - begun) % WORD >= localSteps[currentStep].ms)
    {
      SinceIsElapsed(begun, time);
      if !running || !stepsSet || !actionsSet || currentStep >= |localSteps| {
        return 0;
      }
      var s := localSteps[currentStep];
      var planned := s.ms;
      if s.Pulses() {
        if rt.phase != 1 && rt.phase != 2 {
          return 0;
        }
      } else if s.action != WAIT {
        return 0;
      }
      var elapsed := Since(now, rt.startedAt);
      r := if elapsed >= planned then 0 else planned - elapsed;
    }
  }
}
