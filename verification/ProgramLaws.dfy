/** What whole programs do: to the relays, moment by moment, and to inputs, triggers and flags. */
module ProgramLaws {
  import opened Bytes
  import opened ProgramTypes
  import opened ProgramModel

  lemma NothingAsked(e: seq<Effect>)
    ensures e + [] == e
  {
  }

  // ---- Programs that rest on a WAIT ----------------------------------------

  /** An idle executor starts a program by entering its first step. */
  lemma StartEnters(st: Exec, id: nat, steps: seq<CompiledStep>, v: Vehicle, env: Env)
    requires st.Shaped() && !st.running && steps != []
    ensures var refs := st.refs[1 := AcquireRef(st.refs[1])];
            Start(st, id, Loaded(steps), v, env) == Enter(Begun(st, id, steps, refs[2 := AcquireRef(refs[2])]), env)
  {
    hide Enter, AcquireRef;
  }

  lemma EnterWait(st: Exec, env: Env)
    requires st.Shaped() && st.running && st.current < |st.steps| && st.Step().action == WAIT
    ensures var r := Enter(st, env);
            && r.running && r.current == st.current && r.steps == st.steps
            && r.relays == st.relays && r.effects == st.effects && r.rt.startedAt == env.now
  {
    hide NextStep;
  }

  lemma EnterInstant(st: Exec, env: Env, relays: seq<bool>, effects: seq<Effect>)
    requires st.Shaped() && st.running && st.current + 1 < |st.steps|
    requires EntryOf(st.Step(), st.relays, env) == Instant(relays, effects)
    ensures |relays| == RELAYS
    ensures exists next: Exec ::
              && next.Shaped() && next.running && next.current == st.current + 1 && next.steps == st.steps
              && next.relays == relays && next.effects == st.effects + effects && Enter(st, env) == Enter(next, env)
  {
    hide EntryOf;
    var cleared := st.(rt := st.rt.(phase := 0), starter := st.starter.(phase := 0, attemptsLeft := 0));
    var next := cleared.(current := st.current + 1, relays := relays, effects := st.effects + effects);
    assert Enter(st, env) == NextStep(cleared.(relays := relays, effects := st.effects + effects), env);
    hide Enter;
    assert Enter(st, env) == Enter(next, env);
  }

  /** An instant step before a WAIT. */
  lemma InstantThenWait(st: Exec, id: nat, s: CompiledStep, w: CompiledStep, v: Vehicle, env: Env,
                        relays: seq<bool>, effects: seq<Effect>)
    requires st.Shaped() && !st.running && w.action == WAIT
    requires EntryOf(s, st.relays, env) == Instant(relays, effects)
    ensures var r := Start(st, id, Loaded([s, w]), v, env);
            r.running && r.current == 1 && r.relays == relays && r.effects == st.effects + effects
  {
    hide Enter, EntryOf, AcquireRef, Start;
    StartEnters(st, id, [s, w], v, env);
    var refs := st.refs[1 := AcquireRef(st.refs[1])];
    var begun := Begun(st, id, [s, w], refs[2 := AcquireRef(refs[2])]);
    EnterInstant(begun, env, relays, effects);
    var next: Exec :|
      && next.Shaped() && next.running && next.current == 1 && next.steps == [s, w]
      && next.relays == relays && next.effects == st.effects + effects && Enter(begun, env) == Enter(next, env);
    EnterWait(next, env);
  }

  /** RELAY_ON, RELAY_OFF and RELAY_TOGGLE: with ids 2001 to 2005, the named relay and no other, whatever was on. */
  lemma RelayPrograms(st: Exec, id: nat, s: CompiledStep, w: CompiledStep, v: Vehicle, env: Env)
    requires st.Shaped() && !st.running && 2001 <= s.relayId <= 2005 && w.action == WAIT
    requires s.action in {RELAY_ON, RELAY_OFF, RELAY_TOGGLE}
    ensures var r, i := Start(st, id, Loaded([s, w]), v, env), s.relayId - 2001;
            && r.running && r.current == 1 && r.effects == st.effects
            && (s.action == RELAY_ON ==> r.relays == st.relays[i := true])
            && (s.action == RELAY_OFF ==> r.relays == st.relays[i := false])
            && (s.action == RELAY_TOGGLE ==> r.relays == st.relays[i := !st.relays[i]])
  {
    var e := EntryOf(s, st.relays, env);
    NothingAsked(st.effects);
    hide EntryOf, Start;
    InstantThenWait(st, id, s, w, v, env, e.relays, []);
  }

  /** The same as the only step: the relay is switched and the program is over. */
  lemma RelayAlone(st: Exec, id: nat, s: CompiledStep, v: Vehicle, env: Env)
    requires st.Shaped() && !st.running && 2001 <= s.relayId <= 2005
    requires s.action in {RELAY_ON, RELAY_OFF, RELAY_TOGGLE}
    ensures var r, i := Start(st, id, Loaded([s]), v, env), s.relayId - 2001;
            && !r.running && r.effects == st.effects
            && (s.action == RELAY_ON ==> r.relays == st.relays[i := true])
            && (s.action == RELAY_OFF ==> r.relays == st.relays[i := false])
            && (s.action == RELAY_TOGGLE ==> r.relays == st.relays[i := !st.relays[i]])
  {
    var e := EntryOf(s, st.relays, env);
    NothingAsked(st.effects);
    assert e == Instant(e.relays, []);
    StartEnters(st, id, [s], v, env);
    var refs := st.refs[1 := AcquireRef(st.refs[1])];
    LastInstant(Begun(st, id, [s], refs[2 := AcquireRef(refs[2])]), env, e.relays, []);
    hide EntryOf, Start, AcquireRef, Enter;
  }

  lemma LastInstant(st: Exec, env: Env, relays: seq<bool>, effects: seq<Effect>)
    requires st.Shaped() && st.running && st.current + 1 == |st.steps|
    requires EntryOf(st.Step(), st.relays, env) == Instant(relays, effects)
    ensures var r := Enter(st, env); !r.running && r.relays == relays && r.effects == st.effects + effects
  {
    hide EntryOf;
  }

  /** Stopping touches no relay but the starter's, which is off after a starter step. */
  lemma StopLeaves(st: Exec, v: Vehicle)
    requires st.Shaped()
    ensures var r := Stop(st, v);
            var cranks := st.running && st.current < |st.steps| && st.Step().action in {STARTER_TIMED, STARTER_WAIT_INPUT};
            && !r.running && r.effects == st.effects
            && (forall k | 0 <= k < 5 && v.starterRelayId != 2001 + k :: r.relays[k] == st.relays[k])
            && (!cranks ==> r.relays == st.relays)
            && (cranks && 2001 <= v.starterRelayId <= 2005 ==> !r.relays[v.starterRelayId - 2001])
  {
  }

  /** A relay after some steps, on its own: switched by the steps that name it, as they say. */
  function Channel(steps: seq<CompiledStep>, k: nat, on: bool): bool {
    if steps == [] then on
    else
      var s := steps[0];
      Channel(steps[1..], k,
              if s.relayId != 2001 + k then on
              else
                match s.action
                case RELAY_ON => true
                case RELAY_OFF => false
                case RELAY_TOGGLE => !on
                case _ => on)
  }

  /** A step that is over at once: no wait, pulse or crank, and no relay or input that is not there. */
  predicate Straight(s: CompiledStep) {
    && s.action !in {WAIT, STARTER_TIMED, STARTER_WAIT_INPUT, RELAY_PULSE_ON_OFF_ON, RELAY_PULSE_OFF_ON_OFF}
    && (s.action in {RELAY_ON, RELAY_OFF, RELAY_TOGGLE} ==> 2001 <= s.relayId <= 2005)
    && (s.action in {INPUT_ENABLE, INPUT_DISABLE} ==> 1001 <= s.inputId <= 1003)
  }

  lemma StraightIsInstant(s: CompiledStep, relays: seq<bool>, env: Env, k: nat)
    requires Straight(s) && |relays| == RELAYS && k < 5
    ensures EntryOf(s, relays, env).Instant?
    ensures EntryOf(s, relays, env).relays[k] == Channel([s], k, relays[k])
  {
    assert [s][1..] == [];
    hide IndexOf;
  }

  /** Any number of instant steps before a WAIT: the program rests on the WAIT, and each relay is as the steps that name
      it leave it. */
  lemma {:induction false} StraightPrograms(st: Exec, env: Env)
    requires st.Shaped() && st.running && st.current < |st.steps|
    requires st.steps[|st.steps| - 1].action == WAIT
    requires forall i | st.current <= i < |st.steps| - 1 :: Straight(st.steps[i])
    ensures var r := Enter(st, env);
            && r.running && r.current == |st.steps| - 1 && r.steps == st.steps
            && forall k | 0 <= k < 5 :: r.relays[k] == Channel(st.steps[st.current..|st.steps| - 1], k, st.relays[k])
    decreases |st.steps| - st.current
  {
    hide Enter, Straight, Channel;
    var n := |st.steps| - 1;
    if st.current == n {
      EnterWait(st, env);
      NoSteps(st.steps[n..n]);
    } else {
      var next := StraightStep(st, env);
      StraightPrograms(next, env);
      forall k | 0 <= k < 5
        ensures Channel(st.steps[st.current..n], k, st.relays[k]) == Channel(st.steps[next.current..n], k, next.relays[k])
      {
        ChannelStep(st.steps[st.current..n], k, st.relays[k]);
        assert st.steps[st.current..n][1..] == st.steps[next.current..n];
        assert st.steps[st.current..n][..1] == [st.Step()];
      }
    }
  }

  lemma NoSteps(steps: seq<CompiledStep>)
    requires steps == []
    ensures forall k: nat, on: bool :: Channel(steps, k, on) == on
  {
  }

  /** An instant step is followed by the next one, with each relay as the step leaves it. */
  lemma StraightStep(st: Exec, env: Env) returns (next: Exec)
    requires st.Shaped() && st.running && st.current + 1 < |st.steps| && Straight(st.Step())
    ensures next.Shaped() && next.running && next.current == st.current + 1 && next.steps == st.steps
    ensures Enter(st, env) == Enter(next, env)
    ensures forall k | 0 <= k < 5 :: next.relays[k] == Channel([st.Step()], k, st.relays[k])
  {
    hide EntryOf, Enter, Straight, Channel;
    var s := st.Step();
    StraightIsInstant(s, st.relays, env, 0);
    var e := EntryOf(s, st.relays, env);
    EnterInstant(st, env, e.relays, e.effects);
    next :|
      && next.Shaped() && next.running && next.current == st.current + 1 && next.steps == st.steps
      && next.relays == e.relays && next.effects == st.effects + e.effects && Enter(st, env) == Enter(next, env);
    forall k | 0 <= k < 5
      ensures next.relays[k] == Channel([s], k, st.relays[k])
    {
      StraightIsInstant(s, st.relays, env, k);
    }
  }

  lemma ChannelStep(steps: seq<CompiledStep>, k: nat, on: bool)
    requires steps != []
    ensures Channel(steps, k, on) == Channel(steps[1..], k, Channel(steps[..1], k, on))
  {
    assert steps[..1][0] == steps[0] && steps[..1][1..] == [];
  }

  /** Toggling a relay twice leaves every relay as it was. */
  lemma ToggleTwice(st: Exec, id: nat, s: CompiledStep, w: CompiledStep, v: Vehicle, env: Env)
    requires st.Shaped() && !st.running && 2001 <= s.relayId <= 2005 && s.action == RELAY_TOGGLE && w.action == WAIT
    ensures var r := Start(st, id, Loaded([s, s, w]), v, env);
            r.running && r.current == 2 && r.relays == st.relays
  {
    hide Enter, Start;
    StartEnters(st, id, [s, s, w], v, env);
    var refs := st.refs[1 := AcquireRef(st.refs[1])];
    StraightPrograms(Begun(st, id, [s, s, w], refs[2 := AcquireRef(refs[2])]), env);
    assert [s, s, w][0..2] == [s, s] && [s, s][1..] == [s] && [s][1..] == [];
    forall k | 0 <= k < 5 ensures Channel([s, s], k, st.relays[k]) == st.relays[k] {
      ChannelStep([s, s], k, st.relays[k]);
    }
  }

  // ---- Pulses and waits by unbounded time ----------------------------------

  /** A pulse switches its relay at once, back after its time, and again after its time once more, which ends a program
      of that step; in between nothing changes. */
  lemma PulseBegins(st: Exec, id: nat, s: CompiledStep, v: Vehicle, env: Env)
    requires st.Shaped() && !st.running && 2001 <= s.relayId <= 2005
    requires s.action in {RELAY_PULSE_ON_OFF_ON, RELAY_PULSE_OFF_ON_OFF}
    ensures var r, i := Start(st, id, Loaded([s]), v, env), s.relayId - 2001;
            && Pulsing(r, s, 1, env.now)
            && r.relays == st.relays[i := s.action == RELAY_PULSE_ON_OFF_ON] && r.effects == st.effects
  {
    StartEnters(st, id, [s], v, env);
    hide Start, AcquireRef, NextStep, AbortBadRef;
  }

  /** A running program of one pulse step, in one of its two phases since `began`. */
  predicate Pulsing(st: Exec, s: CompiledStep, phase: nat, began: nat) {
    && st.Shaped() && st.running && st.stepsSet && st.actionsSet && st.steps == [s] && st.current == 0
    && st.rt == StepRuntime(phase, began)
  }

  lemma PulseGoesOn(st: Exec, s: CompiledStep, v: Vehicle, env: Env, phase: nat, began: nat, now: nat)
    requires Pulsing(st, s, phase, Millis(began)) && 2001 <= s.relayId <= 2005 && 1 <= phase <= 2
    requires s.action in {RELAY_PULSE_ON_OFF_ON, RELAY_PULSE_OFF_ON_OFF}
    requires env.Valid() && env.now == Millis(now) && began <= now < began + 0x1_0000_0000
    ensures var r, i := Update(st, v, env), s.relayId - 2001;
            && (now - began < s.ms ==> r == st)
            && (now - began >= s.ms && phase == 1 ==>
                  && Pulsing(r, s, 2, env.now) && r.effects == st.effects
                  && r.relays == st.relays[i := s.action == RELAY_PULSE_OFF_ON_OFF])
            && (now - began >= s.ms && phase == 2 ==>
                  && !r.running && r.effects == st.effects
                  && r.relays == st.relays[i := s.action == RELAY_PULSE_ON_OFF_ON])
  {
    SinceIsElapsed(began, now);
    hide Since, AbortBadRef;
  }

  /** The three moments of a pulse in one run: on, off, on, or off, on, off, each a pulse time after the one before. */
  lemma PulseProgram(st: Exec, id: nat, s: CompiledStep, v: Vehicle, env0: Env, env1: Env, env2: Env,
                     t0: nat, t1: nat, t2: nat)
    requires st.Shaped() && !st.running && 2001 <= s.relayId <= 2005
    requires s.action in {RELAY_PULSE_ON_OFF_ON, RELAY_PULSE_OFF_ON_OFF}
    requires env0.now == Millis(t0) && env1.now == Millis(t1) && env2.now == Millis(t2)
    requires env1.Valid() && env2.Valid()
    requires t0 + s.ms <= t1 < t0 + 0x1_0000_0000 && t1 + s.ms <= t2 < t1 + 0x1_0000_0000
    ensures var i, on := s.relayId - 2001, s.action == RELAY_PULSE_ON_OFF_ON;
            var a := Start(st, id, Loaded([s]), v, env0);
            var b := Update(a, v, env1);
            var c := Update(b, v, env2);
            && a.relays == st.relays[i := on] && b.relays == st.relays[i := !on] && c.relays == st.relays[i := on]
            && a.running && b.running && !c.running && c.effects == st.effects
  {
    hide Start, Update;
    PulseBegins(st, id, s, v, env0);
    var a := Start(st, id, Loaded([s]), v, env0);
    PulseGoesOn(a, s, v, env1, 1, t0, t1);
    PulseGoesOn(Update(a, v, env1), s, v, env2, 2, t1, t2);
  }

  /** A WAIT is left at the first update by which its time is up, by unbounded time. */
  lemma WaitEndsOnTime(st: Exec, v: Vehicle, env: Env, began: nat, now: nat)
    requires Inv(st) && st.running && st.Step().action == WAIT && env.Valid()
    requires st.rt.startedAt == Millis(began) && env.now == Millis(now) && began <= now < began + 0x1_0000_0000
    ensures now - began < st.Step().ms <==> Update(st, v, env) == st
    ensures now - began >= st.Step().ms ==> Update(st, v, env).current > st.current
    ensures now - began >= st.Step().ms && st.current + 1 == |st.steps| ==>
              !Update(st, v, env).running && Update(st, v, env).relays == st.relays
  {
    SinceIsElapsed(began, now);
    NextMovesOn(st, env);
    hide Since, Enter;
  }

  // ---- Inputs, triggers, flags ---------------------------------------------

  lemma InputPrograms(st: Exec, id: nat, s: CompiledStep, w: CompiledStep, v: Vehicle, env: Env)
    requires st.Shaped() && !st.running && w.action == WAIT && 1001 <= s.inputId <= 1003
    requires s.action in {INPUT_ENABLE, INPUT_DISABLE}
    ensures var r := Start(st, id, Loaded([s, w]), v, env);
            && r.running && r.current == 1 && r.relays == st.relays
            && (s.action == INPUT_ENABLE ==> r.effects == st.effects + [InputEnabled(s.inputId - 1001, true)])
            && (s.action == INPUT_DISABLE ==> r.effects == st.effects + [InputEnabled(s.inputId - 1001, false)])
  {
    hide TriggerEntry, RelayEntry, AcquireRef;
    var e := EntryOf(s, st.relays, env);
    hide EntryOf, Start;
    InstantThenWait(st, id, s, w, v, env, e.relays, e.effects);
  }

  lemma FlagPrograms(st: Exec, id: nat, s: CompiledStep, w: CompiledStep, v: Vehicle, env: Env)
    requires st.Shaped() && !st.running && w.action == WAIT
    requires s.action in {BATTERY_SAVER_ON, BATTERY_SAVER_OFF, THERMOSTAT_ON, THERMOSTAT_OFF, UNKNOWN}
    ensures var r := Start(st, id, Loaded([s, w]), v, env);
            && r.running && r.current == 1 && r.relays == st.relays
            && (s.action == BATTERY_SAVER_ON ==> r.effects == st.effects + [BatterySaver(true)])
            && (s.action == BATTERY_SAVER_OFF ==> r.effects == st.effects + [BatterySaver(false)])
            && (s.action == THERMOSTAT_ON ==> r.effects == st.effects + [Thermostat(true)])
            && (s.action == THERMOSTAT_OFF ==> r.effects == st.effects + [Thermostat(false)])
            && (s.action == UNKNOWN ==> r.effects == st.effects)
  {
    var e := EntryOf(s, st.relays, env);
    NothingAsked(st.effects);
    hide EntryOf, Start;
    InstantThenWait(st, id, s, w, v, env, e.relays, e.effects);
  }

  /** Where a trigger is configured first. */
  lemma {:induction false} FirstIndex(ids: seq<nat>, id: nat, j: nat)
    requires j < |ids| && ids[j] == id && id !in ids[..j]
    ensures IndexOf(ids, id) == Some(j)
  {
    if j > 0 {
      assert ids[0] == ids[..j][0];
      assert ids[1..][..j - 1] == ids[..j][1..];
      FirstIndex(ids[1..], id, j - 1);
    }
  }

  /** A trigger step switches the trigger of its id, found first among the first eight, and otherwise does nothing. */
  lemma TriggerPrograms(st: Exec, id: nat, s: CompiledStep, w: CompiledStep, v: Vehicle, env: Env, j: nat)
    requires st.Shaped() && !st.running && w.action == WAIT
    requires s.action in {INPUT_TRIGGER_ENABLE, INPUT_TRIGGER_DISABLE, TEMP_TRIGGER_ENABLE, TEMP_TRIGGER_DISABLE}
    ensures var r := Start(st, id, Loaded([s, w]), v, env);
            var temp := s.action in {TEMP_TRIGGER_ENABLE, TEMP_TRIGGER_DISABLE};
            var named := if temp then s.tempTriggerId else s.inputTriggerId;
            var ids := if temp then env.tempTriggers else env.inputTriggers;
            && r.running && r.current == 1 && r.relays == st.relays
            && (named == 0 || named !in ids ==> r.effects == st.effects)
            && (named != 0 && j < |ids| && ids[j] == named && named !in ids[..j] ==>
                  && (j >= 8 ==> r.effects == st.effects)
                  && (j < 8 && s.action == INPUT_TRIGGER_ENABLE ==> r.effects == st.effects + [InputTrigger(j, true)])
                  && (j < 8 && s.action == INPUT_TRIGGER_DISABLE ==> r.effects == st.effects + [InputTrigger(j, false)])
                  && (j < 8 && s.action == TEMP_TRIGGER_ENABLE ==> r.effects == st.effects + [TempTrigger(j, true)])
                  && (j < 8 && s.action == TEMP_TRIGGER_DISABLE ==> r.effects == st.effects + [TempTrigger(j, false)]))
  {
    hide IndexOf;
    var temp := s.action in {TEMP_TRIGGER_ENABLE, TEMP_TRIGGER_DISABLE};
    var named := if temp then s.tempTriggerId else s.inputTriggerId;
    var ids := if temp then env.tempTriggers else env.inputTriggers;
    if j < |ids| && ids[j] == named && named !in ids[..j] {
      FirstIndex(ids, named, j);
    }
    var e := EntryOf(s, st.relays, env);
    NothingAsked(st.effects);
    hide EntryOf, Start;
    InstantThenWait(st, id, s, w, v, env, e.relays, e.effects);
  }

  /** A relay or input that is not there ends the program with every relay off and both errors recorded. */
  lemma BadRefPrograms(st: Exec, id: nat, s: CompiledStep, rest: seq<CompiledStep>, v: Vehicle, env: Env)
    requires st.Shaped() && !st.running
    requires (s.action in {RELAY_ON, RELAY_OFF, RELAY_TOGGLE, RELAY_PULSE_ON_OFF_ON, RELAY_PULSE_OFF_ON_OFF}
              && !(2001 <= s.relayId <= 2005))
             || (s.action in {INPUT_ENABLE, INPUT_DISABLE} && !(1001 <= s.inputId <= 1003))
    ensures var r := Start(st, id, Loaded([s] + rest), v, env);
            && !r.running && r.relays == [false, false, false, false, false]
            && r.effects == st.effects + [ProgramAborted, InvalidRef]
  {
    hide Start, AcquireRef, NextStep, Finish;
    StartEnters(st, id, [s] + rest, v, env);
    assert ([s] + rest)[0] == s;
    Associate(st.effects, [ProgramAborted], [InvalidRef]);
    assert [ProgramAborted] + [InvalidRef] == [ProgramAborted, InvalidRef];
  }

  // ---- The starter ---------------------------------------------------------

  /** The first update of a starter step begins the first of max(1, retries) cranks. */
  lemma FirstCrank(st: Exec, v: Vehicle, env: Env)
    requires Inv(st) && env.Valid() && st.running && st.Step().action in {STARTER_TIMED, STARTER_WAIT_INPUT}
    requires 2001 <= v.starterRelayId <= 2005 && st.starter.phase == 0
    ensures var r := Update(st, v, env);
            && r.running && r.current == st.current && r.relays == st.relays[v.starterRelayId - 2001 := true]
            && r.starter == StarterRuntime(1, env.now, if st.Step().retries == 0 then 1 else st.Step().retries)
  {
    hide NextStep;
  }

  /** How long a crank may last: a timed one as long as its step says, cut to the vehicle's maximum. */
  lemma CrankLength(s: CompiledStep, v: Vehicle)
    ensures AttemptMs(s, v)
         == if s.action == STARTER_TIMED && s.ms > 0 then Min(s.ms, v.starterMaxSec * 1000) else v.starterMaxSec * 1000
  {
  }

  /** After a crank and the wait behind it: on to the next step when the engine runs; else another crank after a second,
      while attempts are left; else the program ends. All by unbounded time. */
  lemma AfterCrank(st: Exec, v: Vehicle, env: Env, began: nat, now: nat)
    requires Inv(st) && env.Valid() && st.running && st.Step().Cranks() && 2001 <= v.starterRelayId <= 2005
    requires st.starter.startedAt == Millis(began) && env.now == Millis(now) && began <= now < began + 0x1_0000_0000
    ensures var r, left := Update(st, v, env), st.starter.attemptsLeft;
            && (st.starter.phase == 2 ==>
                  && (now - began < v.waitAfterSec * 1000 ==> r == st)
                  && (now - began >= v.waitAfterSec * 1000 && env.engineRunning ==> r.current > st.current)
                  && (now - began >= v.waitAfterSec * 1000 && !env.engineRunning && left > 1 ==>
                        r == st.(starter := StarterRuntime(3, env.now, left - 1)))
                  && (now - began >= v.waitAfterSec * 1000 && !env.engineRunning && left == 1 ==>
                        !r.running && r.current == st.current && r.relays == st.relays && r.effects == st.effects))
            && (st.starter.phase == 3 ==>
                  && (now - began < 1000 ==> r == st)
                  && (now - began >= 1000 ==>
                        && r.running && r.current == st.current && r.effects == st.effects
                        && r.relays == st.relays[v.starterRelayId - 2001 := true]
                        && r.starter == StarterRuntime(1, env.now, left)))
  {
    SinceIsElapsed(began, now);
    NextMovesOn(Idle(st), env);
    hide Since, NextStep;
  }

  /** A starter step whose crank is not cut short by a missing input, on an engine that never runs. */
  predicate Hopeless(s: CompiledStep, v: Vehicle, envs: seq<Env>) {
    && 2001 <= v.starterRelayId <= 2005
    && (s.action == STARTER_WAIT_INPUT ==> 1001 <= s.inputId <= 1003)
    && forall i | 0 <= i < |envs| :: envs[i].Valid() && !envs[i].engineRunning
  }

  /** With an engine that never runs the step cranks exactly max(1, retries) times and then ends the program. */
  lemma {:induction false} CranksExactly(st: Exec, v: Vehicle, envs: seq<Env>, k: nat)
    requires Inv(st) && StarterSafe(st, v) && AtStarter(st, k) && Hopeless(st.Step(), v, envs)
    ensures var r := RunUpdates(st, v, envs);
            !AtStarter(r, k) ==>
              && !r.running
              && CranksDone(st) + CrankCount(st, v, envs, k) == if st.Step().retries == 0 then 1 else st.Step().retries
    decreases |envs|
  {
    hide Update;
    if envs != [] {
      UpdateKeeps(st, v, envs[0]);
      UpdateCountsCranks(st, v, envs[0], k);
      var next := Update(st, v, envs[0]);
      if AtStarter(next, k) {
        CranksExactly(next, v, envs[1..], k);
      } else {
        LastCrank(st, v, envs[0], k);
        StaysStopped(next, v, envs[1..]);
      }
    }
  }

  lemma LastCrank(st: Exec, v: Vehicle, env: Env, k: nat)
    requires Inv(st) && StarterSafe(st, v) && AtStarter(st, k) && Hopeless(st.Step(), v, [])
    requires env.Valid() && !env.engineRunning
    requires !AtStarter(Update(st, v, env), k)
    ensures !Update(st, v, env).running && CranksDone(st) == st.Step().Attempts()
  {
    hide NextStep, Since;
  }
}
