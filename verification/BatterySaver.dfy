/** The battery saver: starts a program after a long enough spell of low voltage, within daily and spacing limits. */
module BatterySaver {
  import opened Bytes

  const MILLIS_PER_DAY: int := 86400000

  /** Seconds are 16-bit and the daily limit 8-bit, so their milliseconds and counts never wrap. */
  datatype Config = Config(enabled: bool, threshold: real, hysteresis: real, minLowSec: nat, spacingSec: nat,
                           maxPerDay: nat, programId: nat)
  {
    predicate Valid() { minLowSec < 0x1_0000 && spacingSec < 0x1_0000 && maxPerDay < 256 }
  }

  datatype State = State(runtimeEnabled: bool, lastAttempt: nat, attemptsToday: nat, dayStart: nat, lowStartTime: nat)

  /** One `update` at unbounded time `at`, or a switch of the runtime flag. */
  datatype Op =
    | SetEnabled(at: nat, on: bool)
    | Update(at: nat, config: Config, voltage: real, valid: bool)

  function Initial(on: bool): State { State(on, 0, 0, 0, 0) }

  /** The start of the current window, taken now when there is none. */
  function WindowStart(s: State, now: nat): nat { if s.dayStart == 0 then now else s.dayStart }

  predicate WindowOver(s: State, now: nat) { Since(now, WindowStart(s, now)) >= MILLIS_PER_DAY }

  function OpenWindow(s: State, now: nat): State {
    if WindowOver(s, now) then s.(attemptsToday := 0, dayStart := now) else s.(dayStart := WindowStart(s, now))
  }

  function LowStart(s: State, now: nat): nat { if s.lowStartTime == 0 then now else s.lowStartTime }

  /** The response to a voltage below the threshold; the flag tells whether the program is started. */
  function OnLow(s: State, c: Config, now: nat): (State, bool) {
    var low := s.(lowStartTime := LowStart(s, now));
    if Since(now, low.lowStartTime) < c.minLowSec * 1000 then (low, false)
    else if s.attemptsToday >= c.maxPerDay || Since(now, s.lastAttempt) < c.spacingSec * 1000 then (low, false)
    else if c.programId == 0 then (low.(lowStartTime := 0), false)
    else (low.(attemptsToday := (s.attemptsToday + 1) % 256, lastAttempt := now, lowStartTime := 0), true)
  }

  function Judge(s: State, u: Op, now: nat): (State, bool)
    requires u.Update?
  {
    if !u.valid then (s, false)
    else if u.voltage < u.config.threshold then OnLow(s, u.config, now)
    else if u.voltage > u.config.threshold + u.config.hysteresis then (s.(lowStartTime := 0), false)
    else (s, false)
  }

  predicate Processed(s: State, u: Op) { u.Update? && s.runtimeEnabled && u.config.enabled }

  predicate Resets(s: State, u: Op) { Processed(s, u) && WindowOver(s, Millis(u.at)) }

  function Step(s: State, op: Op): (State, bool) {
    match op
    case SetEnabled(_, on) => (s.(runtimeEnabled := on), false)
    case Update(at, config, _, _) =>
      if !s.runtimeEnabled then (s.(lowStartTime := 0), false)
      else if !config.enabled then (s, false)
      else Judge(OpenWindow(s, Millis(at)), op, Millis(at))
  }

  // ---- Runs ----------------------------------------------------------------

  type Run = seq<Op>

  function After(on: bool, run: Run): State {
    if run == [] then Initial(on) else Step(After(on, run[..|run| - 1]), run[|run| - 1]).0
  }

  predicate StartsAt(on: bool, run: Run, k: nat)
    requires k < |run|
  {
    Step(After(on, run[..k]), run[k]).1
  }

  predicate ResetsAt(on: bool, run: Run, k: nat)
    requires k < |run|
  {
    Resets(After(on, run[..k]), run[k])
  }

  predicate InOrder(run: Run) {
    && (forall i, j | 0 <= i < j < |run| :: run[i].at <= run[j].at)
    && (forall i | 0 <= i < |run| && run[i].Update? :: run[i].config.Valid())
  }

  function Latest(run: Run): nat { if run == [] then 0 else run[|run| - 1].at }

  /** The time of the latest start, or of the boot. */
  function LastStart(on: bool, run: Run): nat {
    if run == [] then 0
    else if StartsAt(on, run, |run| - 1) then run[|run| - 1].at
    else LastStart(on, run[..|run| - 1])
  }

  lemma BootIsZero()
    ensures Millis(0) == 0
  {
  }

  /** A step writes the stamp of the last start exactly when it starts the program. */
  lemma StepStampsStart(s: State, op: Op)
    ensures var r := Step(s, op); r.0.lastAttempt == if r.1 then Millis(op.at) else s.lastAttempt
  {
    hide Millis, Since;
  }

  lemma {:induction false} LastStartIsStamped(on: bool, run: Run)
    requires InOrder(run)
    ensures After(on, run).lastAttempt == Millis(LastStart(on, run))
    ensures LastStart(on, run) <= Latest(run)
  {
    hide Millis, Since;
    if run != [] {
      var n := |run| - 1;
      LastStartIsStamped(on, run[..n]);
      StepStampsStart(After(on, run[..n]), run[n]);
      hide Step;
    } else {
      assert Millis(0) == 0 by { BootIsZero(); }
    }
  }

  lemma {:induction false} LastStartIsLatest(on: bool, run: Run, j: nat)
    requires InOrder(run) && j < |run| && StartsAt(on, run, j)
    ensures run[j].at <= LastStart(on, run)
  {
    hide Step, Millis, Since;
    var n := |run| - 1;
    if j < n {
      assert run[..n][..j] == run[..j];
      LastStartIsLatest(on, run[..n], j);
      LastStartIsStamped(on, run[..n]);
    }
  }

  /** A reading of the 32-bit clock never overstates elapsed time, whatever the number of wraps. */
  lemma SinceIsAtMostElapsed(start: nat, now: nat)
    requires start <= now
    ensures Since(Millis(now), Millis(start)) <= now - start
  {
    SinceIsElapsed(start, now);
  }

  /** Starts are at least the configured spacing apart, and the first one is that long after boot. */
  lemma StartsAreSpaced(on: bool, run: Run, k: nat)
    requires InOrder(run) && k < |run| && StartsAt(on, run, k)
    ensures run[k].at >= run[k].config.spacingSec * 1000
    ensures forall j | 0 <= j < k && StartsAt(on, run, j) ::
              run[k].at - run[j].at >= run[k].config.spacingSec * 1000
  {
    var before := run[..k];
    LastStartIsStamped(on, before);
    SinceIsAtMostElapsed(LastStart(on, before), run[k].at);
    forall j | 0 <= j < k && StartsAt(on, run, j)
      ensures run[j].at <= LastStart(on, before)
    {
      assert before[..j] == run[..j];
      LastStartIsLatest(on, before, j);
    }
  }

  /** When an operation starts the program: a valid voltage below the threshold, with everything enabled and a program
      set, after a spell of low voltage, a spacing and a count of starts in the current 24 hours that all allow it. */
  lemma StartsExactly(s: State, op: Op)
    ensures Step(s, op).1 <==>
              && op.Update? && s.runtimeEnabled && op.config.enabled && op.config.programId != 0
              && op.valid && op.voltage < op.config.threshold
              && (if s.lowStartTime == 0 then 0 else Since(Millis(op.at), s.lowStartTime)) >= op.config.minLowSec * 1000
              && Since(Millis(op.at), s.lastAttempt) >= op.config.spacingSec * 1000
              && (s.attemptsToday < op.config.maxPerDay
                  || (s.dayStart != 0 && Since(Millis(op.at), s.dayStart) >= 24 * 60 * 60 * 1000 && op.config.maxPerDay > 0))
  {
    if op.Update? {
      SinceNow(Millis(op.at));
    }
    hide Since, Millis;
  }

  lemma SinceNow(now: nat)
    ensures Since(now, now) == 0
  {
  }

  /** What an update makes of the low-voltage timer: it starts with the first low sample, ends with a start, with a spell
      that is over while no program is set, and with a voltage above threshold plus hysteresis, and runs on otherwise. */
  lemma LowTimerExactly(s: State, op: Op)
    requires op.Update?
    ensures var next, c := Step(s, op).0.lowStartTime, op.config;
            var low := op.valid && op.voltage < c.threshold;
            var started := if s.lowStartTime == 0 then Millis(op.at) else s.lowStartTime;
            && (!s.runtimeEnabled ==> next == 0)
            && (s.runtimeEnabled && (!c.enabled || !op.valid) ==> next == s.lowStartTime)
            && (s.runtimeEnabled && c.enabled && low ==>
                  next == if Step(s, op).1 || (c.programId == 0 && Step(s, Update(op.at, c.(programId := 1), op.voltage, true)).1)
                          then 0 else started)
            && (s.runtimeEnabled && c.enabled && op.valid && !low ==>
                  next == if op.voltage > c.threshold + c.hysteresis then 0 else s.lowStartTime)
  {
    hide Since, Millis;
  }

  // ---- The daily window ----------------------------------------------------

  /** The time at which the window start was last written. */
  function WindowSet(on: bool, run: Run): nat {
    if run == [] then 0
    else
      var n := |run| - 1;
      var s := After(on, run[..n]);
      if Processed(s, run[n]) && (s.dayStart == 0 || ResetsAt(on, run, n)) then run[n].at
      else WindowSet(on, run[..n])
  }

  lemma {:induction false} WindowIsStamped(on: bool, run: Run)
    requires InOrder(run)
    ensures After(on, run).dayStart == Millis(WindowSet(on, run)) && WindowSet(on, run) <= Latest(run)
  {
    hide Since;
    if run != [] {
      var n := |run| - 1;
      WindowIsStamped(on, run[..n]);
      StepStampsWindow(After(on, run[..n]), run[n]);
      hide Step, Millis, Resets, Processed;
    } else {
      assert Millis(0) == 0 by { BootIsZero(); }
    }
  }

  /** A step writes the window start exactly when there is none or the window is over. */
  lemma StepStampsWindow(s: State, op: Op)
    ensures Step(s, op).0.dayStart
         == if Processed(s, op) && (s.dayStart == 0 || Resets(s, op)) then Millis(op.at) else s.dayStart
  {
    hide Millis, Since;
  }

  lemma {:induction false} ResetsSetTheWindow(on: bool, run: Run, j: nat)
    requires InOrder(run) && j < |run| && ResetsAt(on, run, j)
    ensures run[j].at <= WindowSet(on, run)
  {
    hide Step, Millis, Since;
    var n := |run| - 1;
    if j < n {
      assert run[..n][..j] == run[..j];
      ResetsSetTheWindow(on, run[..n], j);
      WindowIsStamped(on, run[..n]);
    }
  }

  /** The daily counter is reset at most once per 24 hours. */
  lemma ResetsAreDaysApart(on: bool, run: Run, j: nat, k: nat)
    requires InOrder(run) && j < k < |run| && ResetsAt(on, run, j) && ResetsAt(on, run, k)
    ensures run[k].at - run[j].at >= MILLIS_PER_DAY
  {
    var before := run[..k];
    assert before[..j] == run[..j];
    ResetsSetTheWindow(on, before, j);
    WindowIsStamped(on, before);
    SinceIsAtMostElapsed(WindowSet(on, before), run[k].at);
  }

  /** The starts from operation `j` on. */
  function Starts(on: bool, run: Run, j: nat): nat {
    if |run| <= j then 0
    else Starts(on, run[..|run| - 1], j) + if StartsAt(on, run, |run| - 1) then 1 else 0
  }

  /** What one operation does to the counter. */
  lemma StepCounts(s: State, op: Op)
    requires s.attemptsToday < 256 && (op.Update? ==> op.config.Valid())
    ensures var (next, started) := Step(s, op);
            && next.attemptsToday == (if Resets(s, op) then 0 else s.attemptsToday) + (if started then 1 else 0)
            && next.attemptsToday < 256
            && (started ==> next.attemptsToday <= op.config.maxPerDay)
  {
    hide Since, Millis;
  }

  lemma {:induction false} CounterFits(on: bool, run: Run)
    requires InOrder(run)
    ensures After(on, run).attemptsToday < 256
  {
    if run != [] {
      CounterFits(on, run[..|run| - 1]);
      StepCounts(After(on, run[..|run| - 1]), run[|run| - 1]);
    }
  }

  lemma PrefixAgrees(on: bool, run: Run, n: nat, k: nat)
    requires k < n <= |run|
    ensures ResetsAt(on, run[..n], k) == ResetsAt(on, run, k) && StartsAt(on, run[..n], k) == StartsAt(on, run, k)
  {
    assert run[..n][..k] == run[..k];
  }

  /** The counter covers every start since an operation with no later reset. */
  lemma {:induction false} CountFromReset(on: bool, run: Run, j: nat)
    requires InOrder(run) && j < |run|
    requires forall k | j < k < |run| :: !ResetsAt(on, run, k)
    ensures Starts(on, run, j) <= After(on, run).attemptsToday
  {
    hide Step, Resets;
    var n := |run| - 1;
    var before := run[..n];
    CounterFits(on, before);
    StepCounts(After(on, before), run[n]);
    if j < n {
      forall k | j < k < n
        ensures !ResetsAt(on, before, k)
      {
        PrefixAgrees(on, run, n, k);
      }
      CountFromReset(on, before, j);
      assert !ResetsAt(on, run, n);
    } else {
      assert Starts(on, before, j) == 0;
    }
  }

  /** Between two resets there are at most `maxPerDay` starts: any stretch that ends with a start and has no reset
      after its first operation holds at most that many. */
  lemma DailyLimit(on: bool, run: Run, j: nat, k: nat)
    requires InOrder(run) && j <= k < |run| && StartsAt(on, run, k)
    requires forall i | j < i <= k :: !ResetsAt(on, run, i)
    ensures Starts(on, run[..k + 1], j) <= run[k].config.maxPerDay
  {
    hide Step, Resets;
    var upto := run[..k + 1];
    forall i | j < i <= k
      ensures !ResetsAt(on, upto, i)
    {
      PrefixAgrees(on, run, k + 1, i);
    }
    CountFromReset(on, upto, j);
    PrefixAgrees(on, run, k + 1, k);
    assert upto[..k] == run[..k];
    CounterFits(on, run[..k]);
    StepCounts(After(on, run[..k]), run[k]);
  }

  // ---- The low-voltage spell -----------------------------------------------

  /** Operation `i` saw a valid voltage below the threshold. */
  predicate SeesLow(run: Run, i: nat) {
    i < |run| && run[i].Update? && run[i].valid && run[i].voltage < run[i].config.threshold
  }

  /** The voltage rose above threshold plus hysteresis. */
  predicate Rises(c: Config, v: real) { v > c.threshold + c.hysteresis }

  /** The voltage ends a spell: it rose, and is not below the threshold. */
  predicate Clears(c: Config, v: real) { v >= c.threshold && Rises(c, v) }

  /** Operation `k` found the saver enabled, and no processed sample that ends a spell. */
  predicate Calm(on: bool, run: Run, k: nat)
    requires k < |run|
  {
    run[k].Update? ==>
      && After(on, run[..k]).runtimeEnabled
      && (run[k].config.enabled && run[k].valid ==> !Clears(run[k].config, run[k].voltage))
  }

  /** Operation `k` found the saver enabled, and no processed sample above threshold plus hysteresis. */
  predicate NeverRises(on: bool, run: Run, k: nat)
    requires k < |run|
  {
    run[k].Update? ==>
      && After(on, run[..k]).runtimeEnabled
      && (run[k].config.enabled && run[k].valid ==> !Rises(run[k].config, run[k].voltage))
  }

  /** The 32-bit stamp belongs to a low sample since which everything was calm. */
  ghost predicate LowSpell(on: bool, run: Run, i: nat) {
    && SeesLow(run, i) && Millis(run[i].at) == After(on, run).lowStartTime
    && forall k | i <= k < |run| :: Calm(on, run, k)
  }

  lemma {:induction false} SpellIsRecorded(on: bool, run: Run) returns (i: nat)
    requires InOrder(run)
    ensures After(on, run).lowStartTime != 0 ==> LowSpell(on, run, i)
  {
    i := 0;
    if run != [] && After(on, run).lowStartTime != 0 {
      hide Millis, Step, After, Calm, SeesLow;
      var n := |run| - 1;
      var before := run[..n];
      i := SpellIsRecorded(on, before);
      AfterStep(on, run);
      if After(on, before).lowStartTime == 0 {
        i := n;
        LowBegins(After(on, before), run[n]);
        CalmHere(on, run, n);
        SeenHere(run, n);
      } else {
        LowStays(After(on, before), run[n]);
        CalmHere(on, run, n);
        CalmExtends(on, run, n, i);
        SeenBefore(run, n, i);
      }
    }
  }

  /** A low timer starts at a processed sample below the threshold. */
  lemma LowBegins(s: State, op: Op)
    requires s.lowStartTime == 0 && Step(s, op).0.lowStartTime != 0
    ensures op.Update? && s.runtimeEnabled && op.config.enabled && op.valid && op.voltage < op.config.threshold
    ensures Step(s, op).0.lowStartTime == Millis(op.at)
  {
    hide Millis, Since;
  }

  lemma CalmExtends(on: bool, run: Run, n: nat, i: nat)
    requires |run| == n + 1 && Calm(on, run, n)
    requires forall k | i <= k < n :: Calm(on, run[..n], k)
    ensures forall k | i <= k <= n :: Calm(on, run, k)
  {
    hide Calm;
    forall k | i <= k < n
      ensures Calm(on, run, k)
    {
      CalmAgrees(on, run, n, k);
    }
  }

  lemma CalmAgrees(on: bool, run: Run, n: nat, k: nat)
    requires k < n <= |run|
    ensures Calm(on, run[..n], k) == Calm(on, run, k)
  {
    hide After;
    assert run[..n][..k] == run[..k];
  }

  lemma CalmHere(on: bool, run: Run, k: nat)
    requires k < |run|
    requires run[k].Update? ==>
               && After(on, run[..k]).runtimeEnabled
               && (run[k].config.enabled && run[k].valid ==> !Clears(run[k].config, run[k].voltage))
    ensures Calm(on, run, k)
  {
  }

  lemma SeenHere(run: Run, i: nat)
    requires i < |run| && run[i].Update? && run[i].valid && run[i].voltage < run[i].config.threshold
    ensures SeesLow(run, i)
  {
  }

  lemma SeenBefore(run: Run, n: nat, i: nat)
    requires n <= |run| && SeesLow(run[..n], i)
    ensures SeesLow(run, i) && run[i] == run[..n][i]
  {
  }

  lemma AfterStep(on: bool, run: Run)
    requires run != []
    ensures After(on, run) == Step(After(on, run[..|run| - 1]), run[|run| - 1]).0
  {
  }

  /** A running low timer survives only calm operations, unchanged. */
  lemma LowStays(s: State, op: Op)
    requires s.lowStartTime != 0 && Step(s, op).0.lowStartTime != 0
    ensures Step(s, op).0.lowStartTime == s.lowStartTime
    ensures op.Update? ==>
              && s.runtimeEnabled
              && (op.config.enabled && op.valid ==> !Clears(op.config, op.voltage))
  {
    hide Millis, Since;
  }

  /** Every start follows, by at least the configured time, a low sample since which the saver stayed enabled and no
      processed sample at the threshold or above it rose above threshold plus hysteresis. */
  lemma StartsFollowLowSpells(on: bool, run: Run, k: nat) returns (i: nat)
    requires InOrder(run) && k < |run| && StartsAt(on, run, k)
    ensures i <= k && SeesLow(run, i) && run[k].at - run[i].at >= run[k].config.minLowSec * 1000
    ensures forall j | i <= j <= k :: Calm(on, run, j)
  {
    var before := run[..k];
    i := SpellIsRecorded(on, before);
    if After(on, before).lowStartTime == 0 {
      i := k;
    } else {
      SinceIsAtMostElapsed(run[i].at, run[k].at);
      forall j | i <= j < k
        ensures Calm(on, run, j)
      {
        assert before[..j] == run[..j];
        assert Calm(on, before, j);
      }
    }
    SinceIsAtMostElapsed(run[k].at, run[k].at);
  }

  /** The start at `k` follows, by at least the configured time, a low sample since which the saver stayed enabled and no
      processed sample rose above threshold plus hysteresis, even one below the threshold. */
  ghost predicate FollowsSpell(on: bool, run: Run, k: nat)
    requires k < |run| && run[k].Update?
  {
    exists i: nat {:trigger SeesLow(run, i)} ::
      && i <= k && SeesLow(run, i) && run[k].at - run[i].at >= run[k].config.minLowSec * 1000
      && forall j | i <= j <= k :: NeverRises(on, run, j)
  }

  /** All updates of the run use this configuration. */
  predicate Uses(run: Run, c: Config) { forall i | 0 <= i < |run| && run[i].Update? :: run[i].config == c }

  /** Every start under this configuration follows such a spell. */
  ghost predicate WaitsForSpells(c: Config) {
    forall on, run: Run, k: nat | InOrder(run) && Uses(run, c) && k < |run| && StartsAt(on, run, k) ::
      FollowsSpell(on, run, k)
  }

  /** A configuration that can start its program at all. */
  predicate CanStart(c: Config) { c.Valid() && c.enabled && c.programId != 0 && c.maxPerDay > 0 }

  /** Low samples far enough apart to start the program with the last one. */
  function LowRun(c: Config, v: real): (r: Run)
    requires CanStart(c)
    ensures r != []
  {
    var last := Update(1 + c.minLowSec * 1000 + c.spacingSec * 1000, c, v, true);
    if c.minLowSec == 0 then [last] else [Update(1, c, v, true), last]
  }

  lemma LowRunStarts(c: Config, v: real)
    requires CanStart(c) && v < c.threshold
    ensures var run := LowRun(c, v); InOrder(run) && Uses(run, c) && StartsAt(true, run, |run| - 1)
  {
    var run := LowRun(c, v);
    var at := 1 + c.minLowSec * 1000 + c.spacingSec * 1000;
    assert Millis(1) == 1 && Millis(at) == at && Since(1, 1) == 0 && Since(at, at) == 0;
    assert Since(at, 1) == at - 1 && Since(at, 0) == at;
    hide Since, Millis;
    assert run[..0] == [];
    if c.minLowSec != 0 {
      assert run[..1] == [run[0]] && [run[0]][..0] == [];
      assert After(true, run[..1]) == Step(After(true, []), run[0]).0;
    }
  }

  /** A voltage below the threshold counts as risen exactly under a negative hysteresis, so the two readings of the limit
      agree on every voltage, and every start waits for a spell without such a sample, exactly when it is not negative. */
  lemma SpellsNeedHysteresis(c: Config)
    requires CanStart(c)
    ensures (forall v :: Clears(c, v) <==> Rises(c, v)) <==> c.hysteresis >= 0.0
    ensures WaitsForSpells(c) <==> c.hysteresis >= 0.0
  {
    if c.hysteresis >= 0.0 {
      forall on, run: Run, k: nat | InOrder(run) && Uses(run, c) && k < |run| && StartsAt(on, run, k)
        ensures FollowsSpell(on, run, k)
      {
        var i := StartsFollowLowSpells(on, run, k);
        forall j | i <= j <= k
          ensures NeverRises(on, run, j)
        {
          assert Calm(on, run, j);
        }
      }
    } else {
      var v := c.threshold + c.hysteresis / 2.0;
      assert Rises(c, v) && !Clears(c, v);
      var run := LowRun(c, v);
      var k := |run| - 1;
      LowRunStarts(c, v);
      assert !NeverRises(true, run, k);
      assert !FollowsSpell(true, run, k);
    }
  }

  /** A concrete one: with a hysteresis of -1 V two samples half a volt below the threshold start the program, though
      both lie above threshold plus hysteresis. */
  lemma NegativeHysteresisStarts()
    ensures var c := Config(true, 12.0, -1.0, 60, 0, 3, 1);
            var run := [Update(1000, c, 11.5, true), Update(61000, c, 11.5, true)];
            StartsAt(true, run, 1) && !NeverRises(true, run, 0) && !NeverRises(true, run, 1)
  {
    var c := Config(true, 12.0, -1.0, 60, 0, 3, 1);
    var run := [Update(1000, c, 11.5, true), Update(61000, c, 11.5, true)];
    assert run[..0] == [] && run[..1] == [run[0]] && [run[0]][..0] == [];
    assert After(true, run[..1]) == Step(After(true, []), run[0]).0;
  }

  // ---- Agreement with unbounded time ---------------------------------------

  /** The same saver with unbounded times and real options instead of a 32-bit clock and zero sentinels. */
  datatype Ideal = Ideal(runtimeEnabled: bool, lastAttempt: nat, attemptsToday: nat, day: Option<nat>, low: Option<nat>)

  function From(stamp: Option<nat>, at: nat): nat { match stamp case None => at case Some(t) => t }

  function IdealWindow(s: Ideal, at: nat): Ideal {
    if at - From(s.day, at) >= MILLIS_PER_DAY then s.(attemptsToday := 0, day := Some(at))
    else s.(day := Some(From(s.day, at)))
  }

  function IdealLow(s: Ideal, c: Config, at: nat): (Ideal, bool) {
    if at - From(s.low, at) < c.minLowSec * 1000 || s.attemptsToday >= c.maxPerDay
      || at - s.lastAttempt < c.spacingSec * 1000
    then (s.(low := Some(From(s.low, at))), false)
    else if c.programId == 0 then (s.(low := None), false)
    else (s.(attemptsToday := s.attemptsToday + 1, lastAttempt := at, low := None), true)
  }

  function IdealJudge(s: Ideal, u: Op): (Ideal, bool)
    requires u.Update?
  {
    if !u.valid then (s, false)
    else if u.voltage < u.config.threshold then IdealLow(s, u.config, u.at)
    else if u.voltage > u.config.threshold + u.config.hysteresis then (s.(low := None), false)
    else (s, false)
  }

  function IdealStep(s: Ideal, op: Op): (Ideal, bool) {
    match op
    case SetEnabled(_, on) => (s.(runtimeEnabled := on), false)
    case Update(at, config, _, _) =>
      if !s.runtimeEnabled then (s.(low := None), false)
      else if !config.enabled then (s, false)
      else IdealJudge(IdealWindow(s, at), op)
  }

  /** The word stands for the stamp, which is less than a clock period old and was not taken at clock reading zero. */
  predicate Stamped(word: nat, stamp: Option<nat>, at: nat) {
    match stamp
    case None => word == 0
    case Some(t) => word == Millis(t) && word != 0 && t <= at < t + WORD
  }

  /** The state stands for the ideal one, all of whose stamps are less than a clock period old. */
  predicate Stands(s: State, i: Ideal, at: nat) {
    && s.runtimeEnabled == i.runtimeEnabled && s.attemptsToday == i.attemptsToday
    && s.lastAttempt == Millis(i.lastAttempt) && i.lastAttempt <= at < i.lastAttempt + WORD
    && Stamped(s.dayStart, i.day, at) && Stamped(s.lowStartTime, i.low, at)
  }

  lemma ReadsStamp(word: nat, stamp: Option<nat>, at: nat)
    requires Stamped(word, stamp, at)
    ensures Since(Millis(at), if word == 0 then Millis(at) else word) == at - From(stamp, at)
    ensures Stamped(if word == 0 then Millis(at) else word, Some(From(stamp, at)), at)
       <==> Millis(at) != 0 || From(stamp, at) != at
    ensures Stamped(Millis(at), Some(at), at) <==> Millis(at) != 0
    ensures stamp == Some(at) ==> Millis(at) != 0
  {
    SinceIsElapsed(From(stamp, at), at);
  }

  /** The clock reads zero and the step takes a stamp, which the zero sentinel loses. */
  predicate LosesStamp(i: Ideal, op: Op) {
    var next := IdealStep(i, op).0;
    Millis(op.at) == 0 && (next.day == Some(op.at) || next.low == Some(op.at))
  }

  /** While no stamp is a clock period old, the saver starts exactly when the unbounded one does, and stands for it
      again afterwards exactly unless a stamp was taken at clock reading zero. */
  lemma AgreesWithIdeal(s: State, i: Ideal, op: Op)
    requires Stands(s, i, op.at) && (op.Update? ==> op.config.Valid())
    ensures Step(s, op).1 == IdealStep(i, op).1
    ensures Stands(Step(s, op).0, IdealStep(i, op).0, op.at) <==> !LosesStamp(i, op)
  {
    hide Millis, Since;
    ReadsStamp(s.dayStart, i.day, op.at);
    ReadsStamp(s.lowStartTime, i.low, op.at);
    SinceIsElapsed(i.lastAttempt, op.at);
  }

  /** With an older last attempt the spacing gate agrees exactly when the clock has run past the spacing again. */
  lemma SpacingAfterWrap(last: nat, at: nat, spacing: nat)
    requires last <= at && spacing < WORD
    ensures (Since(Millis(at), Millis(last)) >= spacing <==> at - last >= spacing)
              <==> at - last < WORD || (at - last) % WORD >= spacing
  {
    SinceIsElapsed(last, at);
  }

  /** So a saver idle for a whole clock period refuses a start that is long due. */
  lemma IdlePeriodDelaysAStart()
    ensures var c := Config(true, 12.0, 0.5, 0, 1800, 3, 1);
            var idle := State(true, 1000, 0, 5, 0);
            && !Step(idle, Update(WORD + 1005, c, 11.0, true)).1
            && IdealStep(Ideal(true, 1000, 0, Some(WORD + 5), None), Update(WORD + 1005, c, 11.0, true)).1
  {
  }

  // ---- In place ------------------------------------------------------------

  class BatterySaverManager {
    var runtimeEnabled: bool
    var lastAttempt: nat
    var attemptsToday: nat
    var dayStart: nat
    var lowStartTime: nat

    ghost function View(): State
      reads this
    {
      State(runtimeEnabled, lastAttempt, attemptsToday, dayStart, lowStartTime)
    }

    constructor (enabled: bool)
      ensures View() == Initial(enabled)
    {
      runtimeEnabled, lastAttempt, attemptsToday, dayStart, lowStartTime := enabled, 0, 0, 0, 0;
    }

    method SetEnabled(on: bool, ghost at: nat)
      modifies this
      ensures View() == Step(old(View()), Op.SetEnabled(at, on)).0
    {
      runtimeEnabled := on;
    }

    /** `now` is the clock at unbounded time `at`; `started` reports a call of the executor. */
    method Update(config: Config, voltage: real, valid: bool, now: nat, ghost at: nat) returns (started: bool)
      requires now == Millis(at)
      modifies this
      ensures (View(), started) == Step(old(View()), Op.Update(at, config, voltage, valid))
    {
      hide Since, Millis;
      started := false;
      if !runtimeEnabled {
        lowStartTime := 0;
        return;
      }
      if !config.enabled {
        return;
      }
      if dayStart == 0 {
        dayStart := now;
      }
      if Since(now, dayStart) >= MILLIS_PER_DAY {
        attemptsToday := 0;
        dayStart := now;
      }
      if !valid {
        return;
      }
      if voltage < config.threshold {
        if lowStartTime == 0 {
          lowStartTime := now;
        }
        if Since(now, lowStartTime) >= config.minLowSec * 1000 {
          if attemptsToday >= config.maxPerDay {
            return;
          }
          if Since(now, lastAttempt) < config.spacingSec * 1000 {
            return;
          }
          if config.programId != 0 {
            started := true;
            attemptsToday := (attemptsToday + 1) % 256;
            lastAttempt := now;
          }
          lowStartTime := 0;
        }
      } else if voltage > config.threshold + config.hysteresis {
        lowStartTime := 0;
      }
    }
  }
}
