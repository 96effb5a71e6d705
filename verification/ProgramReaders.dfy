/** The three streaming readers of a program document: full, compiled and header only. */
module ProgramReaders {
  import opened Bytes
  import opened Numbers
  import opened ProgramTypes
  import opened ProgramDocument

  // ---- The shared skeleton -------------------------------------------------

  datatype Place = Root | StepsArr | StepObj | StepsSkip

  /** Where a reader is: its stack of places, and whether it has given up inside unknown nesting. Junk mode is never
      left, so its nesting count has no effect and is not kept. */
  datatype Sax = Sax(failed: bool, stk: seq<Place>, junk: bool, pending: string) {
    predicate At(x: Place) { stk != [] && stk[|stk| - 1] == x }

    predicate Idle() { failed || junk }

    function Push(x: Place): Sax { if |stk| >= STACK then this.(failed := true) else this.(stk := stk + [x]) }

    function Pop(): Sax { if stk == [] then this else this.(stk := stk[..|stk| - 1]) }
  }

  const STACK := 12
  const Blank := Sax(false, [], false, "")

  /** What the skeleton asks of the full or the compiled reader. */
  datatype Call = Quiet | BeginStep | EndStep | RootValue(v: string) | StepValue(v: string)

  function OnStart(b: Sax, e: Event): (Sax, Call)
    requires e.StartObject? || e.StartArray?
  {
    if e.StartArray? then
      if b.At(Root) && b.pending == "steps" then (b.Push(StepsArr), Quiet) else (b.(junk := true), Quiet)
    else if b.stk == [] then (b.Push(Root), Quiet)
    else if b.At(StepsArr) then (b.Push(StepObj), BeginStep)
    else (b.(junk := true), Quiet)
  }

  function OnEnd(b: Sax, e: Event): (Sax, Call)
    requires e.EndObject? || e.EndArray?
  {
    if e.EndArray? then
      if b.At(StepsArr) then (b.Pop(), Quiet) else (b.(failed := true), Quiet)
    else if b.At(StepObj) then (b.Pop(), EndStep)
    else if b.At(Root) then (b.Pop(), Quiet)
    else (b.(failed := true), Quiet)
  }

  function OnValue(b: Sax, v: string): Call {
    if v == "null" then Quiet
    else if b.At(Root) then RootValue(v)
    else if b.At(StepObj) then StepValue(v)
    else Quiet
  }

  function SaxStep(b: Sax, e: Event): (Sax, Call) {
    if b.Idle() then (b, Quiet)
    else
      match e
      case Key(k) => (b.(pending := Copied(k, PENDING)), Quiet)
      case Value(v) => (b, OnValue(b, v))
      case StartObject => OnStart(b, e)
      case StartArray => OnStart(b, e)
      case EndObject => OnEnd(b, e)
      case EndArray => OnEnd(b, e)
  }

  // ---- The full reader -----------------------------------------------------

  datatype Full = Full(sax: Sax, prog: Program, cur: Step)

  const FullStart := Full(Blank, Program(0, "", []), BlankStep)

  function Numbered(s: Step, index: nat): Step { if s.step == 0 then s.(step := (index + 1) % 256) else s }

  function AssignRoot(p: Program, pending: string, v: string): Program {
    match FieldOf(pending)
    case Some(Id) => p.(id := ParseU8(v, 0))
    case Some(Name) => p.(name := Copied(v, PROGRAM_NAME))
    case _ => p
  }

  function AssignPending(s: Step, pending: string, v: string): Step {
    match FieldOf(pending) case None => s case Some(f) => Assign(s, f, v)
  }

  function Fail(f: Full): Full { f.(sax := f.sax.(failed := true)) }

  function FullCall(f: Full, c: Call): Full {
    match c
    case Quiet => f
    case BeginStep => if |f.prog.steps| >= MAX_STEPS then Fail(f) else f.(cur := BlankStep)
    case EndStep =>
      if f.cur.action == "" then Fail(f)
      else f.(prog := f.prog.(steps := f.prog.steps + [Numbered(f.cur, |f.prog.steps|)]))
    case RootValue(v) => f.(prog := AssignRoot(f.prog, f.sax.pending, v))
    case StepValue(v) => f.(cur := AssignPending(f.cur, f.sax.pending, v))
  }

  function FullStep(f: Full, e: Event): Full {
    var (b, c) := SaxStep(f.sax, e);
    FullCall(f.(sax := b), c)
  }

  function FullRun(f: Full, events: seq<Event>): Full
    decreases |events|
  {
    if events == [] then f else FullRun(FullStep(f, events[0]), events[1..])
  }

  /** The verdict is given at the end of the document. */
  function ReadFull(d: Document): Option<Program> {
    var f := FullRun(FullStart, d.events);
    if d.complete && !f.sax.failed && f.prog.id != 0 && f.prog.steps != [] then Some(f.prog) else None
  }

  // ---- The compiled reader -------------------------------------------------

  function CompileAction(a: string): ActionId {
    if a == "WAIT" then WAIT
    else if a == "RELAY_PULSE_ON_OFF_ON" then RELAY_PULSE_ON_OFF_ON
    else if a == "RELAY_PULSE_OFF_ON_OFF" then RELAY_PULSE_OFF_ON_OFF
    else if a == "STARTER_TIMED" then STARTER_TIMED
    else if a == "STARTER_WAIT_INPUT" then STARTER_WAIT_INPUT
    else if a == "RELAY_ON" then RELAY_ON
    else if a == "RELAY_OFF" then RELAY_OFF
    else if a == "RELAY_TOGGLE" then RELAY_TOGGLE
    else if a == "INPUT_ENABLE" then INPUT_ENABLE
    else if a == "INPUT_DISABLE" then INPUT_DISABLE
    else if a == "INPUT_TRIGGER_ENABLE" then INPUT_TRIGGER_ENABLE
    else if a == "INPUT_TRIGGER_DISABLE" then INPUT_TRIGGER_DISABLE
    else if a == "TEMP_TRIGGER_ENABLE" then TEMP_TRIGGER_ENABLE
    else if a == "TEMP_TRIGGER_DISABLE" then TEMP_TRIGGER_DISABLE
    else if a == "BATTERY_SAVER_ON" then BATTERY_SAVER_ON
    else if a == "BATTERY_SAVER_OFF" then BATTERY_SAVER_OFF
    else if a == "THERMOSTAT_ON" then THERMOSTAT_ON
    else if a == "THERMOSTAT_OFF" then THERMOSTAT_OFF
    else UNKNOWN
  }

  function CompileComparison(s: string): ComparisonOp { if s == "below" then Below else Above }

  /** What a stored step means to the executor. */
  function Compile(s: Step): CompiledStep {
    CompiledStep(CompileAction(s.action), s.relayId, s.ms, s.timeoutMs, s.inputId, s.sensorId, s.inputTriggerId,
                 s.tempTriggerId, s.programId, s.retries, s.expectedState, CompileComparison(s.comparison),
                 s.threshold, s.engineState, s.timeoutAction, s.skipCount)
  }

  const BlankCompiled := CompiledStep(UNKNOWN, 0, 0, 0, 0, 0, 0, 0, 0, 1, 1, Above, 0, 1, 0, 0)

  function CompileAll(steps: seq<Step>): (r: seq<CompiledStep>)
    ensures |r| == |steps| && forall i | 0 <= i < |r| :: r[i] == Compile(steps[i])
  {
    seq(|steps|, i requires 0 <= i < |steps| => Compile(steps[i]))
  }

  function AssignCompiled(s: CompiledStep, f: Field, v: string): CompiledStep {
    match f
    case Action => s.(action := CompileAction(v))
    case RelayId => s.(relayId := ParseU16(v, 0))
    case Ms => s.(ms := ParseU32(v, 0))
    case TimeoutMs => s.(timeoutMs := ParseU32(v, 0))
    case InputId => s.(inputId := ParseU16(v, 0))
    case SensorId => s.(sensorId := ParseU16(v, 0))
    case InputTriggerId => s.(inputTriggerId := ParseU16(v, 0))
    case TempTriggerId => s.(tempTriggerId := ParseU16(v, 0))
    case ProgramId => s.(programId := ParseU8(v, 0))
    case Retries => s.(retries := ParseU8(v, 1))
    case ExpectedState => s.(expectedState := ParseU8(v, 1))
    case Comparison => s.(comparison := CompileComparison(v))
    case Threshold => s.(threshold := ReadFixed(v))
    case EngineState => s.(engineState := ParseU8(v, 1))
    case TimeoutAction => s.(timeoutAction := ParseU8(v, 0))
    case SkipCount => s.(skipCount := ParseU8(v, 0))
    case _ => s
  }

  datatype Compiled = Compiled(sax: Sax, wanted: nat, name: string, steps: seq<CompiledStep>, cur: CompiledStep)

  function CompiledStart(wanted: nat): Compiled { Compiled(Blank, wanted, "", [], BlankCompiled) }

  function FailCompiled(c: Compiled): Compiled { c.(sax := c.sax.(failed := true)) }

  function CompiledRoot(c: Compiled, v: string): Compiled {
    match FieldOf(c.sax.pending)
    case Some(Id) => if ParseU8(v, 0) != c.wanted then FailCompiled(c) else c
    case Some(Name) => c.(name := Copied(v, PROGRAM_NAME))
    case _ => c
  }

  function CompiledCall(c: Compiled, call: Call): Compiled {
    match call
    case Quiet => c
    case BeginStep => if |c.steps| >= MAX_STEPS then FailCompiled(c) else c.(cur := BlankCompiled)
    case EndStep => c.(steps := c.steps + [c.cur])
    case RootValue(v) => CompiledRoot(c, v)
    case StepValue(v) =>
      match FieldOf(c.sax.pending) case None => c case Some(f) => c.(cur := AssignCompiled(c.cur, f, v))
  }

  function CompiledEvent(c: Compiled, e: Event): Compiled {
    var (b, call) := SaxStep(c.sax, e);
    CompiledCall(c.(sax := b), call)
  }

  function CompiledRun(c: Compiled, events: seq<Event>): Compiled
    decreases |events|
  {
    if events == [] then c else CompiledRun(CompiledEvent(c, events[0]), events[1..])
  }

  function ReadCompiled(d: Document, wanted: nat): Option<(string, seq<CompiledStep>)> {
    var c := CompiledRun(CompiledStart(wanted), d.events);
    if d.complete && !c.sax.failed then Some((c.name, c.steps)) else None
  }

  // ---- Full and compiled agree on every document ---------------------------

  predicate IsId(f: Full, e: Event) {
    SaxStep(f.sax, e).1.RootValue? && FieldOf(f.sax.pending) == Some(Id)
  }

  function IdIn(f: Full, e: Event): seq<nat> {
    if IsId(f, e) then [ParseU8(SaxStep(f.sax, e).1.v, 0)] else []
  }

  /** The values of the root members named `id`, in order. */
  function RootIds(f: Full, events: seq<Event>): seq<nat>
    decreases |events|
  {
    if events == [] then []
    else IdIn(f, events[0]) + RootIds(FullStep(f, events[0]), events[1..])
  }

  ghost predicate Agree(f: Full, c: Compiled) {
    && c.sax == f.sax && c.name == f.prog.name && c.steps == CompileAll(f.prog.steps) && c.cur == Compile(f.cur)
  }

  /** Truncation to the buffers of a stored step cannot turn a text into a keyword or out of one. */
  lemma TruncationIsHarmless(v: string)
    ensures CompileAction(Copied(v, STEP_ACTION)) == CompileAction(v)
    ensures CompileComparison(Copied(v, COMPARISON)) == CompileComparison(v)
  {
    if |v| < STEP_ACTION {
      assert Copied(v, STEP_ACTION) == v;
    } else {
      LongIsUnknown(v);
      LongIsUnknown(Copied(v, STEP_ACTION));
    }
    if |v| < COMPARISON {
      assert Copied(v, COMPARISON) == v;
    } else {
      assert |"below"| == 5;
    }
  }

  lemma LongIsUnknown(v: string)
    requires |v| >= STEP_ACTION - 1
    ensures CompileAction(v) == UNKNOWN
  {
  }

  lemma AssignsAlike(s: Step, f: Field, v: string)
    requires v != "null"
    ensures AssignCompiled(Compile(s), f, v) == Compile(Assign(s, f, v))
  {
    hide CompileAction, CompileComparison, ParseU8, ParseU16, ParseU32, ReadFixed;
    TruncationIsHarmless(v);
  }

  lemma CompilesStepByStep(steps: seq<Step>, s: Step)
    ensures CompileAll(steps + [s]) == CompileAll(steps) + [Compile(s)]
  {
    hide Compile;
  }

  lemma NullIsQuiet(b: Sax, e: Event)
    ensures var call := SaxStep(b, e).1; call.RootValue? || call.StepValue? ==> call.v != "null"
  {
  }

  /** One event keeps the two readers in step, unless it is a foreign id. */
  lemma AgreeStep(f: Full, c: Compiled, e: Event)
    requires Agree(f, c) && !FullStep(f, e).sax.failed
    ensures |IdIn(f, e)| <= 1
    ensures IdIn(f, e) != [] && IdIn(f, e)[0] != c.wanted ==> CompiledEvent(c, e).sax.failed
    ensures IdIn(f, e) == [] || IdIn(f, e)[0] == c.wanted ==>
              Agree(FullStep(f, e), CompiledEvent(c, e)) && CompiledEvent(c, e).wanted == c.wanted
  {
    hide SaxStep, FieldOf, ParseU8, Assign, AssignCompiled, Compile;
    var (b, call) := SaxStep(f.sax, e);
    NullIsQuiet(f.sax, e);
    PendingStays(f.sax, e);
    match call
    case Quiet =>
    case BeginStep => assert Compile(BlankStep) == BlankCompiled by { BlankCompiles(); }
    case EndStep =>
      var s := Numbered(f.cur, |f.prog.steps|);
      assert Compile(s) == Compile(f.cur) by { NumberIsNotCompiled(f.cur, |f.prog.steps|); }
      CompilesStepByStep(f.prog.steps, s);
    case RootValue(v) =>
    case StepValue(v) =>
      if FieldOf(f.sax.pending).Some? {
        AssignsAlike(f.cur, FieldOf(f.sax.pending).value, v);
      }
  }

  lemma BlankCompiles()
    ensures Compile(BlankStep) == BlankCompiled
  {
  }

  lemma NumberIsNotCompiled(s: Step, index: nat)
    ensures Compile(Numbered(s, index)) == Compile(s)
  {
    hide CompileAction;
  }

  lemma PendingStays(b: Sax, e: Event)
    ensures SaxStep(b, e).1 != Quiet ==> SaxStep(b, e).0.pending == b.pending
  {
  }

  lemma {:induction false} FullStuck(f: Full, events: seq<Event>)
    requires f.sax.failed
    ensures FullRun(f, events) == f
    decreases |events|
  {
    if events != [] {
      FullStuck(f, events[1..]);
    }
  }

  lemma {:induction false} CompiledStuck(c: Compiled, events: seq<Event>)
    requires c.sax.failed
    ensures CompiledRun(c, events).sax.failed
    decreases |events|
  {
    if events != [] {
      CompiledStuck(CompiledEvent(c, events[0]), events[1..]);
    }
  }

  lemma {:induction false} RunsAgree(f: Full, c: Compiled, events: seq<Event>)
    requires Agree(f, c) && !FullRun(f, events).sax.failed
    ensures (forall id <- RootIds(f, events) :: id == c.wanted) ==>
              Agree(FullRun(f, events), CompiledRun(c, events))
    ensures (exists id <- RootIds(f, events) :: id != c.wanted) ==> CompiledRun(c, events).sax.failed
    decreases |events|
  {
    if events != [] {
      hide FullStep, CompiledEvent, Agree, IdIn;
      var e, rest := events[0], events[1..];
      if FullStep(f, e).sax.failed {
        FullStuck(FullStep(f, e), rest);
      }
      AgreeStep(f, c, e);
      var head := IdIn(f, e);
      assert RootIds(f, events) == head + RootIds(FullStep(f, e), rest);
      if head != [] && head[0] != c.wanted {
        CompiledStuck(CompiledEvent(c, e), rest);
        assert head[0] in RootIds(f, events);
      } else {
        RunsAgree(FullStep(f, e), CompiledEvent(c, e), rest);
        forall id
          ensures id in RootIds(FullStep(f, e), rest) ==> id in RootIds(f, events)
          ensures id in RootIds(f, events) ==> id == c.wanted || id in RootIds(FullStep(f, e), rest)
        {
        }
      }
    }
  }

  lemma {:induction false} LastIdWins(f: Full, events: seq<Event>)
    requires !FullRun(f, events).sax.failed
    ensures var ids := RootIds(f, events);
            FullRun(f, events).prog.id == if ids == [] then f.prog.id else ids[|ids| - 1]
    decreases |events|
  {
    if events != [] {
      hide SaxStep, ParseU8, FieldOf;
      if FullStep(f, events[0]).sax.failed {
        FullStuck(FullStep(f, events[0]), events[1..]);
      }
      PendingStays(f.sax, events[0]);
      LastIdWins(FullStep(f, events[0]), events[1..]);
    }
  }

  /** On every document whatsoever that the full reader accepts, the compiled reader for `wanted` gives the name and
      the compiled steps of the same program exactly when no root id differs from `wanted`, and fails otherwise. */
  lemma ReadersAgree(d: Document, wanted: nat)
    requires ReadFull(d).Some?
    ensures var p, ids := ReadFull(d).value, RootIds(FullStart, d.events);
            && ids != [] && p.id == ids[|ids| - 1]
            && ReadCompiled(d, wanted)
               == if forall id <- ids :: id == wanted then Some((p.name, CompileAll(p.steps))) else None
  {
    hide FullStep, CompiledEvent, Compile;
    assert Agree(FullStart, CompiledStart(wanted)) by { BlankCompiles(); }
    RunsAgree(FullStart, CompiledStart(wanted), d.events);
    LastIdWins(FullStart, d.events);
    if !(forall id <- RootIds(FullStart, d.events) :: id == wanted) {
      assert exists id <- RootIds(FullStart, d.events) :: id != wanted;
    }
  }

  // ---- Printed documents ---------------------------------------------------

  lemma {:induction false} FullRunAppend(f: Full, a: seq<Event>, b: seq<Event>)
    ensures FullRun(f, a + b) == FullRun(FullRun(f, a), b)
    decreases |a|
  {
    hide FullStep;
    if a == [] {
      assert a + b == b;
    } else {
      assert (a + b)[1..] == a[1..] + b;
      FullRunAppend(FullStep(f, a[0]), a[1..], b);
    }
  }

  lemma FullRunOne(f: Full, e: Event)
    ensures FullRun(f, [e]) == FullStep(f, e)
  {
    assert [e][1..] == [];
  }

  lemma FullRunTwo(f: Full, d: Event, e: Event)
    ensures FullRun(f, [d, e]) == FullStep(FullStep(f, d), e)
  {
    hide FullStep;
    assert [d, e] == [d] + [e];
    FullRunAppend(f, [d], [e]);
    FullRunOne(f, d);
    FullRunOne(FullStep(f, d), e);
  }

  /** Up to the last key seen. */
  predicate Same(f: Full, g: Full) { f.(sax := f.sax.(pending := "")) == g.(sax := g.sax.(pending := "")) }

  predicate InStep(f: Full) { !f.sax.failed && !f.sax.junk && f.sax.stk == [Root, StepsArr, StepObj] }

  predicate InSteps(f: Full) { !f.sax.failed && !f.sax.junk && f.sax.stk == [Root, StepsArr] }

  lemma NullAssigns(s: Step, f: Field)
    ensures Assign(s, f, "null") == s
  {
  }

  lemma MemberAssigns(f: Full, m: Member)
    requires InStep(f)
    ensures Same(FullRun(f, [Key(KeyText(m.0)), Value(m.1)]), f.(cur := Assign(f.cur, m.0, m.1)))
  {
    hide KeyText, FieldOf, Assign, FullStep, InStep;
    KeysAreRecognised(m.0);
    FullRunTwo(f, Key(KeyText(m.0)), Value(m.1));
    assert Copied(KeyText(m.0), PENDING) == KeyText(m.0);
    KeyWaits(f, KeyText(m.0));
    ValueAssigns(f.(sax := f.sax.(pending := KeyText(m.0))), m.0, m.1);
  }

  lemma KeyWaits(f: Full, k: string)
    requires InStep(f)
    ensures var g := f.(sax := f.sax.(pending := Copied(k, PENDING))); FullStep(f, Key(k)) == g && InStep(g)
  {
  }

  lemma ValueAssigns(f: Full, m: Field, v: string)
    requires InStep(f) && FieldOf(f.sax.pending) == Some(m)
    ensures FullStep(f, Value(v)) == f.(cur := Assign(f.cur, m, v))
  {
    assert v == "null" ==> Assign(f.cur, m, v) == f.cur by { NullAssigns(f.cur, m); }
    hide Assign, FieldOf;
  }

  lemma {:induction false} MembersAssign(f: Full, ms: seq<Member>)
    requires InStep(f)
    ensures Same(FullRun(f, MemberEvents(ms)), f.(cur := Fold(f.cur, ms)))
    decreases |ms|
  {
    hide KeyText, FullStep, Assign;
    if ms != [] {
      var head := [Key(KeyText(ms[0].0)), Value(ms[0].1)];
      var g := FullRun(f, head);
      MemberAssigns(f, ms[0]);
      FullRunAppend(f, head, MemberEvents(ms[1..]));
      MembersAssign(g, ms[1..]);
    }
  }

  predicate Usable(action: string) { action != "" && action != "null" }

  predicate AllUsable(steps: seq<Step>) { forall i | 0 <= i < |steps| :: Usable(steps[i].action) }

  /** A printed step is appended in normal form, or refused when its action reads back empty. */
  lemma StepAppends(f: Full, s: Step)
    requires InSteps(f) && s.Fits() && |f.prog.steps| < MAX_STEPS
    ensures var g := FullRun(f, StepEvents(s));
            if Usable(s.action) then
              InSteps(g) && g.prog == f.prog.(steps := f.prog.steps + [NormalStep(s, |f.prog.steps|)])
            else g.sax.failed
  {
    hide MemberEvents, Present, NormalFields, Fold;
    var body := MemberEvents(StepMembers(s));
    FullRunAppend(f, [StartObject] + body, [EndObject]);
    FullRunAppend(f, [StartObject], body);
    FullRunOne(f, StartObject);
    var g := FullRun(f, [StartObject]);
    assert InStep(g) && g.cur == BlankStep && g.prog == f.prog;
    MembersAssign(g, StepMembers(s));
    StepReads(s);
    NormalAction(s);
    var h := FullRun(g, body);
    FullRunOne(h, EndObject);
    assert InStep(h) && h.cur == NormalFields(s) && h.prog == f.prog;
  }

  lemma NormalAction(s: Step)
    ensures NormalFields(s).action == "" <==> !Usable(s.action)
  {
  }

  lemma {:induction false} StepsAppend(f: Full, steps: seq<Step>)
    requires InSteps(f) && |f.prog.steps| + |steps| <= MAX_STEPS && forall i | 0 <= i < |steps| :: steps[i].Fits()
    ensures var g := FullRun(f, StepsEvents(steps));
            if AllUsable(steps) then
              InSteps(g) && g.prog == f.prog.(steps := f.prog.steps + NormalFrom(steps, |f.prog.steps|))
            else g.sax.failed
    decreases |steps|
  {
    hide StepEvents, NormalStep, Usable, FullStep, FullRun, AllUsable, InSteps;
    var k := |f.prog.steps|;
    if steps == [] {
      assert AllUsable([]) by { NoneToUse(); }
      assert FullRun(f, []) == f by { FullRunNone(f); }
      assert f.prog.steps + [] == f.prog.steps;
    } else {
      var s, rest := steps[0], steps[1..];
      StepAppends(f, s);
      FullRunAppend(f, StepEvents(s), StepsEvents(rest));
      var g := FullRun(f, StepEvents(s));
      UsableSplit(steps);
      if Usable(s.action) {
        StepsAppend(g, rest);
        NormalSplit(steps, k);
        Associate(f.prog.steps, [NormalStep(s, k)], NormalFrom(rest, k + 1));
      } else {
        FullStuck(g, StepsEvents(rest));
      }
    }
  }

  lemma NormalSplit(steps: seq<Step>, k: nat)
    requires steps != []
    ensures NormalFrom(steps, k) == [NormalStep(steps[0], k)] + NormalFrom(steps[1..], k + 1)
  {
    hide NormalStep;
  }

  lemma FullRunNone(f: Full)
    ensures FullRun(f, []) == f
  {
  }

  lemma NoneToUse()
    ensures AllUsable([])
  {
  }

  lemma UsableSplit(steps: seq<Step>)
    requires steps != []
    ensures AllUsable(steps) <==> Usable(steps[0].action) && AllUsable(steps[1..])
  {
    hide Usable;
    if Usable(steps[0].action) && AllUsable(steps[1..]) {
      forall i | 0 <= i < |steps|
        ensures Usable(steps[i].action)
      {
        assert i > 0 ==> steps[i] == steps[1..][i - 1];
      }
    }
  }

  lemma HeaderReads(p: Program)
    requires p.Fits()
    ensures var f := FullRun(FullStart, HeaderEvents(p));
            InSteps(f) && f.prog == Program(p.id, ReadBack(p.name), [])
  {
    hide Decimal, KeyText, FullStep, AssignRoot;
    var f1 := FullStep(FullStart, StartObject);
    assert f1 == Full(Sax(false, [Root], false, ""), Program(0, "", []), BlankStep) by { FirstBrace(); }
    RootAssigns(f1, Id, Decimal(p.id));
    IdAndName(Program(0, "", []), p);
    var f2 := FullRun(f1, [Key(KeyText(Id)), Value(Decimal(p.id))]);
    RootAssigns(f2, Name, p.name);
    var f3 := FullRun(f2, [Key(KeyText(Name)), Value(p.name)]);
    StepsOpens(f3);
    HeaderShape(p, f1, f2, f3);
  }

  lemma FirstBrace()
    ensures FullStep(FullStart, StartObject) == Full(Sax(false, [Root], false, ""), Program(0, "", []), BlankStep)
  {
  }

  lemma RootAssigns(f: Full, m: Field, v: string)
    requires f.sax == Sax(false, [Root], false, f.sax.pending)
    ensures FullRun(f, [Key(KeyText(m)), Value(v)])
            == Full(Sax(false, [Root], false, KeyText(m)),
                    if v == "null" then f.prog else AssignRoot(f.prog, KeyText(m), v), f.cur)
  {
    hide KeyText, FieldOf, AssignRoot;
    KeysAreRecognised(m);
    FullRunTwo(f, Key(KeyText(m)), Value(v));
    assert Copied(KeyText(m), PENDING) == KeyText(m);
  }

  lemma IdAndName(blank: Program, p: Program)
    requires p.Fits() && blank == Program(0, "", [])
    ensures Decimal(p.id) != "null"
    ensures AssignRoot(blank, KeyText(Id), Decimal(p.id)) == Program(p.id, "", [])
    ensures AssignRoot(Program(p.id, "", []), KeyText(Name), p.name) == Program(p.id, p.name, [])
  {
    hide Decimal, ParseU8, FieldOf, KeyText;
    KeysAreRecognised(Id);
    KeysAreRecognised(Name);
    NumberReads(p.id);
  }

  lemma StepsOpens(f: Full)
    requires f.sax == Sax(false, [Root], false, f.sax.pending)
    ensures var g := FullRun(f, [Key(KeyText(Steps)), StartArray]); InSteps(g) && g.prog == f.prog
  {
    FullRunTwo(f, Key(KeyText(Steps)), StartArray);
    assert Copied("steps", PENDING) == "steps";
  }

  lemma HeaderShape(p: Program, f1: Full, f2: Full, f3: Full)
    requires f1 == FullStep(FullStart, StartObject)
    requires f2 == FullRun(f1, [Key(KeyText(Id)), Value(Decimal(p.id))])
    requires f3 == FullRun(f2, [Key(KeyText(Name)), Value(p.name)])
    ensures FullRun(FullStart, HeaderEvents(p)) == FullRun(f3, [Key(KeyText(Steps)), StartArray])
  {
    hide FullStep, KeyText, Decimal;
    var ms := [(Id, Decimal(p.id)), (Name, p.name)];
    var a, b := [Key(KeyText(Id)), Value(Decimal(p.id))], [Key(KeyText(Name)), Value(p.name)];
    assert ms[1..] == [ms[1]] && [ms[1]][1..] == [];
    assert MemberEvents([ms[1]]) == b + [];
    assert MemberEvents(ms) == a + b;
    FullRunAppend(FullStart, [StartObject] + MemberEvents(ms), [Key(KeyText(Steps)), StartArray]);
    FullRunAppend(FullStart, [StartObject], a + b);
    FullRunOne(FullStart, StartObject);
    FullRunAppend(f1, a, b);
  }

  /** A printed program reads back exactly when it has an id, steps, and actions that are neither empty nor "null";
      the result is then its normal form. */
  lemma FullReadsPrinted(p: Program)
    requires p.Fits()
    ensures ReadFull(Printed(p)) ==
            if p.id != 0 && p.steps != [] && AllUsable(p.steps) then Some(Normal(p)) else None
  {
    hide HeaderEvents, StepsEvents, AllUsable, NormalStep;
    var closing := [EndArray, EndObject];
    FullRunAppend(FullStart, HeaderEvents(p) + StepsEvents(p.steps), closing);
    FullRunAppend(FullStart, HeaderEvents(p), StepsEvents(p.steps));
    HeaderReads(p);
    var f := FullRun(FullStart, HeaderEvents(p));
    StepsAppend(f, p.steps);
    var g := FullRun(f, StepsEvents(p.steps));
    if g.sax.failed {
      FullStuck(g, closing);
    } else {
      FullRunTwo(g, EndArray, EndObject);
      assert [] + NormalFrom(p.steps, 0) == NormalFrom(p.steps, 0);
    }
  }
}
