/** Stored programs and the JSON documents printed for them, as the events a streaming parser reports. */
module ProgramDocument {
  import opened Bytes
  import opened Numbers
  import opened ProgramTypes

  /** Callbacks of the streaming parser; numbers and strings both arrive as text. */
  datatype Event = StartObject | EndObject | StartArray | EndArray | Key(key: string) | Value(value: string)

  /** The callbacks a file gives rise to, and whether the parser came to the end of the document: one that is cut off
      ends without the last callback. */
  datatype Document = Document(events: seq<Event>, complete: bool)

  datatype Step = Step(
    step: nat, action: string, relayId: nat, ms: nat, timeoutMs: nat, inputId: nat, sensorId: nat, sensorName: string,
    inputTriggerId: nat, tempTriggerId: nat, programId: nat, retries: nat, expectedState: nat, comparison: string,
    threshold: int, engineState: nat, timeoutAction: nat, skipCount: nat)
  {
    /** The fields fit their C types. */
    predicate Fits() {
      && step < 256 && |action| < STEP_ACTION && relayId < 0x1_0000 && ms < WORD && timeoutMs < WORD
      && inputId < 0x1_0000 && sensorId < 0x1_0000 && |sensorName| < SENSOR_NAME && inputTriggerId < 0x1_0000
      && tempTriggerId < 0x1_0000 && programId < 256 && retries < 256 && expectedState < 256
      && |comparison| < COMPARISON && engineState < 256 && timeoutAction < 256 && skipCount < 256
    }
  }

  const STEP_ACTION := 24
  const SENSOR_NAME := 16
  const COMPARISON := 8
  const PROGRAM_NAME := 32
  const PENDING := 24

  const BlankStep := Step(0, "", 0, 0, 0, 0, 0, "", 0, 0, 0, 1, 1, "above", 0, 1, 0, 0)

  datatype Program = Program(id: nat, name: string, steps: seq<Step>) {
    predicate Fits() {
      && id < 256 && |name| < PROGRAM_NAME && |steps| <= MAX_STEPS
      && forall i | 0 <= i < |steps| :: steps[i].Fits()
    }
  }

  // ---- Keys ----------------------------------------------------------------

  datatype Field =
    | Id | Name | Steps
    | StepNo | Action | RelayId | Ms | TimeoutMs | InputId | SensorId | SensorName | InputTriggerId | TempTriggerId
    | ProgramId | Retries | ExpectedState | Comparison | Threshold | EngineState | TimeoutAction | SkipCount

  function KeyText(f: Field): string {
    match f
    case Id => "id" case Name => "name" case Steps => "steps" case StepNo => "step" case Action => "action"
    case RelayId => "relay_id" case Ms => "ms" case TimeoutMs => "timeout_ms" case InputId => "input_id"
    case SensorId => "sensor_id" case SensorName => "sensor_name" case InputTriggerId => "input_trigger_id"
    case TempTriggerId => "temp_trigger_id" case ProgramId => "program_id" case Retries => "retries"
    case ExpectedState => "expected_state" case Comparison => "comparison" case Threshold => "threshold"
    case EngineState => "engine_state" case TimeoutAction => "timeout_action" case SkipCount => "skip_count"
  }

  function FieldOf(key: string): Option<Field> {
    if key == "id" then Some(Id) else if key == "name" then Some(Name) else if key == "steps" then Some(Steps)
    else if key == "step" then Some(StepNo) else if key == "action" then Some(Action)
    else if key == "relay_id" then Some(RelayId) else if key == "ms" then Some(Ms)
    else if key == "timeout_ms" then Some(TimeoutMs) else if key == "input_id" then Some(InputId)
    else if key == "sensor_id" then Some(SensorId) else if key == "sensor_name" then Some(SensorName)
    else if key == "input_trigger_id" then Some(InputTriggerId)
    else if key == "temp_trigger_id" then Some(TempTriggerId) else if key == "program_id" then Some(ProgramId)
    else if key == "retries" then Some(Retries) else if key == "expected_state" then Some(ExpectedState)
    else if key == "comparison" then Some(Comparison) else if key == "threshold" then Some(Threshold)
    else if key == "engine_state" then Some(EngineState) else if key == "timeout_action" then Some(TimeoutAction)
    else if key == "skip_count" then Some(SkipCount) else None
  }

  /** The keys are distinct and fit the 24-byte buffer, so the readers recognise every printed one. */
  lemma KeysAreRecognised(f: Field)
    ensures FieldOf(KeyText(f)) == Some(f) && |KeyText(f)| < PENDING
  {
    hide KeyText, FieldOf;
    match f
    case InputTriggerId | TempTriggerId | ProgramId | Retries | ExpectedState => MiddleKeys(f);
    case Comparison | Threshold | EngineState | TimeoutAction | SkipCount => BackKeys(f);
    case _ => FrontKeys(f);
  }

  lemma FrontKeys(f: Field)
    requires f in {Id, Name, Steps, StepNo, Action, RelayId, Ms, TimeoutMs, InputId, SensorId, SensorName}
    ensures FieldOf(KeyText(f)) == Some(f) && |KeyText(f)| < PENDING
  {
  }

  lemma MiddleKeys(f: Field)
    requires f in {InputTriggerId, TempTriggerId, ProgramId, Retries, ExpectedState}
    ensures FieldOf(KeyText(f)) == Some(f) && |KeyText(f)| < PENDING
  {
  }

  lemma BackKeys(f: Field)
    requires f in {Comparison, Threshold, EngineState, TimeoutAction, SkipCount}
    ensures FieldOf(KeyText(f)) == Some(f) && |KeyText(f)| < PENDING
  {
  }

  // ---- The printed document ------------------------------------------------

  type Member = (Field, string)

  function Opt(c: bool, f: Field, v: string): seq<Member> { if c then [(f, v)] else [] }

  /** The fields of a step, in the order they are printed. */
  const STEP_FIELDS: seq<Field> :=
    [StepNo, Action, RelayId, Ms, TimeoutMs, InputId, SensorId, SensorName, InputTriggerId, TempTriggerId, ProgramId,
     Retries, ExpectedState, Comparison, Threshold, EngineState, TimeoutAction, SkipCount]

  predicate IsRelayAction(action: string) { |action| >= 6 && action[..6] == "RELAY_" }

  predicate PrintsComparison(s: Step) { s.comparison != "" && s.comparison != "above" }

  /** Which members are printed; the others are left to the readers' defaults. */
  predicate Prints(s: Step, f: Field) {
    match f
    case StepNo => true
    case Action => true
    case RelayId => IsRelayAction(s.action) && s.relayId != 0
    case Ms => s.ms != 0
    case TimeoutMs => s.timeoutMs != 0
    case InputId => s.inputId != 0
    case SensorId => s.sensorId != 0
    case SensorName => s.sensorName != ""
    case InputTriggerId => s.inputTriggerId != 0
    case TempTriggerId => s.tempTriggerId != 0
    case ProgramId => s.programId != 0
    case Retries => s.retries != 1
    case ExpectedState => s.expectedState == 0
    case Comparison => PrintsComparison(s)
    case Threshold => s.threshold != 0
    case EngineState => s.engineState == 0
    case TimeoutAction => s.timeoutAction != 0
    case SkipCount => s.skipCount != 0
    case _ => false
  }

  /** The value of a numeric field. */
  function Number(s: Step, f: Field): nat {
    match f
    case StepNo => s.step
    case RelayId => s.relayId
    case Ms => s.ms
    case TimeoutMs => s.timeoutMs
    case InputId => s.inputId
    case SensorId => s.sensorId
    case InputTriggerId => s.inputTriggerId
    case TempTriggerId => s.tempTriggerId
    case ProgramId => s.programId
    case Retries => s.retries
    case ExpectedState => s.expectedState
    case EngineState => s.engineState
    case TimeoutAction => s.timeoutAction
    case SkipCount => s.skipCount
    case _ => 0
  }

  function Text(s: Step, f: Field): string {
    match f
    case Action => s.action
    case SensorName => s.sensorName
    case Comparison => s.comparison
    case Threshold => FixedText(s.threshold)
    case _ => Decimal(Number(s, f))
  }

  /** The members printed for some of the fields. */
  function Present(s: Step, fs: seq<Field>): seq<Member> {
    if fs == [] then []
    else var n := |fs| - 1; Present(s, fs[..n]) + Opt(Prints(s, fs[n]), fs[n], Text(s, fs[n]))
  }

  function StepMembers(s: Step): seq<Member> { Present(s, STEP_FIELDS) }

  function MemberEvents(ms: seq<Member>): seq<Event> {
    if ms == [] then [] else [Key(KeyText(ms[0].0)), Value(ms[0].1)] + MemberEvents(ms[1..])
  }

  function StepEvents(s: Step): seq<Event> { [StartObject] + MemberEvents(StepMembers(s)) + [EndObject] }

  function StepsEvents(steps: seq<Step>): seq<Event> {
    if steps == [] then [] else StepEvents(steps[0]) + StepsEvents(steps[1..])
  }

  function HeaderEvents(p: Program): seq<Event> {
    [StartObject] + MemberEvents([(Id, Decimal(p.id)), (Name, p.name)]) + [Key(KeyText(Steps)), StartArray]
  }

  /** The document printed for a program. */
  function ProgramEvents(p: Program): seq<Event> {
    HeaderEvents(p) + StepsEvents(p.steps) + [EndArray, EndObject]
  }

  /** The printed program as it is read, to its end. */
  function Printed(p: Program): Document { Document(ProgramEvents(p), true) }

  /** The printing loop over the members present and over the steps. */
  method EmitProgramBody(p: Program) returns (out: seq<Event>)
    ensures out == ProgramEvents(p)
  {
    hide KeyText, StepEvents, MemberEvents, HeaderEvents;
    out := EmitHeader(p);
    assert p.steps[..0] == [];
    for i := 0 to |p.steps|
      invariant out == HeaderEvents(p) + StepsEvents(p.steps[..i])
    {
      var step := EmitStep(p.steps[i]);
      StepsSnoc(p.steps[..i], p.steps[i]);
      assert p.steps[..i + 1] == p.steps[..i] + [p.steps[i]];
      Associate(HeaderEvents(p), StepsEvents(p.steps[..i]), step);
      out := out + step;
    }
    assert p.steps[..|p.steps|] == p.steps;
    out := out + [EndArray, EndObject];
  }

  method EmitHeader(p: Program) returns (out: seq<Event>)
    ensures out == HeaderEvents(p)
  {
    hide Decimal;
    var ms := [(Id, Decimal(p.id)), (Name, p.name)];
    assert ms[1..] == [ms[1]] && [ms[1]][1..] == [];
    assert MemberEvents([ms[1]]) == [Key("name"), Value(p.name)];
    assert MemberEvents(ms) == [Key("id"), Value(Decimal(p.id))] + MemberEvents([ms[1]]);
    out := [StartObject, Key("id"), Value(Decimal(p.id)), Key("name"), Value(p.name), Key("steps"), StartArray];
  }

  /** Prints the `k`-th field when its condition holds. */
  method Add(ms: seq<Member>, s: Step, f: Field, ghost k: nat) returns (r: seq<Member>)
    requires k < |STEP_FIELDS| && STEP_FIELDS[k] == f && ms == Present(s, STEP_FIELDS[..k])
    ensures r == Present(s, STEP_FIELDS[..k + 1])
  {
    hide Prints, Text;
    assert STEP_FIELDS[..k + 1][..k] == STEP_FIELDS[..k];
    r := ms;
    if Prints(s, f) {
      r := r + [(f, Text(s, f))];
    }
  }

  /** The members in the order of the source, each with its condition. */
  method HeadMembers(front: seq<Member>, s: Step) returns (ms: seq<Member>)
    requires front == Present(s, STEP_FIELDS[..0])
    ensures ms == Present(s, STEP_FIELDS[..6])
  {
    hide Present;
    ms := front;
    ms := Add(ms, s, StepNo, 0);
    ms := Add(ms, s, Action, 1);
    ms := Add(ms, s, RelayId, 2);
    ms := Add(ms, s, Ms, 3);
    ms := Add(ms, s, TimeoutMs, 4);
    ms := Add(ms, s, InputId, 5);
  }

  method ReferenceMembers(front: seq<Member>, s: Step) returns (ms: seq<Member>)
    requires front == Present(s, STEP_FIELDS[..6])
    ensures ms == Present(s, STEP_FIELDS[..12])
  {
    hide Present;
    ms := front;
    ms := Add(ms, s, SensorId, 6);
    ms := Add(ms, s, SensorName, 7);
    ms := Add(ms, s, InputTriggerId, 8);
    ms := Add(ms, s, TempTriggerId, 9);
    ms := Add(ms, s, ProgramId, 10);
    ms := Add(ms, s, Retries, 11);
  }

  method ConditionMembers(front: seq<Member>, s: Step) returns (ms: seq<Member>)
    requires front == Present(s, STEP_FIELDS[..12])
    ensures ms == Present(s, STEP_FIELDS[..18])
  {
    hide Present;
    ms := front;
    ms := Add(ms, s, ExpectedState, 12);
    ms := Add(ms, s, Comparison, 13);
    ms := Add(ms, s, Threshold, 14);
    ms := Add(ms, s, EngineState, 15);
    ms := Add(ms, s, TimeoutAction, 16);
    ms := Add(ms, s, SkipCount, 17);
  }

  lemma NoMembers(s: Step)
    ensures [] == Present(s, STEP_FIELDS[..0])
  {
  }

  method EmitStep(s: Step) returns (out: seq<Event>)
    ensures out == StepEvents(s)
  {
    hide Present, KeyText;
    NoMembers(s);
    var ms := HeadMembers([], s);
    ms := ReferenceMembers(ms, s);
    ms := ConditionMembers(ms, s);
    assert STEP_FIELDS[..|STEP_FIELDS|] == STEP_FIELDS;
    out := [];
    for i := 0 to |ms|
      invariant out == MemberEvents(ms[..i])
    {
      MembersSnoc(ms[..i], ms[i]);
      assert ms[..i + 1] == ms[..i] + [ms[i]];
      out := out + [Key(KeyText(ms[i].0)), Value(ms[i].1)];
    }
    assert ms[..|ms|] == ms;
    out := [StartObject] + out + [EndObject];
  }

  lemma {:induction false} MembersSnoc(ms: seq<Member>, m: Member)
    ensures MemberEvents(ms + [m]) == MemberEvents(ms) + [Key(KeyText(m.0)), Value(m.1)]
  {
    hide KeyText;
    if ms == [] {
      assert ms + [m] == [m] && [m][1..] == [];
    } else {
      MembersSnoc(ms[1..], m);
      assert (ms + [m])[1..] == ms[1..] + [m];
    }
  }

  lemma {:induction false} StepsSnoc(steps: seq<Step>, s: Step)
    ensures StepsEvents(steps + [s]) == StepsEvents(steps) + StepEvents(s)
  {
    hide StepEvents;
    if steps == [] {
      assert steps + [s] == [s] && [s][1..] == [];
    } else {
      StepsSnoc(steps[1..], s);
      assert (steps + [s])[1..] == steps[1..] + [s];
    }
  }

  // ---- Reading values ------------------------------------------------------

  /** `strlcpy` into a buffer of `cap` bytes. */
  function Copied(s: string, cap: nat): string
    requires cap > 0
  {
    s[..Min(|s|, cap - 1)]
  }

  function ParseU32(v: string, default: nat): nat {
    if v == [] then default else match StrToUL(v) case None => default case Some(n) => n
  }

  function ParseU16(v: string, default: nat): nat { Min(ParseU32(v, default), 65535) }

  function ParseU8(v: string, default: nat): nat { Min(ParseU32(v, default), 255) }

  /** A member of a step object; the text "null" stands for the literal too and is skipped. */
  function Assign(s: Step, f: Field, v: string): Step {
    if v == "null" then s
    else
      match f
      case StepNo => s.(step := ParseU8(v, 0))
      case Action => s.(action := Copied(v, STEP_ACTION))
      case RelayId => s.(relayId := ParseU16(v, 0))
      case Ms => s.(ms := ParseU32(v, 0))
      case TimeoutMs => s.(timeoutMs := ParseU32(v, 0))
      case InputId => s.(inputId := ParseU16(v, 0))
      case SensorId => s.(sensorId := ParseU16(v, 0))
      case SensorName => s.(sensorName := Copied(v, SENSOR_NAME))
      case InputTriggerId => s.(inputTriggerId := ParseU16(v, 0))
      case TempTriggerId => s.(tempTriggerId := ParseU16(v, 0))
      case ProgramId => s.(programId := ParseU8(v, 0))
      case Retries => s.(retries := ParseU8(v, 1))
      case ExpectedState => s.(expectedState := ParseU8(v, 1))
      case Comparison => s.(comparison := Copied(v, COMPARISON))
      case Threshold => s.(threshold := ReadFixed(v))
      case EngineState => s.(engineState := ParseU8(v, 1))
      case TimeoutAction => s.(timeoutAction := ParseU8(v, 0))
      case SkipCount => s.(skipCount := ParseU8(v, 0))
      case _ => s
  }

  function Fold(s: Step, ms: seq<Member>): Step
    decreases |ms|
  {
    if ms == [] then s else Fold(Assign(s, ms[0].0, ms[0].1), ms[1..])
  }

  // ---- Normal form ---------------------------------------------------------

  /** A printed string as read back. */
  function ReadBack(v: string): string { if v == "null" then "" else v }

  /** What a printed step reads back as, except for its number. */
  function NormalFields(s: Step): Step {
    s.(action := ReadBack(s.action),
       relayId := if IsRelayAction(s.action) then s.relayId else 0,
       sensorName := ReadBack(s.sensorName),
       expectedState := if s.expectedState == 0 then 0 else 1,
       comparison := if PrintsComparison(s) && s.comparison != "null" then s.comparison else "above",
       engineState := if s.engineState == 0 then 0 else 1)
  }

  /** Unnumbered steps get their position. */
  function NormalStep(s: Step, index: nat): Step {
    var n := NormalFields(s);
    if n.step == 0 then n.(step := (index + 1) % 256) else n
  }

  /** The normal forms of steps that start at position `k`. */
  function NormalFrom(steps: seq<Step>, k: nat): seq<Step> {
    if steps == [] then [] else [NormalStep(steps[0], k)] + NormalFrom(steps[1..], k + 1)
  }

  lemma {:induction false} NormalAt(steps: seq<Step>, k: nat, i: nat)
    requires i < |steps|
    ensures |NormalFrom(steps, k)| == |steps| && NormalFrom(steps, k)[i] == NormalStep(steps[i], k + i)
  {
    hide NormalStep;
    if |steps| > 1 {
      NormalAt(steps[1..], k + 1, if i > 0 then i - 1 else 0);
    }
  }

  function Normal(p: Program): Program { Program(p.id, ReadBack(p.name), NormalFrom(p.steps, 0)) }

  lemma {:induction false} FoldAppend(s: Step, a: seq<Member>, b: seq<Member>)
    ensures Fold(s, a + b) == Fold(Fold(s, a), b)
    decreases |a|
  {
    hide Assign;
    if a == [] {
      assert a + b == b;
    } else {
      assert (a + b)[1..] == a[1..] + b;
      FoldAppend(Assign(s, a[0].0, a[0].1), a[1..], b);
    }
  }

  lemma NumberReads(n: nat)
    requires n < WORD
    ensures Decimal(n) != "null" && forall d: nat :: ParseU32(Decimal(n), d) == n
    ensures n < 0x1_0000 ==> forall d: nat :: ParseU16(Decimal(n), d) == n
    ensures n < 256 ==> forall d: nat :: ParseU8(Decimal(n), d) == n
  {
    ReadsPrinted(n);
    DecimalValue(n);
    assert IsDigit(Decimal(n)[0]);
  }

  lemma FixedReads(h: int)
    ensures FixedText(h) != "null" && ReadFixed(FixedText(h)) == h
  {
    hide Decimal;
    ReadsFixed(h);
    var a := if h < 0 then -h else h;
    DecimalValue(a / 100);
    assert IsDigit(Decimal(a / 100)[0]);
    assert FixedText(h)[0] == if h < 0 then '-' else Decimal(a / 100)[0];
  }

  // ---- Reading a printed step ----------------------------------------------

  predicate TextField(f: Field) { f == Action || f == SensorName || f == Comparison || f == Threshold }

  /** Two steps have the same value in a field. */
  predicate Agrees(a: Step, b: Step, f: Field) {
    match f
    case Action => a.action == b.action
    case SensorName => a.sensorName == b.sensorName
    case Comparison => a.comparison == b.comparison
    case Threshold => a.threshold == b.threshold
    case _ => Number(a, f) == Number(b, f)
  }

  lemma AgreementIsEquality(a: Step, b: Step)
    requires forall f :: Agrees(a, b, f)
    ensures a == b
  {
    forall f: Field | !TextField(f)
      ensures Number(a, f) == Number(b, f)
    {
      assert Agrees(a, b, f);
    }
    assert a.action == b.action by { assert Agrees(a, b, Action); }
    assert a.sensorName == b.sensorName by { assert Agrees(a, b, SensorName); }
    assert a.comparison == b.comparison by { assert Agrees(a, b, Comparison); }
    assert a.threshold == b.threshold by { assert Agrees(a, b, Threshold); }
    FrontNumbers(a, b);
    BackNumbers(a, b);
  }

  lemma FrontNumbers(a: Step, b: Step)
    requires forall f: Field | !TextField(f) :: Number(a, f) == Number(b, f)
    ensures && a.step == b.step
            && a.relayId == b.relayId
            && a.ms == b.ms
            && a.timeoutMs == b.timeoutMs
            && a.inputId == b.inputId
            && a.sensorId == b.sensorId
            && a.inputTriggerId == b.inputTriggerId
  {
    assert Number(a, StepNo) == Number(b, StepNo);
    assert Number(a, RelayId) == Number(b, RelayId);
    assert Number(a, Ms) == Number(b, Ms);
    assert Number(a, TimeoutMs) == Number(b, TimeoutMs);
    assert Number(a, InputId) == Number(b, InputId);
    assert Number(a, SensorId) == Number(b, SensorId);
    assert Number(a, InputTriggerId) == Number(b, InputTriggerId);
  }

  lemma MiddleNumbers(a: Step, b: Step)
    requires forall f: Field | !TextField(f) :: Number(a, f) == Number(b, f)
    ensures a.tempTriggerId == b.tempTriggerId && a.programId == b.programId && a.retries == b.retries
  {
    assert Number(a, TempTriggerId) == Number(b, TempTriggerId);
    assert Number(a, ProgramId) == Number(b, ProgramId);
    assert Number(a, Retries) == Number(b, Retries);
  }

  lemma BackNumbers(a: Step, b: Step)
    requires forall f: Field | !TextField(f) :: Number(a, f) == Number(b, f)
    ensures && a.tempTriggerId == b.tempTriggerId
            && a.programId == b.programId
            && a.retries == b.retries
            && a.expectedState == b.expectedState
            && a.engineState == b.engineState
            && a.timeoutAction == b.timeoutAction
            && a.skipCount == b.skipCount
  {
    MiddleNumbers(a, b);
    assert Number(a, ExpectedState) == Number(b, ExpectedState);
    assert Number(a, EngineState) == Number(b, EngineState);
    assert Number(a, TimeoutAction) == Number(b, TimeoutAction);
    assert Number(a, SkipCount) == Number(b, SkipCount);
  }

  lemma AssignKeepsOthers(s: Step, f: Field, v: string, g: Field)
    requires g != f
    ensures Agrees(Assign(s, f, v), s, g)
  {
    hide ParseU8, ParseU16, ParseU32, ReadFixed;
  }

  /** A printed member reads back to its normal value. */
  lemma AssignReads(t: Step, s: Step, f: Field)
    requires s.Fits() && Prints(s, f) && Agrees(t, BlankStep, f)
    ensures Agrees(Assign(t, f, Text(s, f)), NormalFields(s), f)
  {
    hide Decimal, FixedText, ReadFixed, ParseU8, ParseU16, ParseU32, IsRelayAction, PrintsComparison;
    if f == Threshold {
      FixedReads(s.threshold);
    } else {
      NumberReads(Number(s, f));
    }
  }

  /** A member left out has its normal value by default. */
  lemma DefaultReads(s: Step, f: Field)
    requires !Prints(s, f)
    ensures Agrees(BlankStep, NormalFields(s), f)
  {
  }

  lemma FoldOpt(s: Step, ms: seq<Member>, c: bool, f: Field, v: string)
    ensures Fold(s, ms + Opt(c, f, v)) == if c then Assign(Fold(s, ms), f, v) else Fold(s, ms)
  {
    hide Assign;
    FoldAppend(s, ms, Opt(c, f, v));
    assert c ==> Opt(c, f, v)[1..] == [];
  }

  /** Reading the members of some fields sets exactly those fields, to their normal values. */
  lemma {:induction false} FieldsRead(s: Step, fs: seq<Field>)
    requires s.Fits() && forall i, j | 0 <= i < j < |fs| :: fs[i] != fs[j]
    ensures forall g :: Agrees(Fold(BlankStep, Present(s, fs)), if g in fs then NormalFields(s) else BlankStep, g)
    decreases |fs|
  {
    hide Agrees, Assign, Prints, Text, NormalFields, Opt;
    if fs != [] {
      var n := |fs| - 1;
      var f, t := fs[n], Fold(BlankStep, Present(s, fs[..n]));
      FieldsRead(s, fs[..n]);
      FoldOpt(BlankStep, Present(s, fs[..n]), Prints(s, f), f, Text(s, f));
      assert f !in fs[..n];
      assert Agrees(t, BlankStep, f);
      forall g
        ensures Agrees(Fold(BlankStep, Present(s, fs)), if g in fs then NormalFields(s) else BlankStep, g)
      {
        assert g in fs <==> g in fs[..n] || g == f;
        assert Agrees(t, if g in fs[..n] then NormalFields(s) else BlankStep, g);
        if Prints(s, f) {
          if g == f {
            AssignReads(t, s, f);
          } else {
            AssignKeepsOthers(t, f, Text(s, f), g);
            AgreesOn(Assign(t, f, Text(s, f)), t, if g in fs[..n] then NormalFields(s) else BlankStep, g);
          }
        } else if g == f {
          DefaultReads(s, f);
          AgreesOn(t, BlankStep, NormalFields(s), f);
        }
      }
    } else {
      BlankAgrees();
    }
  }

  lemma BlankAgrees()
    ensures Fold(BlankStep, []) == BlankStep && forall g :: Agrees(BlankStep, BlankStep, g)
  {
  }

  lemma AgreesOn(a: Step, b: Step, c: Step, f: Field)
    requires Agrees(a, b, f) && Agrees(b, c, f)
    ensures Agrees(a, c, f)
  {
  }

  /** Only the fields of steps can differ between steps. */
  lemma OthersAgree(a: Step, b: Step, f: Field)
    requires f !in STEP_FIELDS
    ensures Agrees(a, b, f)
  {
  }

  /** Reading the members printed for a step gives its normal form. */
  lemma StepReads(s: Step)
    requires s.Fits()
    ensures Fold(BlankStep, StepMembers(s)) == NormalFields(s)
  {
    hide Agrees, Fold, Present, NormalFields;
    var r := Fold(BlankStep, StepMembers(s));
    FieldsRead(s, STEP_FIELDS);
    forall f
      ensures Agrees(r, NormalFields(s), f)
    {
      if f !in STEP_FIELDS {
        OthersAgree(r, NormalFields(s), f);
      }
    }
    AgreementIsEquality(r, NormalFields(s));
  }
}
