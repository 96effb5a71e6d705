/** The texts of a stored program: keys, action names and numbers, and what the compiled reader hands the executor. */
module ProgramTexts {
  import opened Bytes
  import opened Numbers
  import opened ProgramTypes
  import opened ProgramDocument
  import opened ProgramReaders
  import opened ProgramHeaders
  import Model = ProgramModel
  import Laws = ProgramLaws

  // ---- Names ---------------------------------------------------------------

  /** Which text compiles to which action: each name to its own, and every other text to none. */
  lemma RelayNames(t: string)
    ensures CompileAction(t) == RELAY_ON <==> t == "RELAY_ON"
    ensures CompileAction(t) == RELAY_OFF <==> t == "RELAY_OFF"
    ensures CompileAction(t) == RELAY_TOGGLE <==> t == "RELAY_TOGGLE"
    ensures CompileAction(t) == RELAY_PULSE_ON_OFF_ON <==> t == "RELAY_PULSE_ON_OFF_ON"
    ensures CompileAction(t) == RELAY_PULSE_OFF_ON_OFF <==> t == "RELAY_PULSE_OFF_ON_OFF"
  {
  }

  lemma WaitingNames(t: string)
    ensures CompileAction(t) == WAIT <==> t == "WAIT"
    ensures CompileAction(t) == STARTER_TIMED <==> t == "STARTER_TIMED"
    ensures CompileAction(t) == STARTER_WAIT_INPUT <==> t == "STARTER_WAIT_INPUT"
  {
  }

  lemma InputNames(t: string)
    ensures CompileAction(t) == INPUT_ENABLE <==> t == "INPUT_ENABLE"
    ensures CompileAction(t) == INPUT_DISABLE <==> t == "INPUT_DISABLE"
  {
  }

  lemma TriggerNames(t: string)
    ensures CompileAction(t) == INPUT_TRIGGER_ENABLE <==> t == "INPUT_TRIGGER_ENABLE"
    ensures CompileAction(t) == INPUT_TRIGGER_DISABLE <==> t == "INPUT_TRIGGER_DISABLE"
  {
  }

  lemma TemperatureNames(t: string)
    ensures CompileAction(t) == TEMP_TRIGGER_ENABLE <==> t == "TEMP_TRIGGER_ENABLE"
    ensures CompileAction(t) == TEMP_TRIGGER_DISABLE <==> t == "TEMP_TRIGGER_DISABLE"
  {
  }

  lemma SaverNames(t: string)
    ensures CompileAction(t) == BATTERY_SAVER_ON <==> t == "BATTERY_SAVER_ON"
    ensures CompileAction(t) == BATTERY_SAVER_OFF <==> t == "BATTERY_SAVER_OFF"
  {
  }

  lemma ThermostatNames(t: string)
    ensures CompileAction(t) == THERMOSTAT_ON <==> t == "THERMOSTAT_ON"
    ensures CompileAction(t) == THERMOSTAT_OFF <==> t == "THERMOSTAT_OFF"
  {
  }

  /** The names, read the other way round. */
  function NameOf(a: ActionId): string {
    match a
    case UNKNOWN => ""
    case WAIT => "WAIT"
    case RELAY_PULSE_ON_OFF_ON => "RELAY_PULSE_ON_OFF_ON"
    case RELAY_PULSE_OFF_ON_OFF => "RELAY_PULSE_OFF_ON_OFF"
    case STARTER_TIMED => "STARTER_TIMED"
    case STARTER_WAIT_INPUT => "STARTER_WAIT_INPUT"
    case RELAY_ON => "RELAY_ON"
    case RELAY_OFF => "RELAY_OFF"
    case RELAY_TOGGLE => "RELAY_TOGGLE"
    case INPUT_ENABLE => "INPUT_ENABLE"
    case INPUT_DISABLE => "INPUT_DISABLE"
    case INPUT_TRIGGER_ENABLE => "INPUT_TRIGGER_ENABLE"
    case INPUT_TRIGGER_DISABLE => "INPUT_TRIGGER_DISABLE"
    case TEMP_TRIGGER_ENABLE => "TEMP_TRIGGER_ENABLE"
    case TEMP_TRIGGER_DISABLE => "TEMP_TRIGGER_DISABLE"
    case BATTERY_SAVER_ON => "BATTERY_SAVER_ON"
    case BATTERY_SAVER_OFF => "BATTERY_SAVER_OFF"
    case THERMOSTAT_ON => "THERMOSTAT_ON"
    case THERMOSTAT_OFF => "THERMOSTAT_OFF"
  }

  /** A text compiles to an action exactly when it is its name; a text that is no name compiles to UNKNOWN. */
  lemma NamesAreExact(t: string, a: ActionId)
    ensures a != UNKNOWN ==> (CompileAction(t) == a <==> t == NameOf(a))
    ensures CompileAction(t) == UNKNOWN <==> forall b: ActionId | b != UNKNOWN :: t != NameOf(b)
  {
    RelayNames(t);
    WaitingNames(t);
    InputNames(t);
    TriggerNames(t);
    TemperatureNames(t);
    SaverNames(t);
    ThermostatNames(t);
    hide CompileAction;
    if CompileAction(t) != UNKNOWN {
      assert t == NameOf(CompileAction(t));
    }
  }

  /** "below" is the only text of that comparison. */
  lemma ComparisonNames(t: string)
    ensures CompileComparison(t) == Below <==> t == "below"
    ensures CompileComparison(t) == Above <==> t != "below"
  {
  }

  // ---- Numbers -------------------------------------------------------------

  /** A number is printed digit by digit, highest first. */
  lemma DigitsPrinted(n: nat, d: nat)
    requires d < 10
    ensures Decimal(d) == ["0123456789"[d]]
    ensures n > 0 ==> Decimal(10 * n + d) == Decimal(n) + ["0123456789"[d]]
  {
    assert (10 * n + d) / 10 == n && (10 * n + d) % 10 == d;
  }

  /** Hundredths are printed with two decimals and a minus sign in front of the whole. */
  lemma HundredthsPrinted(w: nat, t: nat, u: nat)
    requires t < 10 && u < 10
    ensures FixedText(100 * w + 10 * t + u) == Decimal(w) + ['.', "0123456789"[t], "0123456789"[u]]
    ensures w + t + u > 0 ==>
              FixedText(-(100 * w + 10 * t + u)) == "-" + (Decimal(w) + ['.', "0123456789"[t], "0123456789"[u]])
  {
    DecimalsOf(w, t, u);
    DigitIs(t);
    DigitIs(u);
    hide Decimal, Digit;
    var text := Decimal(w) + ['.', Digit(t), Digit(u)];
    assert "" + text == text;
  }

  lemma DecimalsOf(w: nat, t: nat, u: nat)
    requires t < 10 && u < 10
    ensures var a := 100 * w + 10 * t + u; a / 100 == w && a / 10 % 10 == t && a % 10 == u
  {
    var a := 100 * w + 10 * t + u;
    assert a / 10 == 10 * w + t;
    assert (10 * w + t) % 10 == t;
  }

  lemma DigitIs(d: nat)
    requires d < 10
    ensures Digit(d) == "0123456789"[d]
  {
  }

  lemma {:induction false} RunEnds(s: string, tail: string)
    requires forall i | 0 <= i < |s| :: IsDigit(s[i])
    requires tail != [] && !IsDigit(tail[0])
    ensures DigitRun(s + tail) == |s|
  {
    if s == [] {
      assert s + tail == tail;
    } else {
      assert (s + tail)[1..] == s[1..] + tail;
      RunEnds(s[1..], tail);
    }
  }

  /** How the C library reads a printed number: it saturates at 2^32 - 1, and anything behind it that is no digit spoils
      it. */
  lemma NumbersRead(n: nat, tail: string)
    requires tail != [] && !IsDigit(tail[0])
    ensures StrToUL(Decimal(n)) == Some(if n < 0x1_0000_0000 then n else 0xFFFF_FFFF)
    ensures StrToUL(Decimal(n) + tail) == None
  {
    var v := Decimal(n);
    DecimalValue(n);
    AllDigits(v);
    RunEnds(v, tail);
    assert IsDigit(v[0]);
    hide Numbers.Value, DigitRun, Decimal;
    assert (v + tail)[0] == v[0];
    assert SkipWs(v) == v && SkipWs(v + tail) == v + tail;
  }

  /** A minus sign negates in 32 bits. */
  lemma NegativeNumbersRead(n: nat)
    ensures StrToUL("-" + Decimal(n))
         == Some(if n >= 0x1_0000_0000 then 0xFFFF_FFFF else if n == 0 then 0 else 0x1_0000_0000 - n)
  {
    var v := Decimal(n);
    DecimalValue(n);
    AllDigits(v);
    hide Numbers.Value, DigitRun, Decimal, SkipWs;
    SignStays('-', v);
    assert ['-'] + v == "-" + v;
  }

  /** A plus sign in front does not matter. */
  lemma PositiveNumbersRead(n: nat)
    ensures StrToUL("+" + Decimal(n)) == StrToUL(Decimal(n))
  {
    var v := Decimal(n);
    DecimalValue(n);
    AllDigits(v);
    assert SkipWs(v) == v by { assert IsDigit(v[0]); }
    hide Numbers.Value, DigitRun, Decimal, SkipWs;
    SignStays('+', v);
    assert ['+'] + v == "+" + v;
  }

  /** Blanks in front do not matter. */
  lemma PaddedNumbersRead(v: string, blank: char)
    requires IsSpace(blank)
    ensures StrToUL([blank] + v) == StrToUL(v)
  {
    hide Numbers.Value, DigitRun;
    assert ([blank] + v)[1..] == v;
    assert SkipWs([blank] + v) == SkipWs(v);
  }

  lemma SignStays(sign: char, v: string)
    requires sign in {'-', '+'}
    ensures SkipWs([sign] + v) == [sign] + v && ([sign] + v)[1..] == v
  {
  }

  /** Fields take what fits them: a larger number is cut to their maximum, and what is no number leaves the default. */
  lemma FieldsRead(n: nat, v: string, default: nat)
    requires n < 0x1_0000_0000 && default <= 255
    ensures ParseU8(Decimal(n), default) == if n <= 255 then n else 255
    ensures ParseU16(Decimal(n), default) == if n <= 65535 then n else 65535
    ensures ParseU32(Decimal(n), default) == n
    ensures v == "" || StrToUL(v).None? ==>
              ParseU8(v, default) == default && ParseU16(v, default) == default && ParseU32(v, default) == default
  {
    ReadsPrinted(n);
    hide Decimal, StrToUL;
  }

  // ---- The printed step ----------------------------------------------------

  /** The `k`-th field is printed under that key, on that condition, as that text. */
  ghost predicate Listed(s: Step, k: nat, key: string, printed: bool, text: string)
    requires k < |STEP_FIELDS|
  {
    KeyText(STEP_FIELDS[k]) == key && Prints(s, STEP_FIELDS[k]) == printed && Text(s, STEP_FIELDS[k]) == text
  }

  lemma EventsSnoc(s: Step, k: nat, key: string, printed: bool, text: string)
    requires k < |STEP_FIELDS| && Listed(s, k, key, printed, text)
    ensures MemberEvents(Present(s, STEP_FIELDS[..k + 1]))
         == MemberEvents(Present(s, STEP_FIELDS[..k])) + (if printed then [Key(key), Value(text)] else [])
  {
    hide KeyText, Prints, Text, Present;
    PresentSnoc(s, k);
    var before := Present(s, STEP_FIELDS[..k]);
    if printed {
      MembersSnoc(before, (STEP_FIELDS[k], text));
    } else {
      assert before + [] == before;
      NoMore(MemberEvents(before));
    }
  }

  lemma PresentSnoc(s: Step, k: nat)
    requires k < |STEP_FIELDS|
    ensures Present(s, STEP_FIELDS[..k + 1])
         == Present(s, STEP_FIELDS[..k]) + Opt(Prints(s, STEP_FIELDS[k]), STEP_FIELDS[k], Text(s, STEP_FIELDS[k]))
  {
    hide Prints, Text, Opt;
    var fs := STEP_FIELDS[..k + 1];
    assert fs[..k] == STEP_FIELDS[..k] && fs[k] == STEP_FIELDS[k];
  }

  lemma NoMore<T>(e: seq<T>)
    ensures e + [] == e
  {
  }

  lemma HeadListedA(s: Step)
    ensures Listed(s, 0, "step", true, Decimal(s.step))
    ensures Listed(s, 1, "action", true, s.action)
  {
    hide Decimal, FixedText;
  }

  lemma HeadListedB(s: Step)
    ensures Listed(s, 2, "relay_id", "RELAY_" <= s.action && s.relayId != 0, Decimal(s.relayId))
    ensures Listed(s, 3, "ms", s.ms != 0, Decimal(s.ms))
  {
    hide Decimal, FixedText;
  }

  lemma HeadListedC(s: Step)
    ensures Listed(s, 4, "timeout_ms", s.timeoutMs != 0, Decimal(s.timeoutMs))
    ensures Listed(s, 5, "input_id", s.inputId != 0, Decimal(s.inputId))
  {
    hide Decimal, FixedText;
  }

  /** The first members of a printed step: number and action always, the others unless they are zero, the relay only
      for relay actions. */
  lemma PrintedHead(s: Step)
    ensures MemberEvents(Present(s, STEP_FIELDS[..6]))
         == [Key("step"), Value(Decimal(s.step))] + [Key("action"), Value(s.action)]
            + (if "RELAY_" <= s.action && s.relayId != 0 then [Key("relay_id"), Value(Decimal(s.relayId))] else [])
            + (if s.ms != 0 then [Key("ms"), Value(Decimal(s.ms))] else [])
            + (if s.timeoutMs != 0 then [Key("timeout_ms"), Value(Decimal(s.timeoutMs))] else [])
            + (if s.inputId != 0 then [Key("input_id"), Value(Decimal(s.inputId))] else [])
  {
    hide Decimal, Present, MemberEvents;
    NothingPresent(s);
    HeadListedA(s);
    HeadListedB(s);
    HeadListedC(s);
    hide Listed;
    EventsSnoc(s, 0, "step", true, Decimal(s.step));
    assert [] + [Key("step"), Value(Decimal(s.step))] == [Key("step"), Value(Decimal(s.step))];
    EventsSnoc(s, 1, "action", true, s.action);
    EventsSnoc(s, 2, "relay_id", "RELAY_" <= s.action && s.relayId != 0, Decimal(s.relayId));
    EventsSnoc(s, 3, "ms", s.ms != 0, Decimal(s.ms));
    EventsSnoc(s, 4, "timeout_ms", s.timeoutMs != 0, Decimal(s.timeoutMs));
    EventsSnoc(s, 5, "input_id", s.inputId != 0, Decimal(s.inputId));
  }

  lemma NothingPresent(s: Step)
    ensures MemberEvents(Present(s, STEP_FIELDS[..0])) == []
  {
  }

  lemma MiddleListedA(s: Step)
    ensures Listed(s, 6, "sensor_id", s.sensorId != 0, Decimal(s.sensorId))
    ensures Listed(s, 7, "sensor_name", s.sensorName != "", s.sensorName)
  {
    hide Decimal, FixedText;
  }

  lemma MiddleListedB(s: Step)
    ensures Listed(s, 8, "input_trigger_id", s.inputTriggerId != 0, Decimal(s.inputTriggerId))
    ensures Listed(s, 9, "temp_trigger_id", s.tempTriggerId != 0, Decimal(s.tempTriggerId))
  {
    hide Decimal, FixedText;
  }

  lemma MiddleListedC(s: Step)
    ensures Listed(s, 10, "program_id", s.programId != 0, Decimal(s.programId))
    ensures Listed(s, 11, "retries", s.retries != 1, Decimal(s.retries))
  {
    hide Decimal, FixedText;
  }

  /** The members in the middle: what the step refers to, and the retries unless they are 1. */
  lemma PrintedMiddle(s: Step)
    ensures MemberEvents(Present(s, STEP_FIELDS[..12]))
         == MemberEvents(Present(s, STEP_FIELDS[..6]))
            + (if s.sensorId != 0 then [Key("sensor_id"), Value(Decimal(s.sensorId))] else [])
            + (if s.sensorName != "" then [Key("sensor_name"), Value(s.sensorName)] else [])
            + (if s.inputTriggerId != 0 then [Key("input_trigger_id"), Value(Decimal(s.inputTriggerId))] else [])
            + (if s.tempTriggerId != 0 then [Key("temp_trigger_id"), Value(Decimal(s.tempTriggerId))] else [])
            + (if s.programId != 0 then [Key("program_id"), Value(Decimal(s.programId))] else [])
            + (if s.retries != 1 then [Key("retries"), Value(Decimal(s.retries))] else [])
  {
    hide Decimal, Present, MemberEvents;
    MiddleListedA(s);
    MiddleListedB(s);
    MiddleListedC(s);
    hide Listed;
    EventsSnoc(s, 6, "sensor_id", s.sensorId != 0, Decimal(s.sensorId));
    EventsSnoc(s, 7, "sensor_name", s.sensorName != "", s.sensorName);
    EventsSnoc(s, 8, "input_trigger_id", s.inputTriggerId != 0, Decimal(s.inputTriggerId));
    EventsSnoc(s, 9, "temp_trigger_id", s.tempTriggerId != 0, Decimal(s.tempTriggerId));
    EventsSnoc(s, 10, "program_id", s.programId != 0, Decimal(s.programId));
    EventsSnoc(s, 11, "retries", s.retries != 1, Decimal(s.retries));
  }

  lemma TailListedA(s: Step)
    ensures Listed(s, 12, "expected_state", s.expectedState == 0, Decimal(s.expectedState))
    ensures Listed(s, 13, "comparison", s.comparison != "" && s.comparison != "above", s.comparison)
  {
    hide Decimal, FixedText;
  }

  lemma TailListedB(s: Step)
    ensures Listed(s, 14, "threshold", s.threshold != 0, FixedText(s.threshold))
    ensures Listed(s, 15, "engine_state", s.engineState == 0, Decimal(s.engineState))
  {
    hide Decimal, FixedText;
  }

  lemma TailListedC(s: Step)
    ensures Listed(s, 16, "timeout_action", s.timeoutAction != 0, Decimal(s.timeoutAction))
    ensures Listed(s, 17, "skip_count", s.skipCount != 0, Decimal(s.skipCount))
  {
    hide Decimal, FixedText;
  }

  /** The last members: the conditions, each unless it is the default. */
  lemma PrintedTail(s: Step)
    ensures MemberEvents(StepMembers(s))
         == MemberEvents(Present(s, STEP_FIELDS[..12]))
            + (if s.expectedState == 0 then [Key("expected_state"), Value(Decimal(s.expectedState))] else [])
            + (if s.comparison != "" && s.comparison != "above" then [Key("comparison"), Value(s.comparison)] else [])
            + (if s.threshold != 0 then [Key("threshold"), Value(FixedText(s.threshold))] else [])
            + (if s.engineState == 0 then [Key("engine_state"), Value(Decimal(s.engineState))] else [])
            + (if s.timeoutAction != 0 then [Key("timeout_action"), Value(Decimal(s.timeoutAction))] else [])
            + (if s.skipCount != 0 then [Key("skip_count"), Value(Decimal(s.skipCount))] else [])
  {
    hide Decimal, FixedText, Present, MemberEvents;
    TailListedA(s);
    TailListedB(s);
    TailListedC(s);
    hide Listed;
    EventsSnoc(s, 12, "expected_state", s.expectedState == 0, Decimal(s.expectedState));
    EventsSnoc(s, 13, "comparison", s.comparison != "" && s.comparison != "above", s.comparison);
    EventsSnoc(s, 14, "threshold", s.threshold != 0, FixedText(s.threshold));
    EventsSnoc(s, 15, "engine_state", s.engineState == 0, Decimal(s.engineState));
    EventsSnoc(s, 16, "timeout_action", s.timeoutAction != 0, Decimal(s.timeoutAction));
    EventsSnoc(s, 17, "skip_count", s.skipCount != 0, Decimal(s.skipCount));
    assert STEP_FIELDS[..18] == STEP_FIELDS;
  }

  /** The members that open the document. */
  lemma PrintedHeader(p: Program)
    ensures HeaderEvents(p)
         == [StartObject] + ([Key("id"), Value(Decimal(p.id))] + [Key("name"), Value(p.name)]) + [Key("steps"), StartArray]
  {
    hide Decimal;
    HeaderIs(p);
  }

  // ---- From the document to the relays -------------------------------------

  /** The compiled reader keeps every number of a printed step, and its action and comparison by name; only the relay
      of a step that is no relay action is dropped, and the two states become 0 or 1. */
  lemma CompiledReadsPrinted(p: Program, i: nat)
    requires p.Fits() && p.id != 0 && p.steps != [] && AllUsable(p.steps) && i < |p.steps|
    ensures ReadCompiled(Printed(p), p.id).Some? && |ReadCompiled(Printed(p), p.id).value.1| == |p.steps|
    ensures var s, c := p.steps[i], ReadCompiled(Printed(p), p.id).value.1[i];
            && c.action == CompileAction(s.action) && c.comparison == CompileComparison(s.comparison)
            && c.relayId == (if "RELAY_" <= s.action then s.relayId else 0)
            && c.ms == s.ms && c.timeoutMs == s.timeoutMs && c.inputId == s.inputId && c.sensorId == s.sensorId
            && c.inputTriggerId == s.inputTriggerId && c.tempTriggerId == s.tempTriggerId && c.programId == s.programId
            && c.retries == s.retries && c.threshold == s.threshold
            && c.timeoutAction == s.timeoutAction && c.skipCount == s.skipCount
            && c.expectedState == (if s.expectedState == 0 then 0 else 1)
            && c.engineState == (if s.engineState == 0 then 0 else 1)
  {
    hide ReadCompiled, Printed, AllUsable, CompileAction;
    ThreeReadersAgree(p);
    NormalAt(p.steps, 0, i);
    SameLength(p.steps, 0);
    assert Usable(p.steps[i].action) by { OneUsable(p.steps, i); }
  }

  lemma OneUsable(steps: seq<Step>, i: nat)
    requires AllUsable(steps) && i < |steps|
    ensures Usable(steps[i].action)
  {
  }

  /** From the stored text to the relay: a printed program of one relay step, read by the compiled reader and started,
      leaves the named relay as its action says and every other relay as it was. */
  lemma PrintedRelayProgram(p: Program, st: Model.Exec, v: Model.Vehicle, env: Model.Env)
    requires p.Fits() && p.id != 0 && |p.steps| == 1 && 2001 <= p.steps[0].relayId <= 2005
    requires p.steps[0].action in {"RELAY_ON", "RELAY_OFF", "RELAY_TOGGLE"}
    requires st.Shaped() && !st.running
    ensures ReadCompiled(Printed(p), p.id).Some?
    ensures var s, i := p.steps[0], p.steps[0].relayId - 2001;
            var r := Model.Start(st, p.id, Model.Loaded(ReadCompiled(Printed(p), p.id).value.1), v, env);
            && !r.running && r.effects == st.effects
            && (s.action == "RELAY_ON" ==> r.relays == st.relays[i := true])
            && (s.action == "RELAY_OFF" ==> r.relays == st.relays[i := false])
            && (s.action == "RELAY_TOGGLE" ==> r.relays == st.relays[i := !st.relays[i]])
  {
    hide ReadCompiled, Printed, CompileAction, Model.Start;
    var s := p.steps[0];
    OnlyStep(p);
    CompiledReadsPrinted(p, 0);
    RelayNames(s.action);
    var c := ReadCompiled(Printed(p), p.id).value.1;
    assert c == [c[0]];
    Laws.RelayAlone(st, p.id, c[0], v, env);
  }

  lemma OnlyStep(p: Program)
    requires |p.steps| == 1 && p.steps[0].action in {"RELAY_ON", "RELAY_OFF", "RELAY_TOGGLE"}
    ensures AllUsable(p.steps) && "RELAY_" <= p.steps[0].action
  {
  }

  // ---- Documents no printer makes ------------------------------------------

  lemma {:induction false} BlindFull(f: Full, events: seq<Event>)
    requires f.sax.Idle()
    ensures FullRun(f, events) == f
    decreases |events|
  {
    if events != [] {
      BlindFull(f, events[1..]);
    }
  }

  lemma {:induction false} BlindCompiled(c: Compiled, events: seq<Event>)
    requires c.sax.Idle()
    ensures CompiledRun(c, events) == c
    decreases |events|
  {
    if events != [] {
      BlindCompiled(c, events[1..]);
    }
  }

  /** A nested value where none is known, in the program or in a step, makes both readers blind to the rest of the
      document: what they have by then is what they give, and a step it stands in is dropped with all later ones. */
  lemma NestedValueBlinds(f: Full, c: Compiled, e: Event, rest: seq<Event>)
    requires !f.sax.Idle() && c.sax == f.sax
    requires || (f.sax.At(Root) && (e == StartObject || (e == StartArray && f.sax.pending != "steps")))
             || (f.sax.At(StepObj) && e in {StartObject, StartArray})
    ensures var g, d := FullRun(f, [e] + rest), CompiledRun(c, [e] + rest);
            && g.prog == f.prog && !g.sax.failed && g.sax.junk
            && d.steps == c.steps && d.name == c.name && !d.sax.failed && d.sax.junk
  {
    assert ([e] + rest)[1..] == rest;
    BlindFull(FullStep(f, e), rest);
    BlindCompiled(CompiledEvent(c, e), rest);
    hide FullRun, CompiledRun;
    assert FullRun(f, [e] + rest) == FullRun(FullStep(f, e), rest) by { FullRunFirst(f, e, rest); }
    assert CompiledRun(c, [e] + rest) == CompiledRun(CompiledEvent(c, e), rest) by { CompiledRunFirst(c, e, rest); }
  }

  lemma FullRunFirst(f: Full, e: Event, rest: seq<Event>)
    ensures FullRun(f, [e] + rest) == FullRun(FullStep(f, e), rest)
  {
    hide FullStep;
    assert ([e] + rest)[1..] == rest;
  }

  lemma CompiledRunFirst(c: Compiled, e: Event, rest: seq<Event>)
    ensures CompiledRun(c, [e] + rest) == CompiledRun(CompiledEvent(c, e), rest)
  {
    hide CompiledEvent;
    assert ([e] + rest)[1..] == rest;
  }

  /** Fifteen steps can begin. */
  lemma StepBeginsExactly(f: Full, c: Compiled)
    requires InSteps(f) && c.sax == f.sax && |c.steps| == |f.prog.steps|
    ensures FullStep(f, StartObject).sax.failed <==> |f.prog.steps| >= 15
    ensures CompiledEvent(c, StartObject).sax.failed <==> |c.steps| >= 15
  {
  }

  /** Texts are cut to their buffers: 23 characters of an action, 15 of a sensor name, 7 of a comparison, 31 of a program
      name, and 23 of a key. */
  lemma TextsAreCut(s: Step, p: Program, v: string)
    requires v != "null"
    ensures Assign(s, Action, v) == s.(action := if |v| <= 23 then v else v[..23])
    ensures Assign(s, SensorName, v) == s.(sensorName := if |v| <= 15 then v else v[..15])
    ensures Assign(s, Comparison, v) == s.(comparison := if |v| <= 7 then v else v[..7])
    ensures AssignRoot(p, "name", v) == p.(name := if |v| <= 31 then v else v[..31])
    ensures Copied(v, PENDING) == if |v| <= 23 then v else v[..23]
  {
    assert |v| <= 31 ==> v[..|v|] == v;
  }

  /** A sixteenth step refuses the program, whatever it holds. */
  lemma SixteenthStepFails(f: Full, c: Compiled, rest: seq<Event>)
    requires InSteps(f) && |f.prog.steps| == 15 && c.sax == f.sax && |c.steps| == 15
    ensures FullRun(f, [StartObject] + rest).sax.failed && CompiledRun(c, [StartObject] + rest).sax.failed
  {
    FullRunFirst(f, StartObject, rest);
    CompiledRunFirst(c, StartObject, rest);
    FullStuck(FullStep(f, StartObject), rest);
    CompiledStuck(CompiledEvent(c, StartObject), rest);
    hide FullRun, CompiledRun;
  }
}
