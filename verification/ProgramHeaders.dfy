/** The header reader, which skips the steps, and what the three readers make of one printed program. */
module ProgramHeaders {
  import opened Bytes
  import opened Numbers
  import opened ProgramTypes
  import opened ProgramDocument
  import opened ProgramReaders

  const MAX_NESTING := 254

  /** `skip` is the 8-bit nesting level inside the steps array. */
  datatype Header = Header(sax: Sax, skip: nat, id: nat, name: string)

  const HeaderStart := Header(Blank, 0, 0, "")

  function HeaderOpen(h: Header, e: Event): Header
    requires e.StartObject? || e.StartArray?
  {
    if h.sax.At(StepsSkip) then h.(skip := (h.skip + 1) % 256)
    else if e.StartObject? && h.sax.stk == [] then h.(sax := h.sax.Push(Root))
    else if e.StartArray? && h.sax.At(Root) && h.sax.pending == "steps" then h.(sax := h.sax.Push(StepsSkip), skip := 1)
    else h.(sax := h.sax.(junk := true))
  }

  function HeaderClose(h: Header, e: Event): Header
    requires e.EndObject? || e.EndArray?
  {
    var less := if h.skip == 0 then 0 else h.skip - 1;
    if h.sax.At(StepsSkip) && (e.EndArray? || h.skip != 0) then
      if e.EndArray? && less == 0 then h.(skip := 0, sax := h.sax.Pop()) else h.(skip := less)
    else if e.EndObject? && h.sax.At(Root) then h.(sax := h.sax.Pop())
    else h.(sax := h.sax.(failed := true))
  }

  function HeaderValue(h: Header, v: string, path: nat): Header {
    if !h.sax.At(Root) || v == "null" then h
    else
      match FieldOf(h.sax.pending)
      case Some(Id) =>
        var g := h.(id := ParseU8(v, 0));
        if g.id == path then g else g.(sax := g.sax.(failed := true))
      case Some(Name) => h.(name := Copied(v, PROGRAM_NAME))
      case _ => h
  }

  function HeaderStep(h: Header, e: Event, path: nat): Header {
    if h.sax.Idle() then h
    else
      match e
      case Key(k) => if h.sax.At(StepsSkip) then h else h.(sax := h.sax.(pending := Copied(k, PENDING)))
      case Value(v) => HeaderValue(h, v, path)
      case StartObject => HeaderOpen(h, e)
      case StartArray => HeaderOpen(h, e)
      case EndObject => HeaderClose(h, e)
      case EndArray => HeaderClose(h, e)
  }

  function HeaderRun(h: Header, events: seq<Event>, path: nat): Header
    decreases |events|
  {
    if events == [] then h else HeaderRun(HeaderStep(h, events[0], path), events[1..], path)
  }

  /** The id and name read for the file named after `path`. */
  function ReadHeader(d: Document, path: nat): Option<(nat, string)> {
    var h := HeaderRun(HeaderStart, d.events, path);
    if d.complete && !h.sax.failed then Some((h.id, h.name)) else None
  }

  lemma {:induction false} HeaderRunAppend(h: Header, a: seq<Event>, b: seq<Event>, path: nat)
    ensures HeaderRun(h, a + b, path) == HeaderRun(HeaderRun(h, a, path), b, path)
    decreases |a|
  {
    hide HeaderStep;
    if a == [] {
      assert a + b == b;
    } else {
      assert (a + b)[1..] == a[1..] + b;
      HeaderRunAppend(HeaderStep(h, a[0], path), a[1..], b, path);
    }
  }

  lemma {:induction false} HeaderStuck(h: Header, events: seq<Event>, path: nat)
    requires h.sax.failed
    ensures HeaderRun(h, events, path) == h
    decreases |events|
  {
    if events != [] {
      HeaderStuck(h, events[1..], path);
    }
  }

  // ---- Skipping ------------------------------------------------------------

  /** From nesting `depth` the events return to nesting zero, never below it and never past the limit. */
  predicate Nested(events: seq<Event>, depth: nat)
    decreases |events|
  {
    if events == [] then depth == 0
    else
      match events[0]
      case Key(_) => Nested(events[1..], depth)
      case Value(_) => Nested(events[1..], depth)
      case StartObject => depth < MAX_NESTING && Nested(events[1..], depth + 1)
      case StartArray => depth < MAX_NESTING && Nested(events[1..], depth + 1)
      case EndObject => depth > 0 && Nested(events[1..], depth - 1)
      case EndArray => depth > 0 && Nested(events[1..], depth - 1)
  }

  /** Whatever is nested inside the steps array leaves the header reader where it was. */
  lemma {:induction false} StepsAreSkipped(h: Header, body: seq<Event>, depth: nat, path: nat)
    requires !h.sax.Idle() && h.sax.At(StepsSkip) && h.skip == 1 + depth && Nested(body, depth)
    ensures HeaderRun(h, body, path) == h.(skip := 1)
    decreases |body|
  {
    if body != [] {
      var g := HeaderStep(h, body[0], path);
      var next := match body[0]
        case Key(_) => depth
        case Value(_) => depth
        case StartObject => depth + 1
        case StartArray => depth + 1
        case EndObject => depth - 1
        case EndArray => depth - 1;
      StepsAreSkipped(g, body[1..], next, path);
    }
  }

  lemma HeaderMember(h: Header, f: Field, v: string, path: nat)
    requires h.sax == Sax(false, [Root], false, h.sax.pending)
    ensures HeaderRun(h, [Key(KeyText(f)), Value(v)], path)
            == HeaderValue(h.(sax := h.sax.(pending := KeyText(f))), v, path)
  {
    hide HeaderValue, FieldOf, KeyText;
    KeysAreRecognised(f);
    var k, w := Key(KeyText(f)), Value(v);
    assert [k, w][1..] == [w] && [w][1..] == [];
    assert Copied(KeyText(f), PENDING) == KeyText(f);
    var g := HeaderStep(h, k, path);
    assert HeaderRun(HeaderStep(g, w, path), [], path) == HeaderStep(g, w, path);
    assert HeaderRun(g, [w], path) == HeaderStep(g, w, path);
  }

  lemma OpensSteps(h: Header, path: nat)
    requires h.sax == Sax(false, [Root], false, h.sax.pending)
    ensures HeaderRun(h, [Key(KeyText(Steps)), StartArray], path)
            == Header(Sax(false, [Root, StepsSkip], false, KeyText(Steps)), 1, h.id, h.name)
  {
    var k, w := Key("steps"), StartArray;
    assert [k, w][1..] == [w] && [w][1..] == [];
    assert Copied("steps", PENDING) == "steps";
  }

  lemma ClosesSteps(h: Header, path: nat)
    requires h.sax == Sax(false, [Root, StepsSkip], false, h.sax.pending) && h.skip == 1
    ensures HeaderRun(h, [EndArray, EndObject], path) == h.(sax := h.sax.(stk := []), skip := 0)
  {
    assert [EndArray, EndObject][1..] == [EndObject] && [EndObject][1..] == [];
    assert [Root, StepsSkip][..1] == [Root] && [Root][..0] == [];
  }

  /** After the opening members the header is known, unless the id belongs to another file. */
  lemma HeaderKnown(p: Program, path: nat)
    requires p.Fits()
    ensures var h := HeaderRun(HeaderStart, HeaderEvents(p), path);
            if p.id == path then
              h == Header(Sax(false, [Root, StepsSkip], false, KeyText(Steps)), 1, p.id, ReadBack(p.name))
            else h.sax.failed
  {
    hide KeyText, Decimal, FieldOf, ParseU8, HeaderStep;
    var h1 := HeaderStep(HeaderStart, StartObject, path);
    assert h1 == Header(Sax(false, [Root], false, ""), 0, 0, "") by { HeaderBrace(path); }
    var a, b, c := [Key(KeyText(Id)), Value(Decimal(p.id))], [Key(KeyText(Name)), Value(p.name)],
                   [Key(KeyText(Steps)), StartArray];
    HeaderPieces(p, h1, a, b, c, path);
    HeaderMember(h1, Id, Decimal(p.id), path);
    KeysAreRecognised(Id);
    KeysAreRecognised(Name);
    NumberReads(p.id);
    var h2 := HeaderRun(h1, a, path);
    if p.id == path {
      assert h2 == Header(Sax(false, [Root], false, KeyText(Id)), 0, p.id, "");
      HeaderMember(h2, Name, p.name, path);
      var h3 := HeaderRun(h2, b, path);
      assert h3 == Header(Sax(false, [Root], false, KeyText(Name)), 0, p.id, ReadBack(p.name));
      OpensSteps(h3, path);
    } else {
      HeaderStuck(h2, b, path);
      HeaderStuck(h2, c, path);
    }
  }

  lemma HeaderBrace(path: nat)
    ensures HeaderStep(HeaderStart, StartObject, path) == Header(Sax(false, [Root], false, ""), 0, 0, "")
  {
  }

  lemma HeaderPieces(p: Program, h1: Header, a: seq<Event>, b: seq<Event>, c: seq<Event>, path: nat)
    requires h1 == HeaderStep(HeaderStart, StartObject, path)
    requires a == [Key(KeyText(Id)), Value(Decimal(p.id))] && b == [Key(KeyText(Name)), Value(p.name)]
    requires c == [Key(KeyText(Steps)), StartArray]
    ensures HeaderRun(HeaderStart, HeaderEvents(p), path) == HeaderRun(HeaderRun(HeaderRun(h1, a, path), b, path), c, path)
  {
    hide HeaderStep, KeyText, Decimal;
    var ms := [(Id, Decimal(p.id)), (Name, p.name)];
    assert ms[1..] == [ms[1]] && [ms[1]][1..] == [];
    assert MemberEvents([ms[1]]) == b + [];
    assert MemberEvents(ms) == a + b;
    HeaderRunAppend(HeaderStart, [StartObject] + (a + b), c, path);
    HeaderRunAppend(HeaderStart, [StartObject], a + b, path);
    assert [StartObject][1..] == [];
    assert HeaderRun(h1, [], path) == h1;
    HeaderRunAppend(h1, a, b, path);
  }

  /** The header reader returns a printed program's id and name whatever the steps array holds, nested up to 254 deep,
      and exactly when the id is that of the file. */
  lemma HeaderIgnoresSteps(p: Program, body: seq<Event>, path: nat)
    requires p.Fits() && Nested(body, 0)
    ensures ReadHeader(Document(HeaderEvents(p) + body + [EndArray, EndObject], true), path)
            == if p.id == path then Some((p.id, ReadBack(p.name))) else None
  {
    hide HeaderEvents, HeaderRun, HeaderStep, Nested, KeyText;
    var closing := [EndArray, EndObject];
    HeaderRunAppend(HeaderStart, HeaderEvents(p) + body, closing, path);
    HeaderRunAppend(HeaderStart, HeaderEvents(p), body, path);
    HeaderKnown(p, path);
    var h := HeaderRun(HeaderStart, HeaderEvents(p), path);
    if p.id == path {
      StepsAreSkipped(h, body, 0, path);
      ClosesSteps(h, path);
    } else {
      HeaderStuck(h, body, path);
      HeaderStuck(h, closing, path);
    }
  }

  // ---- Printed steps -------------------------------------------------------

  lemma {:induction false} MembersAreFlat(ms: seq<Member>, rest: seq<Event>, depth: nat)
    ensures Nested(MemberEvents(ms) + rest, depth) == Nested(rest, depth)
    decreases |ms|
  {
    hide KeyText;
    if ms == [] {
      assert MemberEvents(ms) + rest == rest;
    } else {
      var tail := MemberEvents(ms[1..]) + rest;
      var v := [Value(ms[0].1)] + tail;
      MembersAreFlat(ms[1..], rest, depth);
      assert MemberEvents(ms) + rest == [Key(KeyText(ms[0].0))] + v;
      assert ([Key(KeyText(ms[0].0))] + v)[1..] == v && v[1..] == tail;
    }
  }

  lemma {:induction false} PrintedStepsNest(steps: seq<Step>)
    ensures Nested(StepsEvents(steps), 0)
    decreases |steps|
  {
    hide StepEvents, Nested;
    if steps == [] {
      NothingNests();
    } else {
      PrintedStepsNest(steps[1..]);
      StepNests(steps[0], StepsEvents(steps[1..]));
    }
  }

  lemma NothingNests()
    ensures Nested([], 0)
  {
  }

  lemma StepNests(s: Step, rest: seq<Event>)
    ensures Nested(StepEvents(s) + rest, 0) == Nested(rest, 0)
  {
    hide Present, MemberEvents;
    var ms := MemberEvents(StepMembers(s));
    var closed := [EndObject] + rest;
    assert closed[1..] == rest && closed[0] == EndObject;
    assert Nested(closed, 1) == Nested(rest, 0);
    MembersAreFlat(StepMembers(s), closed, 1);
    var all := [StartObject] + (ms + closed);
    assert all[0] == StartObject && all[1..] == ms + closed;
    assert Nested(all, 0) == Nested(ms + closed, 1);
    hide Nested;
    assert StepEvents(s) + rest == all;
  }

  // ---- All three -----------------------------------------------------------

  /** On every printed program with an id, steps and usable actions, the full reader returns the normal form, the
      compiled reader the compilation of that same normal form, and the header reader its id and name. */
  lemma ThreeReadersAgree(p: Program)
    requires p.Fits() && p.id != 0 && p.steps != [] && AllUsable(p.steps)
    ensures var doc, n := Printed(p), Normal(p);
            && ReadFull(doc) == Some(n)
            && ReadCompiled(doc, p.id) == Some((n.name, CompileAll(n.steps)))
            && ReadHeader(doc, p.id) == Some((n.id, n.name))
  {
    hide ReadFull, ReadCompiled, ReadHeader, AllUsable, HeaderEvents, StepsEvents, CompileAll;
    FullReadsPrinted(p);
    ReadersAgree(Printed(p), p.id);
    OneId(p);
    PrintedStepsNest(p.steps);
    HeaderIgnoresSteps(p, StepsEvents(p.steps), p.id);
  }

  lemma {:induction false} IdsAppend(f: Full, a: seq<Event>, b: seq<Event>)
    ensures RootIds(f, a + b) == RootIds(f, a) + RootIds(FullRun(f, a), b)
    decreases |a|
  {
    hide FullStep, IdIn;
    if a == [] {
      assert a + b == b;
    } else {
      assert (a + b)[1..] == a[1..] + b;
      IdsAppend(FullStep(f, a[0]), a[1..], b);
      Associate(IdIn(f, a[0]), RootIds(FullStep(f, a[0]), a[1..]), RootIds(FullRun(f, a), b));
    }
  }

  /** Inside a step no value is a root id. */
  lemma {:induction false} MembersHaveNoId(f: Full, ms: seq<Member>)
    requires InStep(f)
    ensures RootIds(f, MemberEvents(ms)) == []
    decreases |ms|
  {
    if ms != [] {
      hide KeyText, FieldOf, Assign;
      var k, w := Key(KeyText(ms[0].0)), Value(ms[0].1);
      IdsAppend(f, [k, w], MemberEvents(ms[1..]));
      MemberAssigns(f, ms[0]);
      MembersHaveNoId(FullRun(f, [k, w]), ms[1..]);
      assert [k, w][1..] == [w] && [w][1..] == [];
      assert InStep(FullStep(f, k));
      assert RootIds(FullStep(f, k), [w]) == [];
    }
  }

  lemma StepHasNoId(f: Full, s: Step)
    requires InSteps(f) && |f.prog.steps| < MAX_STEPS
    ensures RootIds(f, StepEvents(s)) == []
  {
    hide MemberEvents, Present, Fold;
    var ms := StepMembers(s);
    var g := FullStep(f, StartObject);
    assert InStep(g);
    assert [StartObject][1..] == [];
    assert RootIds(f, [StartObject]) == [];
    FullRunOne(f, StartObject);
    IdsAppend(f, [StartObject] + MemberEvents(ms), [EndObject]);
    IdsAppend(f, [StartObject], MemberEvents(ms));
    FullRunAppend(f, [StartObject], MemberEvents(ms));
    MembersHaveNoId(g, ms);
    MembersAssign(g, ms);
    var h := FullRun(g, MemberEvents(ms));
    assert InStep(h);
    assert [EndObject][1..] == [];
    assert RootIds(h, [EndObject]) == [];
  }

  lemma {:induction false} StepsHaveNoId(f: Full, steps: seq<Step>)
    requires InSteps(f) && |f.prog.steps| + |steps| <= MAX_STEPS && AllUsable(steps)
    requires forall i | 0 <= i < |steps| :: steps[i].Fits()
    ensures RootIds(f, StepsEvents(steps)) == []
    decreases |steps|
  {
    if steps != [] {
      hide StepEvents, FullStep, InSteps, Usable, AllUsable, NormalStep, FullRun;
      UsableSplit(steps);
      StepHasNoId(f, steps[0]);
      StepAppends(f, steps[0]);
      IdsAppend(f, StepEvents(steps[0]), StepsEvents(steps[1..]));
      StepsHaveNoId(FullRun(f, StepEvents(steps[0])), steps[1..]);
    }
  }

  /** A printed program has a single root id, its own. */
  lemma OneId(p: Program)
    requires p.Fits() && AllUsable(p.steps)
    ensures RootIds(FullStart, ProgramEvents(p)) == [p.id]
  {
    hide HeaderEvents, StepsEvents, AllUsable, RootIds, FullRun, InSteps;
    var closing := [EndArray, EndObject];
    IdsAppend(FullStart, HeaderEvents(p) + StepsEvents(p.steps), closing);
    IdsAppend(FullStart, HeaderEvents(p), StepsEvents(p.steps));
    FullRunAppend(FullStart, HeaderEvents(p), StepsEvents(p.steps));
    HeaderReads(p);
    StepsHaveNoId(FullRun(FullStart, HeaderEvents(p)), p.steps);
    HeaderHasOneId(p);
    ClosingHasNoId(FullRun(FullStart, HeaderEvents(p) + StepsEvents(p.steps)));
  }

  lemma ClosingHasNoId(f: Full)
    ensures RootIds(f, [EndArray, EndObject]) == []
  {
    assert [EndArray, EndObject][1..] == [EndObject] && [EndObject][1..] == [];
  }

  lemma RootIdsTwo(f: Full, m: Field, v: string)
    requires f.sax == Sax(false, [Root], false, f.sax.pending) && v != "null"
    ensures RootIds(f, [Key(KeyText(m)), Value(v)]) == if m == Id then [ParseU8(v, 0)] else []
  {
    hide KeyText, FieldOf, ParseU8, Assign;
    KeysAreRecognised(m);
    var k, w := Key(KeyText(m)), Value(v);
    assert [k, w][1..] == [w] && [w][1..] == [];
    assert Copied(KeyText(m), PENDING) == KeyText(m);
    var g := FullStep(f, k);
    assert g.sax == Sax(false, [Root], false, KeyText(m));
    assert RootIds(FullStep(g, w), []) == [];
  }

  lemma HeaderHasOneId(p: Program)
    requires p.Fits()
    ensures RootIds(FullStart, HeaderEvents(p)) == [p.id]
  {
    hide KeyText, Decimal, FieldOf, ParseU8, FullStep, RootIds, FullRun, AssignRoot;
    var f1 := FullStep(FullStart, StartObject);
    FirstBrace();
    var a, b, c := [Key(KeyText(Id)), Value(Decimal(p.id))], [Key(KeyText(Name)), Value(p.name)],
                   [Key(KeyText(Steps)), StartArray];
    assert HeaderEvents(p) == [StartObject] + (a + b) + c by { HeaderIs(p); }
    IdsAppend(FullStart, [StartObject] + (a + b), c);
    IdsAppend(FullStart, [StartObject], a + b);
    FullRunOne(FullStart, StartObject);
    NoIdHere(FullStart, StartObject);
    IdsAppend(f1, a, b);
    NumberReads(p.id);
    RootIdsTwo(f1, Id, Decimal(p.id));
    RootAssigns(f1, Id, Decimal(p.id));
    NameIsNoId(FullRun(f1, a), p.name);
    OpeningIsNoId(FullRun(FullStart, [StartObject] + (a + b)));
    assert RootIds(f1, a) == [p.id];
    assert [] + ([p.id] + []) + [] == [p.id];
  }

  lemma HeaderIs(p: Program)
    ensures HeaderEvents(p) == [StartObject]
                               + ([Key(KeyText(Id)), Value(Decimal(p.id))] + [Key(KeyText(Name)), Value(p.name)])
                               + [Key(KeyText(Steps)), StartArray]
  {
    hide KeyText, Decimal;
    var ms := [(Id, Decimal(p.id)), (Name, p.name)];
    assert ms[1..] == [ms[1]] && [ms[1]][1..] == [];
    assert MemberEvents([ms[1]]) == [Key(KeyText(Name)), Value(p.name)];
  }

  lemma NoIdHere(f: Full, e: Event)
    requires !e.Value?
    ensures RootIds(f, [e]) == []
  {
    assert [e][1..] == [];
  }

  lemma NameIsNoId(f: Full, v: string)
    requires f.sax == Sax(false, [Root], false, f.sax.pending)
    ensures RootIds(f, [Key(KeyText(Name)), Value(v)]) == []
  {
    hide KeyText, FieldOf, ParseU8, Assign, AssignRoot;
    KeysAreRecognised(Name);
    var k, w := Key(KeyText(Name)), Value(v);
    assert [k, w][1..] == [w] && [w][1..] == [];
    assert Copied(KeyText(Name), PENDING) == KeyText(Name);
    var g := FullStep(f, k);
    assert g.sax == Sax(false, [Root], false, KeyText(Name));
    assert !IsId(g, w);
    assert RootIds(FullStep(g, w), []) == [];
  }

  lemma OpeningIsNoId(f: Full)
    ensures RootIds(f, [Key(KeyText(Steps)), StartArray]) == []
  {
    hide FullStep, KeyText;
    var k := Key(KeyText(Steps));
    assert [k, StartArray][1..] == [StartArray] && [StartArray][1..] == [];
  }

  // ---- Printing again ------------------------------------------------------

  /** No string field is the text "null", which reads back as absent. */
  predicate Speakable(s: Step) { s.action != "null" && s.sensorName != "null" && s.comparison != "null" }

  /** In normal form a plain step prints the same fields with the same texts. */
  lemma PrintsAlike(s: Step, k: nat, f: Field)
    requires s.step != 0 && Speakable(s)
    ensures Prints(NormalStep(s, k), f) == Prints(s, f)
    ensures Prints(s, f) ==> Text(NormalStep(s, k), f) == Text(s, f)
  {
    hide Decimal, FixedText, IsRelayAction;
  }

  lemma {:induction false} NormalMembers(s: Step, k: nat, fs: seq<Field>)
    requires s.step != 0 && Speakable(s)
    ensures Present(NormalStep(s, k), fs) == Present(s, fs)
    decreases |fs|
  {
    hide Prints, Text, NormalStep, Speakable;
    if fs != [] {
      NormalMembers(s, k, fs[..|fs| - 1]);
      PrintsAlike(s, k, fs[|fs| - 1]);
    }
  }

  lemma {:induction false} NormalStepsPrintAlike(steps: seq<Step>, k: nat)
    requires forall i | 0 <= i < |steps| :: steps[i].step != 0 && Speakable(steps[i])
    ensures StepsEvents(NormalFrom(steps, k)) == StepsEvents(steps)
    decreases |steps|
  {
    if steps != [] {
      hide Present, MemberEvents, NormalStep, Speakable;
      NormalMembers(steps[0], k, STEP_FIELDS);
      NormalStepsPrintAlike(steps[1..], k + 1);
      NormalSplit(steps, k);
      assert NormalFrom(steps, k)[1..] == NormalFrom(steps[1..], k + 1);
    }
  }

  lemma {:induction false} MembersLength(ms: seq<Member>)
    ensures |MemberEvents(ms)| == 2 * |ms|
  {
    if ms != [] {
      MembersLength(ms[1..]);
    }
  }

  /** The fields whose text reads back as absent. */
  predicate Lost(s: Step, f: Field) {
    (f == SensorName && s.sensorName == "null") || (f == Comparison && s.comparison == "null")
  }

  /** In normal form exactly the lost fields are no longer printed. */
  lemma FieldShrinks(s: Step, k: nat, f: Field)
    requires Usable(s.action)
    ensures Prints(s, f) <==> Prints(NormalStep(s, k), f) || Lost(s, f)
    ensures !(Prints(NormalStep(s, k), f) && Lost(s, f))
  {
    hide IsRelayAction;
  }

  lemma {:induction false} FieldsShrink(s: Step, k: nat, fs: seq<Field>)
    requires Usable(s.action)
    ensures |Present(NormalStep(s, k), fs)| <= |Present(s, fs)|
    ensures (exists f <- fs :: Lost(s, f)) ==> |Present(NormalStep(s, k), fs)| < |Present(s, fs)|
    decreases |fs|
  {
    hide Prints, Text, NormalStep, Lost, Usable;
    if fs != [] {
      var f := fs[|fs| - 1];
      FieldsShrink(s, k, fs[..|fs| - 1]);
      FieldShrinks(s, k, f);
      assert forall g <- fs :: g in fs[..|fs| - 1] || g == f;
    }
  }

  /** A "null" text costs the reprinted step a member. */
  lemma StepShrinks(s: Step, k: nat)
    requires Usable(s.action)
    ensures |StepEvents(NormalStep(s, k))| <= |StepEvents(s)|
    ensures !Speakable(s) ==> |StepEvents(NormalStep(s, k))| < |StepEvents(s)|
  {
    hide Present, NormalStep, MemberEvents;
    MembersLength(StepMembers(s));
    MembersLength(StepMembers(NormalStep(s, k)));
    FieldsShrink(s, k, STEP_FIELDS);
    if !Speakable(s) {
      assert Lost(s, SensorName) || Lost(s, Comparison);
      assert SensorName in STEP_FIELDS && Comparison in STEP_FIELDS;
    }
  }

  /** The step has a number, and no text that reads back as absent. */
  predicate Plain(s: Step) { s.step != 0 && Speakable(s) }

  predicate AllPlain(steps: seq<Step>) { forall i | 0 <= i < |steps| :: Plain(steps[i]) }

  lemma PlainSplit(steps: seq<Step>)
    requires steps != []
    ensures AllPlain(steps) <==> Plain(steps[0]) && AllPlain(steps[1..])
  {
    hide Plain;
    if Plain(steps[0]) && AllPlain(steps[1..]) {
      forall i | 0 <= i < |steps|
        ensures Plain(steps[i])
      {
        assert i > 0 ==> steps[i] == steps[1..][i - 1];
      }
    }
  }

  lemma {:induction false} StepsShrink(steps: seq<Step>, k: nat)
    requires AllUsable(steps)
    ensures |StepsEvents(NormalFrom(steps, k))| <= |StepsEvents(steps)|
    decreases |steps|
  {
    if steps != [] {
      hide StepEvents, NormalStep, Usable, AllUsable;
      UsableSplit(steps);
      StepShrinks(steps[0], k);
      StepsShrink(steps[1..], k + 1);
      NormalSplit(steps, k);
      assert NormalFrom(steps, k)[1..] == NormalFrom(steps[1..], k + 1);
    }
  }

  lemma {:induction false} FirstPresent(s: Step, fs: seq<Field>)
    requires fs != [] && Prints(s, fs[0])
    ensures Present(s, fs) != [] && Present(s, fs)[0] == (fs[0], Text(s, fs[0]))
    decreases |fs|
  {
    hide Prints, Text;
    if |fs| > 1 {
      FirstPresent(s, fs[..|fs| - 1]);
    }
  }

  lemma FirstIsNumber(s: Step)
    ensures |StepEvents(s)| >= 3 && StepEvents(s)[2] == Value(Decimal(s.step))
  {
    hide Decimal, KeyText, Present;
    FirstPresent(s, STEP_FIELDS);
    var ms := StepMembers(s);
    assert MemberEvents(ms)[1] == Value(ms[0].1);
  }

  /** A step that prints the same in normal form has a number. */
  lemma SamePrintIsNumbered(s: Step, k: nat)
    requires s.Fits() && k < 255 && StepEvents(NormalStep(s, k)) == StepEvents(s)
    ensures s.step != 0
  {
    hide StepEvents, Decimal;
    FirstIsNumber(s);
    FirstIsNumber(NormalStep(s, k));
    var n := NormalStep(s, k).step;
    NumberReads(s.step);
    NumberReads(n);
    assert ParseU8(Decimal(n), 0) == n && ParseU8(Decimal(s.step), 0) == s.step;
  }

  lemma SplitEqual<T>(a: seq<T>, b: seq<T>, c: seq<T>, d: seq<T>)
    requires a + b == c + d && |a| == |c|
    ensures a == c && b == d
  {
    assert a == (a + b)[..|a|] && b == (a + b)[|a|..];
    assert c == (c + d)[..|c|] && d == (c + d)[|c|..];
  }

  lemma {:induction false} SameStepsArePlain(steps: seq<Step>, k: nat)
    requires AllUsable(steps) && k + |steps| <= MAX_STEPS && forall i | 0 <= i < |steps| :: steps[i].Fits()
    requires StepsEvents(NormalFrom(steps, k)) == StepsEvents(steps)
    ensures AllPlain(steps)
    decreases |steps|
  {
    if steps != [] {
      hide StepEvents, NormalStep, Usable, AllUsable, Speakable, AllPlain;
      var s, n := steps[0], NormalStep(steps[0], k);
      UsableSplit(steps);
      StepShrinks(s, k);
      StepsShrink(steps[1..], k + 1);
      NormalSplit(steps, k);
      assert NormalFrom(steps, k)[1..] == NormalFrom(steps[1..], k + 1);
      SplitEqual(StepEvents(n), StepsEvents(NormalFrom(steps[1..], k + 1)), StepEvents(s), StepsEvents(steps[1..]));
      SamePrintIsNumbered(s, k);
      SameStepsArePlain(steps[1..], k + 1);
      PlainSplit(steps);
    } 
  }

  /** Printing what was read gives the same document exactly when every step is numbered and no text is "null". */
  lemma ReprintsExactly(p: Program)
    requires p.Fits() && p.id != 0 && p.steps != [] && AllUsable(p.steps)
    ensures ReadFull(Printed(p)).Some?
    ensures (ProgramEvents(ReadFull(Printed(p)).value) == ProgramEvents(p))
            <==> p.name != "null" && AllPlain(p.steps)
  {
    hide ReadFull, StepsEvents, AllUsable, NormalFrom, HeaderEvents, Plain;
    FullReadsPrinted(p);
    var n := Normal(p);
    HeaderIs(p);
    HeaderIs(n);
    if p.name != "null" && AllPlain(p.steps) {
      AllPlainPrintAlike(p.steps);
    }
    if ProgramEvents(n) == ProgramEvents(p) {
      SameDocument(p);
    }
  }

  lemma AllPlainPrintAlike(steps: seq<Step>)
    requires AllPlain(steps)
    ensures StepsEvents(NormalFrom(steps, 0)) == StepsEvents(steps)
  {
    hide StepsEvents, NormalFrom, Speakable;
    assert forall i | 0 <= i < |steps| :: Plain(steps[i]);
    NormalStepsPrintAlike(steps, 0);
  }

  lemma SameDocument(p: Program)
    requires p.Fits() && AllUsable(p.steps) && ProgramEvents(Normal(p)) == ProgramEvents(p)
    ensures p.name != "null" && AllPlain(p.steps)
  {
    hide StepsEvents, AllUsable, NormalFrom, HeaderEvents, Plain, AllPlain, KeyText;
    var n := Normal(p);
    HeaderIs(p);
    HeaderIs(n);
    var closing := [EndArray, EndObject];
    Associate(HeaderEvents(p), StepsEvents(p.steps), closing);
    Associate(HeaderEvents(n), StepsEvents(n.steps), closing);
    SplitEqual(HeaderEvents(n), StepsEvents(n.steps) + closing, HeaderEvents(p), StepsEvents(p.steps) + closing);
    assert HeaderEvents(p)[4] == Value(p.name) && HeaderEvents(n)[4] == Value(ReadBack(p.name));
    SplitEqual(StepsEvents(n.steps), closing, StepsEvents(p.steps), closing);
    SameStepsArePlain(p.steps, 0);
  }

  /** Reading is settled after one round: the normal form of a normal form is itself. */
  lemma NormalIsSettled(p: Program)
    requires |p.steps| < 256
    ensures Normal(Normal(p)) == Normal(p)
  {
    var n := NormalFrom(p.steps, 0);
    forall i | 0 <= i < |p.steps|
      ensures |n| == |p.steps| && |NormalFrom(n, 0)| == |n| && NormalFrom(n, 0)[i] == n[i]
    {
      NormalAt(p.steps, 0, i);
      NormalAt(n, 0, i);
      StepIsSettled(p.steps[i], i);
    }
    SameLength(p.steps, 0);
    SameLength(n, 0);
    assert NormalFrom(n, 0) == n;
  }

  lemma {:induction false} SameLength(steps: seq<Step>, k: nat)
    ensures |NormalFrom(steps, k)| == |steps|
  {
    if steps != [] {
      SameLength(steps[1..], k + 1);
    }
  }

  lemma StepIsSettled(s: Step, k: nat)
    requires k < 255
    ensures NormalStep(NormalStep(s, k), k) == NormalStep(s, k)
  {
  }
}
