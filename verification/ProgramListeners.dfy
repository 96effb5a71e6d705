/** The parser callbacks of the three program readers, updating their stacks, buffers and output arrays in place. */
module ProgramListeners {
  import opened Bytes
  import opened ProgramTypes
  import opened ProgramDocument
  import opened ProgramReaders
  import opened ProgramHeaders

  class SkipStepsRootListener {
    var failed: bool
    const places: array<Place>
    var depth: nat
    var junk: bool
    var junkNest: nat
    var pending: string

    ghost predicate Valid()
      reads this
    {
      places.Length == STACK && depth <= STACK
    }

    ghost function View(): Sax
      requires Valid()
      reads this, places
    {
      Sax(failed, places[..depth], junk, pending)
    }

    constructor ()
      ensures Valid() && fresh(places) && View() == Blank
    {
      places := new Place[STACK](_ => Root);
      failed, depth, junk, junkNest, pending := false, 0, false, 0, "";
    }

    method Push(x: Place)
      requires Valid()
      modifies this`failed, this`depth, places
      ensures Valid() && View() == old(View()).Push(x)
    {
      if depth >= STACK {
        failed := true;
      } else {
        places[depth] := x;
        depth := depth + 1;
      }
    }

    method Pop()
      requires Valid()
      modifies this`depth
      ensures Valid() && View() == old(View()).Pop()
    {
      if depth > 0 {
        depth := depth - 1;
      }
    }

    method At(x: Place) returns (r: bool)
      requires Valid()
      ensures r == View().At(x)
    {
      r := depth > 0 && places[depth - 1] == x;
    }

    method EnterJunk()
      requires Valid()
      modifies this`junk, this`junkNest
      ensures Valid() && View() == old(View()).(junk := true)
    {
      junk, junkNest := true, 0;
    }

    /** Reports whether the event fell into junk. */
    method BumpJunk(opens: bool) returns (r: bool)
      requires Valid()
      modifies this`junkNest
      ensures Valid() && View() == old(View()) && r == junk
    {
      if junk {
        if opens {
          junkNest := junkNest + 1;
        } else if junkNest > 0 {
          junkNest := junkNest - 1;
        }
      }
      r := junk;
    }

    method StartObject() returns (call: Call)
      requires Valid()
      modifies this, places
      ensures Valid() && (View(), call) == SaxStep(old(View()), Event.StartObject)
    {
      call := Quiet;
      if failed { return; }
      var inJunk := BumpJunk(true);
      if inJunk { return; }
      var inSteps := At(StepsArr);
      if depth == 0 {
        Push(Root);
      } else if inSteps {
        call := BeginStep;
        Push(StepObj);
      } else {
        EnterJunk();
      }
    }

    method EndObject() returns (call: Call)
      requires Valid()
      modifies this, places
      ensures Valid() && (View(), call) == SaxStep(old(View()), Event.EndObject)
    {
      call := Quiet;
      if failed { return; }
      var inJunk := BumpJunk(false);
      if inJunk { return; }
      var inStep := At(StepObj);
      var atRoot := At(Root);
      if inStep {
        call := EndStep;
        Pop();
      } else if atRoot {
        Pop();
      } else {
        failed := true;
      }
    }

    method StartArray() returns (call: Call)
      requires Valid()
      modifies this, places
      ensures Valid() && (View(), call) == SaxStep(old(View()), Event.StartArray)
    {
      call := Quiet;
      if failed { return; }
      var inJunk := BumpJunk(true);
      if inJunk { return; }
      var atRoot := At(Root);
      if atRoot && pending == "steps" {
        Push(StepsArr);
      } else {
        EnterJunk();
      }
    }

    method EndArray() returns (call: Call)
      requires Valid()
      modifies this, places
      ensures Valid() && (View(), call) == SaxStep(old(View()), Event.EndArray)
    {
      call := Quiet;
      if failed { return; }
      var inJunk := BumpJunk(false);
      if inJunk { return; }
      var inSteps := At(StepsArr);
      if inSteps {
        Pop();
      } else {
        failed := true;
      }
    }

    method OnKey(k: string) returns (call: Call)
      requires Valid()
      modifies this`pending
      ensures Valid() && (View(), call) == SaxStep(old(View()), Event.Key(k))
    {
      call := Quiet;
      if failed || junk { return; }
      pending := Copied(k, PENDING);
    }

    method OnValue(v: string) returns (call: Call)
      requires Valid()
      ensures (View(), call) == SaxStep(View(), Event.Value(v))
    {
      call := Quiet;
      if failed || junk || v == "null" { return; }
      var atRoot := At(Root);
      var inStep := At(StepObj);
      if atRoot {
        call := RootValue(v);
      } else if inStep {
        call := StepValue(v);
      }
    }

    method On(e: Event) returns (call: Call)
      requires Valid()
      modifies this, places
      ensures Valid() && (View(), call) == SaxStep(old(View()), e)
    {
      hide SaxStep;
      match e
      case StartObject => call := StartObject();
      case EndObject => call := EndObject();
      case StartArray => call := StartArray();
      case EndArray => call := EndArray();
      case Key(k) => call := OnKey(k);
      case Value(v) => call := OnValue(v);
    }
  }

  /** The stack is always a prefix of root, steps array, step object. */
  predicate Shaped(stk: seq<Place>) {
    stk == [] || stk == [Root] || stk == [Root, StepsArr] || stk == [Root, StepsArr, StepObj]
  }

  lemma StaysShaped(b: Sax, e: Event)
    requires Shaped(b.stk)
    ensures var (c, call) := SaxStep(b, e);
            && Shaped(c.stk)
            && (call == BeginStep ==> c.stk == [Root, StepsArr, StepObj])
            && (call == EndStep ==> b.At(StepObj) && c.stk == [Root, StepsArr])
            && (call != BeginStep && c.At(StepObj) ==> b.At(StepObj))
            && (call != Quiet ==> !c.failed && !b.failed)
            && (!c.failed ==> !b.failed)
  {
  }

  class FullProgramListener {
    const root: SkipStepsRootListener
    const steps: array<Step>
    var stepCount: nat
    var id: nat
    var name: string
    var cur: Step
    var good: bool

    ghost predicate Valid()
      reads this, root, root.places
    {
      && root.Valid() && steps.Length == MAX_STEPS && stepCount <= MAX_STEPS && Shaped(root.View().stk)
      && (!root.failed && root.View().At(StepObj) ==> stepCount < MAX_STEPS)
    }

    ghost function View(): Full
      requires Valid()
      reads this, steps, root, root.places
    {
      Full(root.View(), Program(id, name, steps[..stepCount]), cur)
    }

    constructor ()
      ensures Valid() && fresh(root) && fresh(root.places) && fresh(steps) && View() == FullStart && !good
    {
      root := new SkipStepsRootListener();
      steps := new Step[MAX_STEPS](_ => BlankStep);
      stepCount, id, name, cur, good := 0, 0, "", BlankStep, false;
    }

    method EndDocument()
      modifies this`good
      ensures good == (old(good) || (id != 0 && stepCount > 0))
    {
      if id != 0 && stepCount > 0 {
        good := true;
      }
    }

    method OnBeginStep()
      modifies root`failed, this`cur
      ensures root.failed == (old(root.failed) || stepCount >= MAX_STEPS)
      ensures cur == if stepCount >= MAX_STEPS then old(cur) else BlankStep
    {
      if stepCount >= MAX_STEPS {
        root.failed := true;
        return;
      }
      cur := BlankStep;
    }

    method OnEndStep()
      requires steps.Length == MAX_STEPS && stepCount < MAX_STEPS
      modifies root`failed, this`stepCount, steps
      ensures root.failed == (old(root.failed) || cur.action == "")
      ensures stepCount == old(stepCount) + if cur.action == "" then 0 else 1
      ensures steps[..stepCount]
              == old(steps[..stepCount]) + if cur.action == "" then [] else [Numbered(cur, old(stepCount))]
    {
      steps[stepCount] := cur;
      if cur.step == 0 {
        steps[stepCount] := cur.(step := (stepCount + 1) % 256);
      }
      if cur.action == "" {
        root.failed := true;
        return;
      }
      stepCount := stepCount + 1;
    }

    method OnRootValue(v: string)
      modifies this`id, this`name
      ensures forall s :: Program(id, name, s) == AssignRoot(Program(old(id), old(name), s), root.pending, v)
    {
      match FieldOf(root.pending)
      case Some(Id) => id := ParseU8(v, 0);
      case Some(Name) => name := Copied(v, PROGRAM_NAME);
      case _ =>
    }

    method On(e: Event)
      requires Valid()
      modifies this, steps, root, root.places
      ensures Valid() && View() == FullStep(old(View()), e) && good == old(good)
    {
      hide SaxStep, Assign, AssignRoot, Numbered, FieldOf, Shaped;
      StaysShaped(root.View(), e);
      ghost var before := steps[..stepCount];
      var call := root.On(e);
      match call
      case Quiet =>
      case BeginStep => OnBeginStep();
      case EndStep =>
        ghost var sax := root.View();
        assert (root.places as object) != (steps as object);
        OnEndStep();
        assert root.View() == sax.(failed := root.failed);
      case RootValue(v) => OnRootValue(v);
      case StepValue(v) => cur := AssignPending(cur, root.pending, v);
    }
  }

  /** The full reader over a whole document. */
  method ParseProgramObject(d: Document) returns (out: Option<Program>)
    ensures out == ReadFull(d)
  {
    hide FullStep;
    var events := d.events;
    var listener := new FullProgramListener();
    for i := 0 to |events|
      invariant fresh(listener) && fresh(listener.root) && fresh(listener.root.places) && fresh(listener.steps)
      invariant listener.Valid() && listener.View() == FullRun(FullStart, events[..i]) && !listener.good
    {
      assert events[..i + 1] == events[..i] + [events[i]];
      FullRunAppend(FullStart, events[..i], [events[i]]);
      FullRunOne(listener.View(), events[i]);
      listener.On(events[i]);
    }
    assert events[..|events|] == events;
    if d.complete {
      listener.EndDocument();
    }
    out := if listener.good && !listener.root.failed
      then Some(Program(listener.id, listener.name, listener.steps[..listener.stepCount])) else None;
  }

  class CompiledProgramListener {
    const root: SkipStepsRootListener
    const steps: array<CompiledStep>
    const wanted: nat
    var count: nat
    var name: string
    var cur: CompiledStep
    var good: bool

    ghost predicate Valid()
      reads this, root, root.places
    {
      && root.Valid() && steps.Length == MAX_STEPS && count <= MAX_STEPS && Shaped(root.View().stk)
      && (!root.failed && root.View().At(StepObj) ==> count < MAX_STEPS)
    }

    ghost function View(): Compiled
      requires Valid()
      reads this, steps, root, root.places
    {
      Compiled(root.View(), wanted, name, steps[..count], cur)
    }

    constructor (wanted: nat)
      ensures Valid() && fresh(root) && fresh(root.places) && fresh(steps) && View() == CompiledStart(wanted) && !good
    {
      root := new SkipStepsRootListener();
      steps := new CompiledStep[MAX_STEPS](_ => BlankCompiled);
      this.wanted := wanted;
      count, name, cur, good := 0, "", BlankCompiled, false;
    }

    method EndDocument()
      modifies this`good
      ensures good == !root.failed
    {
      good := !root.failed;
    }

    method OnBeginStep()
      requires root.Valid()
      modifies root`failed, this`cur
      ensures root.View() == old(root.View()).(failed := old(root.failed) || count >= MAX_STEPS)
      ensures cur == if count >= MAX_STEPS then old(cur) else BlankCompiled
    {
      if count >= MAX_STEPS {
        root.failed := true;
        return;
      }
      cur := BlankCompiled;
    }

    method OnEndStep()
      requires steps.Length == MAX_STEPS && count < MAX_STEPS
      modifies this`count, steps
      ensures count == old(count) + 1 && steps[..count] == old(steps[..count]) + [cur]
    {
      steps[count] := cur;
      count := count + 1;
    }

    method OnRootValue(v: string)
      requires Valid()
      modifies root`failed, this`name
      ensures Valid() && View() == CompiledRoot(old(View()), v)
    {
      hide FieldOf, ParseU8, Shaped;
      match FieldOf(root.pending)
      case Some(Id) =>
        if ParseU8(v, 0) != wanted {
          root.failed := true;
        }
      case Some(Name) => name := Copied(v, PROGRAM_NAME);
      case _ =>
    }

    method On(e: Event)
      requires Valid()
      modifies this, steps, root, root.places
      ensures Valid() && View() == CompiledEvent(old(View()), e) && good == old(good)
    {
      hide SaxStep, AssignCompiled, FieldOf, ParseU8, Shaped, CompiledRoot;
      StaysShaped(root.View(), e);
      var call := root.On(e);
      match call
      case Quiet =>
      case BeginStep => OnBeginStep();
      case EndStep => OnEndStep();
      case RootValue(v) => OnRootValue(v);
      case StepValue(v) =>
        match FieldOf(root.pending) {
          case None =>
          case Some(f) => cur := AssignCompiled(cur, f, v);
        }
    }
  }

  lemma {:induction false} CompiledRunAppend(c: Compiled, a: seq<Event>, b: seq<Event>)
    ensures CompiledRun(c, a + b) == CompiledRun(CompiledRun(c, a), b)
    decreases |a|
  {
    hide CompiledEvent;
    if a == [] {
      assert a + b == b;
    } else {
      assert (a + b)[1..] == a[1..] + b;
      CompiledRunAppend(CompiledEvent(c, a[0]), a[1..], b);
    }
  }

  /** The compiled reader over a whole document. */
  method ParseProgramCompiled(d: Document, wanted: nat) returns (out: Option<(string, seq<CompiledStep>)>)
    ensures out == ReadCompiled(d, wanted)
  {
    hide CompiledEvent;
    var events := d.events;
    var listener := new CompiledProgramListener(wanted);
    for i := 0 to |events|
      invariant fresh(listener) && fresh(listener.root) && fresh(listener.root.places) && fresh(listener.steps)
      invariant listener.Valid() && listener.View() == CompiledRun(CompiledStart(wanted), events[..i]) && !listener.good
    {
      assert events[..i + 1] == events[..i] + [events[i]];
      CompiledRunAppend(CompiledStart(wanted), events[..i], [events[i]]);
      assert [events[i]][1..] == [];
      listener.On(events[i]);
    }
    assert events[..|events|] == events;
    if d.complete {
      listener.EndDocument();
    }
    out := if listener.good && !listener.root.failed then Some((listener.name, listener.steps[..listener.count])) else None;
  }

  class HeaderListener {
    const root: SkipStepsRootListener
    const path: nat
    var skip: nat
    var id: nat
    var name: string
    var ok: bool

    ghost predicate Valid()
      reads this, root, root.places
    {
      root.Valid()
    }

    ghost function View(): Header
      requires Valid()
      reads this, root, root.places
    {
      Header(root.View(), skip, id, name)
    }

    constructor (path: nat)
      ensures Valid() && fresh(root) && fresh(root.places) && View() == HeaderStart && this.path == path && !ok
    {
      root := new SkipStepsRootListener();
      this.path := path;
      skip, id, name, ok := 0, 0, "", false;
    }

    method EndDocument()
      modifies this`ok
      ensures ok == !root.failed
    {
      ok := !root.failed;
    }

    method OnOpen(e: Event)
      requires Valid() && (e.StartObject? || e.StartArray?)
      modifies this`skip, root, root.places
      ensures Valid() && View() == HeaderStep(old(View()), e, path)
    {
      if root.failed { return; }
      var inJunk := root.BumpJunk(true);
      if inJunk { return; }
      var skipping := root.At(StepsSkip);
      var atRoot := root.At(Root);
      if skipping {
        skip := (skip + 1) % 256;
      } else if e.StartObject? && root.depth == 0 {
        root.Push(Root);
      } else if e.StartArray? && atRoot && root.pending == "steps" {
        root.Push(StepsSkip);
        skip := 1;
      } else {
        root.EnterJunk();
      }
    }

    method OnClose(e: Event)
      requires Valid() && (e.EndObject? || e.EndArray?)
      modifies this`skip, root, root.places
      ensures Valid() && View() == HeaderStep(old(View()), e, path)
    {
      if root.failed { return; }
      var inJunk := root.BumpJunk(false);
      if inJunk { return; }
      var skipping := root.At(StepsSkip);
      var atRoot := root.At(Root);
      if skipping && (e.EndArray? || skip != 0) {
        if skip != 0 {
          skip := skip - 1;
        }
        if e.EndArray? && skip == 0 {
          root.Pop();
        }
      } else if e.EndObject? && atRoot {
        root.Pop();
      } else {
        root.failed := true;
      }
    }

    method OnValue(v: string)
      requires Valid()
      modifies this`id, this`name, root`failed
      ensures Valid() && View() == HeaderStep(old(View()), Value(v), path)
    {
      hide FieldOf, ParseU8;
      if root.failed || root.junk { return; }
      var atRoot := root.At(Root);
      if !atRoot || v == "null" { return; }
      match FieldOf(root.pending)
      case Some(Id) =>
        id := ParseU8(v, 0);
        if id != path {
          root.failed := true;
        }
      case Some(Name) => name := Copied(v, PROGRAM_NAME);
      case _ =>
    }

    method OnKey(k: string)
      requires Valid()
      modifies root`pending
      ensures Valid() && View() == HeaderStep(old(View()), Key(k), path)
    {
      var skipping := root.At(StepsSkip);
      if root.failed || root.junk || skipping { return; }
      root.pending := Copied(k, PENDING);
    }

    method On(e: Event)
      requires Valid()
      modifies this, root, root.places
      ensures Valid() && View() == HeaderStep(old(View()), e, path) && ok == old(ok)
    {
      hide HeaderStep;
      match e
      case StartObject => OnOpen(e);
      case EndObject => OnClose(e);
      case StartArray => OnOpen(e);
      case EndArray => OnClose(e);
      case Key(k) => OnKey(k);
      case Value(v) => OnValue(v);
    }
  }

  /** The header reader over a whole document. */
  method ParseProgramHeader(d: Document, path: nat) returns (out: Option<(nat, string)>)
    ensures out == ReadHeader(d, path)
  {
    hide HeaderStep;
    var events := d.events;
    var listener := new HeaderListener(path);
    for i := 0 to |events|
      invariant fresh(listener) && fresh(listener.root) && fresh(listener.root.places)
      invariant listener.Valid() && listener.View() == HeaderRun(HeaderStart, events[..i], path) && !listener.ok
    {
      assert events[..i + 1] == events[..i] + [events[i]];
      HeaderRunAppend(HeaderStart, events[..i], [events[i]], path);
      assert [events[i]][1..] == [];
      listener.On(events[i]);
    }
    assert events[..|events|] == events;
    if d.complete {
      listener.EndDocument();
    }
    out := if listener.ok && !listener.root.failed then Some((listener.id, listener.name)) else None;
  }
}
