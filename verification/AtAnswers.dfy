/** What the result of an AT request means: which event ended it, and which line it captured. */
module AtAnswers {
  import opened Bytes
  import opened Rings
  import opened AtSession

  // ---- One event -----------------------------------------------------------

  /** `t` stands in `s` from `i` on. */
  ghost predicate StandsAt(s: string, t: string, i: nat) { i + |t| <= |s| && s[i..i + |t|] == t }

  lemma {:induction false} ContainsExactly(s: string, t: string)
    ensures Contains(s, t) <==> exists i: nat :: StandsAt(s, t, i)
  {
    if t <= s {
      assert StandsAt(s, t, 0);
    } else if s != [] {
      ContainsExactly(s[1..], t);
      if i: nat :| StandsAt(s[1..], t, i) {
        assert s[1..][i..i + |t|] == s[i + 1..i + 1 + |t|];
        assert StandsAt(s, t, i + 1);
      }
      if i: nat :| StandsAt(s, t, i) {
        assert i > 0;
        assert s[1..][i - 1..i - 1 + |t|] == s[i..i + |t|];
        assert StandsAt(s[1..], t, i - 1);
      }
    }
  }

  /** The line or byte says that the command went well: the line OK, the awaited prompt, or any line that is welcome. */
  predicate SaysOk(a: Request, op: Op) {
    match op
    case OnByte(c) => a.mask & 2 != 0 && c == '>'
    case OnLine(line) =>
      line != "" && ((a.mask & 1 != 0 && line == "OK") || (a.mask & 8 != 0 && !SaysError(a, op)))
    case _ => false
  }

  /** The line says that it failed: ERROR, or a text holding +CME ERROR, while OK is expected. */
  predicate SaysError(a: Request, op: Op) {
    op.OnLine? && a.mask & 1 != 0 && (op.line == "ERROR" || Contains(op.line, "+CME ERROR"))
  }

  /** A tick by which the 32-bit deadline is reached. */
  predicate IsLate(due: nat, op: Op) { op.Tick? && (op.now - due) % 0x1_0000_0000 < 0x8000_0000 }

  predicate Ends(a: Request, due: nat, op: Op) { SaysOk(a, op) || SaysError(a, op) || IsLate(due, op) }

  /** A line that begins with the awaited prefix. */
  predicate Matches(a: Request, op: Op) {
    op.OnLine? && op.line != "" && a.mask & 4 != 0 && a.prefix.Some? && a.prefix.value <= op.line
  }

  function Cut63(line: string): string { if |line| <= 63 then line else line[..63] }

  /** The neighbours of +CME ERROR: OK is not among them. */
  lemma OkIsNoError()
    ensures !Contains("OK", "+CME ERROR")
  {
    ContainsExactly("OK", "+CME ERROR");
  }

  /** What ends a request in flight, and with which outcome: OK by the line OK, the awaited prompt or any welcome line;
      error by ERROR or a line holding +CME ERROR under an expected OK; timeout by a late tick; nothing else. */
  lemma OutcomeExactly(s: Session, op: Op)
    requires s.phase == Waiting && !op.Take?
    ensures var r := Step(s, op);
            && r.active == s.active && r.deadline == s.deadline && r.phase in {Waiting, Done}
            && (r.phase == Done && r.res.ok <==>
                  || (op.OnByte? && s.active.mask & 2 != 0 && op.c == '>')
                  || (op.OnLine? && s.active.mask & 1 != 0 && op.line == "OK")
                  || (op.OnLine? && s.active.mask & 8 != 0 && op.line != ""
                      && !(s.active.mask & 1 != 0 && (op.line == "ERROR" || Contains(op.line, "+CME ERROR")))))
            && (r.phase == Done && r.res.error <==>
                  op.OnLine? && s.active.mask & 1 != 0 && (op.line == "ERROR" || Contains(op.line, "+CME ERROR")))
            && (r.phase == Done && r.res.timedOut <==>
                  op.Tick? && (op.now - s.deadline) % 0x1_0000_0000 < 0x8000_0000)
            && (r.phase == Done ==> r.res.Decided() && r.res.tag == s.active.tag)
  {
    OkIsNoError();
    ContainsExactly([], "+CME ERROR");
    hide Contains, Captured;
  }

  /** What an event adds to the result, and what it leaves. */
  lemma CaptureExactly(s: Session, op: Op)
    requires s.phase == Waiting && !op.Take?
    ensures var r, a := Step(s, op), s.active;
            var matched := op.OnLine? && op.line != "" && a.mask & 4 != 0 && a.prefix.Some? && a.prefix.value <= op.line;
            && (r.phase == Waiting ==> r.res.ok == s.res.ok && r.res.error == s.res.error && r.res.timedOut == s.res.timedOut)
            && r.res.gotPrefix == (s.res.gotPrefix || matched)
            && r.res.gotPrompt == (s.res.gotPrompt || (op.OnByte? && op.c == '>' && a.mask & 2 != 0))
            && r.res.captured ==
               (if s.res.captured.Some? then s.res.captured
                else if matched || (op.OnLine? && a.mask & 8 != 0 && SaysOk(a, op) && !(a.mask & 1 != 0 && op.line == "OK"))
                then Some(Cut63(op.line)) else None)
  {
    if op.OnLine? {
      LineCaptures(s, op.line);
    }
    hide LineStep, SaysOk, Contains, Cut63;
  }

  lemma LineCaptures(s: Session, line: string)
    requires s.phase == Waiting
    ensures var r, a := LineStep(s, line), s.active;
            var matched := line != "" && a.mask & 4 != 0 && a.prefix.Some? && a.prefix.value <= line;
            && (r.phase == Waiting ==> r.res.ok == s.res.ok && r.res.error == s.res.error && r.res.timedOut == s.res.timedOut)
            && r.res.gotPrefix == (s.res.gotPrefix || matched) && r.res.gotPrompt == s.res.gotPrompt
            && r.res.captured ==
               (if s.res.captured.Some? then s.res.captured
                else if matched || (a.mask & 8 != 0 && SaysOk(a, OnLine(line)) && !(a.mask & 1 != 0 && line == "OK"))
                then Some(Cut63(line)) else None)
  {
    OkIsNoError();
    hide Contains, Cut63;
    CutIsCapture(line);
  }

  lemma CutIsCapture(line: string)
    ensures line[..Min(|line|, CAPTURE)] == Cut63(line)
  {
  }

  // ---- From launch to result -----------------------------------------------

  /** The session after some events. */
  function After(s: Session, ops: seq<Op>): Session
    decreases |ops|
  {
    if ops == [] then s else After(Step(s, ops[0]), ops[1..])
  }

  lemma {:induction false} AfterIsRun(s: Session, h: History, ops: seq<Op>)
    ensures Run(s, h, ops).0 == After(s, ops)
    decreases |ops|
  {
    hide Step, Record;
    if ops != [] {
      AfterIsRun(Step(s, ops[0]), Record(s, h, ops[0]), ops[1..]);
    }
  }

  /** No event that ends the request, and no take. */
  predicate Quiet(a: Request, due: nat, ops: seq<Op>) {
    forall i | 0 <= i < |ops| :: !Ends(a, due, ops[i]) && !ops[i].Take?
  }

  /** The lines that begin with the awaited prefix. */
  function Matching(a: Request, ops: seq<Op>): seq<string> {
    if ops == [] then [] else Matched(a, ops[0]) + Matching(a, ops[1..])
  }

  function Matched(a: Request, op: Op): seq<string> { if Matches(a, op) then [op.line] else [] }

  /** The result so far of a request in flight: no outcome, and the first matching line. */
  predicate SoFar(s: Session, matching: seq<string>) {
    && s.phase == Waiting && !s.res.ok && !s.res.error && !s.res.timedOut && !s.res.gotPrompt
    && s.res.gotPrefix == (matching != [])
    && s.res.captured == if matching == [] then None else Some(Cut63(matching[0]))
  }

  lemma QuietStep(s: Session, op: Op, matching: seq<string>)
    requires SoFar(s, matching) && !Ends(s.active, s.deadline, op) && !op.Take?
    ensures SoFar(Step(s, op), matching + Matched(s.active, op))
    ensures Step(s, op).active == s.active && Step(s, op).deadline == s.deadline
  {
    OutcomeExactly(s, op);
    CaptureExactly(s, op);
    hide Step, Contains, Cut63;
  }

  lemma {:induction false} QuietRun(s: Session, ops: seq<Op>, matching: seq<string>)
    requires SoFar(s, matching) && Quiet(s.active, s.deadline, ops)
    ensures SoFar(After(s, ops), matching + Matching(s.active, ops))
    ensures After(s, ops).active == s.active && After(s, ops).deadline == s.deadline
    decreases |ops|
  {
    hide Step, SoFar, Ends, Matched;
    if ops == [] {
      assert matching + [] == matching;
    } else {
      var more := Matched(s.active, ops[0]);
      QuietStep(s, ops[0], matching);
      QuietRun(Step(s, ops[0]), ops[1..], matching + more);
      Associate(matching, more, Matching(s.active, ops[1..]));
    }
  }

  /** A started request is in flight, with a result still blank, until the sum of the time and its timeout, at least one
      millisecond, modulo 2^32. */
  lemma LaunchIsBlank(s: Session, now: nat)
    requires s.phase == Idle && (s.high != [] || s.normal != [])
    ensures var r := Step(s, Tick(now));
            && r.active == (if s.high != [] then s.high[0] else s.normal[0])
            && r.deadline == (now + (if r.active.timeoutMs == 0 then 1 else r.active.timeoutMs)) % 0x1_0000_0000
            && SoFar(r, [])
  {
  }

  /** Nothing happens to a result before it is taken. */
  lemma {:induction false} ResultStays(s: Session, ops: seq<Op>)
    requires s.phase == Done && forall i | 0 <= i < |ops| :: !ops[i].Take?
    ensures After(s, ops).phase == Done && After(s, ops).res == s.res && After(s, ops).active == s.active
    decreases |ops|
  {
    if ops != [] {
      var next := Step(s, ops[0]);
      assert next.phase == Done && next.res == s.res && next.active == s.active;
      ResultStays(next, ops[1..]);
    }
  }

  /** From launch to result: after any events that do not end it the request is still in flight; the first that does gives
      the outcome, which waits to be taken whatever follows. The captured line is the first that begins with the prefix,
      else the line that ended a request which welcomes any, cut to 63 characters. */
  lemma ResultMeans(s: Session, now: nat, quiet: seq<Op>, e: Op, later: seq<Op>)
    requires s.phase == Idle && (s.high != [] || s.normal != [])
    requires var f := Step(s, Tick(now)); Quiet(f.active, f.deadline, quiet) && Ends(f.active, f.deadline, e)
    requires forall i | 0 <= i < |later| :: !later[i].Take?
    ensures var f := Step(s, Tick(now));
            var a, matching := f.active, Matching(f.active, quiet + [e]);
            var r := TakeStep(After(Step(After(f, quiet), e), later)).1;
            && After(f, quiet).phase == Waiting
            && r.ok == SaysOk(a, e) && r.error == SaysError(a, e) && r.timedOut == IsLate(f.deadline, e)
            && r.tag == a.tag && r.gotPrompt == e.OnByte? && r.gotPrefix == (matching != [])
            && r.captured == (if matching != [] then Some(Cut63(matching[0]))
                              else if e.OnLine? && a.mask & 8 != 0 && SaysOk(a, e) && !(a.mask & 1 != 0 && e.line == "OK")
                              then Some(Cut63(e.line)) else None)
  {
    hide Step, After, Ends, SaysOk, SaysError, IsLate, Quiet, Cut63, Matching, SoFar;
    LaunchIsBlank(s, now);
    var f := Step(s, Tick(now));
    QuietRun(f, quiet, []);
    assert [] + Matching(f.active, quiet) == Matching(f.active, quiet);
    var g := After(f, quiet);
    LastStep(g, e, Matching(f.active, quiet));
    MatchingSnoc(f.active, quiet, e);
    ResultStays(Step(g, e), later);
  }

  /** The event that ends a request. */
  lemma LastStep(g: Session, e: Op, matching: seq<string>)
    requires SoFar(g, matching) && Ends(g.active, g.deadline, e)
    ensures g.phase == Waiting
    ensures var r, a, all := Step(g, e), g.active, matching + Matched(g.active, e);
            && r.phase == Done && r.active == a
            && r.res.ok == SaysOk(a, e) && r.res.error == SaysError(a, e) && r.res.timedOut == IsLate(g.deadline, e)
            && r.res.tag == a.tag && r.res.gotPrompt == e.OnByte? && r.res.gotPrefix == (all != [])
            && r.res.captured == (if all != [] then Some(Cut63(all[0]))
                                  else if e.OnLine? && a.mask & 8 != 0 && SaysOk(a, e) && !(a.mask & 1 != 0 && e.line == "OK")
                                  then Some(Cut63(e.line)) else None)
  {
    OutcomeExactly(g, e);
    CaptureExactly(g, e);
    OkIsNoError();
    hide Step, Contains, Cut63;
  }

  lemma {:induction false} MatchingSnoc(a: Request, ops: seq<Op>, e: Op)
    ensures Matching(a, ops + [e]) == Matching(a, ops) + Matched(a, e)
  {
    hide Matched;
    if ops == [] {
      assert ops + [e] == [e] && [e][1..] == [];
    } else {
      assert (ops + [e])[1..] == ops[1..] + [e];
      MatchingSnoc(a, ops[1..], e);
      Associate(Matched(a, ops[0]), Matching(a, ops[1..]), Matched(a, e));
    }
  }

  /** Room for six requests, and two urgent ones. */
  lemma QueueRoom(s: Session, r: Request)
    ensures |s.normal| < 6 ==> Step(s, Enqueue(r)) == s.(normal := s.normal + [r])
    ensures |s.normal| >= 6 ==> Step(s, Enqueue(r)) == s
    ensures |s.high| < 2 ==> Step(s, EnqueueHigh(r)) == s.(high := s.high + [r])
    ensures |s.high| >= 2 ==> Step(s, EnqueueHigh(r)) == s
  {
  }
}
