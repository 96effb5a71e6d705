/** The AT command session: two request queues, one request in flight, and its result. */
module AtSession {
  import opened Bytes
  import opened Rings

  const CAPTURE := 63

  /** `mask` has bit 0 for OK, 1 for the prompt, 2 for a line prefix, 3 for any line. */
  datatype Request = Request(cmd: string, timeoutMs: nat, mask: bv8, prefix: Option<string>, tag: string)
  {
    predicate ExpectsOk() { mask & 1 != 0 }
    predicate ExpectsPrompt() { mask & 2 != 0 }
    predicate ExpectsPrefix() { mask & 4 != 0 }
    predicate ExpectsAny() { mask & 8 != 0 }
  }

  datatype Result = Result(
    ok: bool, error: bool, timedOut: bool, gotPrompt: bool, gotPrefix: bool, captured: Option<string>, tag: string)
  {
    /** Exactly one outcome. */
    predicate Decided() {
      (ok && !error && !timedOut) || (!ok && error && !timedOut) || (!ok && !error && timedOut)
    }
  }

  const NoResult := Result(false, false, false, false, false, None, [])
  const NoRequest := Request([], 0, 0, None, [])

  datatype Phase = Idle | Waiting | Done

  datatype Session = Session(
    phase: Phase, high: seq<Request>, normal: seq<Request>, active: Request, deadline: nat, res: Result,
    written: seq<string>)    // command lines sent, oldest first
  {
    predicate Valid() { |high| <= HQSIZE && |normal| <= QSIZE && deadline < WORD }
  }

  // ---- The steps -----------------------------------------------------------

  function Contains(s: string, t: string): bool {
    t <= s || (s != [] && Contains(s[1..], t))
  }

  function Captured(res: Result, line: string): Result {
    if res.captured.None? then res.(captured := Some(line[..Min(|line|, CAPTURE)])) else res
  }

  function Finish(s: Session, res: Result, ok: bool, err: bool, timeout: bool): Session {
    s.(res := res.(ok := ok, error := err, timedOut := timeout, tag := s.active.tag), phase := Done)
  }

  /** The time a request may take: zero counts as one millisecond. */
  function Patience(r: Request): nat { if r.timeoutMs != 0 then r.timeoutMs else 1 }

  function Launch(s: Session, r: Request, now: nat): Session {
    s.(active := r, res := NoResult, deadline := (now + Patience(r)) % WORD,
       phase := Waiting, written := s.written + [r.cmd])
  }

  /** The 32-bit signed difference is not negative. */
  predicate Reached(now: nat, deadline: nat) { Since(now, deadline) < 0x8000_0000 }

  function TickStep(s: Session, now: nat): Session {
    match s.phase
    case Idle =>
      if s.high != [] then Launch(s.(high := s.high[1..]), s.high[0], now)
      else if s.normal != [] then Launch(s.(normal := s.normal[1..]), s.normal[0], now)
      else s
    case Waiting => if Reached(now, s.deadline) then Finish(s, s.res, false, false, true) else s
    case Done => s
  }

  function ByteStep(s: Session, c: char): Session {
    if s.phase == Waiting && s.active.ExpectsPrompt() && c == '>'
    then Finish(s, s.res.(gotPrompt := true), true, false, false) else s
  }

  function LineStep(s: Session, line: string): Session {
    if s.phase != Waiting || line == [] then s
    else
      var a := s.active;
      var res := if a.ExpectsPrefix() && a.prefix.Some? && a.prefix.value <= line
                 then Captured(s.res, line).(gotPrefix := true) else s.res;
      if a.ExpectsOk() && line == "OK" then Finish(s, res, true, false, false)
      else if a.ExpectsOk() && (line == "ERROR" || Contains(line, "+CME ERROR")) then Finish(s, res, false, true, false)
      else if a.ExpectsAny() then Finish(s, Captured(res, line), true, false, false)
      else s.(res := res)
  }

  function TakeStep(s: Session): (Session, Result) {
    if s.phase != Done then (s, NoResult)
    else (s.(phase := Idle, res := NoResult, active := NoRequest, deadline := 0), s.res)
  }

  datatype Op = Enqueue(r: Request) | EnqueueHigh(r: Request) | Tick(now: nat) | OnByte(c: char) | OnLine(line: string) | Take

  function Step(s: Session, op: Op): (r: Session)
    ensures s.Valid() ==> r.Valid()
  {
    match op
    case Enqueue(r) => if |s.normal| < QSIZE then s.(normal := s.normal + [r]) else s
    case EnqueueHigh(r) => if |s.high| < HQSIZE then s.(high := s.high + [r]) else s
    case Tick(now) => TickStep(s, now)
    case OnByte(c) => ByteStep(s, c)
    case OnLine(line) => LineStep(s, line)
    case Take => TakeStep(s).0
  }

  // ---- Runs ----------------------------------------------------------------

  /** What a run has accepted, started and handed over, oldest first. */
  datatype History = History(
    acceptedHigh: seq<Request>, acceptedNormal: seq<Request>,
    startedHigh: seq<Request>, startedNormal: seq<Request>,
    started: seq<Request>, results: seq<Result>)

  function Record(s: Session, h: History, op: Op): History {
    match op
    case Enqueue(r) => if |s.normal| < QSIZE then h.(acceptedNormal := h.acceptedNormal + [r]) else h
    case EnqueueHigh(r) => if |s.high| < HQSIZE then h.(acceptedHigh := h.acceptedHigh + [r]) else h
    case Tick(_) =>
      if s.phase != Idle then h
      else if s.high != [] then h.(startedHigh := h.startedHigh + [s.high[0]], started := h.started + [s.high[0]])
      else if s.normal != [] then h.(startedNormal := h.startedNormal + [s.normal[0]], started := h.started + [s.normal[0]])
      else h
    case Take => if s.phase == Done then h.(results := h.results + [TakeStep(s).1]) else h
    case _ => h
  }

  function Run(s: Session, h: History, ops: seq<Op>): (Session, History)
    decreases |ops|
  {
    if ops == [] then (s, h) else Run(Step(s, ops[0]), Record(s, h, ops[0]), ops[1..])
  }

  function Commands(rs: seq<Request>): seq<string> { if rs == [] then [] else [rs[0].cmd] + Commands(rs[1..]) }

  predicate Disciplined(s: Session, h: History) {
    && s.Valid()
    // each class is served first in, first out, and nothing accepted is lost
    && h.acceptedHigh == h.startedHigh + s.high
    && h.acceptedNormal == h.startedNormal + s.normal
    && |h.started| == |h.startedHigh| + |h.startedNormal|
    // one command line per started request
    && s.written == Commands(h.started)
    // one result per started request, in order, except for the one in flight
    && |h.started| == |h.results| + (if s.phase == Idle then 0 else 1)
    && (forall i | 0 <= i < |h.results| :: h.results[i].tag == h.started[i].tag && h.results[i].Decided())
    && (s.phase != Idle ==> s.active == h.started[|h.results|])
    && (s.phase == Done ==> s.res.tag == s.active.tag && s.res.Decided())
  }

  lemma {:induction false} CommandsSnoc(rs: seq<Request>, r: Request)
    ensures Commands(rs + [r]) == Commands(rs) + [r.cmd]
  {
    if rs == [] {
      assert [] + [r] == [r] && Commands([r]) == [r.cmd] + Commands([]);
    } else {
      CommandsSnoc(rs[1..], r);
      assert (rs + [r])[1..] == rs[1..] + [r];
    }
  }

  lemma TickKeeps(s: Session, h: History, now: nat)
    requires Disciplined(s, h)
    ensures Disciplined(Step(s, Tick(now)), Record(s, h, Tick(now)))
  {
    if s.phase == Idle && s.high != [] {
      CommandsSnoc(h.started, s.high[0]);
      assert h.startedHigh + s.high == h.startedHigh + [s.high[0]] + s.high[1..];
    } else if s.phase == Idle && s.normal != [] {
      CommandsSnoc(h.started, s.normal[0]);
      assert h.startedNormal + s.normal == h.startedNormal + [s.normal[0]] + s.normal[1..];
    }
  }

  lemma StepKeeps(s: Session, h: History, op: Op)
    requires Disciplined(s, h)
    ensures Disciplined(Step(s, op), Record(s, h, op))
  {
    match op
    case Tick(now) => TickKeeps(s, h, now);
    case OnLine(line) => LineKeeps(s, line);
    case Enqueue(r) => assert h.startedNormal + s.normal + [r] == h.startedNormal + (s.normal + [r]);
    case EnqueueHigh(r) => assert h.startedHigh + s.high + [r] == h.startedHigh + (s.high + [r]);
    case _ =>
  }

  lemma LineKeeps(s: Session, line: string)
    ensures var r := LineStep(s, line);
            && r.high == s.high && r.normal == s.normal && r.active == s.active && r.deadline == s.deadline
            && r.written == s.written && (r.phase == s.phase || (s.phase == Waiting && r.phase == Done))
            && (r.phase == Done && s.phase != Done ==> r.res.tag == s.active.tag && r.res.Decided())
            && (s.phase != Waiting ==> r == s)
  {
  }

  const NoHistory := History([], [], [], [], [], [])
  const Fresh := Session(Idle, [], [], NoRequest, 0, NoResult, [])

  /** Over every run without reset the session is disciplined. */
  lemma {:induction false} RunKeeps(s: Session, h: History, ops: seq<Op>)
    requires Disciplined(s, h)
    ensures Disciplined(Run(s, h, ops).0, Run(s, h, ops).1)
    decreases |ops|
  {
    hide Disciplined, Step, Record;
    if ops != [] {
      StepKeeps(s, h, ops[0]);
      RunKeeps(Step(s, ops[0]), Record(s, h, ops[0]), ops[1..]);
    }
  }

  lemma FreshRunIsDisciplined(ops: seq<Op>)
    ensures Disciplined(Run(Fresh, NoHistory, ops).0, Run(Fresh, NoHistory, ops).1)
  {
    RunKeeps(Fresh, NoHistory, ops);
  }

  /** A command line is sent only from Idle, by a tick, and a high request goes before a normal one. */
  lemma WritesOnlyFromIdle(s: Session, op: Op)
    ensures Step(s, op).written != s.written ==>
              && s.phase == Idle && op.Tick? && Step(s, op).phase == Waiting
              && Step(s, op).active == (if s.high != [] then s.high[0] else s.normal[0])
              && Step(s, op).written == s.written + [Step(s, op).active.cmd]
    ensures op.Tick? && s.phase == Idle && (s.high != [] || s.normal != []) ==> Step(s, op).written != s.written
  {
    if op.OnLine? {
      LineKeeps(s, op.line);
    }
  }

  /** The signed comparison of the clock readings looks at the difference modulo the clock period. */
  lemma ReachedByDifference(now: nat, due: nat)
    ensures Reached(Millis(now), Millis(due)) <==> (now - due) % WORD < 0x8000_0000
  {
    var a, b := now / WORD, due / WORD;
    assert Millis(now) - Millis(due) == (now - due) - (a - b) * WORD;
    ModShift(now - due, -(a - b));
  }

  lemma ModNegates(d: int)
    ensures d % WORD + (-d - 1) % WORD == WORD - 1
  {
    var q := d / WORD;
    assert -d - 1 == (WORD - 1 - d % WORD) + (-q - 1) * WORD;
    ModShift(WORD - 1 - d % WORD, -q - 1);
  }

  /** It is the comparison of the instants exactly when their distance is less than half a clock period, modulo whole
      ones; so in particular while they are less than 2^31 ms apart, whatever the wraps. */
  lemma DeadlineByUnboundedTime(now: nat, due: nat)
    ensures (Reached(Millis(now), Millis(due)) <==> now >= due)
       <==> (if now >= due then now - due else due - now - 1) % WORD < 0x8000_0000
    ensures now - 0x8000_0000 < due < now + 0x8000_0000 ==> (Reached(Millis(now), Millis(due)) <==> now >= due)
  {
    ReachedByDifference(now, due);
    ModNegates(now - due);
  }

  predicate TimedOut(s: Session) { s.phase == Done && s.res.timedOut }

  /** A request started at `begun` is timed out by a tick or left as it is; that is right by unbounded time exactly when
      the distance from the deadline is less than half a clock period, modulo whole ones: for every timeout up to 2^31 ms
      at every tick up to 2^31 ms late. */
  lemma TimesOutOnTime(s: Session, r: Request, begun: nat, now: nat)
    requires s.phase == Idle && begun <= now
    ensures var due := begun + Patience(r);
            var waiting := Launch(s, r, Millis(begun));
            var next := TickStep(waiting, Millis(now));
            && (TimedOut(next) || next == waiting)
            && ((TimedOut(next) <==> now >= due)
                <==> (if now >= due then now - due else due - now - 1) % WORD < 0x8000_0000)
            && (r.timeoutMs <= 0x8000_0000 && now < due + 0x8000_0000 ==> (TimedOut(next) <==> now >= due))
  {
    var due := begun + Patience(r);
    assert (Millis(begun) + Patience(r)) % WORD == Millis(due);
    DeadlineByUnboundedTime(now, due);
    hide Millis, Reached;
  }

  /** A tick more than 2^31 ms before the deadline takes a longer timeout for over, the very first one included. */
  lemma LongTimeoutIsOver(s: Session, r: Request, begun: nat, now: nat)
    requires s.phase == Idle && r.timeoutMs < WORD && begun <= now && now + 0x8000_0000 < begun + Patience(r)
    ensures TimedOut(TickStep(Launch(s, r, Millis(begun)), Millis(now)))
  {
    TimesOutOnTime(s, r, begun, now);
  }

  // ---- The object ----------------------------------------------------------

  class AtSession {
    const q: array<Request>
    const hq: array<Request>
    var qHead: nat
    var qCount: nat
    var hqHead: nat
    var hqCount: nat
    var phase: Phase
    var active: Request
    var deadlineMs: nat
    var res: Result
    var written: seq<string>

    ghost predicate Valid()
      reads this
    {
      && q != hq && q.Length == QSIZE && hq.Length == HQSIZE
      && qHead < QSIZE && qCount <= QSIZE && hqHead < HQSIZE && hqCount <= HQSIZE && deadlineMs < WORD
    }

    ghost function View(): (s: Session)
      requires Valid()
      reads this, q, hq
      ensures s.Valid() && |s.high| == hqCount && |s.normal| == qCount
    {
      WindowSize(hq[..], hqHead, hqCount);
      WindowSize(q[..], qHead, qCount);
      Session(phase, Window(hq[..], hqHead, hqCount), Window(q[..], qHead, qCount), active, deadlineMs, res, written)
    }

    constructor ()
      ensures Valid() && View() == Fresh && fresh(q) && fresh(hq)
    {
      q := new Request[QSIZE];
      hq := new Request[HQSIZE];
      qHead, qCount, hqHead, hqCount := 0, 0, 0, 0;
      phase, active, deadlineMs, res, written := Idle, NoRequest, 0, NoResult, [];
    }

    method Reset()
      requires Valid()
      modifies this
      ensures Valid() && View() == Fresh.(written := old(written))
    {
      qHead, qCount, hqHead, hqCount := 0, 0, 0, 0;
      phase, active, deadlineMs, res := Idle, NoRequest, 0, NoResult;
    }

    method DoEnqueue(r: Request) returns (ok: bool)
      requires Valid()
      modifies this, q
      ensures Valid() && View() == Step(old(View()), Enqueue(r)) && ok == (|old(View()).normal| < QSIZE)
    {
      hide Window;
      if qCount >= QSIZE {
        return false;
      }
      WindowSnoc(q[..], qHead, qCount, r);
      var idx := Advanced(qHead, qCount, QSIZE);
      ghost var before := q[..];
      q[idx] := r;
      assert q[..] == before[idx := r];
      qCount := qCount + 1;
      return true;
    }

    method DoEnqueueHigh(r: Request) returns (ok: bool)
      requires Valid()
      modifies this, hq
      ensures Valid() && View() == Step(old(View()), EnqueueHigh(r)) && ok == (|old(View()).high| < HQSIZE)
    {
      hide Window;
      if hqCount >= HQSIZE {
        return false;
      }
      WindowSnoc(hq[..], hqHead, hqCount, r);
      var idx := Advanced(hqHead, hqCount, HQSIZE);
      ghost var before := hq[..];
      hq[idx] := r;
      assert hq[..] == before[idx := r];
      hqCount := hqCount + 1;
      return true;
    }

    method StartNext(now: nat)
      requires Valid() && phase == Idle
      modifies this
      ensures Valid() && View() == TickStep(old(View()), now)
    {
      hide Window;
      if hqCount == 0 && qCount == 0 {
        return;
      }
      if hqCount > 0 {
        WindowTail(hq[..], hqHead, hqCount);
        active := hq[hqHead];
        hqHead := Advanced(hqHead, 1, HQSIZE);
        hqCount := hqCount - 1;
      } else {
        WindowTail(q[..], qHead, qCount);
        active := q[qHead];
        qHead := Advanced(qHead, 1, QSIZE);
        qCount := qCount - 1;
      }
      res := NoResult;
      deadlineMs := (now + (if active.timeoutMs != 0 then active.timeoutMs else 1)) % WORD;
      phase := Waiting;
      written := written + [active.cmd];
    }

    method Complete(ok: bool, err: bool, timeout: bool)
      requires Valid()
      modifies this`res, this`phase
      ensures Valid() && View() == Finish(old(View()), old(res), ok, err, timeout)
    {
      res := res.(ok := ok, error := err, timedOut := timeout, tag := active.tag);
      phase := Done;
    }

    method DoTick(now: nat)
      requires Valid()
      modifies this
      ensures Valid() && View() == Step(old(View()), Tick(now))
    {
      hide Window, Launch;
      if phase == Idle {
        StartNext(now);
        return;
      }
      if phase != Waiting {
        return;
      }
      if Since(now, deadlineMs) < 0x8000_0000 {
        Complete(false, false, true);
      }
    }

    method DoByte(c: char)
      requires Valid()
      modifies this`res, this`phase
      ensures Valid() && View() == Step(old(View()), OnByte(c))
    {
      hide Window;
      if phase != Waiting {
        return;
      }
      if active.ExpectsPrompt() {
        if c == '>' {
          res := res.(gotPrompt := true);
          Complete(true, false, false);
        }
      }
    }

    method Capture(line: string)
      modifies this`res
      ensures res == Captured(old(res), line)
    {
      if res.captured.None? {
        res := res.(captured := Some(line[..Min(|line|, CAPTURE)]));
      }
    }

    method DoLine(line: string)
      requires Valid()
      modifies this`res, this`phase
      ensures Valid() && View() == Step(old(View()), OnLine(line))
    {
      hide Window, Contains, Captured;
      if phase != Waiting || line == [] {
        return;
      }
      if active.ExpectsPrefix() {
        if active.prefix.Some? && active.prefix.value <= line {
          Capture(line);
          res := res.(gotPrefix := true);
        }
      }
      if active.ExpectsOk() {
        if line == "OK" {
          Complete(true, false, false);
          return;
        }
        if line == "ERROR" || Contains(line, "+CME ERROR") {
          Complete(false, true, false);
          return;
        }
      }
      if active.ExpectsAny() {
        Capture(line);
        Complete(true, false, false);
      }
    }

    method TakeResult() returns (r: Result)
      requires Valid()
      modifies this
      ensures Valid() && (View(), r) == TakeStep(old(View()))
    {
      hide Window;
      if phase != Done {
        return NoResult;
      }
      r := res;
      res, active, deadlineMs, phase := NoResult, NoRequest, 0, Idle;
    }
  }
}
