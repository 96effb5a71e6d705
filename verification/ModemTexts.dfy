/** The texts of the modem as the byte hook takes them: its words by name, the starts of lines, and +IPD frames. */
module ModemTexts {
  import opened Bytes
  import opened ModemFilter

  /** The bytes of a text. */
  function Codes(s: string): (b: seq<byte>)
    requires forall i | 0 <= i < |s| :: (s[i] as int) < 128
    ensures |b| == |s| && forall i | 0 <= i < |s| :: b[i] == s[i] as int
  {
    seq(|s|, i requires 0 <= i < |s| => s[i] as int)
  }

  // ---- Words ---------------------------------------------------------------

  lemma ShortWords()
    ensures OK == Codes("OK") && RDY == Codes("RDY") && ERROR == Codes("ERROR") && CLOSED == Codes("CLOSED")
  {
  }

  lemma LongWords()
    ensures CONNECT_OK == Codes("CONNECT OK")
    ensures SEND_OK == Codes("SEND OK")
    ensures SEND_FAIL == Codes("SEND FAIL")
  {
  }

  /** The lines the modem sends by themselves, and which of them are recognised. */
  lemma LinesOfTheModem()
    ensures IsControl(Codes("OK") + [0x0D, 0x0A]) && IsControl(Codes("ERROR") + [0x0D, 0x0A])
    ensures IsControl(Codes("SEND OK") + [0x0D, 0x0A]) && IsControl(Codes("SEND FAIL") + [0x0D, 0x0A])
    ensures IsControl(Codes("CONNECT OK") + [0x0D, 0x0A])
    ensures !IsControl(Codes("CLOSED") + [0x0D, 0x0A]) && !IsControl(Codes("RDY") + [0x0D, 0x0A])
  {
    hide IsControl, Trim;
    ShortWords();
    LongWords();
    BareWordsPass();
    assert Trim([0x0D, 0x0A]) == [] by { LineEndIsBlank(); }
    WordsRecognised([0x0D, 0x0A]);
  }

  lemma LineEndIsBlank()
    ensures Trim([0x0D, 0x0A]) == []
  {
    var end: seq<byte> := [0x0D, 0x0A];
    assert end[..1] == [0x0D] && [0x0D as byte][..0] == [];
    assert Trim(end) == Trim([0x0D]) == Trim([]);
  }

  /** Command echoes, unsolicited codes and prompts are recognised whatever follows. */
  lemma EchoesAndCodes(rest: seq<byte>)
    ensures IsControl(Codes("AT") + rest) && IsControl([0x2B] + rest) && IsControl([0x3E] + rest)
  {
    var at: seq<byte> := [0x41, 0x54];
    assert Codes("AT") == at;
    TrimBehind(at, rest);
    TrimBehind([0x2B], rest);
    TrimBehind([0x3E], rest);
    hide Trim, Codes;
  }

  /** A line that is recognised is blank or starts with one of the first letters of these words. */
  lemma FirstLetters(line: seq<byte>)
    ensures IsControl(line) ==> Trim(line) == [] || Trim(line)[0] in Codes("AOERCS>+")
  {
    var firsts := Codes("AOERCS>+");
    assert firsts == [0x41, 0x4F, 0x45, 0x52, 0x43, 0x53, 0x3E, 0x2B];
    hide Trim, Codes;
  }

  // ---- The starts of lines -------------------------------------------------

  /** What becomes of a byte when nothing is pending on an open connection: a first letter of modem text waits for its
      line, a line end or a prompt is removed, and everything else is payload at once. */
  lemma FirstByte(c: byte)
    ensures var (next, out) := RawStep(Raw([], 0), true, c);
            if c in {0x0D, 0x0A} then next == Raw([], 0) && out == []
            else if c == 0x3E then next == Raw([], 1) && out == []
            else if c in Codes("+AOECSRNF") then next == Raw([c], 0) && out == []
            else next == Raw([], 0) && out == [c]
  {
    var letters := Codes("+AOECSRNF");
    assert letters == [0x2B, 0x41, 0x4F, 0x45, 0x43, 0x53, 0x52, 0x4E, 0x46];
  }

  /** Without a connection text is collected up to its line end and dropped; only a pending line that runs into a byte
      outside tab, line ends and 0x20 to 0x7E, or into the end of its buffer of 64, is passed on, without that byte. */
  lemma Offline(r: Raw, c: byte)
    requires |r.line| < 64
    ensures RawStep(r, false, c).1
         == if !(c in {0x09, 0x0A, 0x0D} || 0x20 <= c <= 0x7E) || |r.line| == 63 then r.line else []
  {
    assert r.line + [] == r.line;
    hide IsControl;
  }

  // ---- +IPD frames ---------------------------------------------------------

  predicate AllDigits(ds: seq<byte>) { forall i | 0 <= i < |ds| :: 0x30 <= ds[i] <= 0x39 }

  /** The number written by digits, highest first. */
  function ValueOf(ds: seq<byte>): nat
    requires AllDigits(ds)
  {
    if ds == [] then 0 else 10 * ValueOf(ds[..|ds| - 1]) + (ds[|ds| - 1] as int - 0x30)
  }

  /** The announcement of `ds` bytes of payload. */
  function Announce(ds: seq<byte>): seq<byte> { [0x2B, 0x49, 0x50, 0x44, 0x2C] + ds }

  lemma AnnounceText()
    ensures Announce([]) == Codes("+IPD,")
  {
  }

  lemma {:induction false} RunsAppend(ip: Ip, r: Raw, a: seq<byte>, b: seq<byte>)
    ensures var m, whole := RunBytes(ip, r, a), RunBytes(ip, r, a + b);
            var n := RunBytes(m.0, m.1, b);
            whole == (n.0, n.1, m.2 + n.2)
    decreases |a|
  {
    hide ByteStep;
    if a == [] {
      assert a + b == b;
      var n := RunBytes(ip, r, b);
      assert [] + n.2 == n.2;
    } else {
      assert (a + b)[1..] == a[1..] + b;
      var step := ByteStep(ip, r, true, a[0]);
      RunsAppend(step.0, step.1, a[1..], b);
      var m := RunBytes(step.0, step.1, a[1..]);
      Associate(step.2, m.2, RunBytes(m.0, m.1, b).2);
    }
  }

  lemma RunsOne(ip: Ip, r: Raw, c: byte)
    ensures RunBytes(ip, r, [c]) == ByteStep(ip, r, true, c)
  {
    hide ByteStep;
    assert [c][1..] == [];
    var step := ByteStep(ip, r, true, c);
    assert RunBytes(step.0, step.1, []) == (step.0, step.1, []);
    assert step.2 + [] == step.2;
  }

  /** A run of the byte hook on an open connection. */
  function HookRun(ip: Ip, r: Raw, bs: seq<byte>): (Ip, Raw, seq<byte>) { RunBytes(ip, r, bs) }

  /** One more byte behind a run that is known. */
  lemma HookSnoc(ip: Ip, r: Raw, a: seq<byte>, c: byte, m: (Ip, Raw, seq<byte>), step: (Ip, Raw, seq<byte>))
    requires HookRun(ip, r, a) == m && ByteStep(m.0, m.1, true, c) == step
    ensures HookRun(ip, r, a + [c]) == (step.0, step.1, m.2 + step.2)
  {
    hide ByteStep;
    RunsAppend(ip, r, a, [c]);
    RunsOne(m.0, m.1, c);
  }

  /** A run behind one that is known. */
  lemma HookAppend(ip: Ip, r: Raw, a: seq<byte>, b: seq<byte>, m: (Ip, Raw, seq<byte>), n: (Ip, Raw, seq<byte>))
    requires HookRun(ip, r, a) == m && HookRun(m.0, m.1, b) == n
    ensures HookRun(ip, r, a + b) == (n.0, n.1, m.2 + n.2)
  {
    hide ByteStep;
    RunsAppend(ip, r, a, b);
  }

  /** One letter of the announcement: the matcher moves on and the letter waits in the pending line. */
  lemma LetterWaits(ip: Ip, line: seq<byte>, c: byte)
    requires ip.state != ReadData && IpStep(ip, c).state != ReadData
    requires 0x20 <= c <= 0x7E && |line| < 62 && (line == [] ==> c == 0x2B)
    ensures ByteStep(ip, Raw(line, 0), true, c) == (IpStep(ip, c), Raw(line + [c], 0), [])
  {
    hide IsControl;
    var none: seq<byte> := [];
    assert none + [c] == [c] && none + none == none;
  }

  /** The letter as one more byte of a silent run. */
  lemma SilentSnoc(ip: Ip, r: Raw, a: seq<byte>, c: byte, now: Ip, next: Ip, line: seq<byte>)
    requires HookRun(ip, r, a) == (now, Raw(line, 0), [])
    requires ByteStep(now, Raw(line, 0), true, c) == (next, Raw(line + [c], 0), [])
    ensures HookRun(ip, r, a + [c]) == (next, Raw(line + [c], 0), [])
  {
    hide ByteStep, HookRun;
    var none: seq<byte> := [];
    assert none + none == none;
    HookSnoc(ip, r, a, c, (now, Raw(line, 0), none), (next, Raw(line + [c], 0), none));
  }

  /** The matcher after `k` bytes of "+IPD,". */
  function Matched(len: nat, read: nat, k: nat): Ip {
    match k
    case 0 => Ip(Idle, len, read)
    case 1 => Ip(MatchI, len, read)
    case 2 => Ip(MatchP, len, read)
    case 3 => Ip(MatchD, len, read)
    case 4 => Ip(MatchComma, len, read)
    case _ => Ip(ReadLen, 0, 0)
  }

  lemma LetterMatches(len: nat, read: nat, k: nat)
    requires k < 5
    ensures |Announce([])| == 5
    ensures ByteStep(Matched(len, read, k), Raw(Announce([])[..k], 0), true, Announce([])[k])
         == (Matched(len, read, k + 1), Raw(Announce([])[..k] + [Announce([])[k]], 0), [])
  {
    LetterWaits(Matched(len, read, k), Announce([])[..k], Announce([])[k]);
    hide ByteStep;
  }

  lemma {:induction false} AnnounceStarts(len: nat, read: nat, k: nat)
    requires k <= 5
    ensures |Announce([])| == 5
    ensures HookRun(Ip(Idle, len, read), Raw([], 0), Announce([])[..k])
         == (Matched(len, read, k), Raw(Announce([])[..k], 0), [])
  {
    hide ByteStep;
    var a := Announce([]);
    if k == 0 {
      assert a[..0] == [];
    } else {
      AnnounceStarts(len, read, k - 1);
      LetterMatches(len, read, k - 1);
      hide Announce, Matched, HookRun;
      assert a[..k] == a[..k - 1] + [a[k - 1]];
      SilentSnoc(Ip(Idle, len, read), Raw([], 0), a[..k - 1], a[k - 1], Matched(len, read, k - 1), Matched(len, read, k),
                 a[..k - 1]);
    }
  }

  /** One digit of the length. */
  lemma DigitWaits(front: seq<byte>, d: byte, n: nat)
    requires 0x30 <= d <= 0x39 && |front| < 5 && 10 * n + (d as int - 0x30) <= 65535
    ensures ByteStep(Ip(ReadLen, n, 0), Raw(Announce(front), 0), true, d)
         == (Ip(ReadLen, 10 * n + (d as int - 0x30), 0), Raw(Announce(front) + [d], 0), [])
  {
    LetterWaits(Ip(ReadLen, n, 0), Announce(front), d);
    hide ByteStep;
  }

  lemma AnnounceSnoc(front: seq<byte>, d: byte)
    ensures Announce(front + [d]) == Announce(front) + [d]
  {
    Associate(Announce([]), front, [d]);
  }

  /** After the digits the matcher knows the length, and the announcement waits in the pending line. */
  lemma {:induction false} AnnounceRuns(len: nat, read: nat, ds: seq<byte>)
    requires AllDigits(ds) && |ds| <= 5 && ValueOf(ds) <= 65535
    ensures HookRun(Ip(Idle, len, read), Raw([], 0), Announce(ds)) == (Ip(ReadLen, ValueOf(ds), 0), Raw(Announce(ds), 0), [])
  {
    hide ByteStep, HookRun;
    if ds == [] {
      AnnounceStarts(len, read, 5);
      assert Announce([])[..5] == Announce([]);
    } else {
      var n := |ds| - 1;
      var front, d := ds[..n], ds[n];
      assert ds == front + [d];
      AnnounceRuns(len, read, front);
      AnnounceSnoc(front, d);
      DigitWaits(front, d, ValueOf(front));
      hide Announce;
      SilentSnoc(Ip(Idle, len, read), Raw([], 0), Announce(front), d, Ip(ReadLen, ValueOf(front), 0), Ip(ReadLen, ValueOf(ds), 0),
                 Announce(front));
    }
  }

  /** All but the last byte of the payload go straight to the reader. */
  lemma {:induction false} PayloadRuns(len: nat, read: nat, r: Raw, data: seq<byte>)
    requires read + |data| < len
    ensures HookRun(Ip(ReadData, len, read), r, data) == (Ip(ReadData, len, read + |data|), r, data)
    decreases |data|
  {
    if data != [] {
      PayloadRuns(len, read + 1, r, data[1..]);
      assert [data[0]] + data[1..] == data;
    }
  }

  /** What follows the payload. */
  function Trailer(ds: seq<byte>, last: byte): seq<byte> {
    if last in {0x09, 0x0A, 0x0D} || 0x20 <= last <= 0x7E then [] else Announce(ds) + [last]
  }

  /** The last byte ends data mode, so that it goes through the filter as well, behind the announcement: a text byte
      joins the pending line or, as a line end, drops it; any other flushes the announcement and comes a second time. */
  lemma LastByte(len: nat, read: nat, ds: seq<byte>, c: byte)
    requires read + 1 >= len && |ds| <= 5
    ensures var step := ByteStep(Ip(ReadData, len, read), Raw(Announce(ds), 0), true, c);
            && step.0 == Ip(Idle, len, read + 1) && step.1.leak == 0
            && step.2 == [c] + Trailer(ds, c)
  {
    var line := Announce(ds) + [c];
    if c == LF {
      AnnounceIsControl(ds);
    }
    assert [c] + [] == [c];
    hide IsControl;
  }

  lemma AnnounceIsControl(ds: seq<byte>)
    ensures IsControl(Announce(ds) + [LF])
  {
    var rest: seq<byte> := [0x49, 0x50, 0x44, 0x2C] + ds + [LF];
    assert Announce(ds) + [LF] == [0x2B] + rest;
    EchoesAndCodes(rest);
    hide IsControl;
  }

  lemma HeadRuns(len: nat, read: nat, ds: seq<byte>, n: nat)
    requires AllDigits(ds) && |ds| <= 5 && n == ValueOf(ds) <= 65535
    ensures HookRun(Ip(Idle, len, read), Raw([], 0), Announce(ds) + [0x3A]) == (Ip(ReadData, n, 0), Raw(Announce(ds), 0), [])
  {
    AnnounceRuns(len, read, ds);
    ColonReads(n, Announce(ds));
    hide ByteStep, Announce, ValueOf, AllDigits, HookRun;
    var none: seq<byte> := [];
    assert none + none == none;
    HookSnoc(Ip(Idle, len, read), Raw([], 0), Announce(ds), 0x3A,
             (Ip(ReadLen, n, 0), Raw(Announce(ds), 0), none), (Ip(ReadData, n, 0), Raw(Announce(ds), 0), none));
  }

  lemma ColonReads(n: nat, line: seq<byte>)
    ensures ByteStep(Ip(ReadLen, n, 0), Raw(line, 0), true, 0x3A) == (Ip(ReadData, n, 0), Raw(line, 0), [])
  {
  }

  lemma BodyRuns(ds: seq<byte>, data: seq<byte>)
    requires |ds| <= 5 && data != []
    ensures HookRun(Ip(ReadData, |data|, 0), Raw(Announce(ds), 0), data).2 == data + Trailer(ds, data[|data| - 1])
  {
    hide ByteStep, Announce, Trailer, HookRun;
    var n := |data| - 1;
    var front, last := data[..n], data[n];
    var line := Raw(Announce(ds), 0);
    PayloadRuns(|data|, 0, line, front);
    LastByte(|data|, n, ds, last);
    HookSnoc(Ip(ReadData, |data|, 0), line, front, last, (Ip(ReadData, |data|, n), line, front),
             ByteStep(Ip(ReadData, |data|, n), line, true, last));
    assert front + [last] == data;
    Associate(front, [last], Trailer(ds, last));
  }

  /** A payload announced by +IPD with its length arrives as sent exactly when its last byte is text, a tab or a line
      end; any other last byte is followed by the announcement and itself once more. */
  lemma IpdPayloadExactly(len: nat, read: nat, ds: seq<byte>, data: seq<byte>)
    requires AllDigits(ds) && |ds| <= 5 && 1 <= ValueOf(ds) == |data| <= 65535
    ensures var passed, last := RunBytes(Ip(Idle, len, read), Raw([], 0), Announce(ds) + [0x3A] + data).2, data[|data| - 1];
            && (passed == data <==> last in {0x09, 0x0A, 0x0D} || 0x20 <= last <= 0x7E)
            && (passed != data ==> passed == data + (Announce(ds) + [last]))
  {
    IpdPasses(len, read, ds, data);
    var t := Trailer(ds, data[|data| - 1]);
    assert (t == [] ==> data + t == data) && (t != [] ==> |data + t| > |data|);
    hide Announce, ValueOf, AllDigits;
  }

  lemma IpdPasses(len: nat, read: nat, ds: seq<byte>, data: seq<byte>)
    requires AllDigits(ds) && |ds| <= 5 && 1 <= ValueOf(ds) == |data| <= 65535
    ensures HookRun(Ip(Idle, len, read), Raw([], 0), Announce(ds) + [0x3A] + data).2 == data + Trailer(ds, data[|data| - 1])
  {
    HeadRuns(len, read, ds, |data|);
    BodyRuns(ds, data);
    hide HookRun, Announce, Trailer, ValueOf, AllDigits;
    var m := (Ip(ReadData, |data|, 0), Raw(Announce(ds), 0), []);
    var n := HookRun(m.0, m.1, data);
    HookAppend(Ip(Idle, len, read), Raw([], 0), Announce(ds) + [0x3A], data, m, n);
    assert [] + n.2 == n.2;
  }
}
