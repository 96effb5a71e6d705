/** The transport's byte hook: the +IPD matcher and the raw filter that separates modem text from payload. */
module ModemFilter {
  import opened Bytes

  const RAW_LINE_BUF := 64

  const TAB: byte := 0x09
  const LF: byte := 0x0A
  const CR: byte := 0x0D
  const SPACE: byte := 0x20
  const PLUS: byte := 0x2B
  const PROMPT: byte := 0x3E

  // ---- Control lines -------------------------------------------------------

  /** Without trailing CR, LF, spaces and tabs. */
  function Trim(s: seq<byte>): (t: seq<byte>)
    ensures |t| <= |s|
  {
    if s == [] then []
    else if s[|s| - 1] in {CR, LF, SPACE, TAB} then Trim(s[..|s| - 1])
    else s
  }

  const OK: seq<byte> := [0x4F, 0x4B]
  const ERROR: seq<byte> := [0x45, 0x52, 0x52, 0x4F, 0x52]
  const RDY: seq<byte> := [0x52, 0x44, 0x59]
  const CLOSED: seq<byte> := [0x43, 0x4C, 0x4F, 0x53, 0x45, 0x44]
  const CONNECT_OK: seq<byte> := [0x43, 0x4F, 0x4E, 0x4E, 0x45, 0x43, 0x54, 0x20, 0x4F, 0x4B]
  const SEND_OK: seq<byte> := [0x53, 0x45, 0x4E, 0x44, 0x20, 0x4F, 0x4B]
  const SEND_FAIL: seq<byte> := [0x53, 0x45, 0x4E, 0x44, 0x20, 0x46, 0x41, 0x49, 0x4C]

  /** At least `least` bytes long and beginning with `word`. */
  predicate Begins(s: seq<byte>, least: nat, word: seq<byte>) {
    |s| >= least && word <= s
  }

  predicate IsControl(line: seq<byte>) {
    var s := Trim(line);
    || s == []
    || Begins(s, 2, [0x41, 0x54])
    || s == OK
    || Begins(s, 5, ERROR)
    || Begins(s, 4, RDY)
    || Begins(s, 7, CLOSED)
    || Begins(s, 10, CONNECT_OK)
    || Begins(s, 7, SEND_OK)
    || Begins(s, 9, SEND_FAIL)
    || s[0] == PROMPT
    || s[0] == PLUS
  }

  method IsControlLine(line: seq<byte>) returns (r: bool)
    ensures r == IsControl(line)
  {
    var len: nat := |line|;
    assert line[..len] == line;
    while len > 0 && line[len - 1] in {CR, LF, SPACE, TAB}
      invariant len <= |line| && Trim(line) == Trim(line[..len])
    {
      assert line[..len][..len - 1] == line[..len - 1];
      len := len - 1;
    }
    var s := line[..len];
    assert Trim(line) == s;
    if len == 0 { return true; }
    if len >= 2 && s[0] == 0x41 && s[1] == 0x54 { return true; }
    if len == 2 && s[0] == 0x4F && s[1] == 0x4B { return true; }
    if len >= 5 && s[..5] == ERROR { return true; }
    if len >= 4 && s[..3] == RDY { return true; }
    if len >= 7 && s[..6] == CLOSED { return true; }
    if len >= 10 && s[..10] == CONNECT_OK { return true; }
    if len >= 7 && s[..7] == SEND_OK { return true; }
    if len >= 9 && s[..9] == SEND_FAIL { return true; }
    if s[0] == PROMPT { return true; }
    if s[0] == PLUS { return true; }
    return false;
  }

  lemma ClosedRecognised(rest: seq<byte>)
    ensures IsControl(CLOSED + rest) <==> Trim(rest) != []
  {
    TrimBehind(CLOSED, rest);
    FirstBytes(CLOSED + Trim(rest), CLOSED);
    hide Trim;
  }

  lemma RdyRecognised(rest: seq<byte>)
    ensures IsControl(RDY + rest) <==> Trim(rest) != []
  {
    TrimBehind(RDY, rest);
    FirstBytes(RDY + Trim(rest), RDY);
    hide Trim;
  }

  lemma OkRecognised(rest: seq<byte>)
    ensures IsControl(OK + rest) <==> Trim(rest) == []
  {
    TrimBehind(OK, rest);
    FirstBytes(OK + Trim(rest), OK);
    hide Trim;
  }

  lemma WholeWordsRecognised(rest: seq<byte>)
    ensures IsControl(ERROR + rest) && IsControl(CONNECT_OK + rest) && IsControl(SEND_OK + rest) && IsControl(SEND_FAIL + rest)
  {
    TrimBehind(ERROR, rest);
    TrimBehind(CONNECT_OK, rest);
    TrimBehind(SEND_OK, rest);
    TrimBehind(SEND_FAIL, rest);
    hide Trim;
  }

  /** Two of the words the source lists as control lines are not recognised on a line of their own: their length tests
      ask for one byte more than the word has. What follows must hold more than blanks and line ends, and OK is
      recognised exactly when it does not; the other words are recognised whatever follows. */
  lemma WordsRecognised(rest: seq<byte>)
    ensures IsControl(CLOSED + rest) <==> Trim(rest) != []
    ensures IsControl(RDY + rest) <==> Trim(rest) != []
    ensures IsControl(OK + rest) <==> Trim(rest) == []
    ensures IsControl(ERROR + rest) && IsControl(CONNECT_OK + rest) && IsControl(SEND_OK + rest) && IsControl(SEND_FAIL + rest)
  {
    hide IsControl, Trim;
    ClosedRecognised(rest);
    RdyRecognised(rest);
    OkRecognised(rest);
    WholeWordsRecognised(rest);
  }

  /** The lines the modem sends. */
  lemma BareWordsPass()
    ensures !IsControl(CLOSED + [CR, LF]) && !IsControl(RDY + [CR, LF])
  {
    assert [CR, LF][..1] == [CR] && [CR][..0] == [];
    assert Trim([CR, LF]) == Trim([CR]) == Trim([]) == [];
    WordsRecognised([CR, LF]);
  }

  /** Words that begin differently are told apart by their first two bytes. */
  lemma FirstBytes(s: seq<byte>, word: seq<byte>)
    requires |word| >= 2 && word <= s
    ensures s[0] == word[0] && s[1] == word[1]
    ensures Begins(s, 2, [0x41, 0x54]) ==> word[0] == 0x41
    ensures Begins(s, 4, RDY) ==> word[0] == 0x52
    ensures Begins(s, 5, ERROR) ==> word[0] == 0x45
    ensures Begins(s, 7, CLOSED) ==> word[0] == 0x43 && word[1] == 0x4C
    ensures Begins(s, 10, CONNECT_OK) ==> word[0] == 0x43 && word[1] == 0x4F
    ensures Begins(s, 7, SEND_OK) ==> word[0] == 0x53
    ensures Begins(s, 9, SEND_FAIL) ==> word[0] == 0x53
  {
  }

  /** Blanks and line ends are trimmed from what follows a word. */
  lemma {:induction false} TrimBehind(word: seq<byte>, rest: seq<byte>)
    requires word != [] && word[|word| - 1] !in {CR, LF, SPACE, TAB}
    ensures Trim(word + rest) == word + Trim(rest)
    decreases |rest|
  {
    var s, n := word + rest, |rest| - 1;
    if rest == [] {
      assert s == word;
    } else {
      assert s[|s| - 1] == rest[n] && s[..|s| - 1] == word + rest[..n];
      TrimBehind(word, rest[..n]);
    }
  }

  // ---- The +IPD matcher ----------------------------------------------------

  datatype IpState = Idle | MatchI | MatchP | MatchD | MatchComma | ReadLen | ReadData

  datatype Ip = Ip(state: IpState, len: nat, read: nat)

  function IpStep(ip: Ip, c: byte): Ip {
    match ip.state
    case Idle => if c == PLUS then ip.(state := MatchI) else ip
    case MatchI => ip.(state := if c == 0x49 then MatchP else Idle)
    case MatchP => ip.(state := if c == 0x50 then MatchD else Idle)
    case MatchD => ip.(state := if c == 0x44 then MatchComma else Idle)
    case MatchComma => if c == 0x2C then Ip(ReadLen, 0, 0) else ip.(state := Idle)
    case ReadLen =>
      if c in {SPACE, CR, LF, TAB} then ip
      else if 0x30 <= c <= 0x39 then ip.(len := Min(ip.len * 10 + (c as int - 0x30), 65535))
      else if c == 0x3A then Ip(ReadData, ip.len, 0)
      else ip.(state := Idle)
    case ReadData =>
      var read := ip.read + 1;
      Ip(if read >= ip.len then Idle else ReadData, ip.len, read)
  }

  // ---- The raw filter ------------------------------------------------------

  predicate Printable(b: byte) { b in {CR, LF, TAB} || 0x20 <= b <= 0x7E }

  /** The first letters of the texts a modem sends. */
  predicate MaybeModemText(b: byte) {
    b in {PLUS, 0x41, 0x4F, 0x45, 0x43, 0x53, 0x52, 0x4E, 0x46}
  }

  /** The pending line and the prompt leak: 0 none, 1 after '>', 2 after '>' and CR. */
  datatype Raw = Raw(line: seq<byte>, leak: nat)
  {
    predicate Valid() { |line| < RAW_LINE_BUF && leak <= 2 && (leak != 0 ==> line == []) }
  }

  /** The filter's next state and what it passes on. */
  function RawStep(r: Raw, connected: bool, c: byte): (Raw, seq<byte>) {
    if connected && r.leak == 1 && c == CR then (r.(leak := 2), [])
    else if connected && r.leak in {1, 2} && c == LF then (r.(leak := 0), [])
    else
      var leak := if connected then 0 else r.leak;
      if !Printable(c) then (Raw([], 0), r.line + (if connected then [c] else []))
      else if connected && r.line == [] && c == PROMPT then (Raw([], 1), [])
      else if connected && r.line == [] && c in {CR, LF} then (Raw([], leak), [])
      else if connected && r.line == [] && !MaybeModemText(c) then (Raw([], leak), [c])
      else if |r.line| + 1 >= RAW_LINE_BUF then (Raw([], leak), r.line + (if connected then [c] else []))
      else
        var line := r.line + [c];
        if c != LF then (Raw(line, leak), [])
        else (Raw([], leak), if connected && !IsControl(line) then line else [])
  }

  /** The whole byte hook: in +IPD data mode the byte is payload; every byte that does not leave the matcher in data
      mode also goes through the raw filter. */
  function ByteStep(ip: Ip, r: Raw, connected: bool, c: byte): (Ip, Raw, seq<byte>) {
    var next := IpStep(ip, c);
    var direct := if ip.state == ReadData then [c] else [];
    if next.state == ReadData then (next, r, direct)
    else
      var f := RawStep(r, connected, c);
      (next, f.0, direct + f.1)
  }

  // ---- What the filter removes ---------------------------------------------

  /** A stretch of the received bytes and what became of it. */
  datatype Item =
    | Kept(bytes: seq<byte>)
    | Control(line: seq<byte>)
    | LineBreak(b: byte)
    | PromptMark(bytes: seq<byte>)

  function Span(i: Item): seq<byte> {
    match i
    case Kept(bytes) => bytes
    case Control(line) => line
    case LineBreak(b) => [b]
    case PromptMark(bytes) => bytes
  }

  function Share(i: Item): seq<byte> { if i.Kept? then i.bytes else [] }

  function Received(items: seq<Item>): seq<byte> {
    if items == [] then [] else Span(items[0]) + Received(items[1..])
  }

  function Passed(items: seq<Item>): seq<byte> {
    if items == [] then [] else Share(items[0]) + Passed(items[1..])
  }

  predicate AllPrintable(s: seq<byte>) { forall i | 0 <= i < |s| :: Printable(s[i]) }

  /** Only complete control lines, line ends and prompts with their line end are removed. */
  predicate ItemOk(i: Item) {
    match i
    case Kept(_) => true
    case Control(line) => line != [] && |line| < RAW_LINE_BUF && line[|line| - 1] == LF && IsControl(line) && AllPrintable(line)
    case LineBreak(b) => b in {CR, LF}
    case PromptMark(bytes) => bytes in {[PROMPT], [PROMPT, CR], [PROMPT, LF], [PROMPT, CR, LF]}
  }

  predicate AllOk(items: seq<Item>) { forall i | 0 <= i < |items| :: ItemOk(items[i]) }

  lemma {:induction false} ReceivedSnoc(items: seq<Item>, i: Item)
    ensures Received(items + [i]) == Received(items) + Span(i)
    ensures Passed(items + [i]) == Passed(items) + Share(i)
  {
    hide Span, Share;
    if items == [] {
      assert [] + [i] == [i] && [i][1..] == [];
    } else {
      ReceivedSnoc(items[1..], i);
      assert (items + [i])[0] == items[0] && (items + [i])[1..] == items[1..] + [i];
      Associate(Span(items[0]), Received(items[1..]), Span(i));
      Associate(Share(items[0]), Passed(items[1..]), Share(i));
    }
  }

  /** The last item is the prompt the leak state speaks of. */
  predicate LeakShown(items: seq<Item>, leak: nat) {
    && (leak == 1 ==> items != [] && items[|items| - 1] == PromptMark([PROMPT]))
    && (leak == 2 ==> items != [] && items[|items| - 1] == PromptMark([PROMPT, CR]))
  }

  /** `items` accounts for everything received so far: what was passed on, what was removed and why, and what is pending. */
  ghost predicate Explains(items: seq<Item>, received: seq<byte>, passed: seq<byte>, r: Raw) {
    && Received(items) + r.line == received && Passed(items) == passed
    && AllOk(items) && LeakShown(items, r.leak) && r.Valid() && AllPrintable(r.line)
  }

  function RunRaw(r: Raw, bs: seq<byte>): (Raw, seq<byte>)
    decreases |bs|
  {
    if bs == [] then (r, [])
    else
      var step := RawStep(r, true, bs[0]);
      var rest := RunRaw(step.0, bs[1..]);
      (rest.0, step.1 + rest.1)
  }

  /** The byte belongs to the line end of a leaked prompt. */
  predicate EndsPrompt(r: Raw, c: byte) {
    (r.leak == 1 && c in {CR, LF}) || (r.leak == 2 && c == LF)
  }

  /** What the byte completes, apart from a leaked prompt; nothing when it only makes the pending line longer. */
  function Completed(r: Raw, c: byte): Option<Item> {
    var line := r.line + [c];
    if !Printable(c) then Some(Kept(line))
    else if r.line == [] && c == PROMPT then Some(PromptMark([c]))
    else if r.line == [] && c in {CR, LF} then Some(LineBreak(c))
    else if r.line == [] && !MaybeModemText(c) then Some(Kept([c]))
    else if |line| >= RAW_LINE_BUF then Some(Kept(line))
    else if c != LF then None
    else Some(if IsControl(line) then Control(line) else Kept(line))
  }

  /** The account after one more byte. */
  function Account(items: seq<Item>, r: Raw, c: byte): seq<Item> {
    if EndsPrompt(r, c) && items != [] && items[|items| - 1].PromptMark? then
      items[..|items| - 1] + [PromptMark(items[|items| - 1].bytes + [c])]
    else
      match Completed(r, c)
      case None => items
      case Some(i) => items + [i]
  }

  /** The filter passes on the share of what is completed and keeps the rest pending. */
  lemma StepCompletes(r: Raw, c: byte)
    requires r.Valid() && AllPrintable(r.line) && !EndsPrompt(r, c)
    ensures var (next, out) := RawStep(r, true, c);
            && next.Valid() && AllPrintable(next.line)
            && match Completed(r, c)
               case None => out == [] && next == Raw(r.line + [c], 0)
               case Some(i) =>
                 && ItemOk(i) && Span(i) + next.line == r.line + [c] && Share(i) == out
                 && (next.leak == 1 ==> i == PromptMark([PROMPT])) && next.leak != 2
  {
    hide IsControl, MaybeModemText;
    var line := r.line + [c];
    assert Printable(c) ==> AllPrintable(line);
    assert line + [] == line;
    assert r.line == [] ==> line == [c];
  }

  lemma AddItem(items: seq<Item>, i: Item, received: seq<byte>, passed: seq<byte>, line: seq<byte>, next: Raw)
    requires Received(items) + line == received && Passed(items) == passed && AllOk(items)
    requires ItemOk(i) && Span(i) + next.line == line && next.Valid() && AllPrintable(next.line)
    requires next.leak == 1 ==> i == PromptMark([PROMPT])
    requires next.leak == 2 ==> i == PromptMark([PROMPT, CR])
    ensures Explains(items + [i], received, passed + Share(i), next)
  {
    ReceivedSnoc(items, i);
    Associate(Received(items), Span(i), next.line);
  }

  lemma PromptGrows(items: seq<Item>, r: Raw, received: seq<byte>, passed: seq<byte>, c: byte)
    requires Explains(items, received, passed, r)
    requires EndsPrompt(r, c)
    ensures Explains(Account(items, r, c), received + [c], passed, Raw([], if c == CR then 2 else 0))
  {
    hide Received, Passed, IsControl, Printable;
    var n := |items| - 1;
    var front, mark := items[..n], items[n];
    var grown := PromptMark(mark.bytes + [c]);
    assert grown.bytes in {[PROMPT, CR], [PROMPT, LF], [PROMPT, CR, LF]} by {
      assert [PROMPT] + [CR] == [PROMPT, CR] && [PROMPT] + [LF] == [PROMPT, LF];
      assert [PROMPT, CR] + [LF] == [PROMPT, CR, LF];
    }
    assert items == front + [mark];
    ReceivedSnoc(front, mark);
    assert Received(front) + grown.bytes == received + [c];
    assert passed + [] == passed;
    AddItem(front, grown, received + [c], passed, grown.bytes, Raw([], if c == CR then 2 else 0));
  }

  /** Every byte received while connected is accounted for. */
  lemma StepExplains(items: seq<Item>, r: Raw, received: seq<byte>, passed: seq<byte>, c: byte)
    requires Explains(items, received, passed, r)
    ensures var step := RawStep(r, true, c);
            Explains(Account(items, r, c), received + [c], passed + step.1, step.0)
  {
    assert passed + [] == passed;
    if EndsPrompt(r, c) {
      PromptGrows(items, r, received, passed, c);
    } else {
      StepCompletes(r, c);
      hide RawStep, Completed, EndsPrompt, ItemOk, Span, Share, IsControl;
      var line := r.line + [c];
      assert received + [c] == Received(items) + line;
      match Completed(r, c)
      case None =>
      case Some(i) => AddItem(items, i, received + [c], passed, line, RawStep(r, true, c).0);
    }
  }

  /** While connected, what the filter passes on followed by what is pending is what was received less complete
      control lines, line ends at line start and prompts with their line end; the pending line stays below its buffer. */
  lemma {:induction false} FilterExplained(items: seq<Item>, r: Raw, received: seq<byte>, passed: seq<byte>, bs: seq<byte>)
    returns (all: seq<Item>)
    requires Explains(items, received, passed, r)
    ensures Explains(all, received + bs, passed + RunRaw(r, bs).1, RunRaw(r, bs).0)
    decreases |bs|
  {
    hide Explains, RawStep, Account;
    if bs == [] {
      assert received + [] == received && passed + [] == passed;
      all := items;
    } else {
      var step := RawStep(r, true, bs[0]);
      StepExplains(items, r, received, passed, bs[0]);
      all := FilterExplained(Account(items, r, bs[0]), step.0, received + [bs[0]], passed + step.1, bs[1..]);
      assert received + [bs[0]] + bs[1..] == received + bs;
      Associate(passed, step.1, RunRaw(step.0, bs[1..]).1);
    }
  }

  /** `t` is obtained from `s` by leaving bytes out. */
  predicate IsSubsequence(t: seq<byte>, s: seq<byte>)
    decreases |s|
  {
    if t == [] then true
    else if s == [] then false
    else (t[0] == s[0] && IsSubsequence(t[1..], s[1..])) || IsSubsequence(t, s[1..])
  }

  lemma {:induction false} SubsequenceOfSame(a: seq<byte>, t: seq<byte>, s: seq<byte>)
    requires IsSubsequence(t, s)
    ensures IsSubsequence(a + t, a + s)
    decreases |a|
  {
    if a == [] {
      assert a + t == t && a + s == s;
    } else {
      SubsequenceOfSame(a[1..], t, s);
      assert (a + t)[1..] == a[1..] + t && (a + s)[1..] == a[1..] + s;
    }
  }

  lemma {:induction false} SubsequenceSkips(a: seq<byte>, t: seq<byte>, s: seq<byte>)
    requires IsSubsequence(t, s)
    ensures IsSubsequence(t, a + s)
    decreases |a|
  {
    if a == [] {
      assert a + s == s;
    } else {
      SubsequenceSkips(a[1..], t, s);
      assert (a + s)[1..] == a[1..] + s;
    }
  }

  lemma {:induction false} PassedIsSubsequence(items: seq<Item>, line: seq<byte>)
    ensures IsSubsequence(Passed(items) + line, Received(items) + line)
  {
    if items == [] {
      SubsequenceOfSame(line, [], []);
      assert line + [] == line && [] + line == line;
    } else {
      var rest := items[1..];
      PassedIsSubsequence(rest, line);
      var here := Span(items[0]);
      Associate(here, Received(rest), line);
      Associate(Share(items[0]), Passed(rest), line);
      if items[0].Kept? {
        SubsequenceOfSame(here, Passed(rest) + line, Received(rest) + line);
      } else {
        assert Share(items[0]) + (Passed(rest) + line) == Passed(rest) + line;
        SubsequenceSkips(here, Passed(rest) + line, Received(rest) + line);
      }
    }
  }

  /** From a fresh connection: an account exists, so the passed bytes followed by the pending ones are an in-order
      subsequence of the received bytes, and the pending line never exceeds 63 bytes. */
  lemma RawFilterSound(bs: seq<byte>)
    ensures exists items :: Explains(items, bs, RunRaw(Raw([], 0), bs).1, RunRaw(Raw([], 0), bs).0)
    ensures IsSubsequence(RunRaw(Raw([], 0), bs).1 + RunRaw(Raw([], 0), bs).0.line, bs)
    ensures |RunRaw(Raw([], 0), bs).0.line| <= 63
  {
    hide RunRaw;
    var run := RunRaw(Raw([], 0), bs);
    assert Explains([], [], [], Raw([], 0));
    var items := FilterExplained([], Raw([], 0), [], [], bs);
    assert [] + bs == bs && [] + run.1 == run.1;
    assert Explains(items, bs, run.1, run.0);
    PassedIsSubsequence(items, run.0.line);
  }

  /** The bytes that are not text. */
  function Binary(s: seq<byte>): seq<byte> {
    if s == [] then [] else (if Printable(s[0]) then [] else [s[0]]) + Binary(s[1..])
  }

  lemma {:induction false} BinarySplits(a: seq<byte>, b: seq<byte>)
    ensures Binary(a + b) == Binary(a) + Binary(b)
  {
    if a == [] {
      assert a + b == b;
    } else {
      assert (a + b)[0] == a[0] && (a + b)[1..] == a[1..] + b;
      BinarySplits(a[1..], b);
    }
  }

  lemma {:induction false} TextHasNoBinary(s: seq<byte>)
    requires AllPrintable(s)
    ensures Binary(s) == []
  {
    if s != [] {
      TextHasNoBinary(s[1..]);
    }
  }

  lemma StepPassesBinary(r: Raw, c: byte)
    requires r.Valid() && AllPrintable(r.line)
    ensures var step := RawStep(r, true, c);
            Binary(step.1) == Binary([c]) && step.0.Valid() && AllPrintable(step.0.line)
  {
    hide IsControl, MaybeModemText;
    var step := RawStep(r, true, c);
    TextHasNoBinary(r.line);
    BinarySplits(r.line, [c]);
    assert Binary([c]) == if Printable(c) then [] else [c];
  }

  /** Whatever the stream and wherever a line was pending, the bytes outside the printable range are passed on: all of
      them, in order, none held back. */
  lemma {:induction false} BinaryPassesAtOnce(r: Raw, bs: seq<byte>)
    requires r.Valid() && AllPrintable(r.line)
    ensures Binary(RunRaw(r, bs).1) == Binary(bs) && AllPrintable(RunRaw(r, bs).0.line)
    decreases |bs|
  {
    if bs != [] {
      hide RawStep;
      StepPassesBinary(r, bs[0]);
      var step := RawStep(r, true, bs[0]);
      BinaryPassesAtOnce(step.0, bs[1..]);
      BinarySplits(step.1, RunRaw(step.0, bs[1..]).1);
      BinarySplits([bs[0]], bs[1..]);
      assert [bs[0]] + bs[1..] == bs;
    }
  }

  // ---- What passes whole ---------------------------------------------------

  /** The byte costs nothing: it is no line end or prompt at line start, and completes no control line. */
  predicate Keeps(r: Raw, c: byte) {
    && !(r.line == [] && c in {CR, LF, PROMPT})
    && !(r.line != [] && c == LF && |r.line| + 1 < RAW_LINE_BUF && IsControl(r.line + [c]))
  }

  /** No byte of the stream costs anything. */
  predicate KeepsAll(r: Raw, bs: seq<byte>)
    decreases |bs|
  {
    bs == [] || (Keeps(r, bs[0]) && KeepsAll(RawStep(r, true, bs[0]).0, bs[1..]))
  }

  lemma StepKeeps(r: Raw, c: byte)
    requires r.Valid()
    ensures var (next, out) := RawStep(r, true, c);
            && next.Valid() && |out| + |next.line| <= |r.line| + 1
            && (r.leak == 0 && Keeps(r, c) ==> out + next.line == r.line + [c] && next.leak == 0)
            && (r.leak == 0 && !Keeps(r, c) ==> |out| + |next.line| < |r.line| + 1)
  {
    hide IsControl, MaybeModemText;
    var line := r.line + [c];
    assert line + [] == line && [] + line == line;
  }

  lemma {:induction false} NeverLonger(r: Raw, bs: seq<byte>)
    requires r.Valid()
    ensures |RunRaw(r, bs).1| + |RunRaw(r, bs).0.line| <= |r.line| + |bs|
    decreases |bs|
  {
    if bs != [] {
      hide RawStep;
      StepKeeps(r, bs[0]);
      NeverLonger(RawStep(r, true, bs[0]).0, bs[1..]);
    }
  }

  /** What passes followed by what is pending is the stream itself exactly when no byte of it costs anything. */
  lemma {:induction false} NothingRemovedExactly(r: Raw, bs: seq<byte>)
    requires r.Valid() && r.leak == 0
    ensures RunRaw(r, bs).1 + RunRaw(r, bs).0.line == r.line + bs <==> KeepsAll(r, bs)
    ensures KeepsAll(r, bs) ==> RunRaw(r, bs).0.leak == 0
    decreases |bs|
  {
    if bs == [] {
      assert [] + r.line == r.line + [];
    } else {
      hide RawStep, Keeps;
      var (next, out) := RawStep(r, true, bs[0]);
      var rest := RunRaw(next, bs[1..]);
      StepKeeps(r, bs[0]);
      NeverLonger(next, bs[1..]);
      if Keeps(r, bs[0]) {
        NothingRemovedExactly(next, bs[1..]);
        Associate(out, rest.1, rest.0.line);
        Associate(out, next.line, bs[1..]);
        Associate(r.line, [bs[0]], bs[1..]);
        assert [bs[0]] + bs[1..] == bs;
        PrefixCancels(out, rest.1 + rest.0.line, next.line + bs[1..]);
      } else {
        assert |out + rest.1| + |rest.0.line| < |r.line + bs|;
      }
    }
  }

  lemma PrefixCancels(a: seq<byte>, b: seq<byte>, c: seq<byte>)
    ensures a + b == a + c <==> b == c
  {
    assert (a + b)[|a|..] == b && (a + c)[|a|..] == c;
  }

  /** A stream received on a fresh connection passes whole exactly when no byte that meets an empty pending line is a
      line end or a prompt, no completed line is a control line, and nothing is left pending. */
  lemma PassesWholeExactly(bs: seq<byte>)
    ensures RunRaw(Raw([], 0), bs) == (Raw([], 0), bs)
       <==> KeepsAll(Raw([], 0), bs) && RunRaw(Raw([], 0), bs).0.line == []
  {
    hide RunRaw, KeepsAll;
    var run := RunRaw(Raw([], 0), bs);
    NothingRemovedExactly(Raw([], 0), bs);
    assert [] + bs == bs && run.1 + [] == run.1;
  }

  /** An MQTT PUBLISH of remaining length 10, 13 or 62 loses its length byte, whatever follows. */
  lemma ShortPublishIsDamaged(first: byte, length: byte, rest: seq<byte>)
    requires first in {0x30, 0x31} && length in {LF, CR, PROMPT}
    ensures RunRaw(Raw([], 0), [first, length]).1 == [first]
    ensures RunRaw(Raw([], 0), [first, length] + rest) != (Raw([], 0), [first, length] + rest)
  {
    var r, bs := Raw([], 0), [first, length] + rest;
    assert RawStep(r, true, first) == (r, [first]);
    assert [first, length][1..] == [length] && [length][1..] == [];
    var after := RawStep(r, true, length).0;
    assert RunRaw(after, []) == (after, []);
    var none: seq<byte> := [];
    assert RawStep(r, true, length) == (after, none) && none + none == none;
    assert RunRaw(r, [length]) == (after, none);
    assert [first] + [] == [first];
    assert bs[0] == first && bs[1..][0] == length;
    assert !KeepsAll(r, bs[1..]);
    PassesWholeExactly(bs);
  }

  // ---- With the matcher ----------------------------------------------------

  function RunBytes(ip: Ip, r: Raw, bs: seq<byte>): (Ip, Raw, seq<byte>)
    decreases |bs|
  {
    if bs == [] then (ip, r, [])
    else
      var step := ByteStep(ip, r, true, bs[0]);
      var rest := RunBytes(step.0, step.1, bs[1..]);
      (rest.0, rest.1, step.2 + rest.2)
  }

  /** The matcher stays out of data mode. */
  predicate NeverData(ip: Ip, bs: seq<byte>)
    decreases |bs|
  {
    ip.state != ReadData && (bs == [] || NeverData(IpStep(ip, bs[0]), bs[1..]))
  }

  /** Outside data mode the byte hook is the raw filter. */
  lemma {:induction false} HookIsFilter(ip: Ip, r: Raw, bs: seq<byte>)
    requires NeverData(ip, bs)
    ensures RunBytes(ip, r, bs).1 == RunRaw(r, bs).0 && RunBytes(ip, r, bs).2 == RunRaw(r, bs).1
    decreases |bs|
  {
    if bs != [] {
      HookIsFilter(IpStep(ip, bs[0]), RawStep(r, true, bs[0]).0, bs[1..]);
    }
  }
}
