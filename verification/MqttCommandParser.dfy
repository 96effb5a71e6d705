/** The MQTT command parser: a cursor over a C string, and printing as its inverse. */
module MqttCommandParser {
  import opened Bytes
  import opened Numbers

  const KEY_MAX := 15
  const STRING_MAX := 47
  const NUMBER_MAX := 23
  const ACTION_MAX := 23

  predicate IsNumberChar(c: char) { IsDigit(c) || c in {'.', 'e', 'E', '+', '-'} }

  function ParseU8(v: string): (n: nat)
    ensures n <= 255
  {
    if v == [] then 0
    else
      match StrToUL(v)
      case None => 0
      case Some(n) => if n > 255 then 0 else n
  }

  lemma ParsesPrintedNumber(n: nat)
    requires n <= 255
    ensures ParseU8(Decimal(n)) == n
  {
    ReadsPrinted(n);
  }

  // ---- The grammar the parser accepts --------------------------------------

  /** The content of a string token after its opening quote, at most `room` characters, and what follows it. */
  function ReadString(s: string, room: nat): (r: Option<(string, string)>)
    ensures r.Some? ==> |r.value.1| < |s|
    decreases |s|
  {
    if s == [] then None
    else if s[0] == '"' then Some(([], s[1..]))
    else if s[0] == '\\' && |s| < 2 then None
    else if room == 0 then None
    else
      var n := if s[0] == '\\' then 2 else 1;
      match ReadString(s[n..], room - 1)
      case None => None
      case Some((content, rest)) => Some(([s[n - 1]] + content, rest))
  }

  function NumberRun(s: string): (n: nat)
    ensures n <= |s|
  {
    if s != [] && IsNumberChar(s[0]) then 1 + NumberRun(s[1..]) else 0
  }

  /** What has been read so far: the last action and the last program. */
  datatype Fields = Fields(action: string, program: nat)

  datatype Val = Str(s: string) | Num(text: string)

  function Assign(f: Fields, key: string, v: Val): Fields {
    match v
    case Str(s) =>
      if key == "action" then f.(action := s[..Min(|s|, ACTION_MAX)])
      else if key == "program" then f.(program := ParseU8(s))
      else f
    case Num(text) => if key == "program" then f.(program := ParseU8(text)) else f
  }

  function ReadValue(s: string): (r: Option<(Val, string)>)
    ensures r.Some? ==> |r.value.1| <= |s|
  {
    if s != [] && s[0] == '"' then
      match ReadString(s[1..], STRING_MAX)
      case None => None
      case Some((content, rest)) => Some((Str(content), rest))
    else
      var n := NumberRun(s);
      if n > NUMBER_MAX then None else Some((Num(s[..n]), s[n..]))
  }

  function EndOfObject(rest: string, f: Fields): Option<Fields> {
    if SkipWs(rest) == [] then Some(f) else None
  }

  /** One member and what follows it. */
  function ReadMember(s: string): (r: Option<(string, Val, string)>)
    ensures r.Some? ==> |r.value.2| < |s|
  {
    if s == [] || s[0] != '"' then None
    else
      match ReadString(s[1..], KEY_MAX)
      case None => None
      case Some((key, rest)) =>
        var r := SkipWs(rest);
        if r == [] || r[0] != ':' then None
        else
          match ReadValue(SkipWs(r[1..]))
          case None => None
          case Some((v, after)) => Some((key, v, after))
  }

  /** The members from the current position to the end of the object. */
  function ReadMembers(s: string, f: Fields): Option<Fields>
    decreases |s|
  {
    var t := SkipWs(s);
    if t != [] && t[0] == '}' then EndOfObject(t[1..], f)
    else
      match ReadMember(t)
      case None => None
      case Some((key, v, after)) =>
        var g := Assign(f, key, v);
        var u := SkipWs(after);
        if u != [] && u[0] == ',' then ReadMembers(u[1..], g)
        else if u != [] && u[0] == '}' then EndOfObject(u[1..], g)
        else None
  }

  function ReadObject(json: string): Option<Fields> {
    var s := SkipWs(json);
    if s == [] || s[0] != '{' then None else ReadMembers(s[1..], Fields([], 0))
  }

  datatype Command = RunProgram(id: nat) | ListPrograms

  function ReadCommand(json: string): Option<Command> {
    match ReadObject(json)
    case None => None
    case Some(f) =>
      if f.action == "run" || f.action == "run_program" then
        if f.program == 0 then None else Some(RunProgram(f.program))
      else if f.action == "list_programs" then Some(ListPrograms)
      else None
  }

  // ---- Printing ------------------------------------------------------------

  /** A member with the white space around its parts. */
  datatype Member = Member(before: string, key: string, afterKey: string, beforeValue: string, value: Val, after: string)

  predicate Blank(s: string) { forall i | 0 <= i < |s| :: IsSpace(s[i]) }

  predicate Fits(m: Member) {
    && Blank(m.before) && Blank(m.afterKey) && Blank(m.beforeValue) && Blank(m.after)
    && |m.key| <= KEY_MAX
    && match m.value
       case Str(s) => |s| <= STRING_MAX
       case Num(text) => 1 <= |text| <= NUMBER_MAX && forall i | 0 <= i < |text| :: IsNumberChar(text[i])
  }

  predicate AllFit(ms: seq<Member>) { forall i | 0 <= i < |ms| :: Fits(ms[i]) }

  function Escape(s: string): string {
    if s == [] then []
    else (if s[0] in {'"', '\\'} then ['\\', s[0]] else [s[0]]) + Escape(s[1..])
  }

  function PrintString(s: string): string { ['"'] + (Escape(s) + ['"']) }

  function PrintValue(v: Val): string {
    match v
    case Str(s) => PrintString(s)
    case Num(text) => text
  }

  function PrintMember(m: Member): string {
    m.before + (PrintString(m.key) + (m.afterKey + ([':'] + (m.beforeValue + (PrintValue(m.value) + m.after)))))
  }

  function PrintMembers(ms: seq<Member>): string
    requires ms != []
  {
    if |ms| == 1 then PrintMember(ms[0]) else PrintMember(ms[0]) + ([','] + PrintMembers(ms[1..]))
  }

  function PrintObject(lead: string, ms: seq<Member>, empty: string, trail: string): string {
    lead + (['{'] + ((if ms == [] then empty else PrintMembers(ms)) + (['}'] + trail)))
  }

  /** The last action and the last program, in order. */
  function Effect(f: Fields, ms: seq<Member>): Fields
    decreases |ms|
  {
    if ms == [] then f else Effect(Assign(f, ms[0].key, ms[0].value), ms[1..])
  }

  lemma {:induction false} SkipsBlank(w: string, rest: string)
    requires Blank(w)
    ensures SkipWs(w + rest) == SkipWs(rest)
  {
    if w == [] {
      assert w + rest == rest;
    } else {
      assert (w + rest)[1..] == w[1..] + rest;
      SkipsBlank(w[1..], rest);
    }
  }

  /** One escaped character in front of a tail. */
  lemma EscapeStep(s: string, tail: string)
    requires s != []
    ensures Escape(s) + tail == (if s[0] in {'"', '\\'} then ['\\', s[0]] else [s[0]]) + (Escape(s[1..]) + tail)
  {
    Associate(if s[0] in {'"', '\\'} then ['\\', s[0]] else [s[0]], Escape(s[1..]), tail);
  }

  lemma ReadStringStep(c: char, u: string, room: nat, content: string, rest: string)
    requires room > 0 && ReadString(u, room - 1) == Some((content, rest))
    ensures c != '"' && c != '\\' ==> ReadString([c] + u, room) == Some(([c] + content, rest))
    ensures ReadString(['\\', c] + u, room) == Some(([c] + content, rest))
  {
    assert ([c] + u)[1..] == u;
    assert (['\\', c] + u)[2..] == u;
  }

  lemma {:induction false} StringRoundTrip(s: string, rest: string, room: nat)
    requires |s| <= room
    ensures ReadString(Escape(s) + (['"'] + rest), room) == Some((s, rest))
    decreases |s|
  {
    var tail := ['"'] + rest;
    if s == [] {
      assert Escape(s) + tail == tail;
      assert tail[1..] == rest;
    } else {
      hide Escape, ReadString;
      StringRoundTrip(s[1..], rest, room - 1);
      EscapeStep(s, tail);
      ReadStringStep(s[0], Escape(s[1..]) + tail, room, s[1..], rest);
      assert [s[0]] + s[1..] == s;
    }
  }

  lemma {:induction false} NumberRunOf(text: string, rest: string)
    requires forall i | 0 <= i < |text| :: IsNumberChar(text[i])
    requires rest != [] ==> !IsNumberChar(rest[0])
    ensures NumberRun(text + rest) == |text|
  {
    if text == [] {
      assert text + rest == rest;
    } else {
      assert (text + rest)[1..] == text[1..] + rest;
      NumberRunOf(text[1..], rest);
    }
  }

  lemma StringValue(s: string, tail: string)
    requires |s| <= STRING_MAX
    ensures SkipWs(PrintString(s) + tail) == PrintString(s) + tail
    ensures ReadValue(PrintString(s) + tail) == Some((Str(s), tail))
  {
    StringRoundTrip(s, tail, STRING_MAX);
    Unquoted(Escape(s), tail);
  }

  lemma Unquoted(e: string, tail: string)
    ensures var t := ['"'] + (e + ['"']) + tail; t[0] == '"' && t[1..] == e + (['"'] + tail)
  {
  }

  lemma NumberValue(text: string, tail: string)
    requires 1 <= |text| <= NUMBER_MAX && forall i | 0 <= i < |text| :: IsNumberChar(text[i])
    requires tail != [] ==> !IsNumberChar(tail[0])
    ensures SkipWs(text + tail) == text + tail
    ensures ReadValue(text + tail) == Some((Num(text), tail))
  {
    NumberRunOf(text, tail);
    var t := text + tail;
    assert t[0] == text[0] && IsNumberChar(text[0]);
    assert t[..|text|] == text && t[|text|..] == tail;
  }

  lemma ValueRoundTrip(m: Member, rest: string)
    requires Fits(m) && rest != [] && rest[0] in {',', '}'}
    ensures ReadValue(SkipWs(m.beforeValue + (PrintValue(m.value) + (m.after + rest)))) == Some((m.value, m.after + rest))
  {
    hide ReadValue, PrintString, SkipWs;
    var tail := m.after + rest;
    assert tail[0] == (if m.after == [] then rest[0] else m.after[0]);
    SkipsBlank(m.beforeValue, PrintValue(m.value) + tail);
    match m.value
    case Str(s) => StringValue(s, tail);
    case Num(text) => NumberValue(text, tail);
  }

  lemma MemberRoundTrip(m: Member, rest: string)
    requires Fits(m) && rest != [] && rest[0] in {',', '}'}
    ensures var t := SkipWs(PrintMember(m) + rest);
            && t != [] && t[0] == '"' && ReadMember(t) == Some((m.key, m.value, m.after + rest))
  {
    var v := PrintValue(m.value);
    var value := m.beforeValue + (v + (m.after + rest));
    var colon := m.afterKey + ([':'] + value);
    var key := ['"'] + (Escape(m.key) + (['"'] + colon));
    assert PrintMember(m) + rest == m.before + key by {
      hide PrintValue, Escape;
      Associate(v, m.after, rest);
      Associate(m.beforeValue, v + m.after, rest);
      Associate([':'], m.beforeValue + (v + m.after), rest);
      Associate(m.afterKey, [':'] + (m.beforeValue + (v + m.after)), rest);
      var tail := m.afterKey + ([':'] + (m.beforeValue + (v + m.after)));
      Associate(PrintString(m.key), tail, rest);
      Associate(m.before, PrintString(m.key) + tail, rest);
      Associate(['"'], Escape(m.key) + ['"'], colon);
      Associate(Escape(m.key), ['"'], colon);
    }
    hide PrintMember, PrintValue, ReadValue;
    SkipsBlank(m.before, key);
    StringRoundTrip(m.key, colon, KEY_MAX);
    assert key[1..] == Escape(m.key) + (['"'] + colon);
    SkipsBlank(m.afterKey, [':'] + value);
    ValueRoundTrip(m, rest);
  }

  lemma {:induction false} MembersRoundTrip(ms: seq<Member>, trail: string, f: Fields)
    requires ms != [] && AllFit(ms) && Blank(trail)
    ensures ReadMembers(PrintMembers(ms) + (['}'] + trail), f) == Some(Effect(f, ms))
    decreases |ms|
  {
    hide ReadMember, PrintMember, Assign;
    var m, close := ms[0], ['}'] + trail;
    SkipsBlank(trail, []);
    assert trail + [] == trail && SkipWs([]) == [];
    var rest := if |ms| == 1 then close else [','] + (PrintMembers(ms[1..]) + close);
    assert PrintMembers(ms) + close == PrintMember(m) + rest;
    MemberRoundTrip(m, rest);
    SkipsBlank(m.after, rest);
    if |ms| == 1 {
      assert ms[1..] == [];
    } else {
      assert rest[1..] == PrintMembers(ms[1..]) + close;
      MembersRoundTrip(ms[1..], trail, Assign(f, m.key, m.value));
    }
  }

  /** Parsing a printed flat object gives its last action and last program: any members, order and white space. */
  lemma ObjectRoundTrip(lead: string, ms: seq<Member>, empty: string, trail: string)
    requires Blank(lead) && Blank(empty) && Blank(trail) && AllFit(ms)
    ensures ReadObject(PrintObject(lead, ms, empty, trail)) == Some(Effect(Fields([], 0), ms))
  {
    var close := ['}'] + trail;
    var body := (if ms == [] then empty else PrintMembers(ms)) + close;
    SkipsBlank(lead, ['{'] + body);
    assert (['{'] + body)[1..] == body;
    if ms == [] {
      SkipsBlank(empty, close);
      SkipsBlank(trail, []);
      assert trail + [] == trail && SkipWs([]) == [];
      assert close[1..] == trail;
    } else {
      MembersRoundTrip(ms, trail, Fields([], 0));
    }
  }

  function RunMembers(id: nat): seq<Member> {
    [Member([], "action", [], [], Str("run"), []), Member([], "program", [], [], Num(Decimal(id)), [])]
  }

  function ListMembers(): seq<Member> { [Member([], "action", [], [], Str("list_programs"), [])] }

  /** Both commands parse back to themselves. */
  lemma CommandRoundTrip(id: nat)
    requires 1 <= id <= 255
    ensures ReadCommand(PrintObject([], RunMembers(id), [], [])) == Some(RunProgram(id))
    ensures ReadCommand(PrintObject([], ListMembers(), [], [])) == Some(ListPrograms)
  {
    RunEffect(id);
    ListEffect();
    hide ReadObject, PrintObject, RunMembers, ListMembers, Effect;
    ObjectRoundTrip([], RunMembers(id), [], []);
    ObjectRoundTrip([], ListMembers(), [], []);
  }

  lemma RunEffect(id: nat)
    requires 1 <= id <= 255
    ensures AllFit(RunMembers(id)) && Effect(Fields([], 0), RunMembers(id)) == Fields("run", id)
  {
    DecimalValue(id);
    ShortDecimal(id);
    ParsesPrintedNumber(id);
    hide Decimal, ParseU8;
    var ms := RunMembers(id);
    assert ms[1..] == [ms[1]] && [ms[1]][1..] == [];
    var f := Assign(Fields([], 0), ms[0].key, ms[0].value);
    assert f == Fields("run", 0);
    assert Effect(f, [ms[1]]) == Assign(f, ms[1].key, ms[1].value);
  }

  lemma ListEffect()
    ensures AllFit(ListMembers()) && Effect(Fields([], 0), ListMembers()) == Fields("list_programs", 0)
  {
    assert ListMembers()[1..] == [];
  }

  lemma ShortDecimal(n: nat)
    requires n <= 255
    ensures |Decimal(n)| <= 3
  {
    assert |Decimal(n / 100)| == 1;
    assert n >= 10 ==> n / 10 / 10 == n / 100 && |Decimal(n / 10)| <= 2;
  }

  // ---- The code ------------------------------------------------------------

  method SkipSpaces(json: string, p: nat) returns (q: nat)
    requires p <= |json|
    ensures p <= q <= |json| && json[q..] == SkipWs(json[p..])
  {
    q := p;
    while q < |json| && IsSpace(json[q])
      invariant p <= q <= |json| && SkipWs(json[q..]) == SkipWs(json[p..])
    {
      assert json[q..][1..] == json[q + 1..];
      q := q + 1;
    }
  }

  /** `outCap` counts the terminator. */
  method ReadJsonStringContent(json: string, p: nat, outCap: nat) returns (out: Option<string>, q: nat)
    requires p <= |json| && outCap > 0
    ensures p <= q <= |json|
    ensures out.Some? ==> ReadString(json[p..], outCap - 1) == Some((out.value, json[q..]))
    ensures out.None? <==> ReadString(json[p..], outCap - 1).None?
  {
    hide ReadString;
    var w: string := [];
    q := p;
    ghost var whole := ReadString(json[p..], outCap - 1);
    assert whole == After([], whole) by {
      if whole.Some? {
        assert [] + whole.value.0 == whole.value.0;
      }
    }
    while q < |json| && json[q] != '"'
      invariant p <= q <= |json| && |w| < outCap
      invariant whole == After(w, ReadString(json[q..], outCap - 1 - |w|))
      decreases |json| - q
    {
      ReadStringStops(json[q..], outCap - 1 - |w|);
      var n := 1;
      if json[q] == '\\' {
        n := 2;
        if q + 1 >= |json| {
          return None, q;
        }
      }
      if |w| + 1 >= outCap {
        return None, q;
      }
      AfterStep(w, json[q..], outCap - 1 - |w|, n);
      assert json[q..][n..] == json[q + n..] && json[q..][n - 1] == json[q + n - 1];
      w := w + [json[q + n - 1]];
      q := q + n;
    }
    ReadStringStops(json[q..], outCap - 1 - |w|);
    if q >= |json| {
      return None, q;
    }
    assert json[q..][1..] == json[q + 1..];
    assert w + [] == w;
    return Some(w), q + 1;
  }

  ghost function After(w: string, r: Option<(string, string)>): Option<(string, string)> {
    match r
    case None => None
    case Some((content, rest)) => Some((w + content, rest))
  }

  /** Where reading a string stops at once. */
  lemma ReadStringStops(s: string, room: nat)
    ensures s == [] ==> ReadString(s, room).None?
    ensures s != [] && s[0] == '"' ==> ReadString(s, room) == Some(([], s[1..]))
    ensures s != [] && s[0] == '\\' && |s| < 2 ==> ReadString(s, room).None?
    ensures s != [] && s[0] != '"' && room == 0 ==> ReadString(s, room).None?
  {
  }

  lemma AfterStep(w: string, s: string, room: nat, n: nat)
    requires s != [] && s[0] != '"' && room > 0 && n == (if s[0] == '\\' then 2 else 1) <= |s|
    ensures After(w, ReadString(s, room)) == After(w + [s[n - 1]], ReadString(s[n..], room - 1))
  {
    var r := ReadString(s[n..], room - 1);
    if r.Some? {
      Associate(w, [s[n - 1]], r.value.0);
    }
  }

  method ReadNumber(json: string, p: nat) returns (text: Option<string>, q: nat)
    requires p <= |json|
    ensures p <= q <= |json| && q - p == NumberRun(json[p..])
    ensures text == if q - p > NUMBER_MAX then None else Some(json[p..q])
  {
    q := p;
    while q < |json| && IsNumberChar(json[q])
      invariant p <= q <= |json| && NumberRun(json[p..]) == q - p + NumberRun(json[q..])
    {
      assert json[q..][1..] == json[q + 1..];
      q := q + 1;
    }
    text := if q - p > NUMBER_MAX then None else Some(json[p..q]);
  }

  /** The value of a member: a string, or the characters of a number. */
  method ParseValue(json: string, p: nat) returns (v: Option<Val>, q: nat)
    requires p <= |json|
    ensures p <= q <= |json|
    ensures match ReadValue(json[p..])
            case None => v.None?
            case Some((val, after)) => v == Some(val) && after == json[q..]
  {
    ghost var s := json[p..];
    if p < |json| && json[p] == '"' {
      assert s[0] == '"' && s[1..] == json[p + 1..];
      var content;
      content, q := ReadJsonStringContent(json, p + 1, STRING_MAX + 1);
      StringCase(s, ReadString(json[p + 1..], STRING_MAX));
      hide ReadValue, ReadString, NumberRun;
      v := if content.None? then None else Some(Str(content.value));
      return;
    }
    var text;
    text, q := ReadNumber(json, p);
    NumberCase(s, q - p);
    hide ReadValue, ReadString, NumberRun;
    assert s[..q - p] == json[p..q] && s[q - p..] == json[q..];
    v := if text.None? then None else Some(Num(text.value));
  }

  lemma StringCase(s: string, content: Option<(string, string)>)
    requires s != [] && s[0] == '"' && content == ReadString(s[1..], STRING_MAX)
    ensures ReadValue(s) == match content case None => None case Some((c, rest)) => Some((Str(c), rest))
  {
  }

  lemma NumberCase(s: string, n: nat)
    requires !(s != [] && s[0] == '"') && n == NumberRun(s)
    ensures n <= |s|
    ensures ReadValue(s) == if n > NUMBER_MAX then None else Some((Num(s[..n]), s[n..]))
  {
  }

  method ParseMember(json: string, p: nat, f: Fields) returns (g: Option<Fields>, q: nat)
    requires p <= |json|
    ensures p <= q <= |json| && (g.Some? ==> q > p)
    ensures match ReadMember(json[p..])
            case None => g.None?
            case Some((key, v, after)) => g == Some(Assign(f, key, v)) && after == json[q..]
  {
    hide ReadValue, ParseU8, Assign;
    if p >= |json| || json[p] != '"' {
      return None, p;
    }
    assert json[p..][1..] == json[p + 1..];
    var key;
    key, q := ReadJsonStringContent(json, p + 1, KEY_MAX + 1);
    if key.None? {
      return None, q;
    }
    q := SkipSpaces(json, q);
    if q >= |json| || json[q] != ':' {
      return None, q;
    }
    assert json[q..][1..] == json[q + 1..];
    q := SkipSpaces(json, q + 1);
    var v;
    v, q := ParseValue(json, q);
    g := if v.None? then None else Some(Assign(f, key.value, v.value));
  }

  method ParseFlatObject(json: string) returns (f: Option<Fields>)
    ensures f == ReadObject(json)
  {
    hide ReadMember, SkipWs, Assign;
    var p := SkipSpaces(json, 0);
    assert json[0..] == json;
    if p >= |json| || json[p] != '{' {
      return None;
    }
    assert json[p..][1..] == json[p + 1..];
    p := p + 1;
    var fields := Fields([], 0);
    ghost var whole := ReadMembers(json[p..], fields);
    while true
      invariant p <= |json| && ReadMembers(json[p..], fields) == whole
      decreases |json| - p
    {
      p := SkipSpaces(json, p);
      if p < |json| && json[p] == '}' {
        f := Close(json, p, fields);
        return;
      }
      var g, q := ParseMember(json, p, fields);
      if g.None? {
        return None;
      }
      fields := g.value;
      p := SkipSpaces(json, q);
      if p < |json| && json[p] == ',' {
        assert json[p..][1..] == json[p + 1..];
        p := p + 1;
      } else if p < |json| && json[p] == '}' {
        f := Close(json, p, fields);
        return;
      } else {
        return None;
      }
    }
  }

  method Close(json: string, p: nat, fields: Fields) returns (f: Option<Fields>)
    requires p < |json|
    ensures f == EndOfObject(json[p..][1..], fields)
  {
    assert json[p..][1..] == json[p + 1..];
    var q := SkipSpaces(json, p + 1);
    f := if q == |json| then Some(fields) else None;
  }

  method ParseMqttCommandJson(json: string) returns (out: Option<Command>)
    ensures out == ReadCommand(json)
  {
    hide ReadMembers, SkipWs;
    if json == [] {
      assert SkipWs([]) == [] by { SkipsBlank([], []); }
      return None;
    }
    var f := ParseFlatObject(json);
    if f.None? || f.value.action == [] {
      return None;
    }
    var action, program := f.value.action, f.value.program;
    if action == "run" || action == "run_program" {
      if program == 0 {
        return None;
      }
      return Some(RunProgram(program));
    }
    if action == "list_programs" {
      return Some(ListPrograms);
    }
    return None;
  }
}
