/** The MQTT commands as text: what the documents sent to the device parse to, and which are refused. */
module CommandTexts {
  import opened Bytes
  import opened Numbers
  import opened MqttCommandParser

  /** No character that needs escaping. */
  predicate Plain(s: string) { forall i | 0 <= i < |s| :: s[i] != '"' && s[i] != '\\' }

  lemma {:induction false} PlainEscape(s: string)
    requires Plain(s)
    ensures Escape(s) == s
  {
    if s != [] {
      assert Plain(s[1..]);
      PlainEscape(s[1..]);
      assert [s[0]] + s[1..] == s;
    }
  }

  /** In quotes. */
  function Q(s: string): string { "\"" + s + "\"" }

  lemma Quoted(s: string)
    requires Plain(s)
    ensures PrintString(s) == Q(s)
  {
    PlainEscape(s);
    hide Escape;
    Associate("\"", s, "\"");
  }

  lemma KeysArePlain()
    ensures Plain("action") && Plain("program") && Plain("list_programs") && Plain("run") && Plain("run_program")
  {
  }

  function ActionMember(action: string): Member { Member([], "action", [], [], Str(action), []) }

  function ProgramMember(id: nat): Member { Member([], "program", [], [], Num(Decimal(id)), []) }

  lemma MemberTexts(action: string, id: nat)
    requires Plain(action)
    ensures PrintMember(ActionMember(action)) == Q("action") + (":" + Q(action))
    ensures PrintMember(ProgramMember(id)) == Q("program") + (":" + Decimal(id))
  {
    KeysArePlain();
    Quoted("action");
    Quoted("program");
    Quoted(action);
    hide PrintString, Decimal, Q;
    Bare(Q("action"), Q(action));
    Bare(Q("program"), Decimal(id));
  }

  lemma Bare(key: string, value: string)
    ensures [] + (key + ([] + ([':'] + ([] + (value + []))))) == key + (":" + value)
  {
  }

  /** A command with its program, as text. */
  lemma CommandText(action: string, id: nat)
    requires Plain(action)
    ensures PrintObject([], [ActionMember(action), ProgramMember(id)], [], [])
         == "{" + Q("action") + ":" + Q(action) + "," + Q("program") + ":" + Decimal(id) + "}"
  {
    MemberTexts(action, id);
    var a, p := ActionMember(action), ProgramMember(id);
    hide Decimal, Q, PrintMember, ActionMember, ProgramMember;
    assert [a, p][1..] == [p];
    assert PrintMembers([a, p]) == PrintMember(a) + ([','] + PrintMembers([p]));
    assert PrintMembers([p]) == PrintMember(p);
    hide PrintMembers;
    Glue(Q("action"), Q(action), Q("program"), Decimal(id));
  }

  lemma Glue(a: string, b: string, c: string, d: string)
    ensures [] + (['{'] + (((a + (":" + b)) + ([','] + (c + (":" + d)))) + (['}'] + [])))
         == "{" + a + ":" + b + "," + c + ":" + d + "}"
  {
  }

  /** Which commands such a document is: "run" and "run_program" with a program from 1 to 255, "list_programs", and
      nothing else; longer action texts do not become one of these by being cut. */
  lemma CommandsRead(action: string, id: nat)
    requires Plain(action) && |action| <= 47 && id < 0x1_0000_0000
    ensures ReadCommand("{" + Q("action") + ":" + Q(action) + "," + Q("program") + ":" + Decimal(id) + "}")
         == if (action == "run" || action == "run_program") && 1 <= id <= 255 then Some(RunProgram(id))
            else if action == "list_programs" then Some(ListPrograms)
            else None
  {
    var ms := [ActionMember(action), ProgramMember(id)];
    CommandText(action, id);
    MembersFit(action, id);
    CommandEffect(action, id);
    CutNames(action);
    hide ReadObject, PrintObject, ActionMember, ProgramMember, Effect, Decimal, Q;
    ObjectRoundTrip([], ms, [], []);
  }

  lemma MembersFit(action: string, id: nat)
    requires |action| <= 47 && id < 0x1_0000_0000
    ensures AllFit([ActionMember(action), ProgramMember(id)])
  {
    DecimalValue(id);
    assert Ten(4) == 10000 && Ten(8) == 10000 * 10000 && Ten(10) == 100 * Ten(8);
    DecimalLength(id, 10);
    hide Decimal;
    assert forall i | 0 <= i < |Decimal(id)| :: IsNumberChar(Decimal(id)[i]);
  }

  function Ten(k: nat): (r: nat)
    ensures r > 0
  {
    if k == 0 then 1 else 10 * Ten(k - 1)
  }

  lemma {:induction false} DecimalLength(n: nat, k: nat)
    requires k > 0 && n < Ten(k)
    ensures |Decimal(n)| <= k
  {
    if n >= 10 {
      assert k > 1;
      DecimalLength(n / 10, k - 1);
    }
  }

  /** What the two members leave: the action as far as the buffer goes, and the program if it is a byte. */
  lemma CommandEffect(action: string, id: nat)
    requires id < 0x1_0000_0000
    ensures Effect(Fields([], 0), [ActionMember(action), ProgramMember(id)])
         == Fields(action[..Min(|action|, 23)], if id <= 255 then id else 0)
  {
    ReadsPrinted(id);
    DecimalValue(id);
    hide Decimal, StrToUL;
    var a, p := ActionMember(action), ProgramMember(id);
    assert [a, p][1..] == [p] && [p][1..] == [];
    var f := Assign(Fields([], 0), a.key, a.value);
    assert f == Fields(action[..Min(|action|, 23)], 0);
    assert Effect(f, [p]) == Assign(f, p.key, p.value);
  }

  lemma CutNames(action: string)
    ensures var cut := action[..Min(|action|, 23)];
            && (cut == "run" <==> action == "run") && (cut == "run_program" <==> action == "run_program")
            && (cut == "list_programs" <==> action == "list_programs")
  {
    assert |action| <= 23 ==> action[..|action|] == action;
  }

  // ---- Refused -------------------------------------------------------------

  /** A text that does not fit its buffer refuses the document, wherever it ends. */
  lemma {:induction false} LongTextsFail(s: string, rest: string, room: nat)
    requires Plain(s) && |s| > room
    ensures ReadString(s + rest, room) == None
    decreases |s|
  {
    if room > 0 {
      assert (s + rest)[0] == s[0] && (s + rest)[1..] == s[1..] + rest;
      LongTextsFail(s[1..], rest, room - 1);
    }
  }

  /** The room there is: 15 characters for a key, 47 for a string, 23 for a number. */
  lemma LimitsOfMembers(s: string, rest: string)
    requires Plain(s)
    ensures |s| >= 16 ==> ReadMember("\"" + s + rest) == None
    ensures |s| >= 48 ==> ReadValue("\"" + s + rest) == None
    ensures |s| >= 24 && (forall i | 0 <= i < |s| :: IsDigit(s[i])) ==> ReadValue(s + rest) == None
  {
    var t := "\"" + s + rest;
    assert t[0] == '"' && t[1..] == s + rest;
    if |s| >= 16 {
      LongTextsFail(s, rest, 15);
    }
    if |s| >= 48 {
      LongTextsFail(s, rest, 47);
    }
    if |s| >= 24 && forall i | 0 <= i < |s| :: IsDigit(s[i]) {
      RunAtLeast(s, rest);
    }
  }

  lemma {:induction false} RunAtLeast(s: string, rest: string)
    requires forall i | 0 <= i < |s| :: IsDigit(s[i])
    ensures NumberRun(s + rest) >= |s|
  {
    if s != [] {
      assert (s + rest)[0] == s[0] && (s + rest)[1..] == s[1..] + rest;
      RunAtLeast(s[1..], rest);
    }
  }

  /** What is not an object at all, or goes on behind its end, is refused. */
  lemma NotAnObject(s: string, c: char)
    requires !IsSpace(c)
    ensures c != '{' ==> ReadCommand([c] + s) == None
    ensures ReadCommand("") == None && ReadObject("{}") == Some(Fields([], 0)) && ReadCommand("{}") == None
    ensures ReadObject("{}" + [c] + s) == None
  {
    var t := "{}" + [c] + s;
    assert t[0] == '{' && t[1..][0] == '}' && t[1..][1..] == [c] + s;
    assert SkipWs([c] + s) == [c] + s && SkipWs(t) == t && SkipWs(t[1..]) == t[1..];
    assert "{}"[1..] == "}" && "}"[1..] == [];
    assert SkipWs([]) == [];
  }
}
