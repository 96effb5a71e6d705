/** The program index file, its reader, and its agreement with the directory of programs. */
module ProgramIndex {
  import opened Bytes
  import opened Numbers
  import opened ProgramTypes
  import opened ProgramDocument
  import opened ProgramReaders
  import opened ProgramHeaders

  const MAX_PROGRAMS := 10
  const INDEX_PENDING := 20
  const INDEX_STACK := 8

  datatype Row = Row(id: nat, name: string) {
    predicate Fits() { id < 256 && |name| < PROGRAM_NAME }
  }

  // ---- The index document --------------------------------------------------

  function RowEvents(r: Row): seq<Event> {
    [StartObject, Key("id"), Value(Decimal(r.id)), Key("name"), Value(r.name), EndObject]
  }

  function RowsEvents(rows: seq<Row>): seq<Event> {
    if rows == [] then [] else RowsEvents(rows[..|rows| - 1]) + RowEvents(rows[|rows| - 1])
  }

  function IndexEvents(rows: seq<Row>): seq<Event> { [StartArray] + RowsEvents(rows) + [EndArray] }

  method EmitIndexArrayBody(rows: seq<Row>) returns (out: seq<Event>)
    ensures out == IndexEvents(rows)
  {
    hide RowEvents;
    out := [StartArray];
    for i := 0 to |rows|
      invariant out == [StartArray] + RowsEvents(rows[..i])
    {
      assert rows[..i + 1][..i] == rows[..i];
      var row := [StartObject, Key("id"), Value(Decimal(rows[i].id)), Key("name"), Value(rows[i].name), EndObject];
      assert row == RowEvents(rows[i]) by { RowIs(rows[i]); }
      Associate([StartArray], RowsEvents(rows[..i]), row);
      out := out + row;
    }
    assert rows[..|rows|] == rows;
    out := out + [EndArray];
  }

  lemma RowIs(r: Row)
    ensures RowEvents(r) == [StartObject, Key("id"), Value(Decimal(r.id)), Key("name"), Value(r.name), EndObject]
  {
  }

  datatype Idx = InArray | InRow

  datatype Index = Index(failed: bool, sawRoot: bool, stk: seq<Idx>, junk: nat, pending: string, row: Row, rows: seq<Row>) {
    predicate AtRow() { stk != [] && stk[|stk| - 1] == InRow }

    function Push(x: Idx): Index { if |stk| >= INDEX_STACK then this.(failed := true) else this.(stk := stk + [x]) }

    function Pop(): Index { if stk == [] then this else this.(stk := stk[..|stk| - 1]) }

    function Deeper(): Index { this.(junk := (junk + 1) % 256) }
  }

  const IndexStart := Index(false, false, [], 0, "", Row(0, ""), [])

  function IndexOpen(s: Index, e: Event): Index
    requires e.StartObject? || e.StartArray?
  {
    if e.StartArray? then (if s.stk == [] then s.Push(InArray).(sawRoot := true) else s.Deeper())
    else if s.junk > 0 || s.AtRow() then s.Deeper()
    else s.Push(InRow).(row := Row(0, ""))
  }

  function IndexClose(s: Index, e: Event): Index
    requires e.EndObject? || e.EndArray?
  {
    if s.junk > 0 then s.(junk := s.junk - 1)
    else if e.EndArray? then (if s.stk != [] && !s.AtRow() then s.Pop() else s.(failed := true))
    else if !s.AtRow() then s.(failed := true)
    else if |s.rows| < MAX_PROGRAMS then s.(rows := s.rows + [s.row]).Pop()
    else s.(failed := true).Pop()
  }

  function IndexValue(s: Index, v: string): Index {
    if s.junk > 0 || !s.AtRow() || v == "null" then s
    else if s.pending == "id" then s.(row := s.row.(id := ParseU8(v, 0)))
    else if s.pending == "name" then s.(row := s.row.(name := Copied(v, PROGRAM_NAME)))
    else s
  }

  function IndexStep(s: Index, e: Event): Index {
    if s.failed then s
    else
      match e
      case Key(k) => if s.junk == 0 && s.AtRow() then s.(pending := Copied(k, INDEX_PENDING)) else s
      case Value(v) => IndexValue(s, v)
      case StartObject => IndexOpen(s, e)
      case StartArray => IndexOpen(s, e)
      case EndObject => IndexClose(s, e)
      case EndArray => IndexClose(s, e)
  }

  function IndexRun(s: Index, events: seq<Event>): Index
    decreases |events|
  {
    if events == [] then s else IndexRun(IndexStep(s, events[0]), events[1..])
  }

  function ReadIndex(events: seq<Event>): Option<seq<Row>> {
    var s := IndexRun(IndexStart, events);
    if !s.failed && s.sawRoot && s.stk == [] then Some(s.rows) else None
  }

  lemma {:induction false} IndexRunAppend(s: Index, a: seq<Event>, b: seq<Event>)
    ensures IndexRun(s, a + b) == IndexRun(IndexRun(s, a), b)
    decreases |a|
  {
    hide IndexStep;
    if a == [] {
      assert a + b == b;
    } else {
      assert (a + b)[1..] == a[1..] + b;
      IndexRunAppend(IndexStep(s, a[0]), a[1..], b);
    }
  }

  function RowReadBack(r: Row): Row { Row(r.id, ReadBack(r.name)) }

  function RowsReadBack(rows: seq<Row>): (r: seq<Row>)
    ensures |r| == |rows| && forall i | 0 <= i < |r| :: r[i] == RowReadBack(rows[i])
  {
    if rows == [] then []
    else RowsReadBack(rows[..|rows| - 1]) + [RowReadBack(rows[|rows| - 1])]
  }

  predicate Listing(s: Index) { !s.failed && s.sawRoot && s.junk == 0 && s.stk == [InArray] }

  lemma RowReads(s: Index, r: Row)
    requires Listing(s) && r.Fits()
    ensures var t := IndexRun(s, RowEvents(r));
            if |s.rows| < MAX_PROGRAMS then Listing(t) && t.rows == s.rows + [RowReadBack(r)] else t.failed
  {
    hide Decimal, IndexStep;
    var front, back := [StartObject, Key("id"), Value(Decimal(r.id))], [Key("name"), Value(r.name), EndObject];
    assert RowEvents(r) == front + back;
    var s3 := IndexRun(s, front);
    RunThree(s, front);
    RunThree(s3, back);
    IndexRunAppend(s, front, back);
    RowOpens(s, r);
    RowNames(s3, s, r);
    RowCloses(IndexStep(IndexStep(s3, Key("name")), Value(r.name)), s, r);
  }

  lemma RowOpens(s: Index, r: Row)
    requires Listing(s) && r.Fits()
    ensures IndexStep(IndexStep(IndexStep(s, StartObject), Key("id")), Value(Decimal(r.id)))
            == s.(stk := [InArray, InRow], pending := "id", row := Row(r.id, ""))
  {
    hide Decimal, ParseU8;
    NumberReads(r.id);
    assert Copied("id", INDEX_PENDING) == "id";
  }

  lemma RowNames(t: Index, s: Index, r: Row)
    requires Listing(s) && r.Fits() && t == s.(stk := [InArray, InRow], pending := "id", row := Row(r.id, ""))
    ensures IndexStep(IndexStep(t, Key("name")), Value(r.name))
            == s.(stk := [InArray, InRow], pending := "name", row := RowReadBack(r))
  {
    hide ParseU8;
    assert Copied("name", INDEX_PENDING) == "name";
  }

  lemma RowCloses(t: Index, s: Index, r: Row)
    requires Listing(s) && t == s.(stk := [InArray, InRow], pending := "name", row := RowReadBack(r))
    ensures var u := IndexStep(t, EndObject);
            if |s.rows| < MAX_PROGRAMS then Listing(u) && u.rows == s.rows + [RowReadBack(r)] else u.failed
  {
    assert [InArray, InRow][..1] == [InArray];
  }

  lemma RunThree(s: Index, e: seq<Event>)
    requires |e| == 3
    ensures IndexRun(s, e) == IndexStep(IndexStep(IndexStep(s, e[0]), e[1]), e[2])
  {
    hide IndexStep;
    assert e[1..][1..] == e[2..] && e[2..][1..] == [];
    var s1 := IndexStep(s, e[0]);
    var s2 := IndexStep(s1, e[1]);
    assert IndexRun(s, e) == IndexRun(s1, e[1..]);
    assert IndexRun(s1, e[1..]) == IndexRun(s2, e[2..]);
    assert IndexRun(s2, e[2..]) == IndexRun(IndexStep(s2, e[2]), []);
  }

  lemma {:induction false} RowsRead(s: Index, rows: seq<Row>)
    requires Listing(s) && s.rows == [] && forall i | 0 <= i < |rows| :: rows[i].Fits()
    ensures var t := IndexRun(s, RowsEvents(rows));
            if |rows| <= MAX_PROGRAMS then Listing(t) && t.rows == RowsReadBack(rows) else t.failed
    decreases |rows|
  {
    hide RowEvents, IndexStep, ReadBack;
    if rows != [] {
      var n := |rows| - 1;
      RowsRead(s, rows[..n]);
      IndexRunAppend(s, RowsEvents(rows[..n]), RowEvents(rows[n]));
      var t := IndexRun(s, RowsEvents(rows[..n]));
      if n <= MAX_PROGRAMS {
        RowReads(t, rows[n]);
      } else {
        IndexStuck(t, RowEvents(rows[n]));
      }
    }
  }

  lemma {:induction false} IndexStuck(s: Index, events: seq<Event>)
    requires s.failed
    ensures IndexRun(s, events) == s
    decreases |events|
  {
    if events != [] {
      IndexStuck(s, events[1..]);
    }
  }

  /** A printed index reads back row for row exactly when it has at most ten rows. */
  lemma IndexReadsPrinted(rows: seq<Row>)
    requires forall i | 0 <= i < |rows| :: rows[i].Fits()
    ensures ReadIndex(IndexEvents(rows)) == if |rows| <= MAX_PROGRAMS then Some(RowsReadBack(rows)) else None
  {
    hide ReadIndex, IndexStep;
    var body := RowsEvents(rows);
    var s := IndexStep(IndexStart, StartArray);
    IndexOpens();
    RowsRead(s, rows);
    IndexFrame(body, IndexRun(s, body));
    IndexCloses(IndexRun(s, body));
  }

  /** Ten programs can be listed. */
  lemma TenRows(rows: seq<Row>)
    requires forall i | 0 <= i < |rows| :: rows[i].id <= 255 && |rows[i].name| <= 31
    ensures ReadIndex(IndexEvents(rows)).Some? <==> |rows| <= 10
    ensures |rows| <= 10 ==>
              var read := ReadIndex(IndexEvents(rows)).value;
              && |read| == |rows|
              && forall i | 0 <= i < |rows| ::
                   read[i] == Row(rows[i].id, if rows[i].name == "null" then "" else rows[i].name)
  {
    IndexReadsPrinted(rows);
    hide ReadIndex, IndexEvents;
  }

  lemma IndexOpens()
    ensures var s := IndexStep(IndexStart, StartArray); Listing(s) && s.rows == []
  {
  }

  lemma IndexCloses(t: Index)
    ensures var u := IndexStep(t, EndArray);
            && (t.failed ==> u.failed)
            && (Listing(t) ==> !u.failed && u.sawRoot && u.stk == [] && u.rows == t.rows)
  {
  }

  /** What an index document is read as, given where its rows lead. */
  lemma IndexFrame(body: seq<Event>, t: Index)
    requires t == IndexRun(IndexStep(IndexStart, StartArray), body)
    ensures ReadIndex([StartArray] + body + [EndArray])
         == var u := IndexStep(t, EndArray); if !u.failed && u.sawRoot && u.stk == [] then Some(u.rows) else None
  {
    hide IndexStep;
    IndexRunAppend(IndexStart, [StartArray] + body, [EndArray]);
    IndexRunAppend(IndexStart, [StartArray], body);
    IndexRunOne(IndexStart, StartArray);
    IndexRunOne(t, EndArray);
  }

  lemma IndexRunOne(s: Index, e: Event)
    ensures IndexRun(s, [e]) == IndexStep(s, e)
  {
    hide IndexStep;
    assert [e][1..] == [];
  }

  // ---- File names ----------------------------------------------------------

  function Base(name: string): string
    decreases |name|
  {
    if name == [] then []
    else if Base(name[1..]) != name[1..] then Base(name[1..])
    else if name[0] == '/' then name[1..] else name
  }

  /** `strtol`: the value and what follows the digits; without digits, zero and the whole text. */
  function StrToL(v: string): (int, string) {
    var s := SkipWs(v);
    var signed := s != [] && s[0] in {'+', '-'};
    var digits := if signed then s[1..] else s;
    var n := DigitRun(digits);
    if n == 0 then (0, v)
    else
      var m := Numbers.Value(digits[..n]);
      (if signed && s[0] == '-' then -Min(m, 0x8000_0000) else Min(m, 0x7FFF_FFFF), digits[n..])
  }

  /** The program id of a file name in the programs directory. */
  function FileId(name: string): (r: Option<nat>)
    ensures r.Some? ==> 1 <= r.value <= 255
  {
    if |name| < 6 || name[|name| - 5..] != ".json" || name == "index.json" then None
    else
      var (id, rest) := StrToL(Base(name));
      if rest != ".json" || id <= 0 || id > 255 then None else Some(id)
  }

  lemma {:induction false} BaseIsWhole(name: string)
    requires '/' !in name
    ensures Base(name) == name
    decreases |name|
  {
    if name != [] {
      BaseIsWhole(name[1..]);
    }
  }

  lemma {:induction false} DigitsThen(d: string, rest: string)
    requires (forall i | 0 <= i < |d| :: IsDigit(d[i])) && (rest != [] ==> !IsDigit(rest[0]))
    ensures DigitRun(d + rest) == |d|
  {
    if d == [] {
      assert d + rest == rest;
    } else {
      assert (d + rest)[1..] == d[1..] + rest;
      DigitsThen(d[1..], rest);
    }
  }

  /** Which numbered files are programs: exactly those from 1 to 255, with or without a leading zero. */
  lemma NumberedNames(n: nat)
    ensures FileId(Decimal(n) + ".json") == if 1 <= n <= 255 then Some(n) else None
    ensures FileId("0" + Decimal(n) + ".json") == FileId(Decimal(n) + ".json")
  {
    DecimalValue(n);
    NumberedName(Decimal(n), n);
    LeadingZero(Decimal(n));
    NumberedName("0" + Decimal(n), n);
  }

  /** The canonical file name of every program is recognised. */
  lemma CanonicalNameIsRecognised(id: nat)
    requires 1 <= id <= 255
    ensures FileId(Decimal(id) + ".json") == Some(id)
  {
    DecimalValue(id);
    NumberedName(Decimal(id), id);
  }

  /** A name of digits. */
  lemma NumberedName(d: string, n: nat)
    requires d != [] && (forall i | 0 <= i < |d| :: IsDigit(d[i])) && Numbers.Value(d) == n
    ensures FileId(d + ".json") == if 1 <= n <= 255 then Some(n) else None
  {
    DigitName(d);
    NumberThenSuffix(d, n);
    BaseIsWhole(d + ".json");
    hide StrToL, Base, Numbers.Value;
  }

  lemma DigitName(d: string)
    requires d != [] && forall i | 0 <= i < |d| :: IsDigit(d[i])
    ensures var name := d + ".json";
            |name| >= 6 && name[|name| - 5..] == ".json" && name != "index.json" && '/' !in name
  {
    var name := d + ".json";
    assert IsDigit(d[0]) && name[0] == d[0];
    assert name[|d|..] == ".json";
    assert forall c <- name :: IsDigit(c) || c in ".json";
  }

  lemma NumberThenSuffix(d: string, n: nat)
    requires d != [] && (forall i | 0 <= i < |d| :: IsDigit(d[i])) && Numbers.Value(d) == n
    ensures StrToL(d + ".json") == (Min(n, 0x7FFF_FFFF), ".json")
  {
    hide Numbers.Value, DigitRun;
    var name := d + ".json";
    assert IsDigit(d[0]) && name[0] == d[0];
    DigitsThen(d, ".json");
    assert SkipWs(name) == name;
    assert name[..|d|] == d && name[|d|..] == ".json";
  }

  lemma {:induction false} LeadingZero(d: string)
    requires forall i | 0 <= i < |d| :: IsDigit(d[i])
    ensures Numbers.Value("0" + d) == Numbers.Value(d)
    ensures forall i | 0 <= i < |"0" + d| :: IsDigit(("0" + d)[i])
  {
    if d == [] {
      assert "0" + d == "0" && "0"[..0] == [];
    } else {
      var s := "0" + d;
      LeadingZero(d[..|d| - 1]);
      assert s[..|s| - 1] == "0" + d[..|d| - 1];
    }
  }

  /** A path in front of the file name does not matter. */
  lemma {:induction false} PathsAreSkipped(path: string, name: string)
    requires '/' !in name
    ensures Base(path + "/" + name) == name
    decreases |path|
  {
    var s := path + "/" + name;
    BaseIsWhole(name);
    if path == [] {
      assert s == "/" + name && s[1..] == name;
    } else {
      assert s[1..] == path[1..] + "/" + name;
      PathsAreSkipped(path[1..], name);
      assert |s[1..]| > |name|;
    }
  }

  /** Names that are no programs. */
  lemma OtherNames(stem: string)
    ensures FileId("index.json") == None && FileId(".json") == None
    ensures |stem| >= 5 && stem[|stem| - 5..] != ".json" ==> FileId(stem) == None
  {
  }

  // ---- The directory -------------------------------------------------------

  /** A file of the programs directory; `opens` tells whether it can be read. */
  datatype Entry = Entry(name: string, opens: bool, content: Document)

  function FileIds(dir: seq<Entry>): set<nat> {
    set i | 0 <= i < |dir| && FileId(dir[i].name).Some? :: FileId(dir[i].name).value
  }

  /** The row a file contributes to a rebuilt index. */
  function RowOf(e: Entry): (r: Option<Row>)
    ensures r.Some? ==> FileId(e.name) == Some(r.value.id)
  {
    match FileId(e.name)
    case None => None
    case Some(id) =>
      if !e.opens then None
      else
        match ReadHeader(e.content, id)
        case None => None
        case Some((rid, name)) =>
          if (if rid != 0 then rid else id) != id then None else Some(Row(id, Copied(name, PROGRAM_NAME)))
  }

  /** The accepted rows, in directory order. */
  function Accepted(dir: seq<Entry>): (r: seq<Row>)
    ensures |r| <= |dir|
  {
    if dir == [] then []
    else
      var n := |dir| - 1;
      Accepted(dir[..n]) + match RowOf(dir[n]) case None => [] case Some(row) => [row]
  }

  function Scanned(dir: seq<Entry>): seq<Row> {
    var rows := Accepted(dir);
    rows[..Min(|rows|, MAX_PROGRAMS)]
  }

  function Ids(rows: seq<Row>): set<nat> { set i | 0 <= i < |rows| :: rows[i].id }

  /** The index needs no rebuild: it parses and lists exactly the numeric program files. */
  predicate IndexAgrees(dir: seq<Entry>, index: Option<seq<Event>>) {
    index.Some? && ReadIndex(index.value).Some? && Ids(ReadIndex(index.value).value) == FileIds(dir)
  }

  /** A header that was accepted names the file's own id or none, so the later id comparison never skips a file. */
  lemma {:induction false} HeaderIdIsPath(h: Header, events: seq<Event>, path: nat)
    requires h.id == 0 || h.id == path || h.sax.failed
    ensures var g := HeaderRun(h, events, path); g.id == 0 || g.id == path || g.sax.failed
    decreases |events|
  {
    if events != [] {
      HeaderIdIsPath(HeaderStep(h, events[0], path), events[1..], path);
    }
  }

  /** Every readable file whose header parses is accepted. */
  lemma AcceptedExactly(e: Entry)
    ensures RowOf(e).Some? <==> FileId(e.name).Some? && e.opens && ReadHeader(e.content, FileId(e.name).value).Some?
  {
    hide FileId;
    if FileId(e.name).Some? {
      HeaderIdIsPath(HeaderStart, e.content.events, FileId(e.name).value);
    }
  }

  lemma {:induction false} AcceptedIds(dir: seq<Entry>)
    ensures forall i | 0 <= i < |dir| && RowOf(dir[i]).Some? :: RowOf(dir[i]).value in Accepted(dir)
    ensures forall r <- Accepted(dir) :: r.Fits() && r.id in FileIds(dir)
    decreases |dir|
  {
    if dir != [] {
      hide RowOf, FileIds;
      var n := |dir| - 1;
      AcceptedIds(dir[..n]);
      RowFits(dir[n]);
      assert dir == dir[..n] + [dir[n]];
      FileIdsSnoc(dir[..n], dir[n]);
    }
  }

  lemma RowFits(e: Entry)
    ensures RowOf(e).Some? ==> RowOf(e).value.Fits() && FileId(e.name) == Some(RowOf(e).value.id)
  {
    hide ReadHeader, StrToL;
  }

  /** The index just rebuilt agrees with the directory exactly when every program file is among the scanned rows. */
  lemma RebuiltIndexAgrees(dir: seq<Entry>, rows: seq<Row>)
    requires multiset(rows) == multiset(Scanned(dir))
    ensures IndexAgrees(dir, Some(IndexEvents(rows))) <==> FileIds(dir) <= Ids(Scanned(dir))
  {
    hide ReadIndex, IndexEvents, Accepted, FileIds;
    AcceptedIds(dir);
    var scanned := Scanned(dir);
    forall r
      ensures r in rows <==> r in scanned
    {
      assert r in multiset(rows) <==> r in rows;
      assert r in multiset(scanned) <==> r in scanned;
    }
    assert |rows| == |multiset(rows)| == |scanned|;
    forall i | 0 <= i < |rows|
      ensures rows[i].Fits()
    {
      assert rows[i] in scanned;
    }
    IndexReadsPrinted(rows);
    var back := RowsReadBack(rows);
    SameIds(rows, back);
    SameMembersSameIds(rows, scanned);
    assert Ids(scanned) <= FileIds(dir);
  }

  /** A program file that cannot be opened: the index rebuilt from the directory disagrees with it again. */
  lemma UnreadableFileNeverAgrees()
    ensures var dir := [Entry(Decimal(7) + ".json", false, Document([], false))];
            Scanned(dir) == [] && !IndexAgrees(dir, Some(IndexEvents([])))
  {
    hide FileId, ReadIndex, IndexEvents, Decimal;
    var dir := [Entry(Decimal(7) + ".json", false, Document([], false))];
    CanonicalNameIsRecognised(7);
    assert dir[..0] == [] && RowOf(dir[0]) == None;
    assert Accepted(dir) == Accepted(dir[..0]) + [];
    assert FileId(dir[0].name).value in FileIds(dir);
    assert 7 in FileIds(dir) && 7 !in Ids(Scanned(dir));
    RebuiltIndexAgrees(dir, []);
  }

  lemma SameIds(rows: seq<Row>, back: seq<Row>)
    requires |rows| == |back| && forall i | 0 <= i < |rows| :: back[i].id == rows[i].id
    ensures Ids(rows) == Ids(back)
  {
    forall id
      ensures id in Ids(rows) <==> id in Ids(back)
    {
    }
  }

  lemma SameMembersSameIds(a: seq<Row>, b: seq<Row>)
    requires forall r :: r in a <==> r in b
    ensures Ids(a) == Ids(b)
  {
    forall i | 0 <= i < |a|
      ensures a[i].id in Ids(b)
    {
      assert a[i] in b;
    }
    forall i | 0 <= i < |b|
      ensures b[i].id in Ids(a)
    {
      assert b[i] in a;
    }
  }

  /** With at most ten program files, all readable, a check right after a rebuild finds no mismatch. */
  lemma RebuildSettles(dir: seq<Entry>, rows: seq<Row>)
    requires multiset(rows) == multiset(Scanned(dir))
    requires forall i | 0 <= i < |dir| && FileId(dir[i].name).Some? ::
               dir[i].opens && ReadHeader(dir[i].content, FileId(dir[i].name).value).Some?
    requires |Accepted(dir)| <= MAX_PROGRAMS
    ensures IndexAgrees(dir, Some(IndexEvents(rows)))
  {
    hide IndexAgrees, FileId, ReadHeader, RowOf, Accepted;
    RebuiltIndexAgrees(dir, rows);
    AcceptedIds(dir);
    assert Scanned(dir) == Accepted(dir);
    forall i | 0 <= i < |dir| && FileId(dir[i].name).Some?
      ensures FileId(dir[i].name).value in Ids(Scanned(dir))
    {
      AcceptedExactly(dir[i]);
      RowFits(dir[i]);
      var row := RowOf(dir[i]).value;
      var k :| 0 <= k < |Scanned(dir)| && Scanned(dir)[k] == row;
    }
  }

  /** A stored program under its canonical name is listed with its id and its name as read back. */
  lemma StoredProgramIsListed(p: Program)
    requires p.Fits() && p.id != 0
    ensures RowOf(Entry(Decimal(p.id) + ".json", true, Printed(p))) == Some(Row(p.id, ReadBack(p.name)))
  {
    hide FileId, ReadHeader, HeaderEvents, StepsEvents;
    CanonicalNameIsRecognised(p.id);
    PrintedStepsNest(p.steps);
    HeaderIgnoresSteps(p, StepsEvents(p.steps), p.id);
    assert Copied(ReadBack(p.name), PROGRAM_NAME) == ReadBack(p.name);
  }

  // ---- The code ------------------------------------------------------------

  /** Marks the ids of the program files. */
  method ScanIds(dir: seq<Entry>) returns (present: array<bool>)
    ensures fresh(present) && present.Length == 256
    ensures forall id | 0 <= id < 256 :: present[id] == (id in FileIds(dir))
  {
    hide FileId, FileIds;
    present := new bool[256](_ => false);
    NoFiles();
    for i := 0 to |dir|
      invariant forall id | 0 <= id < 256 :: present[id] == (id in FileIds(dir[..i]))
    {
      FileIdsSnoc(dir[..i], dir[i]);
      assert dir[..i + 1] == dir[..i] + [dir[i]];
      var id := FileId(dir[i].name);
      if id.Some? {
        present[id.value] := true;
      }
    }
    assert dir[..|dir|] == dir;
  }

  lemma NoFiles()
    ensures FileIds([]) == {}
  {
  }

  lemma FileIdsSnoc(dir: seq<Entry>, e: Entry)
    ensures FileIds(dir + [e]) == FileIds(dir) + match FileId(e.name) case None => {} case Some(id) => {id}
  {
    hide FileId;
    var more := dir + [e];
    forall i | 0 <= i < |dir|
      ensures more[i] == dir[i]
    {
    }
    assert more[|dir|] == e;
  }

  /** The set comparison with early exits: a row of no file, or a file without a row. */
  method CheckRows(rows: seq<Row>, present: array<bool>) returns (mismatch: bool)
    requires present.Length == 256 && forall i | 0 <= i < |rows| :: rows[i].id < 256
    requires !present[0]
    ensures mismatch <==> !(forall id | 0 <= id < 256 :: present[id] == (id in Ids(rows)))
  {
    var inIndex := new bool[256](_ => false);
    for i := 0 to |rows|
      invariant forall id | 0 <= id < 256 :: inIndex[id] == (id in Ids(rows[..i]))
      invariant forall id | 0 <= id < 256 && inIndex[id] :: present[id]
    {
      var id := rows[i].id;
      IdsSnoc(rows[..i], rows[i]);
      assert rows[..i + 1] == rows[..i] + [rows[i]];
      if id == 0 || !present[id] {
        assert id in Ids(rows);
        return true;
      }
      inIndex[id] := true;
    }
    assert rows[..|rows|] == rows;
    for pid := 1 to 256
      invariant forall id | 0 <= id < pid && present[id] :: inIndex[id]
    {
      if present[pid] && !inIndex[pid] {
        return true;
      }
    }
    mismatch := false;
  }

  lemma IdsSnoc(rows: seq<Row>, r: Row)
    ensures Ids(rows + [r]) == Ids(rows) + {r.id}
  {
    var more := rows + [r];
    forall i | 0 <= i < |rows|
      ensures more[i] == rows[i]
    {
    }
    assert more[|rows|] == r;
  }

  /** Reports a mismatch exactly when the index does not agree with the directory. */
  method IndexMismatch(dir: seq<Entry>, index: Option<seq<Event>>) returns (mismatch: bool)
    ensures mismatch <==> !IndexAgrees(dir, index)
  {
    hide FileId, ReadIndex;
    var present := ScanIds(dir);
    NoFileIsZero(dir);
    if index.None? {
      return true;
    }
    var rows := ReadIndex(index.value);
    if rows.None? {
      return true;
    }
    RowsAreBytes(index.value);
    mismatch := CheckRows(rows.value, present);
    forall id | id in FileIds(dir) || id in Ids(rows.value)
      ensures 0 <= id < 256
    {
    }
    if !mismatch {
      assert Ids(rows.value) == FileIds(dir);
    }
  }

  lemma NoFileIsZero(dir: seq<Entry>)
    ensures forall id <- FileIds(dir) :: 1 <= id <= 255
  {
  }

  predicate ByteRows(s: Index) { s.row.id < 256 && forall i | 0 <= i < |s.rows| :: s.rows[i].id < 256 }

  lemma {:induction false} RunKeepsBytes(s: Index, events: seq<Event>)
    requires ByteRows(s)
    ensures ByteRows(IndexRun(s, events))
    decreases |events|
  {
    if events != [] {
      RunKeepsBytes(IndexStep(s, events[0]), events[1..]);
    }
  }

  lemma RowsAreBytes(events: seq<Event>)
    requires ReadIndex(events).Some?
    ensures forall i | 0 <= i < |ReadIndex(events).value| :: ReadIndex(events).value[i].id < 256
  {
    RunKeepsBytes(IndexStart, events);
  }

  predicate SortedById(rows: seq<Row>) { forall i, j | 0 <= i < j < |rows| :: rows[i].id <= rows[j].id }

  /** One comparison of the exchange sort. */
  method Exchange(items: array<Row>, i: nat, j: nat, count: nat)
    requires i < j < count <= items.Length
    modifies items
    ensures multiset(items[..count]) == multiset(old(items[..count]))
    ensures items[i].id <= items[j].id
    ensures (items[i], items[j]) == old((items[i], items[j])) || (items[i], items[j]) == old((items[j], items[i]))
    ensures forall k | 0 <= k < items.Length && k != i && k != j :: items[k] == old(items[k])
  {
    if items[j].id < items[i].id {
      ghost var before := items[..count];
      items[i], items[j] := items[j], items[i];
      assert items[..count] == before[i := before[j]][j := before[i]];
    }
  }

  /** The first `i` rows are in place: sorted, and not above any later row. */
  predicate Settled(rows: seq<Row>, i: nat) { forall k, l | 0 <= k < i && k < l < |rows| :: rows[k].id <= rows[l].id }

  /** The exchange sort over the first `count` rows. */
  method SortRows(items: array<Row>, count: nat)
    requires count <= items.Length
    modifies items
    ensures SortedById(items[..count]) && multiset(items[..count]) == multiset(old(items[..count]))
  {
    var i := 0;
    while i + 1 < count
      invariant multiset(items[..count]) == multiset(old(items[..count]))
      invariant i <= count && Settled(items[..count], i)
      decreases count - i
    {
      SelectMinimum(items, i, count);
      i := i + 1;
    }
  }

  /** The inner loop brings a least row of the rest to place `i`. */
  method SelectMinimum(items: array<Row>, i: nat, count: nat)
    requires i + 1 < count <= items.Length && Settled(items[..count], i)
    modifies items
    ensures multiset(items[..count]) == multiset(old(items[..count]))
    ensures Settled(items[..count], i + 1)
  {
    var j := i + 1;
    while j < count
      invariant i < j <= count && multiset(items[..count]) == multiset(old(items[..count]))
      invariant forall k, l | 0 <= k < i && k < l < count :: items[k].id <= items[l].id
      invariant forall l | i < l < j :: items[i].id <= items[l].id
    {
      Exchange(items, i, j, count);
      j := j + 1;
    }
  }

  /** Scans the directory into at most ten rows and sorts them. */
  method RebuildRows(dir: seq<Entry>) returns (rows: seq<Row>)
    ensures SortedById(rows) && multiset(rows) == multiset(Scanned(dir))
  {
    hide RowOf, Accepted, SortedById;
    var items := new Row[MAX_PROGRAMS](_ => Row(0, ""));
    var count, i := 0, 0;
    assert Accepted(dir[..0]) == [] by { NoneAccepted(dir); }
    while i < |dir|
      invariant i <= |dir| && count <= MAX_PROGRAMS
      invariant items[..count] == Accepted(dir[..i])
    {
      AcceptedStep(dir, i);
      var row := RowOf(dir[i]);
      if row.Some? {
        if count >= MAX_PROGRAMS {
          break;
        }
        items[count] := row.value;
        count := count + 1;
      }
      i := i + 1;
    }
    ScannedIs(dir, i);
    SortRows(items, count);
    rows := items[..count];
  }

  lemma NoneAccepted(dir: seq<Entry>)
    ensures Accepted(dir[..0]) == []
  {
  }

  lemma AcceptedStep(dir: seq<Entry>, i: nat)
    requires i < |dir|
    ensures Accepted(dir[..i + 1])
            == Accepted(dir[..i]) + match RowOf(dir[i]) case None => [] case Some(row) => [row]
  {
    hide RowOf;
    assert dir[..i + 1][..i] == dir[..i];
  }

  /** Where the scan stops it has the scanned rows: at the end, or at the eleventh accepted file. */
  lemma ScannedIs(dir: seq<Entry>, i: nat)
    requires i <= |dir| && |Accepted(dir[..i])| <= MAX_PROGRAMS
    requires i < |dir| ==> |Accepted(dir[..i])| == MAX_PROGRAMS
    ensures Accepted(dir[..i]) == Scanned(dir)
  {
    hide Accepted;
    AcceptedPrefix(dir, i);
    assert i == |dir| ==> dir[..i] == dir;
  }

  lemma {:induction false} AcceptedPrefix(dir: seq<Entry>, n: nat)
    requires n <= |dir|
    ensures Accepted(dir[..n]) <= Accepted(dir)
    decreases |dir|
  {
    if n == |dir| {
      assert dir[..n] == dir;
    } else {
      assert dir[..|dir| - 1][..n] == dir[..n];
      AcceptedPrefix(dir[..|dir| - 1], n);
    }
  }

  /** Rewrites the index exactly when it does not agree with the directory; `writes` tells whether the flash takes it. */
  method EnsureProgramIndex(dir: seq<Entry>, index: Option<seq<Event>>, writes: bool)
    returns (ok: bool, written: Option<seq<Event>>)
    ensures ok <==> IndexAgrees(dir, index) || writes
    ensures written.None? <==> IndexAgrees(dir, index)
    ensures written.Some? ==>
              exists rows :: SortedById(rows) && multiset(rows) == multiset(Scanned(dir)) && written.value == IndexEvents(rows)
  {
    var mismatch := IndexMismatch(dir, index);
    if mismatch {
      var rows := RebuildRows(dir);
      var text := EmitIndexArrayBody(rows);
      ok, written := writes, Some(text);
    } else {
      ok, written := true, None;
    }
  }
}
