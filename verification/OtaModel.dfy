/** The OTA container: its layout, what reading it does to the updater and the flash file system, and the round trip. */
module OtaModel {
  import opened Bytes

  const CHUNK := 256
  const NAME_BUFFER := 256
  const SHORT_PATH := 31     // FSManager's path buffer without its terminator
  const LONG_PATH := 95      // the temp path buffer of closeWriteStream without its terminator

  type Name = seq<byte>
  type Files = map<Name, seq<byte>>
  datatype Entry = Entry(name: Name, content: seq<byte>)

  const TMP: seq<byte> := [0x2E, 0x74, 0x6D, 0x70]

  // ---- Layout --------------------------------------------------------------

  /** The lowest `k` bytes, least significant first. */
  function Le(n: nat, k: nat): (b: seq<byte>)
    ensures |b| == k
  {
    if k == 0 then [] else [n % 256] + Le(n / 256, k - 1)
  }

  function FromLe(b: seq<byte>): nat {
    if b == [] then 0 else (b[0] as int) + 256 * FromLe(b[1..])
  }

  function Pow256(k: nat): (p: nat)
    ensures p > 0
  {
    if k == 0 then 1 else 256 * Pow256(k - 1)
  }

  /** Every number that fits its bytes is read back. */
  lemma {:induction false} LeRoundTrip(n: nat, k: nat)
    requires n < Pow256(k)
    ensures FromLe(Le(n, k)) == n
  {
    if k > 0 {
      LeRoundTrip(n / 256, k - 1);
      assert Le(n, k)[1..] == Le(n / 256, k - 1);
    }
  }

  function Le16(n: nat): (b: seq<byte>)
    requires n < 0x1_0000
    ensures |b| == 2 && FromLe16(b) == n
  {
    assert Pow256(2) == 256 * Pow256(1);
    LeRoundTrip(n, 2);
    Le(n, 2)
  }

  function Le32(n: nat): (b: seq<byte>)
    requires n < WORD
    ensures |b| == 4 && FromLe32(b) == n
  {
    assert Pow256(4) == 256 * Pow256(3) && Pow256(3) == 256 * Pow256(2) && Pow256(2) == 256 * Pow256(1);
    LeRoundTrip(n, 4);
    Le(n, 4)
  }

  function FromLe16(b: seq<byte>): nat
    requires |b| == 2
  {
    FromLe(b)
  }

  function FromLe32(b: seq<byte>): nat
    requires |b| == 4
  {
    FromLe(b)
  }

  predicate Packable(e: Entry) { |e.name| < 0x1_0000 && |e.content| < WORD }

  predicate AllPackable(files: seq<Entry>) { forall i | 0 <= i < |files| :: Packable(files[i]) }

  function Record(e: Entry): seq<byte>
    requires Packable(e)
  {
    Le16(|e.name|) + e.name + Le32(|e.content|) + e.content
  }

  function Records(files: seq<Entry>): seq<byte>
    requires AllPackable(files)
  {
    if files == [] then [] else Record(files[0]) + Records(files[1..])
  }

  function Package(firmware: seq<byte>, files: seq<Entry>): seq<byte>
    requires |firmware| < WORD && AllPackable(files)
  {
    Le32(|firmware|) + firmware + Records(files)
  }

  // ---- Copying in chunks ---------------------------------------------------

  /** Copies `remaining` bytes of `src` chunk by chunk into a sink that takes `room` bytes:
      whether all went through, what the sink took, and how many bytes of the source were read. */
  function CopyChunks(src: seq<byte>, remaining: nat, room: nat): (r: (bool, seq<byte>, nat))
    ensures r.2 <= |src| && |r.1| <= room
    decreases remaining
  {
    if remaining == 0 then (true, [], 0)
    else
      var n := Min(remaining, CHUNK);
      if |src| < n then (false, [], |src|)
      else if room < n then (false, src[..room], n)
      else
        var rest := CopyChunks(src[n..], remaining - n, room - n);
        (rest.0, src[..n] + rest.1, n + rest.2)
  }

  /** Chunk boundaries do not show: a copy with enough source and room is the first `remaining` bytes,
      and it fails exactly when one of the two is short. */
  lemma {:induction false} CopyIsExact(src: seq<byte>, remaining: nat, room: nat)
    ensures CopyChunks(src, remaining, room).0 <==> remaining <= |src| && remaining <= room
    ensures CopyChunks(src, remaining, room).0 ==> CopyChunks(src, remaining, room) == (true, src[..remaining], remaining)
    ensures CopyChunks(src, remaining, room).1 <= src
    decreases remaining
  {
    if remaining > 0 {
      var n := Min(remaining, CHUNK);
      if n <= |src| && n <= room {
        var rest := CopyChunks(src[n..], remaining - n, room - n);
        assert CopyChunks(src, remaining, room) == (rest.0, src[..n] + rest.1, n + rest.2);
        CopyIsExact(src[n..], remaining - n, room - n);
        ExactStep(src, remaining, room, n, rest);
      }
    }
  }

  lemma ExactStep(src: seq<byte>, remaining: nat, room: nat, n: nat, rest: (bool, seq<byte>, nat))
    requires n <= remaining && n <= |src| && n <= room
    requires rest.0 <==> remaining - n <= |src| - n && remaining - n <= room - n
    requires rest.0 ==> rest == (true, src[n..][..remaining - n], remaining - n)
    requires rest.1 <= src[n..]
    ensures rest.0 ==> (rest.0, src[..n] + rest.1, n + rest.2) == (true, src[..remaining], remaining)
    ensures src[..n] + rest.1 <= src
  {
    assert src == src[..n] + src[n..];
    if rest.0 {
      assert src[..remaining] == src[..n] + src[n..][..remaining - n];
    }
  }

  // ---- The flash file system -----------------------------------------------

  const MARGIN := 4096       // spare bytes asked for beyond the file's size

  /** What the flash has in store for one attempt to write a file: whether the directory can be made, the free space
      after cleaning up, whether the old temp file can be removed and the new one opened, how many bytes it takes, and
      whether the target can be removed, the temp file renamed and the temp file dropped. */
  datatype Fate = Fate(
    makesPath: bool, free: nat, clears: bool, opens: bool, takes: nat, removes: bool, renames: bool, drops: bool)
  {
    /** The size is added in 32 bits. */
    predicate HasSpace(size: nat) { makesPath && free >= (size + MARGIN) % WORD }
  }

  /** Files by name, and what befalls each attempt to write one: the next attempt is number `at`. */
  datatype Flash = Flash(files: Files, fates: nat -> Fate, at: nat)

  /** What C sees of a name: the bytes before the first NUL. */
  function CStr(name: Name): Name {
    if name == [] || name[0] == 0 then [] else [name[0]] + CStr(name[1..])
  }

  function Cut(s: seq<byte>, n: nat): seq<byte> { s[..Min(|s|, n)] }

  function ShortTmp(path: Name): Name { Cut(path + TMP, SHORT_PATH) }

  function LongTmp(path: Name): Name { Cut(path + TMP, LONG_PATH) }

  /** The temp file is created under one name and committed under another: the same one exactly for short paths. */
  lemma TmpNamesAgree(path: Name)
    ensures ShortTmp(path) == LongTmp(path) <==> |path| + |TMP| <= SHORT_PATH
    ensures ShortTmp(path) == LongTmp(path) ==> LongTmp(path) == path + TMP
  {
  }

  /** Opening for writing replaces the temp file by an empty one: whether it succeeds, and the files. */
  function Opened(files: Files, path: Name, size: nat, t: Fate): (bool, Files) {
    if !t.HasSpace(size) then (false, files)
    else
      var cleared := if t.clears then files - {ShortTmp(path)} else files;
      if t.opens then (true, cleared[ShortTmp(path) := []]) else (false, cleared)
  }

  /** The temp file, by its long name, is dropped if that succeeds. */
  function Dropped(files: Files, path: Name, t: Fate): Files { if t.drops then files - {LongTmp(path)} else files }

  /** Committing removes the target and renames the temp file, by its long name, to it. */
  function Committed(files: Files, path: Name, t: Fate): (bool, Files) {
    if path in files && !t.removes then (false, Dropped(files, path, t))
    else
      var cleared := files - {path};
      if LongTmp(path) in cleared && t.renames then
        (true, (cleared - {LongTmp(path)})[path := cleared[LongTmp(path)]])
      else (false, Dropped(cleared, path, t))
  }

  // ---- Reading -------------------------------------------------------------

  /** Skipping past the end leaves the position where it is. */
  function Skip(data: seq<byte>, n: nat): seq<byte> { if n <= |data| then data[n..] else data }

  /** What unpacking one opened file does: `src` starts with its content. */
  function Unpack(src: seq<byte>, size: nat, path: Name, files: Files, t: Fate): (bool, Files) {
    var copy := CopyChunks(src, size, t.takes);
    var written := files[ShortTmp(path) := copy.1];
    if copy.0 then Committed(written, path, t) else (false, Dropped(written, path, t))
  }

  /** What the bytes at the start of a record say. */
  datatype RecordHead = Truncated | Terminator | LongName(nameLen: nat) | FileHead(path: Name, size: nat, used: nat)

  function HeadOf(data: seq<byte>): (h: RecordHead)
    ensures h.LongName? ==> |data| >= 2
    ensures h.FileHead? ==> 6 <= h.used <= |data|
  {
    if |data| < 2 then Truncated
    else
      var nameLen := FromLe16(data[..2]);
      if nameLen == 0 then Terminator
      else if nameLen >= NAME_BUFFER then LongName(nameLen)
      else if |data| < 2 + nameLen + 4 then Truncated
      else FileHead(CStr(data[2..2 + nameLen]), FromLe32(data[2 + nameLen..2 + nameLen + 4]), 2 + nameLen + 4)
  }

  /** The record reader on the bytes from the current position on. */
  function Extract(data: seq<byte>, fl: Flash): (r: (bool, Flash))
    decreases |data|
  {
    if data == [] then (true, fl)
    else
      match HeadOf(data)
      case Truncated => (false, fl)
      case Terminator => (true, fl)
      case LongName(nameLen) => Extract(Skip(data[2..], nameLen), fl)
      case FileHead(path, size, used) =>
        var rest, fate := data[used..], fl.fates(fl.at);
        var open := Opened(fl.files, path, size, fate);
        if !open.0 then Extract(Skip(rest, size), fl.(files := open.1, at := fl.at + 1))
        else
          var u := Unpack(rest, size, path, open.1, fate);
          var next := fl.(files := u.1, at := fl.at + 1);
          if u.0 then Extract(rest[Min(size, |rest|)..], next) else (false, next)
  }

  /** The updater: whether it begins, how many bytes it takes, whether it seals, and what it took. */
  datatype Updater = Updater(begins: bool, room: nat, seals: bool, written: seq<byte>)

  /** The whole update on the bytes of the container. */
  function Process(data: seq<byte>, up: Updater, fl: Flash): (bool, Updater, Flash) {
    if |data| < 4 then (false, up, fl)
    else
      var fwSize := FromLe32(data[..4]);
      if !up.begins then (false, up, fl)
      else
        var copy := CopyChunks(data[4..], fwSize, up.room);
        var fed := up.(room := up.room - |copy.1|, written := up.written + copy.1);
        if !copy.0 || !up.seals then (false, fed, fl)
        else
          var x := Extract(data[4..][copy.2..], fl);
          (x.0, fed, x.1)
  }

  // ---- What a package is to do ---------------------------------------------

  function Names(files: seq<Entry>): set<Name> { set i | 0 <= i < |files| :: files[i].name }

  predicate Unique(files: seq<Entry>) {
    forall i, j | 0 <= i < j < |files| :: files[i].name != files[j].name
  }

  /** A name the reader understands: a C string of 1..255 bytes. */
  predicate Named(e: Entry) { 1 <= |e.name| < NAME_BUFFER && 0 !in e.name }

  predicate AllNamed(files: seq<Entry>) { forall i | 0 <= i < |files| :: Named(files[i]) }

  predicate ShortName(e: Entry) { |e.name| + |TMP| <= SHORT_PATH }

  predicate AllShort(files: seq<Entry>) { forall i | 0 <= i < |files| :: ShortName(files[i]) }

  /** The file can be opened for writing; otherwise the reader skips it. */
  predicate Accepts(t: Fate, e: Entry) { t.HasSpace(|e.content|) && t.opens }

  /** There is a temp file to commit: the one just written under a short name, a stray one under a long name. */
  predicate TmpThere(files: Files, e: Entry) {
    ShortName(e) || (LongTmp(e.name) in files && LongTmp(e.name) != e.name)
  }

  /** An accepted file goes through: the flash takes its content and commits it. */
  predicate Goes(files: Files, e: Entry, t: Fate) {
    && |e.content| <= t.takes
    && (e.name in files || e.name == ShortTmp(e.name) ==> t.removes)
    && t.renames && TmpThere(files, e)
  }

  /** The files after an accepted one went through. Under a long name the stray file is what gets its name. */
  function Installed(files: Files, e: Entry): Files
    requires TmpThere(files, e)
  {
    if ShortName(e) then (files - {e.name + TMP})[e.name := e.content]
    else (files[ShortTmp(e.name) := e.content] - {LongTmp(e.name)})[e.name := files[LongTmp(e.name)]]
  }

  /** The files after one record that did not end the update. */
  function After(files: Files, e: Entry, t: Fate): Files
    requires Accepts(t, e) ==> TmpThere(files, e)
  {
    if Accepts(t, e) then Installed(files, e) else Opened(files, e.name, |e.content|, t).1
  }

  /** Every accepted file goes through. */
  predicate AllGo(files: Files, entries: seq<Entry>, fates: nat -> Fate, at: nat)
    decreases |entries|
  {
    entries == []
    || ((Accepts(fates(at), entries[0]) ==> Goes(files, entries[0], fates(at)))
        && AllGo(After(files, entries[0], fates(at)), entries[1..], fates, at + 1))
  }

  /** Every file written or skipped in turn. */
  function WriteAll(files: Files, entries: seq<Entry>, fates: nat -> Fate, at: nat): Files
    requires AllGo(files, entries, fates, at)
    decreases |entries|
  {
    if entries == [] then files else WriteAll(After(files, entries[0], fates(at)), entries[1..], fates, at + 1)
  }

  /** The files that are not skipped. */
  function Accepted(entries: seq<Entry>, fates: nat -> Fate, at: nat): (r: seq<Entry>)
    ensures Names(r) <= Names(entries)
  {
    if entries == [] then []
    else
      var rest := Accepted(entries[1..], fates, at + 1);
      NamesSplit(entries);
      if Accepts(fates(at), entries[0]) then
        assert ([entries[0]] + rest)[1..] == rest;
        NamesSplit([entries[0]] + rest);
        [entries[0]] + rest
      else rest
  }

  /** The old files overridden by the packed ones. */
  function Override(files: Files, entries: seq<Entry>): Files
    decreases |entries|
  {
    if entries == [] then files else Override(files[entries[0].name := entries[0].content], entries[1..])
  }

  lemma NamesSplit(entries: seq<Entry>)
    requires entries != []
    ensures Names(entries) == {entries[0].name} + Names(entries[1..])
  {
    var rest := entries[1..];
    forall n | n in Names(entries)
      ensures n in {entries[0].name} + Names(rest)
    {
      var i :| 0 <= i < |entries| && entries[i].name == n;
      assert i > 0 ==> rest[i - 1].name == n;
    }
    forall n | n in Names(rest)
      ensures n in Names(entries)
    {
      var i :| 0 <= i < |rest| && rest[i].name == n;
      assert entries[i + 1].name == n;
    }
  }

  // ---- Reading what was packed ---------------------------------------------

  lemma {:induction false} CStrOfName(name: Name)
    requires 0 !in name
    ensures CStr(name) == name
  {
    if name != [] {
      assert name[0] != 0;
      CStrOfName(name[1..]);
      assert [name[0]] + name[1..] == name;
    }
  }

  lemma Split3(a: seq<byte>, b: seq<byte>, c: seq<byte>)
    ensures (a + b + c)[..|a|] == a
    ensures (a + b + c)[|a|..|a| + |b|] == b
    ensures (a + b + c)[|a| + |b|..] == c
  {
  }

  lemma Split4(a: seq<byte>, b: seq<byte>, c: seq<byte>, d: seq<byte>)
    ensures var s := a + b + c + d;
            && s[..|a|] == a
            && s[|a|..|a| + |b|] == b
            && s[|a| + |b|..|a| + |b| + |c|] == c
            && s[|a| + |b| + |c|..] == d
  {
    assert a + b + c + d == a + b + (c + d);
    Split3(a, b, c + d);
    Split3(a + b, c, d);
  }

  /** The reader sees a record as what the writer put there. */
  lemma RecordParts(e: Entry, tail: seq<byte>)
    requires Packable(e)
    ensures var s, n := Record(e) + tail, |e.name|;
            && |s| >= 2 + n + 4
            && FromLe16(s[..2]) == n
            && s[2..2 + n] == e.name
            && FromLe32(s[2 + n..2 + n + 4]) == |e.content|
            && s[2 + n + 4..] == e.content + tail
  {
    hide FromLe16, FromLe32, Le16, Le32;
    var len, size := Le16(|e.name|), Le32(|e.content|);
    Split4(len, e.name, size, e.content + tail);
    Associate(len + e.name + size, e.content, tail);
    var s := Record(e) + tail;
    assert s[..2] == len;
  }

  lemma CopyAll(content: seq<byte>, tail: seq<byte>, takes: nat)
    ensures CopyChunks(content + tail, |content|, takes).0 <==> |content| <= takes
    ensures |content| <= takes ==> CopyChunks(content + tail, |content|, takes).1 == content
  {
    CopyIsExact(content + tail, |content|, takes);
    assert (content + tail)[..|content|] == content;
  }

  /** Committing what was written, under a short name. */
  lemma ShortCommits(e: Entry, files: Files, t: Fate)
    requires ShortName(e) && Accepts(t, e)
    ensures var written := Opened(files, e.name, |e.content|, t).1[ShortTmp(e.name) := e.content];
            var c := Committed(written, e.name, t);
            && (c.0 <==> (e.name in files ==> t.removes) && t.renames)
            && (c.0 ==> c.1 == Installed(files, e))
  {
    TmpNamesAgree(e.name);
    hide ShortTmp, LongTmp;
    var tmp := e.name + TMP;
    assert |tmp| > |e.name|;
    var written := Opened(files, e.name, |e.content|, t).1[tmp := e.content];
    assert written - {e.name} - {tmp} == files - {e.name} - {tmp};
  }

  /** Under a long name the temp file just written is not the one committed. */
  lemma LongCommits(e: Entry, files: Files, t: Fate)
    requires !ShortName(e) && Accepts(t, e)
    ensures var written := Opened(files, e.name, |e.content|, t).1[ShortTmp(e.name) := e.content];
            var c := Committed(written, e.name, t);
            && (c.0 <==> (e.name in files || e.name == ShortTmp(e.name) ==> t.removes) && t.renames && TmpThere(files, e))
            && (c.0 ==> c.1 == Installed(files, e))
            && (!c.0 && t.removes ==> e.name !in c.1)
  {
    TmpNamesAgree(e.name);
    hide ShortTmp, LongTmp;
    var written := Opened(files, e.name, |e.content|, t).1[ShortTmp(e.name) := e.content];
    assert LongTmp(e.name) in written <==> LongTmp(e.name) in files;
    assert written == files[ShortTmp(e.name) := e.content];
  }

  /** An accepted file goes through exactly when the flash takes its content and commits it, and the chunks its
      content was copied in do not show. */
  lemma UnpackExactly(e: Entry, tail: seq<byte>, files: Files, t: Fate)
    requires Accepts(t, e)
    ensures var u := Unpack(e.content + tail, |e.content|, e.name, Opened(files, e.name, |e.content|, t).1, t);
            && (u.0 <==> Goes(files, e, t))
            && (u.0 ==> u.1 == Installed(files, e))
  {
    CopyAll(e.content, tail, t.takes);
    hide CopyChunks, Committed, Opened, Installed, Accepts;
    if ShortName(e) {
      ShortCommits(e, files, t);
      assert e.name != ShortTmp(e.name) by { TmpNamesAgree(e.name); }
    } else {
      LongCommits(e, files, t);
    }
  }

  /** A long name fails for want of the temp file, after the old file is gone; unless a stray file bears the long temp
      name: then the update goes on, with the stray file's content under the packed name. */
  lemma LongUnpack(e: Entry, tail: seq<byte>, files: Files, t: Fate)
    requires !ShortName(e) && Accepts(t, e) && |e.content| <= t.takes && t.removes && t.renames
    ensures var u := Unpack(e.content + tail, |e.content|, e.name, Opened(files, e.name, |e.content|, t).1, t);
            && (u.0 <==> LongTmp(e.name) in files && LongTmp(e.name) != e.name)
            && (!u.0 ==> e.name !in u.1)
            && (u.0 ==> e.name in u.1 && u.1[e.name] == files[LongTmp(e.name)])
  {
    CopyAll(e.content, tail, t.takes);
    LongCommits(e, files, t);
    hide CopyChunks, Committed, Opened, Accepts, LongTmp, ShortTmp;
  }

  lemma RecordHeadOf(e: Entry, tail: seq<byte>)
    requires Packable(e) && Named(e)
    ensures var h := HeadOf(Record(e) + tail);
            h.FileHead? && h.path == e.name && h.size == |e.content| && (Record(e) + tail)[h.used..] == e.content + tail
  {
    hide Record, CStr, FromLe16, FromLe32;
    RecordParts(e, tail);
    CStrOfName(e.name);
  }

  /** One record, read. */
  lemma RecordExtracts(e: Entry, tail: seq<byte>, fl: Flash)
    requires Packable(e) && Named(e)
    ensures var t := fl.fates(fl.at);
            && (Extract(Record(e) + tail, fl).0 ==> Accepts(t, e) ==> Goes(fl.files, e, t))
            && ((Accepts(t, e) ==> Goes(fl.files, e, t)) ==>
                  Extract(Record(e) + tail, fl) == Extract(tail, fl.(files := After(fl.files, e, t), at := fl.at + 1)))
  {
    RecordHeadOf(e, tail);
    var t := fl.fates(fl.at);
    assert Goes(fl.files, e, t) ==> TmpThere(fl.files, e);
    hide Unpack, Record, HeadOf, Goes, Installed, TmpThere;
    assert (e.content + tail)[|e.content|..] == tail;
    if Accepts(t, e) {
      UnpackExactly(e, tail, fl.files, t);
    }
  }

  /** Reading the records of a package: it succeeds exactly when every accepted file goes through. */
  lemma {:induction false} RecordsExtract(entries: seq<Entry>, fl: Flash)
    requires AllPackable(entries) && AllNamed(entries)
    ensures Extract(Records(entries), fl).0 <==> AllGo(fl.files, entries, fl.fates, fl.at)
    ensures AllGo(fl.files, entries, fl.fates, fl.at) ==>
              Extract(Records(entries), fl).1.files == WriteAll(fl.files, entries, fl.fates, fl.at)
    decreases |entries|
  {
    if entries != [] {
      var e, t := entries[0], fl.fates(fl.at);
      assert Goes(fl.files, e, t) ==> TmpThere(fl.files, e);
      hide Extract, Record, Accepts, Goes, After, Packable, Named;
      assert forall i | 0 <= i < |entries| - 1 :: entries[1..][i] == entries[i + 1];
      RecordExtracts(e, Records(entries[1..]), fl);
      if Accepts(t, e) ==> Goes(fl.files, e, t) {
        RecordsExtract(entries[1..], fl.(files := After(fl.files, e, t), at := fl.at + 1));
      }
    }
  }

  // ---- When nothing is lost ------------------------------------------------

  /** The old temp file that makes way for an attempt to write, whether or not the attempt succeeds. */
  function Lost(e: Entry, t: Fate): set<Name> {
    if t.HasSpace(|e.content|) && (t.opens || t.clears) then {ShortTmp(e.name)} else {}
  }

  /** A file that makes way, an old one or an earlier packed one, is followed by the accepted owner of its name. */
  predicate NothingLost(files: Files, entries: seq<Entry>, fates: nat -> Fate, at: nat)
    requires AllGo(files, entries, fates, at)
    decreases |entries|
  {
    entries == []
    || (var rest := entries[1..];
        && (forall k | k in Lost(entries[0], fates(at)) && k in files :: k in Names(Accepted(rest, fates, at + 1)))
        && NothingLost(After(files, entries[0], fates(at)), rest, fates, at + 1))
  }

  /** Without long names a record costs what makes way and gives what it holds. */
  lemma AfterShort(files: Files, e: Entry, t: Fate)
    requires Accepts(t, e) ==> ShortName(e)
    ensures After(files, e, t) == if Accepts(t, e) then (files - Lost(e, t))[e.name := e.content] else files - Lost(e, t)
    ensures Accepts(t, e) ==> e.name !in Lost(e, t)
  {
    TmpNamesAgree(e.name);
  }

  lemma {:induction false} OverrideKeys(files: Files, entries: seq<Entry>)
    ensures Override(files, entries).Keys == files.Keys + Names(entries)
    decreases |entries|
  {
    if entries != [] {
      OverrideKeys(files[entries[0].name := entries[0].content], entries[1..]);
      NamesSplit(entries);
    }
  }

  lemma {:induction false} WriteAllKeys(files: Files, entries: seq<Entry>, fates: nat -> Fate, at: nat)
    requires AllGo(files, entries, fates, at) && AllShort(Accepted(entries, fates, at))
    ensures WriteAll(files, entries, fates, at).Keys <= files.Keys + Names(Accepted(entries, fates, at))
    decreases |entries|
  {
    if entries != [] {
      ShortTail(entries, fates, at);
      hide After, Accepts, Goes, Lost, Names;
      AfterShort(files, entries[0], fates(at));
      WriteAllKeys(After(files, entries[0], fates(at)), entries[1..], fates, at + 1);
    }
  }

  lemma ShortTail(entries: seq<Entry>, fates: nat -> Fate, at: nat)
    requires entries != [] && AllShort(Accepted(entries, fates, at))
    ensures AllShort(Accepted(entries[1..], fates, at + 1))
    ensures Accepts(fates(at), entries[0]) ==> ShortName(entries[0])
    ensures Names(Accepted(entries, fates, at))
         == (if Accepts(fates(at), entries[0]) then {entries[0].name} else {}) + Names(Accepted(entries[1..], fates, at + 1))
  {
    hide Accepts, ShortName, Names;
    var all, rest := Accepted(entries, fates, at), Accepted(entries[1..], fates, at + 1);
    if Accepts(fates(at), entries[0]) {
      assert all[0] == entries[0] && all[1..] == rest;
      NamesSplit(all);
      assert forall i | 0 <= i < |rest| :: rest[i] == all[i + 1];
    }
  }

  /** Overriding hides what the overridden names held before. */
  lemma {:induction false} OverrideHides(a: Files, b: Files, entries: seq<Entry>)
    requires forall k :: k !in Names(entries) ==> (k in a <==> k in b) && (k in a ==> a[k] == b[k])
    ensures Override(a, entries) == Override(b, entries)
    decreases |entries|
  {
    if entries == [] {
      assert Names(entries) == {};
      assert a == b;
    } else {
      var e := entries[0];
      NamesSplit(entries);
      OverrideHides(a[e.name := e.content], b[e.name := e.content], entries[1..]);
    }
  }

  /** The package leaves the old files overridden by the accepted ones exactly when nothing that makes way is lost. */
  lemma {:induction false} NothingLostExactly(files: Files, entries: seq<Entry>, fates: nat -> Fate, at: nat)
    requires AllGo(files, entries, fates, at) && AllShort(Accepted(entries, fates, at))
    ensures WriteAll(files, entries, fates, at) == Override(files, Accepted(entries, fates, at))
       <==> NothingLost(files, entries, fates, at)
    decreases |entries|
  {
    if entries != [] {
      var e, t, rest := entries[0], fates(at), entries[1..];
      var kept := Accepted(rest, fates, at + 1);
      ShortTail(entries, fates, at);
      AfterShort(files, e, t);
      var lossy := After(files, e, t);
      var full := if Accepts(t, e) then files[e.name := e.content] else files;
      assert Override(files, Accepted(entries, fates, at)) == Override(full, kept) by {
        assert Accepts(t, e) ==> ([e] + kept)[1..] == kept;
      }
      hide After, Accepts, Goes, Lost, Names, Accepted;
      NothingLostExactly(lossy, rest, fates, at + 1);
      WriteAllKeys(lossy, rest, fates, at + 1);
      OverrideKeys(full, kept);
      if k :| k in Lost(e, t) && k in files && k !in Names(kept) {
        assert k in Override(full, kept).Keys;
        assert k !in WriteAll(lossy, rest, fates, at + 1).Keys;
      } else {
        OverrideHides(lossy, full, kept);
      }
    }
  }

  // ---- When everything is installed ----------------------------------------

  lemma {:induction false} OverrideElse(files: Files, entries: seq<Entry>, k: Name)
    requires k !in Names(entries)
    ensures k in Override(files, entries) <==> k in files
    ensures k in files ==> Override(files, entries)[k] == files[k]
    decreases |entries|
  {
    if entries != [] {
      NamesSplit(entries);
      OverrideElse(files[entries[0].name := entries[0].content], entries[1..], k);
    }
  }

  lemma UniqueTail(entries: seq<Entry>)
    requires entries != [] && Unique(entries)
    ensures Unique(entries[1..]) && entries[0].name !in Names(entries[1..])
  {
    assert forall i | 0 <= i < |entries| - 1 :: entries[1..][i] == entries[i + 1];
  }

  /** What was skipped was there already. */
  predicate SkippedPresent(files: Files, entries: seq<Entry>, fates: nat -> Fate, at: nat)
    decreases |entries|
  {
    entries == []
    || ((Accepts(fates(at), entries[0]) || (entries[0].name in files && files[entries[0].name] == entries[0].content))
        && SkippedPresent(files, entries[1..], fates, at + 1))
  }

  lemma {:induction false} PresentElsewhere(files: Files, k: Name, c: seq<byte>, entries: seq<Entry>, fates: nat -> Fate, at: nat)
    requires k !in Names(entries)
    ensures SkippedPresent(files[k := c], entries, fates, at) <==> SkippedPresent(files, entries, fates, at)
    decreases |entries|
  {
    if entries != [] {
      NamesSplit(entries);
      PresentElsewhere(files, k, c, entries[1..], fates, at + 1);
    }
  }

  /** The accepted files alone leave the flash as the whole package would exactly when all skipped ones were there. */
  lemma {:induction false} NothingSkippedExactly(files: Files, entries: seq<Entry>, fates: nat -> Fate, at: nat)
    requires Unique(entries)
    ensures Override(files, Accepted(entries, fates, at)) == Override(files, entries)
       <==> SkippedPresent(files, entries, fates, at)
    decreases |entries|
  {
    if entries != [] {
      var e, rest := entries[0], entries[1..];
      var kept := Accepted(rest, fates, at + 1);
      assert Accepts(fates(at), e) ==> Accepted(entries, fates, at) == [e] + kept && ([e] + kept)[1..] == kept;
      UniqueTail(entries);
      hide Accepts, Names;
      var next := files[e.name := e.content];
      NothingSkippedExactly(next, rest, fates, at + 1);
      PresentElsewhere(files, e.name, e.content, rest, fates, at + 1);
      if !Accepts(fates(at), e) {
        OverrideElse(next, rest, e.name);
        OverrideElse(files, kept, e.name);
        assert next[e.name] == e.content;
        if e.name in files && files[e.name] == e.content {
          assert next == files;
        }
      }
    }
  }

  /** A file that cannot be opened for writing is passed over in silence. */
  lemma SkipsInSilence(e: Entry, fl: Flash)
    requires Packable(e) && Named(e) && !Accepts(fl.fates(fl.at), e)
    ensures Extract(Record(e), fl).0
    ensures Extract(Record(e), fl).1.files == Opened(fl.files, e.name, |e.content|, fl.fates(fl.at)).1
  {
    RecordExtracts(e, [], fl);
    assert Record(e) + [] == Record(e);
  }

  // ---- The round trip ------------------------------------------------------

  /** The updater takes the firmware. */
  predicate Takes(up: Updater, firmware: seq<byte>) { up.begins && up.seals && |firmware| <= up.room }

  /** The updater's share of the round trip. */
  lemma PackageReads(firmware: seq<byte>, entries: seq<Entry>, up: Updater, fl: Flash)
    requires |firmware| < WORD && AllPackable(entries)
    ensures var r, x := Process(Package(firmware, entries), up, fl), Extract(Records(entries), fl);
            && (Takes(up, firmware) ==> r.1.written == up.written + firmware && r.0 == x.0 && r.2 == x.1)
            && (!Takes(up, firmware) ==> !r.0 && r.2 == fl)
  {
    hide FromLe32, Le32, Records, CopyChunks, Extract;
    var records := Records(entries);
    Split3(Le32(|firmware|), firmware, records);
    Associate(Le32(|firmware|), firmware, records);
    CopyIsExact(firmware + records, |firmware|, up.room);
    assert (firmware + records)[..|firmware|] == firmware;
    assert (firmware + records)[|firmware|..] == records;
  }

  /** Reading what was packed, whatever the flash and the updater do: the update succeeds exactly when the updater
      takes the firmware, which it then has to the byte, and every accepted file goes through; the flash then holds the
      old files overridden by the accepted ones exactly when nothing that makes way for a temp file is lost, and
      overridden by the whole package exactly when, besides, every skipped file was there already. */
  lemma PackageRoundTrip(firmware: seq<byte>, entries: seq<Entry>, up: Updater, fl: Flash)
    requires |firmware| < WORD && AllPackable(entries) && AllNamed(entries) && Unique(entries)
    ensures var r, kept := Process(Package(firmware, entries), up, fl), Accepted(entries, fl.fates, fl.at);
            && (r.0 <==> Takes(up, firmware) && AllGo(fl.files, entries, fl.fates, fl.at))
            && (Takes(up, firmware) ==> r.1.written == up.written + firmware)
            && (!Takes(up, firmware) ==> r.2 == fl)
            && (r.0 ==> r.2.files == WriteAll(fl.files, entries, fl.fates, fl.at))
            && (r.0 && AllShort(kept) ==>
                  (r.2.files == Override(fl.files, kept) <==> NothingLost(fl.files, entries, fl.fates, fl.at)))
            && (r.0 && r.2.files == Override(fl.files, kept) ==>
                  (r.2.files == Override(fl.files, entries) <==> SkippedPresent(fl.files, entries, fl.fates, fl.at)))
  {
    hide Package, Process, Takes, AllGo, AllShort, NothingLost, WriteAll;
    PackageReads(firmware, entries, up, fl);
    RecordsExtract(entries, fl);
    NothingSkippedExactly(fl.files, entries, fl.fates, fl.at);
    if AllGo(fl.files, entries, fl.fates, fl.at) && AllShort(Accepted(entries, fl.fates, fl.at)) {
      NothingLostExactly(fl.files, entries, fl.fates, fl.at);
    }
  }

  // ---- On a flash that does not fail ---------------------------------------

  /** The flash does everything asked of it. */
  predicate Serves(t: Fate, e: Entry) { Accepts(t, e) && |e.content| <= t.takes && t.removes && t.renames }

  predicate AllServed(entries: seq<Entry>, fates: nat -> Fate, at: nat) {
    forall i | 0 <= i < |entries| :: Serves(fates(at + i), entries[i])
  }

  /** No file of the flash or of the package has the temp name of one of the package's long-named files. */
  predicate NoStrayTmp(files: Files, entries: seq<Entry>) {
    forall i | 0 <= i < |entries| && !ShortName(entries[i]) ::
      LongTmp(entries[i].name) !in files && LongTmp(entries[i].name) !in Names(entries)
  }

  lemma LongIsLonger(a: Entry, b: Entry)
    requires !ShortName(a)
    ensures LongTmp(a.name) != ShortTmp(b.name)
  {
    assert |LongTmp(a.name)| > SHORT_PATH >= |ShortTmp(b.name)|;
  }

  lemma StrayTail(files: Files, entries: seq<Entry>, t: Fate)
    requires entries != [] && NoStrayTmp(files, entries) && ShortName(entries[0])
    ensures NoStrayTmp(After(files, entries[0], t), entries[1..])
  {
    hide LongTmp, ShortTmp;
    var rest := entries[1..];
    assert After(files, entries[0], t).Keys <= files.Keys + {entries[0].name, ShortTmp(entries[0].name)};
    forall i | 0 <= i < |rest| && !ShortName(rest[i])
      ensures LongTmp(rest[i].name) !in After(files, entries[0], t)
      ensures LongTmp(rest[i].name) !in Names(rest)
    {
      assert rest[i] == entries[i + 1];
      NamesSplit(entries);
      LongIsLonger(rest[i], entries[0]);
    }
  }

  lemma ServedTail(entries: seq<Entry>, fates: nat -> Fate, at: nat)
    requires entries != [] && AllServed(entries, fates, at)
    ensures Serves(fates(at), entries[0]) && AllServed(entries[1..], fates, at + 1)
  {
    assert Serves(fates(at + 0), entries[0]);
    forall i | 0 <= i < |entries| - 1
      ensures Serves(fates(at + 1 + i), entries[1..][i])
    {
      assert Serves(fates(at + (i + 1)), entries[i + 1]);
    }
  }

  lemma {:induction false} ServedAccepted(entries: seq<Entry>, fates: nat -> Fate, at: nat)
    requires AllServed(entries, fates, at)
    ensures Accepted(entries, fates, at) == entries
    decreases |entries|
  {
    if entries != [] {
      ServedTail(entries, fates, at);
      ServedAccepted(entries[1..], fates, at + 1);
      assert [entries[0]] + entries[1..] == entries;
    }
  }

  lemma {:induction false} ServedGoExactly(files: Files, entries: seq<Entry>, fates: nat -> Fate, at: nat)
    requires AllServed(entries, fates, at) && NoStrayTmp(files, entries)
    ensures AllGo(files, entries, fates, at) <==> AllShort(entries)
    decreases |entries|
  {
    if entries != [] {
      var e, t, rest := entries[0], fates(at), entries[1..];
      ServedTail(entries, fates, at);
      assert ShortName(e) ==> Goes(files, e, t);
      assert Goes(files, e, t) ==> ShortName(e);
      assert forall i | 0 <= i < |rest| :: rest[i] == entries[i + 1];
      if ShortName(e) {
        StrayTail(files, entries, t);
        hide After, Goes, ShortName, AllServed, NoStrayTmp;
        ServedGoExactly(After(files, e, t), rest, fates, at + 1);
      }
    }
  }

  /** On a flash that does not fail, with no stray temp file about: the update succeeds exactly when every name leaves
      room for the temp suffix in the 32-byte path buffer, and installs the package exactly when, besides, no temp name
      costs a file. */
  lemma ServedRoundTrip(firmware: seq<byte>, entries: seq<Entry>, up: Updater, fl: Flash)
    requires |firmware| < WORD && AllPackable(entries) && AllNamed(entries) && Unique(entries)
    requires Takes(up, firmware) && AllServed(entries, fl.fates, fl.at) && NoStrayTmp(fl.files, entries)
    ensures var r := Process(Package(firmware, entries), up, fl);
            && r.1.written == up.written + firmware
            && (r.0 <==> AllShort(entries))
            && (r.0 ==> AllGo(fl.files, entries, fl.fates, fl.at))
            && (r.0 ==> (r.2.files == Override(fl.files, entries) <==> NothingLost(fl.files, entries, fl.fates, fl.at)))
  {
    hide Package, Process, Takes, AllServed, AllShort, NoStrayTmp, NothingLost, AllGo;
    PackageRoundTrip(firmware, entries, up, fl);
    ServedAccepted(entries, fl.fates, fl.at);
    ServedGoExactly(fl.files, entries, fl.fates, fl.at);
  }

  // ---- Where the round trip fails ------------------------------------------

  const X: Name := [0x78]
  const Willing := Fate(true, WORD, true, true, WORD, true, true, true)

  /** A package with `x.tmp` before `x` loses the former on a flash that does everything asked of it. */
  lemma TempNameIsLost()
    ensures var entries, fates := [Entry(X + TMP, [1]), Entry(X, [2])], (i: nat) => Willing;
            && AllNamed(entries) && Unique(entries) && AllShort(entries) && AllServed(entries, fates, 0)
            && AllGo(map[], entries, fates, 0) && !NothingLost(map[], entries, fates, 0)
            && X + TMP in Override(map[], entries) && X + TMP !in WriteAll(map[], entries, fates, 0)
  {
    var entries, fates := [Entry(X + TMP, [1]), Entry(X, [2])], (i: nat) => Willing;
    var rest := entries[1..];
    assert rest == [entries[1]] && rest[1..] == [];
    TmpNamesAgree(X);
    TmpNamesAgree(X + TMP);
    var files := After(map[], entries[0], Willing);
    assert files == map[X + TMP := [1]];
    assert Goes(map[], entries[0], Willing) && Goes(files, entries[1], Willing);
    assert AllGo(After(files, entries[1], Willing), [], fates, 2);
    assert AllGo(files, rest, fates, 1);
    assert After(files, entries[1], Willing) == (files - {X + TMP})[X := [2]];
    assert WriteAll(files, rest, fates, 1) == WriteAll(After(files, entries[1], Willing), [], fates, 2);
    assert Override(map[], entries) == Override(files, rest) == Override(files[X := [2]], []);
    ServedAccepted(entries, fates, 0);
    NothingLostExactly(map[], entries, fates, 0);
  }

  /** A package of one file on a full flash: the update succeeds and the file is not there. */
  lemma SkippedFileIsMissing()
    ensures var entries, fates := [Entry(X, [1])], (i: nat) => Willing.(free := 0);
            && AllNamed(entries) && Unique(entries) && AllGo(map[], entries, fates, 0)
            && !SkippedPresent(map[], entries, fates, 0)
            && WriteAll(map[], entries, fates, 0) == map[] && X in Override(map[], entries)
  {
    var entries, fates := [Entry(X, [1])], (i: nat) => Willing.(free := 0);
    assert entries[1..] == [];
    assert !Accepts(fates(0), entries[0]);
    assert After(map[], entries[0], fates(0)) == map[];
    assert Override(map[], entries) == Override(map[X := [1]], []);
  }
}
