/** The OTA container by positions: where its lengths stand, byte by byte, and what the reader makes of any bytes. */
module OtaLayout {
  import opened Bytes
  import opened OtaModel

  // ---- Numbers -------------------------------------------------------------

  /** The bytes written for a length, least significant first. */
  lemma LengthsWritten(n: nat)
    ensures n < 0x1_0000 ==> Le16(n) == [n % 256, n / 256]
    ensures n < 0x1_0000_0000 ==> Le32(n) == [n % 256, n / 256 % 256, n / 65536 % 256, n / 16777216]
  {
    LeStep(n, 2);
    LeStep(n / 256, 1);
    LeStep(n / 65536, 0);
    LeStep(n, 4);
    LeStep(n / 256, 3);
    LeStep(n / 65536, 2);
    LeStep(n / 16777216, 1);
    LeStep(n / 16777216 / 256, 0);
    hide Le;
    assert n / 256 / 256 == n / 65536 && n / 65536 / 256 == n / 16777216;
  }

  lemma LeStep(n: nat, k: nat)
    ensures Le(n, 0) == []
    ensures k > 0 ==> Le(n, k) == [n % 256] + Le(n / 256, k - 1)
  {
  }

  /** The length read from two and from four bytes. */
  lemma LengthsRead(b: seq<byte>)
    ensures |b| == 2 ==> FromLe16(b) == b[0] as int + 256 * (b[1] as int)
    ensures |b| == 4 ==>
              FromLe32(b) == b[0] as int + 256 * (b[1] as int) + 65536 * (b[2] as int) + 16777216 * (b[3] as int)
  {
    if |b| >= 2 {
      FromLeStep(b);
      FromLeStep(b[1..]);
      if |b| == 4 {
        FromLeStep(b[2..]);
        FromLeStep(b[3..]);
        assert b[1..][1..] == b[2..] && b[2..][1..] == b[3..] && b[3..][1..] == [];
      } else if |b| == 2 {
        assert b[1..][1..] == [];
      }
    }
    hide FromLe;
    assert FromLe([]) == 0 by { FromLeEmpty(); }
  }

  lemma FromLeStep(b: seq<byte>)
    requires b != []
    ensures FromLe(b) == b[0] as int + 256 * FromLe(b[1..])
  {
  }

  lemma FromLeEmpty()
    ensures FromLe([]) == 0
  {
  }

  // ---- The container written -----------------------------------------------

  /** Bytes taken by records: six for the two lengths, the name and the content. */
  function SizeOf(files: seq<Entry>): nat {
    if files == [] then 0 else 6 + |files[0].name| + |files[0].content| + SizeOf(files[1..])
  }

  lemma {:induction false} RecordsSize(files: seq<Entry>)
    requires AllPackable(files)
    ensures |Records(files)| == SizeOf(files)
  {
    hide Le16, Le32;
    if files != [] {
      RecordsSize(files[1..]);
    }
  }

  /** The firmware stands behind its length, four bytes least significant first. */
  lemma FirmwareAt(firmware: seq<byte>, files: seq<Entry>)
    requires |firmware| < 0x1_0000_0000 && AllPackable(files)
    ensures var p, n := Package(firmware, files), |firmware|;
            && |p| == 4 + n + SizeOf(files)
            && p[0] == n % 256 && p[1] == n / 256 % 256 && p[2] == n / 65536 % 256 && p[3] == n / 16777216
            && p[4..4 + n] == firmware
  {
    LengthsWritten(|firmware|);
    RecordsSize(files);
    hide Le32, Records;
    Split3(Le32(|firmware|), firmware, Records(files));
    var p := Package(firmware, files);
    assert p[..4] == Le32(|firmware|);
    assert p[0] == p[..4][0] && p[1] == p[..4][1] && p[2] == p[..4][2] && p[3] == p[..4][3];
  }

  /** Each record stands behind the earlier ones: name length in two bytes, name, content size in four, content. */
  lemma RecordAt(firmware: seq<byte>, files: seq<Entry>, i: nat, p: seq<byte>, at: nat)
    requires |firmware| < 0x1_0000_0000 && AllPackable(files) && i < |files|
    requires p == Package(firmware, files) && at == 4 + |firmware| + SizeOf(files[..i])
    ensures var n, size := |files[i].name|, |files[i].content|;
            && |p| >= at + 6 + n + size
            && p[at] == n % 256 && p[at + 1] == n / 256
            && p[at + 2..at + 2 + n] == files[i].name
            && p[at + 2 + n] == size % 256 && p[at + 3 + n] == size / 256 % 256
            && p[at + 4 + n] == size / 65536 % 256 && p[at + 5 + n] == size / 16777216
            && p[at + 6 + n..at + 6 + n + size] == files[i].content
  {
    hide Package, Record, SizeOf, RecordHas;
    RecordBytes(files[i]);
    RecordInPackage(firmware, files, i);
    Positions(p, at, Record(files[i]), files[i]);
  }

  lemma RecordInPackage(firmware: seq<byte>, files: seq<Entry>, i: nat)
    requires |firmware| < 0x1_0000_0000 && AllPackable(files) && i < |files|
    ensures var p, at, r := Package(firmware, files), 4 + |firmware| + SizeOf(files[..i]), Record(files[i]);
            at + |r| <= |p| && p[at..at + |r|] == r
  {
    RecordsAt(files, i);
    hide Le32, Records, Record, SizeOf;
    Shifted(Le32(|firmware|) + firmware, Records(files), SizeOf(files[..i]), |Record(files[i])|);
  }

  lemma Shifted(head: seq<byte>, rest: seq<byte>, at: nat, n: nat)
    requires at + n <= |rest|
    ensures (head + rest)[|head| + at..|head| + at + n] == rest[at..at + n]
  {
  }

  lemma Positions(p: seq<byte>, at: nat, r: seq<byte>, e: Entry)
    requires at + |r| <= |p| && p[at..at + |r|] == r && |r| == 6 + |e.name| + |e.content|
    requires RecordHas(r, e)
    ensures var n, size := |e.name|, |e.content|;
            && p[at] == n % 256 && p[at + 1] == n / 256
            && p[at + 2..at + 2 + n] == e.name
            && p[at + 2 + n] == size % 256 && p[at + 3 + n] == size / 256 % 256
            && p[at + 4 + n] == size / 65536 % 256 && p[at + 5 + n] == size / 16777216
            && p[at + 6 + n..at + 6 + n + size] == e.content
  {
    var n, size := |e.name|, |e.content|;
    assert forall k | 0 <= k < |r| :: p[at + k] == r[k];
    assert p[at + 2..at + 2 + n] == r[2..2 + n];
    assert p[at + 6 + n..at + 6 + n + size] == r[6 + n..];
    assert p[at + 0] == r[0];
  }

  ghost predicate RecordHas(r: seq<byte>, e: Entry)
    requires |r| == 6 + |e.name| + |e.content|
  {
    var n, size := |e.name|, |e.content|;
    && r[0] == n % 256 && r[1] == n / 256 && r[2..2 + n] == e.name
    && r[2 + n] == size % 256 && r[3 + n] == size / 256 % 256
    && r[4 + n] == size / 65536 % 256 && r[5 + n] == size / 16777216
    && r[6 + n..] == e.content
  }

  lemma RecordBytes(e: Entry)
    requires Packable(e)
    ensures |Record(e)| == 6 + |e.name| + |e.content| && RecordHas(Record(e), e)
  {
    LengthsWritten(|e.name|);
    LengthsWritten(|e.content|);
    hide Le16, Le32;
    var a, b := Le16(|e.name|), Le32(|e.content|);
    Split4(a, e.name, b, e.content);
    var r := Record(e);
    assert r[0] == r[..2][0] && r[1] == r[..2][1];
    var n := |e.name|;
    assert r[2 + n] == r[2 + n..6 + n][0] == b[0];
    assert r[3 + n] == r[2 + n..6 + n][1] == b[1];
    assert r[4 + n] == r[2 + n..6 + n][2] == b[2];
    assert r[5 + n] == r[2 + n..6 + n][3] == b[3];
  }

  lemma {:induction false} RecordsAt(files: seq<Entry>, i: nat)
    requires AllPackable(files) && i < |files|
    ensures var at := SizeOf(files[..i]);
            var r := Record(files[i]);
            |Records(files)| >= at + |r| && Records(files)[at..at + |r|] == r
  {
    RecordBytes(files[0]);
    hide Record;
    if i > 0 {
      RecordsAt(files[1..], i - 1);
      assert files[..i][1..] == files[1..][..i - 1];
      var a, rest, at, r := Record(files[0]), Records(files[1..]), SizeOf(files[1..][..i - 1]), Record(files[i]);
      assert SizeOf(files[..i]) == |a| + at;
      Shifted(a, rest, at, |r|);
    }
  }

  // ---- The container read --------------------------------------------------

  /** What the reader makes of the first bytes of a record, whatever they are. */
  lemma HeadByBytes(data: seq<byte>)
    ensures HeadOf(data)
         == if |data| < 2 then Truncated
            else
              var n := data[0] as int + 256 * (data[1] as int);
              if n == 0 then Terminator
              else if n >= 256 then LongName(n)
              else if |data| < 6 + n then Truncated
              else
                FileHead(CStr(data[2..2 + n]),
                         data[2 + n] as int + 256 * (data[3 + n] as int) + 65536 * (data[4 + n] as int)
                         + 16777216 * (data[5 + n] as int),
                         6 + n)
  {
    hide FromLe16, FromLe32, CStr;
    if |data| >= 2 {
      LengthsRead(data[..2]);
      var n := data[0] as int + 256 * (data[1] as int);
      if n < 256 && |data| >= 6 + n {
        LengthsRead(data[2 + n..2 + n + 4]);
      }
    }
  }

  /** The name is what stands before the first NUL. */
  lemma {:induction false} NameEndsAtNul(name: Name, tail: seq<byte>)
    requires 0 !in name
    ensures CStr(name + [0] + tail) == name
  {
    var s := name + [0] + tail;
    if name != [] {
      assert s[0] == name[0] && s[1..] == name[1..] + [0] + tail;
      NameEndsAtNul(name[1..], tail);
    }
  }

  /** What any container makes the updater take: as many bytes behind the fourth as the first four say. */
  lemma FirmwareByBytes(data: seq<byte>, up: Updater, fl: Flash)
    requires |data| >= 4
    ensures var n := data[0] as int + 256 * (data[1] as int) + 65536 * (data[2] as int) + 16777216 * (data[3] as int);
            var r := Process(data, up, fl);
            && (up.begins && up.seals && n <= |data| - 4 && n <= up.room ==>
                  r.1.written == up.written + data[4..4 + n] && (r.0, r.2) == Extract(data[4 + n..], fl))
            && (!up.begins || !up.seals || n > |data| - 4 || n > up.room ==> !r.0 && r.2 == fl)
  {
    hide FromLe32, CopyChunks, Extract;
    LengthsRead(data[..4]);
    var n := data[0] as int + 256 * (data[1] as int) + 65536 * (data[2] as int) + 16777216 * (data[3] as int);
    CopyIsExact(data[4..], n, up.room);
    if n <= |data| - 4 {
      assert data[4..][..n] == data[4..4 + n] && data[4..][n..] == data[4 + n..];
    }
  }

  /** The ends of the record list: the end of the container or a name length of zero is success, a lone byte is not; a
      name of 256 bytes and more is passed over, and what follows it is read as the next record. */
  lemma ReaderEdges(name: seq<byte>, one: byte, tail: seq<byte>, fl: Flash)
    ensures Extract([], fl) == (true, fl)
    ensures Extract([one], fl) == (false, fl)
    ensures Extract([0, 0] + tail, fl) == (true, fl)
    ensures 256 <= |name| < 0x1_0000 ==> Extract([|name| % 256, |name| / 256] + name + tail, fl) == Extract(tail, fl)
  {
    HeadByBytes([one]);
    HeadByBytes([0, 0] + tail);
    if 256 <= |name| < 0x1_0000 {
      var data: seq<byte> := [|name| % 256, |name| / 256] + name + tail;
      HeadByBytes(data);
      assert data[2..][|name|..] == tail;
    }
    hide HeadOf;
  }

  // ---- The flash -----------------------------------------------------------

  /** The names of the temp file, with the suffix `.tmp` cut off at 31 and at 95 bytes. */
  lemma TempNames(path: Name)
    ensures |path| <= 27 ==> ShortTmp(path) == path + [0x2E, 0x74, 0x6D, 0x70]
    ensures |path| <= 91 ==> LongTmp(path) == path + [0x2E, 0x74, 0x6D, 0x70]
    ensures |path| >= 31 ==> ShortTmp(path) == path[..31]
    ensures |path| >= 95 ==> LongTmp(path) == path[..95]
    ensures ShortTmp(path) == LongTmp(path) <==> |path| <= 27
  {
  }

  /** A file needs its size and 4096 bytes to spare, unless the sum runs over 32 bits. */
  lemma SpaceNeeded(t: Fate, size: nat)
    requires size < 0x1_0000_0000
    ensures size + 4096 < 0x1_0000_0000 ==> (t.HasSpace(size) <==> t.makesPath && t.free >= size + 4096)
    ensures size + 4096 >= 0x1_0000_0000 ==> (t.HasSpace(size) <==> t.makesPath && t.free >= size + 4096 - 0x1_0000_0000)
  {
  }

  /** When the flash fills up in a file: the old version stays, and the temp file is dropped if it has a short name and
      can be; under a long name what was written of it stays behind. */
  lemma FullFlashLeaves(e: Entry, tail: seq<byte>, files: Files, t: Fate)
    requires Accepts(t, e) && |e.content| > t.takes
    ensures var u := Unpack(e.content + tail, |e.content|, e.name, Opened(files, e.name, |e.content|, t).1, t);
            && !u.0
            && (forall k | k !in {ShortTmp(e.name), LongTmp(e.name)} :: k in u.1 <==> k in files)
            && (forall k | k in files && k !in {ShortTmp(e.name), LongTmp(e.name)} :: u.1[k] == files[k])
            && (|e.name| <= 27 && t.drops ==> ShortTmp(e.name) !in u.1)
            && (|e.name| > 27 ==> ShortTmp(e.name) in u.1 && u.1[ShortTmp(e.name)] <= e.content)
  {
    TempNames(e.name);
    CopyIsExact(e.content + tail, |e.content|, t.takes);
    var copy := CopyChunks(e.content + tail, |e.content|, t.takes);
    assert copy.1 == (e.content + tail)[..|copy.1|] == e.content[..|copy.1|];
    hide CopyChunks, ShortTmp, LongTmp;
  }

  /** A content that went through and cannot be committed: where the old version cannot be removed it stays, and where
      the temp file cannot be renamed after that, the old version is gone. */
  lemma FailedCommitLeaves(e: Entry, tail: seq<byte>, files: Files, t: Fate)
    requires Accepts(t, e) && |e.content| <= t.takes && |e.name| <= 27
    ensures var u := Unpack(e.content + tail, |e.content|, e.name, Opened(files, e.name, |e.content|, t).1, t);
            && (e.name in files && !t.removes ==> !u.0 && e.name in u.1 && u.1[e.name] == files[e.name])
            && ((e.name in files ==> t.removes) && !t.renames ==> !u.0 && e.name !in u.1)
            && (!u.0 && t.drops ==> ShortTmp(e.name) !in u.1)
  {
    TempNames(e.name);
    CopyAll(e.content, tail, t.takes);
    hide CopyChunks, ShortTmp, LongTmp;
    assert |e.name + [0x2E, 0x74, 0x6D, 0x70]| != |e.name|;
  }
}
