/** Atomic replacement of a JSON file: every flash operation may fail, and power may go after any of them. */
module AtomicJson {
  import opened Bytes

  const PATH_MAX := 63    // the path buffers without their terminator

  type Path = string
  type Files = map<Path, seq<byte>>

  function Cut(p: Path): Path { p[..Min(|p|, PATH_MAX)] }

  function Tmp(p: Path): Path { Cut(p + ".tmp") }

  function Bak(p: Path): Path { Cut(p + ".bak") }

  /** The three files are three files exactly when the path buffers leave room for two characters of suffix. */
  lemma NamesDiffer(p: Path)
    ensures Tmp(p) != p && Bak(p) != p && Tmp(p) != Bak(p) <==> |p| <= PATH_MAX - 2
  {
    if |p| <= PATH_MAX - 2 {
      assert Tmp(p)[|p| + 1] == 't' && Bak(p)[|p| + 1] == 'b';
    } else {
      assert |p| >= PATH_MAX ==> Tmp(p) == p[..PATH_MAX] == Bak(p);
      assert |p| == PATH_MAX - 1 ==> Tmp(p) == p + "." == Bak(p);
    }
  }

  /** Whether each operation succeeds, in the order the code tries them; `room` is what the temp file can take. */
  datatype Fates = Fates(
    ensurePath: bool, removeOldTmp: bool, open: bool, room: nat,
    removeOldBak: bool, renameToBak: bool, removeTarget: bool, renameTmp: bool,
    removeTmp: bool, renameBack: bool, removeBak: bool)

  function Removed(files: Files, p: Path, fate: bool): Files { if fate then files - {p} else files }

  function Renamed(files: Files, a: Path, b: Path, fate: bool): Files {
    if fate && a in files then (files - {a})[b := files[a]] else files
  }

  /** The states of a temp file being written byte by byte. */
  function Writing(files: Files, p: Path, doc: seq<byte>, n: nat): (r: seq<Files>)
    requires n <= |doc|
    ensures |r| == n + 1
  {
    seq(n + 1, k requires 0 <= k <= n => files[p := doc[..k]])
  }

  lemma WritingEnds(files: Files, p: Path, doc: seq<byte>, n: nat)
    requires n <= |doc|
    ensures Writing(files, p, doc, n)[n] == files[p := doc[..n]]
  {
  }

  /** A call's result and the states of the flash after each of its operations. */
  datatype Outcome = Outcome(ok: bool, states: seq<Files>)

  /** The flash after an old backup is dropped, and the states that takes. */
  function OldBak(files: Files, p: Path, f: Fates): (Files, seq<Files>) {
    if Bak(p) in files then
      var s1 := Removed(files, Bak(p), f.removeOldBak);
      (s1, [s1])
    else (files, [])
  }

  /** The old file makes way: whether it is kept as a backup, whether the commit can go on, and the states so far. */
  function SetAside(files: Files, p: Path, f: Fates): (r: (bool, bool, seq<Files>))
    requires p in files
    ensures r.2 != []
  {
    var (s1, dropped) := OldBak(files, p, f);
    var s2 := Renamed(s1, p, Bak(p), f.renameToBak);
    var pre := dropped + [s2];
    if f.renameToBak && p in s1 then (true, true, pre)
    else
      var s3 := Removed(s2, p, f.removeTarget);
      if f.removeTarget && p in s2 then (false, true, pre + [s3])
      else (false, false, pre + [s3, Removed(s3, Tmp(p), f.removeTmp)])
  }

  function Last(states: seq<Files>): Files
    requires states != []
  {
    states[|states| - 1]
  }

  /** From the complete temp file to the target. */
  function Commit(files: Files, p: Path, f: Fates): (r: Outcome)
    ensures r.states != []
  {
    if p !in files then CommitTmp(files, p, f, false)
    else
      var (hadBackup, goesOn, pre) := SetAside(files, p, f);
      if !goesOn then Outcome(false, pre)
      else
        var c := CommitTmp(Last(pre), p, f, hadBackup);
        Outcome(c.ok, pre + c.states)
  }

  function CommitTmp(files: Files, p: Path, f: Fates, hadBackup: bool): (r: Outcome)
    ensures r.states != []
  {
    var s1 := Renamed(files, Tmp(p), p, f.renameTmp);
    if !f.renameTmp || Tmp(p) !in files then
      var s2 := Removed(s1, Tmp(p), f.removeTmp);
      Outcome(false, [s1, s2] + (if hadBackup then [Renamed(s2, Bak(p), p, f.renameBack)] else []))
    else Outcome(true, [s1] + (if hadBackup then [Removed(s1, Bak(p), f.removeBak)] else []))
  }

  function Stored(doc: seq<byte>, f: Fates): nat { Min(|doc|, f.room) }

  /** The flash after an old temp file is dropped, and the states that takes. */
  function OldTmp(files: Files, p: Path, f: Fates): (Files, seq<Files>) {
    if Tmp(p) in files then
      var s1 := Removed(files, Tmp(p), f.removeOldTmp);
      (s1, [s1])
    else (files, [])
  }

  function WriteJson(files: Files, p: Path, doc: seq<byte>, maxBytes: nat, f: Fates): Outcome {
    if p == [] || p[0] != '/' || maxBytes == 0 || !f.ensurePath then Outcome(false, [])
    else
      var (s1, pre) := OldTmp(files, p, f);
      if !f.open then Outcome(false, pre)
      else
        var n := Stored(doc, f);
        var writing := Writing(s1, Tmp(p), doc, n);
        var full := writing[n];
        if n == 0 || n >= maxBytes then Outcome(false, pre + writing + [Removed(full, Tmp(p), f.removeTmp)])
        else
          var c := Commit(full, p, f);
          Outcome(c.ok, pre + writing + c.states)
  }

  /** The flash after the call. */
  function Final(files: Files, o: Outcome): Files { if o.states == [] then files else o.states[|o.states| - 1] }

  // ---- Power loss ----------------------------------------------------------

  /** A reader after a restart finds the old content, at the path or its backup, or the complete new content. */
  predicate Safe(s: Files, old_: Files, p: Path, doc: seq<byte>) {
    || (p in s && s[p] == doc)
    || (if p in old_ then (p in s && s[p] == old_[p]) || (Bak(p) in s && s[Bak(p)] == old_[p]) else p !in s)
  }

  predicate AllSafe(states: seq<Files>, old_: Files, p: Path, doc: seq<byte>) {
    forall i | 0 <= i < |states| :: Safe(states[i], old_, p, doc)
  }

  /** The path and its backup hold what they held before the call. */
  predicate Untouched(s: Files, old_: Files, p: Path) {
    && (p in s <==> p in old_) && (p in s ==> s[p] == old_[p])
    && (Bak(p) in s <==> Bak(p) in old_) && (Bak(p) in s ==> s[Bak(p)] == old_[Bak(p)])
  }

  /** The backup still holds the old content when the target is removed instead of renamed. */
  predicate StaleBackupServes(files: Files, p: Path, f: Fates) {
    p in files && Bak(p) in files && files[Bak(p)] == files[p] && !f.removeOldBak
  }

  /** The one path that has neither content for a moment: the rename to the backup fails and the target is removed. */
  predicate Exposed(files: Files, p: Path, f: Fates) {
    p in files && !f.renameToBak && f.removeTarget && !StaleBackupServes(files, p, f)
  }

  predicate Commits(p: Path, doc: seq<byte>, maxBytes: nat, f: Fates) {
    && p != [] && p[0] == '/' && maxBytes > 0 && f.ensurePath && f.open
    && 0 < Stored(doc, f) < maxBytes
  }

  /** A document cut short by a full flash takes the place of the last complete content. */
  predicate CutShort(old_: Files, p: Path, doc: seq<byte>, content: seq<byte>, f: Fates) {
    content != doc && f.renameTmp && (p !in old_ || (f.renameToBak && f.removeBak && old_[p] != content))
  }

  lemma CommitTmpSafe(s: Files, old_: Files, p: Path, doc: seq<byte>, f: Fates, hadBackup: bool)
    requires |p| <= PATH_MAX - 2 && Tmp(p) in s && p !in s
    requires if p in old_ then Bak(p) in s && s[Bak(p)] == old_[p] else !hadBackup
    ensures AllSafe(CommitTmp(s, p, f, hadBackup).states, old_, p, doc)
       <==> s[Tmp(p)] == doc || !f.renameTmp || (p in old_ && (hadBackup && f.removeBak ==> old_[p] == s[Tmp(p)]))
  {
    NamesDiffer(p);
    hide Tmp, Bak;
    var c := CommitTmp(s, p, f, hadBackup);
    if f.renameTmp && s[Tmp(p)] != doc {
      assert !Safe(c.states[|c.states| - 1], old_, p, doc) <==> p !in old_ || (hadBackup && f.removeBak && old_[p] != s[Tmp(p)]);
    }
  }

  /** Committing what the temp file holds is safe all along, unless a cut document takes its place. */
  lemma CommitSafe(s: Files, old_: Files, p: Path, doc: seq<byte>, f: Fates)
    requires |p| <= PATH_MAX - 2 && Tmp(p) in s && Untouched(s, old_, p) && !Exposed(old_, p, f)
    ensures AllSafe(Commit(s, p, f).states, old_, p, doc) <==> !CutShort(old_, p, doc, s[Tmp(p)], f)
  {
    NamesDiffer(p);
    hide CommitTmp, Tmp, Bak, Safe;
    if p !in s {
      CommitTmpSafe(s, old_, p, doc, f, false);
    } else {
      var s1 := if Bak(p) in s then Removed(s, Bak(p), f.removeOldBak) else s;
      var s2 := Renamed(s1, p, Bak(p), f.renameToBak);
      var pre := (if Bak(p) in s then [s1] else []) + [s2];
      CommitPreSafe(s, old_, p, doc, f);
      if f.renameToBak {
        CommitTmpSafe(s2, old_, p, doc, f, true);
        AllSafeConcat(pre, CommitTmp(s2, p, f, true).states, old_, p, doc);
      } else if f.removeTarget {
        var s3 := Removed(s2, p, true);
        CommitTmpSafe(s3, old_, p, doc, f, false);
        AllSafeConcat(pre, [s3], old_, p, doc);
        AllSafeConcat(pre + [s3], CommitTmp(s3, p, f, false).states, old_, p, doc);
        BackupServes(s3, old_, p, doc);
      }
    }
  }

  lemma BackupServes(s: Files, old_: Files, p: Path, doc: seq<byte>)
    requires p in old_ && Bak(p) in s && s[Bak(p)] == old_[p]
    ensures AllSafe([s], old_, p, doc)
  {
  }

  /** Up to the removal of the target the old content is at the path or its backup. */
  lemma CommitPreSafe(s: Files, old_: Files, p: Path, doc: seq<byte>, f: Fates)
    requires |p| <= PATH_MAX - 2 && p in s && Untouched(s, old_, p)
    ensures var s1 := if Bak(p) in s then Removed(s, Bak(p), f.removeOldBak) else s;
            var s2 := Renamed(s1, p, Bak(p), f.renameToBak);
            && AllSafe((if Bak(p) in s then [s1] else []) + [s2], old_, p, doc)
            && (!f.renameToBak && !f.removeTarget ==>
                  AllSafe([Removed(s2, p, f.removeTarget), Removed(Removed(s2, p, f.removeTarget), Tmp(p), f.removeTmp)], old_, p, doc))
  {
    NamesDiffer(p);
    hide Tmp, Bak;
  }

  lemma CommitExposed(s: Files, old_: Files, p: Path, doc: seq<byte>, f: Fates)
    requires |p| <= PATH_MAX - 2 && Tmp(p) in s && Untouched(s, old_, p) && Exposed(old_, p, f)
    ensures !AllSafe(Commit(s, p, f).states, old_, p, doc)
  {
    NamesDiffer(p);
    hide CommitTmp, Tmp, Bak;
    assert !Safe(Commit(s, p, f).states[if Bak(p) in s then 2 else 1], old_, p, doc);
  }

  lemma AllSafeConcat(a: seq<Files>, b: seq<Files>, old_: Files, p: Path, doc: seq<byte>)
    ensures AllSafe(a + b, old_, p, doc) <==> AllSafe(a, old_, p, doc) && AllSafe(b, old_, p, doc)
  {
    hide Safe;
    forall i | 0 <= i < |b|
      ensures (a + b)[|a| + i] == b[i]
    {
    }
    forall i | 0 <= i < |a|
      ensures (a + b)[i] == a[i]
    {
    }
  }

  /** While the temp file is written the path and its backup are as they were. */
  lemma WritingSafe(s: Files, files: Files, p: Path, doc: seq<byte>, n: nat)
    requires |p| <= PATH_MAX - 2 && n <= |doc| && Untouched(s, files, p)
    ensures AllSafe(Writing(s, Tmp(p), doc, n), files, p, doc)
  {
    NamesDiffer(p);
    hide Tmp, Bak;
  }

  /** After every single operation the old content, or the complete new one, can be read: exactly unless the target is
      removed after a failed rename to the backup, or a document cut short takes the place of the last complete content. */
  lemma PowerLossSafety(files: Files, p: Path, doc: seq<byte>, maxBytes: nat, f: Fates)
    requires |p| <= PATH_MAX - 2
    ensures AllSafe(WriteJson(files, p, doc, maxBytes, f).states, files, p, doc)
            <==> !(Commits(p, doc, maxBytes, f)
                   && (Exposed(files, p, f) || CutShort(files, p, doc, doc[..Stored(doc, f)], f)))
    ensures |doc| <= f.room ==> !CutShort(files, p, doc, doc[..Stored(doc, f)], f)
  {
    NamesDiffer(p);
    assert doc[..|doc|] == doc;
    hide Commit, Tmp, Bak, Exposed, CutShort, AllSafe, Writing;
    var (s1, pre) := OldTmp(files, p, f);
    var n := Stored(doc, f);
    var writing := Writing(s1, Tmp(p), doc, n);
    WritingEnds(s1, Tmp(p), doc, n);
    PreSafe(s1, files, p, doc, pre);
    WritingSafe(s1, files, p, doc, n);
    AllSafeConcat(pre, writing, files, p, doc);
    var full := s1[Tmp(p) := doc[..n]];
    CutNever(files, p, doc, f);
    if Commits(p, doc, maxBytes, f) {
      AllSafeConcat(pre + writing, Commit(full, p, f).states, files, p, doc);
      if Exposed(files, p, f) {
        CommitExposed(full, files, p, doc, f);
      } else {
        CommitSafe(full, files, p, doc, f);
      }
    } else {
      var end := Removed(full, Tmp(p), f.removeTmp);
      PreSafe(end, files, p, doc, [end]);
      PreSafe(s1, files, p, doc, []);
      AllSafeConcat(pre + writing, [end], files, p, doc);
    }
  }

  const Lucky := Fates(true, true, true, WORD, true, true, true, true, true, true, true)

  /** The two ways to be left with neither version: the backup fails and the target is removed, or the flash is full. */
  lemma PowerCutLosesBoth()
    ensures !AllSafe(WriteJson(map["/a" := [1]], "/a", [2], 100, Lucky.(renameToBak := false)).states,
                     map["/a" := [1]], "/a", [2])
    ensures !AllSafe(WriteJson(map["/a" := [1]], "/a", [2, 3], 100, Lucky.(room := 1)).states,
                     map["/a" := [1]], "/a", [2, 3])
  {
    hide WriteJson, AllSafe;
    PowerLossSafety(map["/a" := [1]], "/a", [2], 100, Lucky.(renameToBak := false));
    PowerLossSafety(map["/a" := [1]], "/a", [2, 3], 100, Lucky.(room := 1));
    assert [2, 3][..1] == [2];
    NamesDiffer("/a");
  }

  lemma CutNever(files: Files, p: Path, doc: seq<byte>, f: Fates)
    ensures |doc| <= f.room ==> !CutShort(files, p, doc, doc[..Stored(doc, f)], f)
  {
    assert doc[..|doc|] == doc;
  }

  lemma PreSafe(s: Files, files: Files, p: Path, doc: seq<byte>, pre: seq<Files>)
    requires Untouched(s, files, p) && pre in [[], [s]]
    ensures AllSafe(pre, files, p, doc)
  {
  }

  // ---- What is left --------------------------------------------------------

  ghost predicate SameElsewhere(s: Files, t: Files, p: Path) {
    forall k | k !in {p, Tmp(p), Bak(p)} :: (k in s <==> k in t) && (k in s ==> s[k] == t[k])
  }

  /** A backup outlives a successful call: one that could not be removed, or one the call never looked at. */
  predicate BackupStays(files: Files, p: Path, f: Fates) {
    if p in files && f.renameToBak then !f.removeBak
    else Bak(p) in files && (p in files ==> !f.removeOldBak)
  }

  lemma CommitEnds(s: Files, p: Path, f: Fates)
    requires |p| <= PATH_MAX - 2 && Tmp(p) in s
    ensures var o := Commit(s, p, f); var end := Final(s, o);
            && SameElsewhere(s, end, p)
            && (o.ok <==> f.renameTmp && (p in s && !f.renameToBak ==> f.removeTarget))
            && (o.ok ==> p in end && end[p] == s[Tmp(p)] && Tmp(p) !in end && (Bak(p) in end <==> BackupStays(s, p, f)))
            && (!o.ok ==> (p !in s ==> p !in end))
            && (!o.ok && p in s && f.renameToBak ==>
                  if f.renameBack then p in end && end[p] == s[p] else Bak(p) in end && end[Bak(p)] == s[p])
            && (!o.ok && p in s && !f.renameToBak ==> if f.removeTarget then p !in end else p in end && end[p] == s[p])
  {
    NamesDiffer(p);
    hide Tmp, Bak, CommitTmp, Final;
    var s1 := if Bak(p) in s then Removed(s, Bak(p), f.removeOldBak) else s;
    var s2 := Renamed(s1, p, Bak(p), f.renameToBak);
    LastState(s, p, f);
    if p !in s {
      CommitTmpEnds(s, p, f, false);
    } else if f.renameToBak {
      CommitTmpEnds(s2, p, f, true);
    } else if f.removeTarget {
      CommitTmpEnds(Removed(s2, p, true), p, f, false);
    }
  }

  /** A commit ends where its second half ends, when it gets there. */
  lemma LastState(s: Files, p: Path, f: Fates)
    requires |p| <= PATH_MAX - 2
    ensures var s1 := if Bak(p) in s then Removed(s, Bak(p), f.removeOldBak) else s;
            var s2 := Renamed(s1, p, Bak(p), f.renameToBak);
            Final(s, Commit(s, p, f))
            == if p !in s then Final(s, CommitTmp(s, p, f, false))
               else if f.renameToBak then Final(s2, CommitTmp(s2, p, f, true))
               else if f.removeTarget then Final(Removed(s2, p, true), CommitTmp(Removed(s2, p, true), p, f, false))
               else Removed(s2, Tmp(p), f.removeTmp)
  {
    NamesDiffer(p);
    hide Tmp, Bak, CommitTmp;
  }

  lemma CommitTmpEnds(s: Files, p: Path, f: Fates, hadBackup: bool)
    requires |p| <= PATH_MAX - 2 && Tmp(p) in s && p !in s && (hadBackup ==> Bak(p) in s)
    ensures var o := CommitTmp(s, p, f, hadBackup); var end := Final(s, o);
            && SameElsewhere(s, end, p) && o.ok == f.renameTmp
            && (o.ok ==> p in end && end[p] == s[Tmp(p)] && Tmp(p) !in end)
            && (o.ok ==> (Bak(p) in end <==> Bak(p) in s && !(hadBackup && f.removeBak)))
            && (!o.ok ==> (p in end <==> hadBackup && f.renameBack) && (p in end ==> end[p] == s[Bak(p)]))
            && (!o.ok && p !in end && Bak(p) in s ==> Bak(p) in end && end[Bak(p)] == s[Bak(p)])
  {
    NamesDiffer(p);
    hide Tmp, Bak;
  }

  /** The flash when the temp file is complete. */
  function Staged(files: Files, p: Path, doc: seq<byte>, f: Fates): Files {
    OldTmp(files, p, f).0[Tmp(p) := doc[..Stored(doc, f)]]
  }

  /** A call that does not reach the commit leaves everything but the temp file as it was; one that does ends as the commit. */
  lemma CallEnds(files: Files, p: Path, doc: seq<byte>, maxBytes: nat, f: Fates)
    requires |p| <= PATH_MAX - 2
    ensures var o := WriteJson(files, p, doc, maxBytes, f); var end := Final(files, o);
            if Commits(p, doc, maxBytes, f) then
              var full := Staged(files, p, doc, f);
              o.ok == Commit(full, p, f).ok && end == Final(full, Commit(full, p, f))
            else !o.ok && SameElsewhere(files, end, p) && Untouched(end, files, p)
  {
    NamesDiffer(p);
    hide Commit, Tmp, Bak;
  }

  lemma StagedKeeps(files: Files, p: Path, doc: seq<byte>, f: Fates)
    requires |p| <= PATH_MAX - 2
    ensures var full := Staged(files, p, doc, f);
            && SameElsewhere(files, full, p) && Untouched(full, files, p)
            && Tmp(p) in full && full[Tmp(p)] == doc[..Stored(doc, f)]
            && (BackupStays(full, p, f) <==> BackupStays(files, p, f))
  {
    NamesDiffer(p);
    hide Tmp, Bak;
  }

  lemma SameTransitive(a: Files, b: Files, c: Files, p: Path)
    requires SameElsewhere(a, b, p) && SameElsewhere(b, c, p)
    ensures SameElsewhere(a, c, p)
  {
    hide Tmp, Bak;
  }

  /** What a call leaves: on success the bytes the temp file took, which are the whole document exactly when no write
      was short, no temp file, and a backup only when it could not be removed or was never looked at; on failure the
      old content, unless the backup could not be renamed back or the target was removed for want of a backup;
      and every other file as it was. */
  lemma CallLeaves(files: Files, p: Path, doc: seq<byte>, maxBytes: nat, f: Fates)
    requires |p| <= PATH_MAX - 2
    ensures var o := WriteJson(files, p, doc, maxBytes, f); var end := Final(files, o);
            && SameElsewhere(files, end, p)
            && (o.ok ==>
                  && p in end && end[p] == doc[..Stored(doc, f)] && (end[p] == doc <==> |doc| <= f.room)
                  && Tmp(p) !in end && (Bak(p) in end <==> BackupStays(files, p, f)))
            && (!o.ok && p in files ==>
                  || (p in end && end[p] == files[p])
                  || (f.renameToBak && !f.renameBack && Bak(p) in end && end[Bak(p)] == files[p])
                  || (!f.renameToBak && f.removeTarget && p !in end))
            && (!o.ok && p !in files ==> p !in end)
  {
    NamesDiffer(p);
    CallEnds(files, p, doc, maxBytes, f);
    hide Commit, WriteJson, Final, Tmp, Bak, SameElsewhere, BackupStays;
    if Commits(p, doc, maxBytes, f) {
      var full := Staged(files, p, doc, f);
      CommitEnds(full, p, f);
      StagedKeeps(files, p, doc, f);
      SameTransitive(files, full, Final(full, Commit(full, p, f)), p);
      assert |doc[..Stored(doc, f)]| == Stored(doc, f);
      assert doc[..|doc|] == doc;
    }
  }

  /** When a call succeeds: an absolute path and a limit, a temp file that opens and takes something below the limit, and
      a commit that renames it into place, for which an old file that cannot be kept as a backup has to go. */
  lemma SucceedsExactly(files: Files, p: Path, doc: seq<byte>, maxBytes: nat, f: Fates)
    requires |p| <= 61
    ensures WriteJson(files, p, doc, maxBytes, f).ok <==>
              && p != [] && p[0] == '/' && f.ensurePath && f.open
              && 0 < Min(|doc|, f.room) < maxBytes
              && f.renameTmp && (p in files && !f.renameToBak ==> f.removeTarget)
  {
    CallEnds(files, p, doc, maxBytes, f);
    StagedKeeps(files, p, doc, f);
    hide Commit, WriteJson, Tmp, Bak;
    if Commits(p, doc, maxBytes, f) {
      CommitEnds(Staged(files, p, doc, f), p, f);
    }
  }

  /** No temp file stays behind a call that got as far as looking for one, as long as it can be removed. */
  lemma TempIsDropped(files: Files, p: Path, doc: seq<byte>, maxBytes: nat, f: Fates)
    requires |p| <= 61 && p != [] && p[0] == '/' && maxBytes > 0 && f.ensurePath && f.removeOldTmp && f.removeTmp
    ensures Tmp(p) !in Final(files, WriteJson(files, p, doc, maxBytes, f))
  {
    NamesDiffer(p);
    CallEnds(files, p, doc, maxBytes, f);
    StagedKeeps(files, p, doc, f);
    if Commits(p, doc, maxBytes, f) {
      hide Commit, Tmp, Bak, WriteJson;
      CommitDropsTemp(Staged(files, p, doc, f), p, f);
    } else {
      hide Commit, Tmp, Bak;
    }
  }

  lemma CommitDropsTemp(s: Files, p: Path, f: Fates)
    requires |p| <= 61 && Tmp(p) in s && f.removeTmp
    ensures Tmp(p) !in Final(s, Commit(s, p, f))
  {
    NamesDiffer(p);
    hide Tmp, Bak;
  }

  /** The names of the temp file and the backup, as far as the 64-byte buffers go. */
  lemma NamesByLength(p: Path)
    ensures |p| <= 59 ==> Tmp(p) == p + ".tmp" && Bak(p) == p + ".bak"
    ensures |p| == 60 ==> Tmp(p) == p + ".tm" && Bak(p) == p + ".ba"
    ensures |p| == 61 ==> Tmp(p) == p + ".t" && Bak(p) == p + ".b"
    ensures |p| == 62 ==> Tmp(p) == p + "." == Bak(p)
    ensures |p| >= 63 ==> Tmp(p) == p[..63] == Bak(p)
  {
  }

  lemma LongNames(p: Path)
    requires |p| > PATH_MAX - 2
    ensures Tmp(p) == Bak(p) && (Tmp(p) == p <==> |p| == PATH_MAX)
  {
    if |p| >= PATH_MAX {
      assert Tmp(p) == p[..PATH_MAX] == Bak(p);
    } else {
      assert Tmp(p) == p + "." == Bak(p);
    }
  }

  /** Beyond 61 bytes the temp file is the backup. With every operation succeeding, the call then reports success and
      leaves the old content; at 63 bytes, where both are the file itself, it fails and the file is gone. */
  lemma LongPathsFail(files: Files, p: Path, doc: seq<byte>, maxBytes: nat)
    requires |p| > PATH_MAX - 2 && p[0] == '/' && p in files && 0 < |doc| < maxBytes && |doc| <= WORD
    ensures var o := WriteJson(files, p, doc, maxBytes, Lucky); var end := Final(files, o);
            if |p| == PATH_MAX then !o.ok && p !in end else o.ok && p in end && end[p] == files[p]
  {
    LongNames(p);
    var tmp := Tmp(p);
    hide Tmp, Bak;
    assert doc[..|doc|] == doc;
    var s1 := OldTmp(files, p, Lucky).0;
    WritingEnds(s1, tmp, doc, |doc|);
    var full := s1[tmp := doc];
    hide Writing;
    LongCommit(full, p);
  }

  lemma LongCommit(s: Files, p: Path)
    requires |p| > PATH_MAX - 2 && Tmp(p) in s && p in s
    ensures var o := Commit(s, p, Lucky); var end := Final(s, o);
            if |p| == PATH_MAX then !o.ok && p !in end else o.ok && p in end && end[p] == s[p]
  {
    LongNames(p);
    hide Tmp, Bak;
  }

  // ---- The code ------------------------------------------------------------

  /** The flash, with the states it went through. */
  class Flash {
    var files: Files
    ghost var trace: seq<Files>

    constructor (files: Files)
      ensures this.files == files && trace == []
    {
      this.files, trace := files, [];
    }

    method Remove(p: Path, fate: bool) returns (ok: bool)
      modifies this
      ensures files == Removed(old(files), p, fate) && trace == old(trace) + [files]
      ensures ok == (fate && p in old(files))
    {
      ok := fate && p in files;
      if fate {
        files := files - {p};
      }
      trace := trace + [files];
    }

    method Rename(a: Path, b: Path, fate: bool) returns (ok: bool)
      modifies this
      ensures files == Renamed(old(files), a, b, fate) && trace == old(trace) + [files]
      ensures ok == (fate && a in old(files))
    {
      ok := fate && a in files;
      if ok {
        var content := files[a];
        files := (files - {a})[b := content];
      }
      trace := trace + [files];
    }

    /** Prints the document into a fresh file, 128 bytes at a time, until it or the room ends. */
    method Print(p: Path, doc: seq<byte>, room: nat) returns (done: nat)
      modifies this
      ensures done == Min(|doc|, room)
      ensures trace == old(trace) + Writing(old(files), p, doc, done) && files == old(files)[p := doc[..done]]
    {
      ghost var base := files;
      files := files[p := []];
      trace := trace + [files];
      done := 0;
      assert Writing(base, p, doc, 0) == [files] by { assert doc[..0] == []; }
      while done < |doc|
        invariant done <= |doc| && done <= room
        invariant files == base[p := doc[..done]]
        invariant trace == old(trace) + Writing(base, p, doc, done)
        decreases |doc| - done
      {
        var w := Min(Min(|doc| - done, 128), room - done);
        if w == 0 {
          break;
        }
        files := files[p := doc[..done + w]];
        trace := trace + seq(w, k requires 0 <= k < w => base[p := doc[..done + 1 + k]]);
        done := done + w;
      }
    }
  }

  class FSManager {
    const flash: Flash
    var writeCount: nat
    var errorCount: nat

    constructor (flash: Flash)
      ensures this.flash == flash && writeCount == 0 && errorCount == 0
    {
      this.flash, writeCount, errorCount := flash, 0, 0;
    }

    method CommitTmpToPath(p: Path, f: Fates) returns (ok: bool)
      modifies flash
      ensures var c := Commit(old(flash.files), p, f);
              ok == c.ok && flash.trace == old(flash.trace) + c.states && flash.files == Final(old(flash.files), c)
    {
      hide Tmp, Bak, CommitTmp, SetAside;
      ghost var trace := flash.trace;
      if p !in flash.files {
        ok := RenameTmp(p, f, false);
        return;
      }
      ghost var pre := SetAside(flash.files, p, f).2;
      var hadBackup, goesOn := PutAside(p, f);
      if !goesOn {
        return false;
      }
      ghost var states := CommitTmp(flash.files, p, f, hadBackup).states;
      ok := RenameTmp(p, f, hadBackup);
      Associate(trace, pre, states);
    }

    method DropOldBak(p: Path, f: Fates)
      modifies flash
      ensures flash.files == OldBak(old(flash.files), p, f).0
      ensures flash.trace == old(flash.trace) + OldBak(old(flash.files), p, f).1
    {
      hide Bak, Removed;
      if Bak(p) in flash.files {
        var _ := flash.Remove(Bak(p), f.removeOldBak);
      } else {
        assert flash.trace + [] == flash.trace;
      }
    }

    method PutAside(p: Path, f: Fates) returns (hadBackup: bool, goesOn: bool)
      requires p in flash.files
      modifies flash
      ensures var a := SetAside(old(flash.files), p, f);
              && hadBackup == a.0 && goesOn == a.1
              && flash.trace == old(flash.trace) + a.2 && flash.files == Last(a.2)
    {
      hide Tmp, Bak, Removed, Renamed, OldBak;
      ghost var trace, pre := flash.trace, OldBak(flash.files, p, f).1;
      DropOldBak(p, f);
      hadBackup := flash.Rename(p, Bak(p), f.renameToBak);
      pre := pre + [flash.files];
      assert flash.trace == trace + pre;
      if hadBackup {
        return true, true;
      }
      goesOn := flash.Remove(p, f.removeTarget);
      ghost var s3 := flash.files;
      if !goesOn {
        var _ := flash.Remove(Tmp(p), f.removeTmp);
        assert flash.trace == trace + (pre + [s3, flash.files]);
      } else {
        assert flash.trace == trace + (pre + [s3]);
      }
    }

    method RenameTmp(p: Path, f: Fates, hadBackup: bool) returns (ok: bool)
      modifies flash
      ensures var c := CommitTmp(old(flash.files), p, f, hadBackup);
              ok == c.ok && flash.trace == old(flash.trace) + c.states && flash.files == c.states[|c.states| - 1]
    {
      hide Tmp, Bak, Removed, Renamed;
      ghost var trace := flash.trace;
      ok := flash.Rename(Tmp(p), p, f.renameTmp);
      ghost var s1 := flash.files;
      if !ok {
        var _ := flash.Remove(Tmp(p), f.removeTmp);
        if hadBackup {
          ghost var s2 := flash.files;
          var _ := flash.Rename(Bak(p), p, f.renameBack);
          assert flash.trace == trace + ([s1, s2] + [flash.files]);
        } else {
          assert flash.trace == trace + ([s1, flash.files] + []);
        }
        return false;
      }
      if hadBackup {
        var _ := flash.Remove(Bak(p), f.removeBak);
        assert flash.trace == trace + ([s1] + [flash.files]);
      } else {
        assert flash.trace == trace + ([s1] + []);
      }
    }

    method DropOldTmp(p: Path, f: Fates)
      modifies flash
      ensures flash.files == OldTmp(old(flash.files), p, f).0
      ensures flash.trace == old(flash.trace) + OldTmp(old(flash.files), p, f).1
    {
      hide Tmp, Removed;
      if Tmp(p) in flash.files {
        var _ := flash.Remove(Tmp(p), f.removeOldTmp);
      } else {
        assert flash.trace + [] == flash.trace;
      }
    }

    /** Replaces the file at `p` by what the encoder prints, `doc`. */
    method WriteJsonAtomicStream(p: Path, doc: seq<byte>, maxBytes: nat, f: Fates) returns (ok: bool)
      modifies this, flash
      ensures var o := WriteJson(old(flash.files), p, doc, maxBytes, f);
              ok == o.ok && flash.trace == old(flash.trace) + o.states && flash.files == Final(old(flash.files), o)
      ensures writeCount == old(writeCount) + (if ok then 1 else 0)
      ensures errorCount == old(errorCount)
                            + (if ok || p == [] || p[0] != '/' || maxBytes == 0 then 0 else 1)
    {
      hide Commit, Tmp, Bak, Writing, Removed;
      ghost var trace := flash.trace;
      if p == [] || p[0] != '/' || maxBytes == 0 {
        return false;
      }
      if !f.ensurePath {
        errorCount := errorCount + 1;
        return false;
      }
      ghost var o := WriteJson(flash.files, p, doc, maxBytes, f);
      ghost var pre := OldTmp(flash.files, p, f).1;
      DropOldTmp(p, f);
      if !f.open {
        errorCount := errorCount + 1;
        return false;
      }
      ghost var s1 := flash.files;
      var written := flash.Print(Tmp(p), doc, f.room);
      ghost var writing := Writing(s1, Tmp(p), doc, written);
      WritingEnds(s1, Tmp(p), doc, written);
      Associate(trace, pre, writing);
      if written == 0 || written >= maxBytes {
        var _ := flash.Remove(Tmp(p), f.removeTmp);
        Associate(trace, pre + writing, [flash.files]);
        errorCount := errorCount + 1;
        return false;
      }
      Associate(trace, pre + writing, Commit(flash.files, p, f).states);
      ok := CommitTmpToPath(p, f);
      if !ok {
        errorCount := errorCount + 1;
        return false;
      }
      writeCount := writeCount + 1;
    }
  }
}
