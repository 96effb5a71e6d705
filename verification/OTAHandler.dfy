/** The container's writer and its reader: file cursors, chunk buffers and the flash updated step by step. */
module OTAHandler {
  import opened Bytes
  import opened OtaModel

  /** `pack_ota`: the writer fails when a length does not fit its field. */
  method PackOta(firmware: seq<byte>, files: seq<Entry>) returns (out: Option<seq<byte>>)
    ensures out.Some? <==> |firmware| < WORD && AllPackable(files)
    ensures out.Some? ==> out.value == Package(firmware, files)
  {
    if |firmware| >= WORD {
      return None;
    }
    var written := Le32(|firmware|) + firmware;
    var i := 0;
    while i < |files|
      invariant i <= |files| && AllPackable(files[..i])
      invariant written == Package(firmware, files[..i])
    {
      var e := files[i];
      if |e.name| >= 0x1_0000 || |e.content| >= WORD {
        return None;
      }
      RecordsSnoc(files[..i], e);
      assert files[..i + 1] == files[..i] + [e];
      Associate(Le32(|firmware|) + firmware, Records(files[..i]), Record(e));
      written := written + (Le16(|e.name|) + e.name + Le32(|e.content|) + e.content);
      i := i + 1;
    }
    assert files[..i] == files;
    return Some(written);
  }

  lemma {:induction false} RecordsSnoc(files: seq<Entry>, e: Entry)
    requires AllPackable(files) && Packable(e)
    ensures AllPackable(files + [e]) && Records(files + [e]) == Records(files) + Record(e)
  {
    if files == [] {
      assert [] + [e] == [e] && Records([e]) == Record(e) + [];
    } else {
      RecordsSnoc(files[1..], e);
      hide Record, Packable;
      assert (files + [e])[1..] == files[1..] + [e];
      Associate(Record(files[0]), Records(files[1..]), Record(e));
    }
  }

  /** The container file, read through a cursor. */
  class InFile {
    const data: seq<byte>
    var pos: nat

    ghost predicate Valid()
      reads this
    {
      pos <= |data|
    }

    /** What is still to be read. */
    ghost function Rest(): (r: seq<byte>)
      requires Valid()
      reads this
      ensures |r| == |data| - pos
    {
      data[pos..]
    }

    constructor (data: seq<byte>)
      ensures Valid() && Rest() == data
    {
      this.data, pos := data, 0;
    }

    method Read(n: nat) returns (b: seq<byte>)
      requires Valid()
      modifies this
      ensures Valid() && b == Cut(old(Rest()), n) && Rest() == old(Rest())[|b|..]
    {
      b := data[pos..pos + Min(n, |data| - pos)];
      pos := pos + |b|;
    }

    method Seek(n: nat)
      requires Valid()
      modifies this
      ensures Valid() && Rest() == Skip(old(Rest()), n)
    {
      if pos + n <= |data| {
        pos := pos + n;
      }
    }
  }

  /** The firmware updater. */
  class UpdateSink {
    const begins: bool
    const seals: bool
    var room: nat
    var written: seq<byte>

    ghost function View(): Updater
      reads this
    {
      Updater(begins, room, seals, written)
    }

    constructor (up: Updater)
      ensures View() == up
    {
      begins, room, seals, written := up.begins, up.room, up.seals, up.written;
    }

    method Write(b: seq<byte>) returns (n: nat)
      modifies this
      ensures n == Min(|b|, old(room)) && room == old(room) - n && written == old(written) + b[..n]
    {
      n := Min(|b|, room);
      room, written := room - n, written + b[..n];
    }
  }

  /** The flash file system behind `FSManager`'s write streams. */
  class FlashFs {
    var files: Files
    const fates: nat -> Fate
    var at: nat
    var fate: Fate   // what befalls the open stream
    var left: nat    // how many more bytes it takes

    ghost function View(): Flash
      reads this
    {
      Flash(files, fates, at)
    }

    constructor (fl: Flash)
      ensures View() == fl
    {
      files, fates, at := fl.files, fl.fates, fl.at;
      fate, left := fl.fates(fl.at), 0;
    }

    /** The temp file's name, or nothing when the file cannot be opened. */
    method OpenWriteStream(path: Name, expectedSize: nat) returns (handle: Option<Name>)
      modifies this
      ensures at == old(at) + 1 && fate == fates(old(at)) && left == fate.takes
      ensures (handle.Some?, files) == Opened(old(files), path, expectedSize, fate)
      ensures handle.Some? ==> handle.value == ShortTmp(path) && handle.value in files && files[handle.value] == []
    {
      fate, at := fates(at), at + 1;
      left := fate.takes;
      if !fate.makesPath {
        return None;
      }
      var freeSpace := fate.free;
      if freeSpace < (expectedSize + MARGIN) % WORD {
        return None;
      }
      var pathBuffer := Cut(path + TMP, SHORT_PATH);
      if pathBuffer in files && fate.clears {
        files := files - {pathBuffer};
      }
      assert fate.clears ==> files == old(files) - {pathBuffer};
      if !fate.opens {
        return None;
      }
      files := files[pathBuffer := []];
      return Some(pathBuffer);
    }

    method Write(handle: Name, b: seq<byte>) returns (n: nat)
      requires handle in files
      modifies this`files, this`left
      ensures n == Min(|b|, old(left)) && left == old(left) - n
      ensures files == old(files)[handle := old(files)[handle] + b[..n]]
    {
      n := Min(|b|, left);
      left, files := left - n, files[handle := files[handle] + b[..n]];
    }

    method Remove(path: Name, succeeds: bool) returns (ok: bool)
      modifies this`files
      ensures ok == (path in old(files) && succeeds)
      ensures files == if succeeds then old(files) - {path} else old(files)
    {
      ok := path in files && succeeds;
      if ok {
        files := files - {path};
      }
      assert succeeds && path !in old(files) ==> files == old(files) - {path};
    }

    method CloseWriteStream(path: Name, commit: bool) returns (ok: bool)
      modifies this`files
      ensures !commit ==> files == Dropped(old(files), path, fate)
      ensures commit ==> (ok, files) == Committed(old(files), path, fate)
    {
      var tempPath := Cut(path + TMP, LONG_PATH);
      if !commit {
        ok := Remove(tempPath, fate.drops);
        return;
      }
      if path in files {
        var removed := Remove(path, fate.removes);
        if !removed {
          var dropped := Remove(tempPath, fate.drops);
          return false;
        }
      }
      assert files == old(files) - {path};
      if tempPath !in files || !fate.renames {
        var dropped := Remove(tempPath, fate.drops);
        return false;
      }
      var content := files[tempPath];
      files := (files - {tempPath})[path := content];
      return true;
    }
  }

  // ---- Where a chunked copy stands -----------------------------------------

  /** After `done` bytes, a multiple of the chunk size or all, the rest of the copy is the copy of the rest. */
  ghost predicate Along(src: seq<byte>, size: nat, room: nat, done: nat) {
    && done <= size && done <= |src| && done <= room
    && var rest := CopyChunks(src[done..], size - done, room - done);
       CopyChunks(src, size, room) == (rest.0, src[..done] + rest.1, done + rest.2)
  }

  lemma AlongStart(src: seq<byte>, size: nat, room: nat)
    ensures Along(src, size, room, 0)
  {
    hide CopyChunks;
    var copy := CopyChunks(src, size, room);
    assert src[0..] == src && src[..0] + copy.1 == copy.1;
  }

  /** The next `w` bytes of what is left to read. */
  lemma ReadOn(src: seq<byte>, done: nat, n: nat, w: nat)
    requires done <= |src|
    ensures var buf := Cut(src[done..], n);
            && |buf| == Min(n, |src| - done)
            && src[done..][|buf|..] == src[done + |buf|..]
            && (w <= |buf| ==> src[..done] + buf[..w] == src[..done + w])
            && (|buf| == n ==> buf == src[done..done + n])
            && src[0..] == src
  {
    var rest, buf := src[done..], Cut(src[done..], n);
    var k := |buf|;
    assert buf == rest[..k];
    hide Cut;
    assert rest[..k] == src[done..done + k];
    assert rest[k..] == src[done + k..];
    if w <= k {
      assert buf[..w] == src[done..done + w];
    }
  }

  lemma AlongNext(src: seq<byte>, size: nat, room: nat, done: nat)
    requires Along(src, size, room, done) && done < size
    requires var n := Min(size - done, CHUNK); done + n <= |src| && done + n <= room
    ensures Along(src, size, room, done + Min(size - done, CHUNK))
  {
    var n := Min(size - done, CHUNK);
    var here, rest := CopyChunks(src[done..], size - done, room - done), CopyChunks(src[done..][n..], size - done - n, room - done - n);
    assert here == (rest.0, src[done..][..n] + rest.1, n + rest.2);
    hide CopyChunks;
    assert src[done..][n..] == src[done + n..];
    assert src[..done] + src[done..][..n] == src[..done + n];
    Associate(src[..done], src[done..][..n], rest.1);
    assert size - done - n == size - (done + n) && room - done - n == room - (done + n);
  }

  /** The copy ends here: all done, or the source or the room is short. */
  lemma AlongEnds(src: seq<byte>, size: nat, room: nat, done: nat)
    requires Along(src, size, room, done)
    ensures var n, copy := Min(size - done, CHUNK), CopyChunks(src, size, room);
            && (done == size ==> copy == (true, src[..done], done))
            && (done < size && |src| - done < n ==> copy == (false, src[..done], |src|))
            && (done < size && n <= |src| - done && room - done < n ==> copy == (false, src[..room], done + n))
  {
    assert src[..done] + [] == src[..done];
    if done < size && Min(size - done, CHUNK) <= |src| - done && room - done < Min(size - done, CHUNK) {
      assert src[..done] + src[done..][..room - done] == src[..room];
    }
  }

  class Handler {

    /** Copies one file's content from the container into an open stream. */
    method CopyContent(f: InFile, fs: FlashFs, handle: Name, size: nat) returns (ok: bool)
      requires f.Valid() && handle in fs.files && fs.files[handle] == []
      modifies f, fs`files, fs`left
      ensures f.Valid()
      ensures var copy := CopyChunks(old(f.Rest()), size, old(fs.left));
              && ok == copy.0
              && fs.files == old(fs.files)[handle := copy.1]
              && f.Rest() == old(f.Rest())[copy.2..]
    {
      hide CopyChunks, Along, Cut, InFile.Rest;
      var fileRemaining: nat := size;
      ghost var src, room, files := f.Rest(), fs.left, fs.files;
      ghost var done: nat := 0;
      AlongStart(src, size, room);
      assert files[handle := src[..0]] == files && src[0..] == src;
      while fileRemaining > 0
        invariant f.Valid() && done <= |src| && f.Rest() == src[done..]
        invariant fileRemaining == size - done && fs.left == room - done
        invariant fs.files == files[handle := src[..done]]
        invariant Along(src, size, room, done)
        decreases fileRemaining
      {
        AlongEnds(src, size, room, done);
        var toRead := Min(fileRemaining, CHUNK);
        var buf := f.Read(toRead);
        ReadOn(src, done, toRead, Min(|buf|, fs.left));
        if |buf| != toRead {
          return false;
        }
        var w := fs.Write(handle, buf);
        if w != |buf| {
          return false;
        }
        AlongNext(src, size, room, done);
        fileRemaining, done := fileRemaining - w, done + w;
      }
      AlongEnds(src, size, room, done);
      return true;
    }

    /** Reads the length, name and size of a record. */
    method ReadHead(f: InFile) returns (h: RecordHead)
      requires f.Valid()
      modifies f
      ensures f.Valid() && h == HeadOf(old(f.Rest()))
      ensures h.LongName? ==> f.Rest() == old(f.Rest())[2..]
      ensures h.FileHead? ==> f.Rest() == old(f.Rest())[h.used..]
    {
      hide FromLe16, FromLe32, CStr, Cut, InFile.Rest;
      ghost var data := f.Rest();
      ReadOn(data, 0, 2, 2);
      var lenBuf := f.Read(2);
      if |lenBuf| != 2 {
        return Truncated;
      }
      var nameLen := FromLe16(lenBuf);
      if nameLen == 0 {
        return Terminator;
      }
      if nameLen >= NAME_BUFFER {
        return LongName(nameLen);
      }
      ReadOn(data, 2, nameLen, nameLen);
      var nameBuf := f.Read(nameLen);
      if |nameBuf| != nameLen {
        return Truncated;
      }
      ReadOn(data, 2 + nameLen, 4, 4);
      var sizeBuf := f.Read(4);
      if |sizeBuf| != 4 {
        return Truncated;
      }
      return FileHead(CStr(nameBuf), FromLe32(sizeBuf), 2 + nameLen + 4);
    }

    /** Reads the records up to the end of the container. */
    method ExtractFiles(f: InFile, fs: FlashFs) returns (ok: bool)
      requires f.Valid()
      modifies f, fs
      ensures f.Valid() && (ok, fs.View()) == Extract(old(f.Rest()), old(fs.View()))
    {
      hide HeadOf, Unpack, Opened, ShortTmp, InFile.Rest;
      ghost var whole := Extract(f.Rest(), fs.View());
      while f.pos < |f.data|
        invariant f.Valid() && Extract(f.Rest(), fs.View()) == whole
        decreases |f.data| - f.pos
      {
        ghost var data, fl := f.Rest(), fs.View();
        var head := ReadHead(f);
        match head {
          case Truncated =>
            return false;
          case Terminator =>
            return true;
          case LongName(nameLen) =>
            f.Seek(nameLen);
          case FileHead(path, fileSize, _) =>
            var outFile := fs.OpenWriteStream(path, fileSize);
            if outFile.None? {
              f.Seek(fileSize);
            } else {
              ok := StoreFile(f, fs, outFile.value, path, fileSize);
              if !ok {
                return false;
              }
            }
        }
      }
      return true;
    }

    /** Copies the content and commits the file, or drops its temp file. */
    method StoreFile(f: InFile, fs: FlashFs, handle: Name, path: Name, size: nat) returns (ok: bool)
      requires f.Valid() && handle == ShortTmp(path) && handle in fs.files && fs.files[handle] == []
      requires fs.left == fs.fate.takes
      modifies f, fs`files, fs`left
      ensures f.Valid() && (ok, fs.files) == Unpack(old(f.Rest()), size, path, old(fs.files), fs.fate)
      ensures ok ==> f.Rest() == old(f.Rest())[Min(size, |old(f.Rest())|)..]
    {
      hide Dropped, Committed;
      CopyIsExact(f.Rest(), size, fs.left);
      var copied := CopyContent(f, fs, handle, size);
      if !copied {
        var removed := fs.CloseWriteStream(path, false);
        return false;
      }
      ok := fs.CloseWriteStream(path, true);
    }

    /** The whole update. */
    method ProcessUpdateFile(f: InFile, sink: UpdateSink, fs: FlashFs) returns (ok: bool)
      requires f.Valid()
      modifies f, sink, fs
      ensures (ok, sink.View(), fs.View()) == Process(old(f.Rest()), old(sink.View()), old(fs.View()))
    {
      hide FromLe32, CopyChunks, Extract;
      ghost var data, up := f.Rest(), sink.View();
      var header := f.Read(4);
      if |header| != 4 {
        return false;
      }
      assert header == data[..4] && f.Rest() == data[4..];
      var fwSize := FromLe32(header);
      if !sink.begins {
        return false;
      }
      ok := CopyFirmware(f, sink, fwSize);
      ghost var copy := CopyChunks(data[4..], fwSize, up.room);
      assert sink.View() == up.(room := up.room - |copy.1|, written := up.written + copy.1);
      if !ok || !sink.seals {
        return false;
      }
      ok := ExtractFiles(f, fs);
    }

    method CopyFirmware(f: InFile, sink: UpdateSink, fwSize: nat) returns (ok: bool)
      requires f.Valid()
      modifies f, sink
      ensures f.Valid()
      ensures var copy := CopyChunks(old(f.Rest()), fwSize, old(sink.room));
              && ok == copy.0
              && sink.written == old(sink.written) + copy.1 && sink.room == old(sink.room) - |copy.1|
              && f.Rest() == old(f.Rest())[copy.2..]
    {
      hide CopyChunks, Along, Cut, InFile.Rest;
      var remaining: nat := fwSize;
      ghost var src, room, before := f.Rest(), sink.room, sink.written;
      ghost var done: nat := 0;
      AlongStart(src, fwSize, room);
      assert before + src[..0] == before && src[0..] == src;
      while remaining > 0
        invariant f.Valid() && done <= |src| && f.Rest() == src[done..]
        invariant remaining == fwSize - done && sink.room == room - done
        invariant sink.written == before + src[..done]
        invariant Along(src, fwSize, room, done)
        decreases remaining
      {
        AlongEnds(src, fwSize, room, done);
        var toRead := Min(remaining, CHUNK);
        var buf := f.Read(toRead);
        ReadOn(src, done, toRead, Min(|buf|, sink.room));
        if |buf| != toRead {
          return false;
        }
        var w := sink.Write(buf);
        Associate(before, src[..done], buf[..w]);
        if w != |buf| {
          return false;
        }
        AlongNext(src, fwSize, room, done);
        remaining, done := remaining - w, done + w;
      }
      AlongEnds(src, fwSize, room, done);
      return true;
    }
  }
}
