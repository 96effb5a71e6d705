/** Responses measured first and then sent in chunks, each produced by printing the whole document again. */
module StreamSinks {
  import opened Bytes

  /** The document bytes that belong to a chunk of room `cap` at `index`. */
  function Window<T>(doc: seq<T>, index: nat, cap: nat): seq<T> {
    doc[Min(index, |doc|)..Min(index + cap, |doc|)]
  }

  /** One call of a print sink: a single byte or a buffer. */
  datatype Write = One(b: byte) | Buffer(s: seq<byte>)

  function Text(w: Write): seq<byte> { match w case One(b) => [b] case Buffer(s) => s }

  function Document(writes: seq<Write>): seq<byte> {
    if writes == [] then [] else Document(writes[..|writes| - 1]) + Text(writes[|writes| - 1])
  }

  /** A further byte lands in the window exactly when it is past the index and there is room. */
  lemma WindowSnoc<T>(doc: seq<T>, x: T, index: nat, cap: nat)
    ensures Window(doc + [x], index, cap)
            == Window(doc, index, cap) + if index <= |doc| < index + cap then [x] else []
  {
  }

  /** Drops the first bytes, then fills a fixed buffer and drops the rest. */
  class SkippingPrint {
    var skip: nat
    const out: array<byte>
    const cap: nat
    var produced: nat
    ghost const index: nat
    ghost var printed: seq<byte>

    ghost predicate Valid()
      reads this, out
    {
      && cap <= out.Length && produced <= cap
      && skip == (if |printed| < index then index - |printed| else 0)
      && out[..produced] == Window(printed, index, cap)
    }

    constructor (skip: nat, out: array<byte>, cap: nat)
      requires cap <= out.Length
      ensures Valid() && this.out == out && this.cap == cap && index == skip && printed == []
    {
      this.skip, this.out, this.cap, produced := skip, out, cap, 0;
      index, printed := skip, [];
    }

    method WriteByte(b: byte) returns (n: nat)
      requires Valid()
      modifies this, out
      ensures Valid() && printed == old(printed) + [b] && n == 1
    {
      WindowSnoc(printed, b, index, cap);
      printed := printed + [b];
      n := 1;
      if skip > 0 {
        skip := skip - 1;
        return;
      }
      if produced < cap {
        out[produced] := b;
        produced := produced + 1;
      }
    }

    /** The skipped part of the buffer, then the part that still fits. */
    method WriteBuffer(buffer: seq<byte>) returns (n: nat)
      requires Valid()
      modifies this, out
      ensures Valid() && printed == old(printed) + buffer && n == |buffer|
    {
      ghost var before := printed;
      if |buffer| == 0 {
        assert printed + buffer == printed;
        return 0;
      }
      var i := SkipPrefix(buffer);
      CopyRest(buffer, i, before);
      n := |buffer|;
    }

    method SkipPrefix(buffer: seq<byte>) returns (i: nat)
      requires Valid()
      modifies this
      ensures Valid() && i <= |buffer| && printed == old(printed) + buffer[..i] && (i < |buffer| ==> skip == 0)
    {
      hide Window;
      ghost var before := printed;
      i := 0;
      while i < |buffer| && skip > 0
        invariant i <= |buffer| && Valid() && printed == before + buffer[..i]
      {
        WindowSnoc(printed, buffer[i], index, cap);
        Extend(before, buffer, i);
        printed := printed + [buffer[i]];
        skip := skip - 1;
        i := i + 1;
      }
    }

    method CopyRest(buffer: seq<byte>, start: nat, ghost before: seq<byte>)
      requires Valid() && start <= |buffer| && printed == before + buffer[..start] && (start < |buffer| ==> skip == 0)
      modifies this, out
      ensures Valid() && printed == before + buffer
    {
      hide Window;
      var i := start;
      while i < |buffer| && produced < cap
        invariant i <= |buffer| && Valid() && printed == before + buffer[..i]
        invariant i < |buffer| ==> skip == 0
      {
        WindowLength(printed, index, cap);
        WindowSnoc(printed, buffer[i], index, cap);
        Extend(before, buffer, i);
        printed := printed + [buffer[i]];
        out[produced] := buffer[i];
        produced := produced + 1;
        i := i + 1;
      }
      assert buffer == buffer[..i] + buffer[i..];
      Associate(before, buffer[..i], buffer[i..]);
      if i == |buffer| {
        assert buffer[..i] == buffer;
      } else {
        WindowLength(printed, index, cap);
        WindowFull(printed, buffer[i..], index, cap);
      }
      printed := before + buffer;
    }
  }

  lemma WindowLength<T>(doc: seq<T>, index: nat, cap: nat)
    ensures |Window(doc, index, cap)| == if |doc| < index then 0 else Min(|doc| - index, cap)
  {
  }

  lemma Extend(before: seq<byte>, buffer: seq<byte>, i: nat)
    requires i < |buffer|
    ensures before + buffer[..i] + [buffer[i]] == before + buffer[..i + 1]
  {
    assert buffer[..i + 1] == buffer[..i] + [buffer[i]];
  }

  /** A full window takes nothing more. */
  lemma WindowFull<T>(doc: seq<T>, more: seq<T>, index: nat, cap: nat)
    requires |doc| >= index && |Window(doc, index, cap)| == cap
    ensures Window(doc + more, index, cap) == Window(doc, index, cap)
  {
  }

  /** Printing the document into a filler called at `index` with room `cap` yields exactly that window, however the
      printer splits its writes. */
  method Fill(writes: seq<Write>, index: nat, cap: nat) returns (chunk: seq<byte>)
    ensures chunk == Window(Document(writes), index, cap)
  {
    var out := new byte[cap];
    var sink := new SkippingPrint(index, out, cap);
    for i := 0 to |writes|
      invariant sink.Valid() && sink.out == out && sink.cap == cap && sink.index == index
      invariant fresh(sink) && fresh(out) && sink.printed == Document(writes[..i])
    {
      assert writes[..i + 1][..i] == writes[..i];
      match writes[i]
      case One(b) => var n := sink.WriteByte(b);
      case Buffer(s) => var n := sink.WriteBuffer(s);
    }
    assert writes[..|writes|] == writes;
    chunk := out[..sink.produced];
  }

  /** The length announced before sending. */
  method Measure(writes: seq<Write>) returns (len: nat)
    ensures len == |Document(writes)|
  {
    len := 0;
    for i := 0 to |writes|
      invariant len == |Document(writes[..i])|
    {
      assert writes[..i + 1][..i] == writes[..i];
      len := len + |Text(writes[i])|;
    }
    assert writes[..|writes|] == writes;
  }

  /** What has been sent after chunks of the given rooms, each requested at the index reached so far. */
  function Sent(doc: seq<byte>, rooms: seq<nat>): seq<byte>
  {
    if rooms == [] then []
    else
      var sent := Sent(doc, rooms[..|rooms| - 1]);
      sent + Window(doc, |sent|, rooms[|rooms| - 1])
  }

  function Total(rooms: seq<nat>): nat {
    if rooms == [] then 0 else Total(rooms[..|rooms| - 1]) + rooms[|rooms| - 1]
  }

  /** Any chunk schedule sends a prefix of the document, as long as the rooms together allow: the whole of it exactly
      when they add up to the measured length. */
  lemma {:induction false} ChunksRebuild(doc: seq<byte>, rooms: seq<nat>)
    ensures Sent(doc, rooms) == doc[..Min(Total(rooms), |doc|)]
    ensures Sent(doc, rooms) == doc <==> Total(rooms) >= |doc|
  {
    if rooms != [] {
      var n := |rooms| - 1;
      ChunksRebuild(doc, rooms[..n]);
      var a, b := Min(Total(rooms[..n]), |doc|), Min(Total(rooms), |doc|);
      assert doc[..b] == doc[..a] + doc[a..b];
    }
    assert |doc[..Min(Total(rooms), |doc|)]| == Min(Total(rooms), |doc|);
    assert doc[..|doc|] == doc;
  }
}
