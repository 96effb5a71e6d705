/** The receive ring of the modem transport, and the window arithmetic it shares with the response ring and the
    command queues. */
module Rings {
  import opened Bytes

  const RX_SIZE := 320
  const RESPONSE_SIZE := 128
  const QSIZE := 6
  const HQSIZE := 2

  /** The live part of a ring that starts at `head`. */
  function Window<T>(data: seq<T>, head: nat, count: nat): seq<T>
    requires count <= |data| && head < |data|
  {
    if head + count <= |data| then data[head..head + count] else data[head..] + data[..head + count - |data|]
  }

  /** `i % n` for an index at most one lap ahead. */
  function Wrap(i: nat, n: nat): (r: nat)
    requires i < 2 * n
    ensures r < n
  {
    if i < n then i else i - n
  }

  /** An index moved on around a ring of one of the sizes in use, `(head + k) % n`. */
  function Advanced(head: nat, k: nat, n: nat): (r: nat)
    requires head < n && k <= n && (n == RX_SIZE || n == RESPONSE_SIZE || n == QSIZE || n == HQSIZE)
    ensures r == Wrap(head + k, n)
  {
    if n == RX_SIZE then WrapRx(head + k); (head + k) % RX_SIZE
    else if n == RESPONSE_SIZE then WrapResponse(head + k); (head + k) % RESPONSE_SIZE
    else if n == QSIZE then WrapQueue(head + k); (head + k) % QSIZE
    else WrapHigh(head + k); (head + k) % HQSIZE
  }

  lemma WrapRx(i: nat)
    requires i < 2 * RX_SIZE
    ensures i % RX_SIZE == Wrap(i, RX_SIZE)
  {
  }

  lemma WrapResponse(i: nat)
    requires i < 2 * RESPONSE_SIZE
    ensures i % RESPONSE_SIZE == Wrap(i, RESPONSE_SIZE)
  {
  }

  lemma WrapQueue(i: nat)
    requires i < 2 * QSIZE
    ensures i % QSIZE == Wrap(i, QSIZE)
  {
  }

  lemma WrapHigh(i: nat)
    requires i < 2 * HQSIZE
    ensures i % HQSIZE == Wrap(i, HQSIZE)
  {
  }

  lemma WindowSize<T>(data: seq<T>, head: nat, count: nat)
    requires count <= |data| && head < |data|
    ensures |Window(data, head, count)| == count
  {
  }

  lemma WindowAt<T>(data: seq<T>, head: nat, count: nat, i: nat)
    requires count <= |data| && head < |data| && i < count
    ensures |Window(data, head, count)| == count
    ensures Window(data, head, count)[i] == data[Wrap(head + i, |data|)]
  {
  }

  lemma WindowSnoc<T>(data: seq<T>, head: nat, count: nat, b: T)
    requires count < |data| && head < |data|
    ensures Window(data[Wrap(head + count, |data|) := b], head, count + 1) == Window(data, head, count) + [b]
  {
    var n, idx := |data|, Wrap(head + count, |data|);
    var after := data[idx := b];
    if head + count + 1 <= n {
      assert after[head..head + count + 1] == data[head..head + count] + [b];
    } else if head + count == n {
      assert after[head..] == data[head..head + count] && after[..1] == [b];
    } else {
      assert after[head..] == data[head..];
      assert after[..head + count + 1 - n] == data[..head + count - n] + [b];
    }
  }

  lemma WindowTail<T>(data: seq<T>, head: nat, count: nat)
    requires 0 < count <= |data| && head < |data|
    ensures |Window(data, head, count)| == count
    ensures Window(data, Wrap(head + 1, |data|), count - 1) == Window(data, head, count)[1..]
    ensures Window(data, head, count)[0] == data[head]
  {
  }

  /** Bytes fetched by the transport and not read yet; the oldest are dropped when it is full. */
  class RxRing {
    const data: array<byte>
    var head: nat
    var count: nat

    ghost predicate Valid()
      reads this
    {
      data.Length == RX_SIZE && head < RX_SIZE && count <= RX_SIZE
    }

    ghost function Contents(): (s: seq<byte>)
      requires Valid()
      reads this, data
      ensures |s| == count
    {
      WindowSize(data[..], head, count);
      Window(data[..], head, count)
    }

    constructor ()
      ensures Valid() && Contents() == [] && fresh(data)
    {
      data := new byte[RX_SIZE];
      head, count := 0, 0;
    }

    method Push(b: byte)
      requires Valid()
      modifies this, data
      ensures Valid() && Contents() == LastN(old(Contents()) + [b], RX_SIZE)
    {
      ghost var s := Contents();
      hide Window;
      if count >= RX_SIZE {
        WindowTail(data[..], head, count);
        head := Advanced(head, 1, RX_SIZE);
        count := count - 1;
      }
      assert Contents() + [b] == LastN(s + [b], RX_SIZE);
      WindowSnoc(data[..], head, count, b);
      var idx := Advanced(head, count, RX_SIZE);
      ghost var before := data[..];
      data[idx] := b;
      assert data[..] == before[idx := b];
      count := count + 1;
    }

    method PushAll(bs: seq<byte>)
      requires Valid()
      modifies this, data
      ensures Valid() && Contents() == LastN(old(Contents()) + bs, RX_SIZE)
    {
      var i := 0;
      while i < |bs|
        invariant i <= |bs| && Valid() && Contents() == LastN(old(Contents()) + bs[..i], RX_SIZE)
      {
        Push(bs[i]);
        LastNStep(old(Contents()) + bs[..i], bs[i], RX_SIZE);
        assert old(Contents()) + bs[..i] + [bs[i]] == old(Contents()) + bs[..i + 1];
        i := i + 1;
      }
      assert bs[..i] == bs;
    }

    method Available() returns (n: nat)
      requires Valid()
      ensures n == |Contents()|
    {
      n := count;
    }

    /** The oldest unread byte, or -1. */
    method Read() returns (r: int)
      requires Valid()
      modifies this
      ensures Valid()
      ensures r == if old(Contents()) == [] then -1 else old(Contents())[0]
      ensures Contents() == if old(Contents()) == [] then [] else old(Contents())[1..]
    {
      if count == 0 {
        return -1;
      }
      hide Window;
      WindowTail(data[..], head, count);
      r := data[head];
      head := Advanced(head, 1, RX_SIZE);
      count := count - 1;
    }

    method Peek() returns (r: int)
      requires Valid()
      ensures r == if Contents() == [] then -1 else Contents()[0]
    {
      if count == 0 {
        return -1;
      }
      hide Window;
      WindowTail(data[..], head, count);
      r := data[head];
    }
  }

  /** Keeping the newest `n` byte by byte or all at once is the same. */
  lemma LastNStep(s: seq<byte>, b: byte, n: nat)
    requires n > 0
    ensures LastN(LastN(s, n) + [b], n) == LastN(s + [b], n)
  {
  }

  /** One more byte for the receive ring of 320 and for the response of 128: below that they grow by it, and at that size
      the oldest byte makes way. */
  lemma RingSizes(s: seq<byte>, b: byte)
    ensures |s| < 320 ==> LastN(s + [b], RX_SIZE) == s + [b]
    ensures |s| == 320 ==> LastN(s + [b], RX_SIZE) == s[1..] + [b]
    ensures |s| < 128 ==> LastN(s + [b], RESPONSE_SIZE) == s + [b]
    ensures |s| == 128 ==> LastN(s + [b], RESPONSE_SIZE) == s[1..] + [b]
  {
  }

  // ---- Runs of the receive ring --------------------------------------------

  datatype RingOp = Pushed(b: byte) | ReadOne

  /** The ring after an operation, and the byte a read returns. */
  function RingStep(s: seq<byte>, op: RingOp): seq<byte> {
    match op
    case Pushed(b) => LastN(s + [b], RX_SIZE)
    case ReadOne => if s == [] then [] else s[1..]
  }

  function RingRun(s: seq<byte>, ops: seq<RingOp>): seq<byte>
    decreases |ops|
  {
    if ops == [] then s else RingRun(RingStep(s, ops[0]), ops[1..])
  }

  function PushedBytes(ops: seq<RingOp>): seq<byte> {
    if ops == [] then []
    else (match ops[0] case Pushed(b) => [b] case ReadOne => []) + PushedBytes(ops[1..])
  }

  /** How many bytes the ring holds, counted by themselves. */
  function Held(n: nat, ops: seq<RingOp>): nat
    decreases |ops|
  {
    if ops == [] then n
    else Held(match ops[0] case Pushed(_) => Min(n + 1, RX_SIZE) case ReadOne => if n == 0 then 0 else n - 1, ops[1..])
  }

  /** The bytes the reads of a run return. */
  function ReadBytes(s: seq<byte>, ops: seq<RingOp>): seq<byte>
    decreases |ops|
  {
    if ops == [] then []
    else (if ops[0].ReadOne? && s != [] then [s[0]] else []) + ReadBytes(RingStep(s, ops[0]), ops[1..])
  }

  /** No push meets a full ring. */
  predicate NeverFull(n: nat, ops: seq<RingOp>)
    decreases |ops|
  {
    ops == []
    || (match ops[0]
        case Pushed(_) => n < RX_SIZE && NeverFull(n + 1, ops[1..])
        case ReadOne => NeverFull(if n == 0 then 0 else n - 1, ops[1..]))
  }

  lemma {:induction false} HeldCounts(s: seq<byte>, ops: seq<RingOp>)
    requires |s| <= RX_SIZE
    ensures |RingRun(s, ops)| == Held(|s|, ops) <= RX_SIZE
    decreases |ops|
  {
    if ops != [] {
      HeldCounts(RingStep(s, ops[0]), ops[1..]);
    }
  }

  lemma {:induction false} RingIsSuffix(s: seq<byte>, ops: seq<RingOp>)
    requires |s| <= RX_SIZE
    ensures IsSuffix(RingRun(s, ops), s + PushedBytes(ops))
    decreases |ops|
  {
    if ops == [] {
      assert s + [] == s;
    } else {
      var next, later := RingStep(s, ops[0]), PushedBytes(ops[1..]);
      RingIsSuffix(next, ops[1..]);
      var now := match ops[0] case Pushed(b) => [b] case ReadOne => [];
      assert now == [] ==> s + now == s;
      assert IsSuffix(next, s + now);
      SuffixOfMore(next, s + now, later);
      Associate(s, now, later);
      SuffixTransitive(RingRun(s, ops), next + later, s + now + later);
    }
  }

  /** However pushes and reads alternate, the ring holds exactly the newest bytes pushed, as many as are unread and
      never more than its size. */
  lemma RingHoldsNewest(s: seq<byte>, ops: seq<RingOp>)
    requires |s| <= RX_SIZE
    ensures RingRun(s, ops) == LastN(s + PushedBytes(ops), Held(|s|, ops))
    ensures |RingRun(s, ops)| == Held(|s|, ops) <= RX_SIZE
  {
    hide RingRun, PushedBytes, Held;
    HeldCounts(s, ops);
    RingIsSuffix(s, ops);
  }

  /** Every byte pushed is read or still held, in order, exactly when no push meets a full ring. */
  lemma {:induction false} NothingIsDroppedExactly(s: seq<byte>, ops: seq<RingOp>)
    requires |s| <= RX_SIZE
    ensures ReadBytes(s, ops) + RingRun(s, ops) == s + PushedBytes(ops) <==> NeverFull(|s|, ops)
    ensures |ReadBytes(s, ops)| + |RingRun(s, ops)| <= |s| + |PushedBytes(ops)|
    ensures |ReadBytes(s, ops)| + |RingRun(s, ops)| == |s| + |PushedBytes(ops)| <==> NeverFull(|s|, ops)
    decreases |ops|
  {
    if ops == [] {
      assert [] + s == s + [];
    } else {
      var next, rest := RingStep(s, ops[0]), ops[1..];
      NothingIsDroppedExactly(next, rest);
      match ops[0]
      case Pushed(b) =>
        Associate(s, [b], PushedBytes(rest));
        assert [] + ReadBytes(next, rest) == ReadBytes(next, rest);
      case ReadOne =>
        var r := if s != [] then [s[0]] else [];
        assert r + next == s;
        Associate(r, ReadBytes(next, rest), RingRun(next, rest));
        Associate(r, next, PushedBytes(rest));
        assert [] + PushedBytes(rest) == PushedBytes(rest);
    }
  }

  predicate IsSuffix(t: seq<byte>, s: seq<byte>) { |t| <= |s| && s[|s| - |t|..] == t }

  lemma SuffixOfMore(t: seq<byte>, s: seq<byte>, more: seq<byte>)
    requires IsSuffix(t, s)
    ensures IsSuffix(t + more, s + more)
  {
    assert (s + more)[|s| - |t|..] == s[|s| - |t|..] + more;
  }

  lemma SuffixTransitive(u: seq<byte>, t: seq<byte>, s: seq<byte>)
    requires IsSuffix(u, t) && IsSuffix(t, s)
    ensures IsSuffix(u, s)
  {
    assert s[|s| - |t|..][|t| - |u|..] == s[|s| - |u|..];
  }
}
