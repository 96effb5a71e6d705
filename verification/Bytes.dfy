/** Octets, C strings, sequence algebra and the 32-bit millisecond clock shared by the other modules. */
module Bytes {

  type byte = b: int | 0 <= b < 256

  /** The bytes of a C string before its terminator. */
  type CString = seq<byte>

  datatype Option<+T> = None | Some(value: T)

  const WORD: int := 0x1_0000_0000

  /** A big-endian 16-bit number. */
  function U16Of(hi: byte, lo: byte): (v: nat)
    ensures v < 0x1_0000
  {
    (hi as int) * 256 + (lo as int)
  }

  function Min(a: int, b: int): int { if a < b then a else b }

  function Concat<T>(parts: seq<seq<T>>): seq<T> {
    if parts == [] then [] else parts[0] + Concat(parts[1..])
  }

  lemma Associate<T>(a: seq<T>, b: seq<T>, c: seq<T>)
    ensures a + b + c == a + (b + c)
  {
  }

  lemma {:induction false} ConcatAppend<T>(a: seq<seq<T>>, b: seq<seq<T>>)
    ensures Concat(a + b) == Concat(a) + Concat(b)
  {
    if a == [] {
      assert a + b == b;
    } else {
      ConcatAppend(a[1..], b);
      assert (a + b)[0] == a[0] && (a + b)[1..] == a[1..] + b;
      Associate(a[0], Concat(a[1..]), Concat(b));
    }
  }

  lemma ConcatSnoc<T>(a: seq<seq<T>>, x: seq<T>)
    ensures Concat(a + [x]) == Concat(a) + x
  {
    ConcatAppend(a, [x]);
    assert Concat([x]) == x + Concat([]);
  }

  /** The newest `n` elements. */
  function LastN<T>(s: seq<T>, n: nat): (r: seq<T>)
    ensures |r| == Min(|s|, n)
  {
    if |s| <= n then s else s[|s| - n..]
  }

  /** `millis()` at unbounded time `t`. */
  function Millis(t: nat): (m: nat)
    ensures m < WORD
  {
    t % WORD
  }

  /** Unsigned 32-bit subtraction. */
  function Since(now: int, start: int): (d: nat)
    ensures d < WORD
  {
    (now - start) % WORD
  }

  /** The subtraction of two clock readings is the elapsed time, across any number of wraps,
      exactly when less than one full clock period has passed. */
  lemma SinceIsElapsed(start: nat, now: nat)
    requires start <= now
    ensures Since(Millis(now), Millis(start)) == now - start <==> now - start < 0x1_0000_0000
    ensures Since(Millis(now), Millis(start)) == (now - start) % 0x1_0000_0000
  {
    var a, b := now / WORD, start / WORD;
    assert Millis(now) - Millis(start) == (now - start) - (a - b) * WORD;
    ModShift(now - start, -(a - b));
  }

  lemma ModShift(x: int, k: int)
    ensures (x + k * WORD) % WORD == x % WORD
  {
  }

  /** Copies `s` into `buf` at `off`; the `memcpy` of the packet builders. */
  method Put(buf: array<byte>, off: nat, s: seq<byte>) returns (next: nat)
    requires off + |s| <= buf.Length
    modifies buf
    ensures next == off + |s|
    ensures buf[..next] == old(buf[..off]) + s
    ensures buf[next..] == old(buf[next..])
  {
    next := off + |s|;
    forall i | 0 <= i < |s| {
      buf[off + i] := s[i];
    }
  }
}
