/** The CRC-16/MODBUS checksum, over byte strings, print sinks and chunked file reads. */
module Crc16 {
  import opened Bytes

  type Octet = bv8

  /** The checksum register. */
  datatype Reg = Reg(w: bv16)

  const SEED := Reg(0xFFFF)
  const ZERO := Reg(0)
  const POLY := Reg(0xA001)
  const READ_CHUNK := 128

  function Xor(a: Reg, b: Reg): Reg { Reg(a.w ^ b.w) }

  function Low(a: Reg): Reg { Reg(a.w & 1) }

  function Rest(a: Reg): Reg { Reg(a.w >> 1) }

  predicate Odd(a: Reg) { a.w & 1 == 1 }

  function Wide(b: Octet): Reg { Reg(b as bv16) }

  /** One bit of the reflected division by 0x8005. */
  function Shift(crc: Reg): Reg { if Odd(crc) then Xor(Rest(crc), POLY) else Rest(crc) }

  function ShiftN(crc: Reg, n: nat): Reg
    decreases n
  {
    if n == 0 then crc else ShiftN(Shift(crc), n - 1)
  }

  /** Kept symbolic so that eight shifts are not unrolled at once. */
  function OctetBits(): nat { 8 }

  function Next(crc: Reg, b: Octet): Reg { ShiftN(Xor(crc, Wide(b)), OctetBits()) }

  function Feed(crc: Reg, data: seq<Octet>): Reg
    decreases |data|
  {
    if data == [] then crc else Feed(Next(crc, data[0]), data[1..])
  }

  function Crc(data: seq<Octet>): Reg { Feed(SEED, data) }

  lemma {:induction false} FeedAppend(crc: Reg, a: seq<Octet>, b: seq<Octet>)
    ensures Feed(crc, a + b) == Feed(Feed(crc, a), b)
    decreases |a|
  {
    hide Next;
    if a == [] {
      assert a + b == b;
    } else {
      assert (a + b)[1..] == a[1..] + b;
      FeedAppend(Next(crc, a[0]), a[1..], b);
    }
  }

  // ---- Against the bit-serial definition -----------------------------------

  /** The textbook shift register: one message bit at a time, lowest bit first. */
  function Serial(crc: Reg, bit: Reg): Reg {
    if Odd(Xor(crc, bit)) then Xor(Rest(crc), POLY) else Rest(crc)
  }

  function SerialN(crc: Reg, bits: Reg, n: nat): Reg
    decreases n
  {
    if n == 0 then crc else SerialN(Serial(crc, Low(bits)), Rest(bits), n - 1)
  }

  function SerialCrc(crc: Reg, data: seq<Octet>): Reg
    decreases |data|
  {
    if data == [] then crc else SerialCrc(SerialN(crc, Wide(data[0]), OctetBits()), data[1..])
  }

  lemma ShiftIsSerial(crc: Reg, bits: Reg)
    ensures Shift(Xor(crc, bits)) == Xor(Serial(crc, Low(bits)), Rest(bits))
  {
    hide Xor, Low, Rest, Odd;
    OddXor(crc, bits);
    RestXor(crc, bits);
    XorSwaps(Rest(crc), Rest(bits));
  }

  lemma OddXor(c: Reg, b: Reg)
    ensures Odd(Xor(c, b)) == Odd(Xor(c, Low(b)))
  {
  }

  lemma RestXor(c: Reg, b: Reg)
    ensures Rest(Xor(c, b)) == Xor(Rest(c), Rest(b))
  {
  }

  lemma XorSwaps(a: Reg, b: Reg)
    ensures Xor(Xor(a, b), POLY) == Xor(Xor(a, POLY), b)
  {
  }

  function Drop(bits: Reg, n: nat): Reg
    decreases n
  {
    if n == 0 then bits else Drop(Rest(bits), n - 1)
  }

  lemma {:induction false} ShiftsAreSerial(crc: Reg, bits: Reg, n: nat)
    ensures ShiftN(Xor(crc, bits), n) == Xor(SerialN(crc, bits, n), Drop(bits, n))
    decreases n
  {
    hide Shift, Serial, Xor, Low, Rest;
    if n > 0 {
      ShiftIsSerial(crc, bits);
      ShiftsAreSerial(Serial(crc, Low(bits)), Rest(bits), n - 1);
    }
  }

  lemma XorZero(x: Reg)
    ensures Xor(x, ZERO) == x
  {
  }

  lemma EightRests(b: Octet)
    ensures Rest(Rest(Rest(Rest(Rest(Rest(Rest(Rest(Wide(b))))))))) == ZERO
  {
  }

  lemma OctetIsSpent(b: Octet)
    ensures Drop(Wide(b), OctetBits()) == ZERO
  {
    hide Rest, Wide;
    EightRests(b);
    var b2 := Rest(Rest(Wide(b)));
    var b4 := Rest(Rest(b2));
    var b6 := Rest(Rest(b4));
    assert Drop(Wide(b), 8) == Drop(b2, 6);
    assert Drop(b2, 6) == Drop(b4, 4);
    assert Drop(b4, 4) == Drop(b6, 2);
    assert Drop(b6, 2) == Drop(Rest(Rest(b6)), 0);
  }

  /** The byte-wise loop computes the bit-serial checksum of the message. */
  lemma {:induction false} CrcIsSerial(crc: Reg, data: seq<Octet>)
    ensures Feed(crc, data) == SerialCrc(crc, data)
    decreases |data|
  {
    if data != [] {
      hide ShiftN, SerialN, Drop, Xor, Wide;
      var b := data[0];
      ShiftsAreSerial(crc, Wide(b), OctetBits());
      OctetIsSpent(b);
      XorZero(SerialN(crc, Wide(b), OctetBits()));
      CrcIsSerial(Next(crc, data[0]), data[1..]);
    }
  }

  // ---- Error detection -----------------------------------------------------

  lemma ShiftIsInjective(x: Reg, y: Reg)
    requires Shift(x) == Shift(y)
    ensures x == y
  {
  }

  lemma {:induction false} ShiftsAreInjective(x: Reg, y: Reg, n: nat)
    requires ShiftN(x, n) == ShiftN(y, n)
    ensures x == y
    decreases n
  {
    hide Shift;
    if n > 0 {
      ShiftsAreInjective(Shift(x), Shift(y), n - 1);
      ShiftIsInjective(x, y);
    }
  }

  lemma XorCancels(crc: Reg, a: Octet, b: Octet)
    requires Xor(crc, Wide(a)) == Xor(crc, Wide(b))
    ensures a == b
  {
  }

  lemma XorCancelsRight(a: Reg, b: Reg, x: Reg)
    requires Xor(a, x) == Xor(b, x)
    ensures a == b
  {
  }

  lemma {:induction false} FeedIsInjective(x: Reg, y: Reg, data: seq<Octet>)
    requires Feed(x, data) == Feed(y, data)
    ensures x == y
    decreases |data|
  {
    hide ShiftN, Xor, Wide;
    if data != [] {
      var w := Wide(data[0]);
      FeedIsInjective(Next(x, data[0]), Next(y, data[0]), data[1..]);
      ShiftsAreInjective(Xor(x, w), Xor(y, w), OctetBits());
      XorCancelsRight(x, y, w);
    }
  }

  /** Changing any one byte of a message changes its checksum. */
  lemma SingleByteErrorsShow(before: seq<Octet>, a: Octet, b: Octet, after: seq<Octet>)
    requires a != b
    ensures Crc(before + [a] + after) != Crc(before + [b] + after)
  {
    hide ShiftN, Xor, Wide, Feed;
    FeedAppend(SEED, before + [a], after);
    FeedAppend(SEED, before + [b], after);
    FeedAppend(SEED, before, [a]);
    FeedAppend(SEED, before, [b]);
    var crc := Feed(SEED, before);
    FeedOne(crc, a);
    FeedOne(crc, b);
    if Crc(before + [a] + after) == Crc(before + [b] + after) {
      FeedIsInjective(Next(crc, a), Next(crc, b), after);
      ShiftsAreInjective(Xor(crc, Wide(a)), Xor(crc, Wide(b)), OctetBits());
      XorCancels(crc, a, b);
    }
  }

  lemma FeedOne(crc: Reg, b: Octet)
    ensures Feed(crc, [b]) == Next(crc, b)
  {
    hide Next;
    assert [b][1..] == [];
  }

  // ---- The check value -----------------------------------------------------

  /** Eight shifts by their intermediate registers, four at a time. */
  lemma EightShifts(crc: Reg, b: Octet, m: Reg, r: Reg)
    requires Shift(Shift(Shift(Shift(Xor(crc, Wide(b)))))) == m && Shift(Shift(Shift(Shift(m)))) == r
    ensures Feed(crc, [b]) == r
  {
    FeedOne(crc, b);
    var x := Xor(crc, Wide(b));
    hide Shift, Xor, Wide, Feed;
    assert ShiftN(x, 8) == ShiftN(Shift(Shift(x)), 6);
    assert ShiftN(Shift(Shift(x)), 6) == ShiftN(m, 4);
    assert ShiftN(m, 4) == ShiftN(Shift(Shift(m)), 2);
    assert ShiftN(Shift(Shift(m)), 2) == ShiftN(r, 0);
  }

  /** The check value of CRC-16/MODBUS: the checksum of the digits 1 to 9 is 0x4B37. */
  lemma CheckValue()
    ensures Crc([0x31, 0x32, 0x33, 0x34, 0x35, 0x36, 0x37, 0x38, 0x39]) == Reg(0x4B37)
    ensures Crc([]) == Reg(0xFFFF)
  {
    EightShifts(Reg(0xFFFF), 0x31, Reg(0x87FD), Reg(0x947E));
    EightShifts(Reg(0x947E), 0x32, Reg(0x5944), Reg(0xF595));
    EightShifts(Reg(0xF595), 0x33, Reg(0x275A), Reg(0x7A75));
    EightShifts(Reg(0x7A75), 0x34, Reg(0xCBA5), Reg(0x30BA));
    EightShifts(Reg(0x30BA), 0x35, Reg(0x4708), Reg(0xA471));
    EightShifts(Reg(0xA471), 0x36, Reg(0xEE45), Reg(0x32E4));
    EightShifts(Reg(0x32E4), 0x37, Reg(0x172D), Reg(0x9D73));
    EightShifts(Reg(0x9D73), 0x38, Reg(0xBDD5), Reg(0x37DD));
    EightShifts(Reg(0x37DD), 0x39, Reg(0xF37F), Reg(0x4B37));
    hide Shift, Feed;
    FeedAppend(SEED, [0x31], [0x32]);
    FeedAppend(SEED, [0x31, 0x32], [0x33]);
    FeedAppend(SEED, [0x31, 0x32, 0x33], [0x34]);
    FeedAppend(SEED, [0x31, 0x32, 0x33, 0x34], [0x35]);
    FeedAppend(SEED, [0x31, 0x32, 0x33, 0x34, 0x35], [0x36]);
    FeedAppend(SEED, [0x31, 0x32, 0x33, 0x34, 0x35, 0x36], [0x37]);
    FeedAppend(SEED, [0x31, 0x32, 0x33, 0x34, 0x35, 0x36, 0x37], [0x38]);
    FeedAppend(SEED, [0x31, 0x32, 0x33, 0x34, 0x35, 0x36, 0x37, 0x38], [0x39]);
  }

  // ---- The code ------------------------------------------------------------

  method CrcNext(crc0: Reg, b: Octet) returns (crc: Reg)
    ensures crc == Next(crc0, b)
  {
    hide Xor, Wide, Rest, Odd;
    crc := Xor(crc0, Wide(b));
    for j := 0 to 8
      invariant ShiftN(crc, 8 - j) == Next(crc0, b)
    {
      if Odd(crc) {
        crc := Xor(Rest(crc), POLY);
      } else {
        crc := Rest(crc);
      }
    }
  }

  method FeedBytes(crc0: Reg, data: seq<Octet>) returns (crc: Reg)
    ensures crc == Feed(crc0, data)
  {
    hide Next;
    crc := crc0;
    for i := 0 to |data|
      invariant Feed(crc, data[i..]) == Feed(crc0, data)
    {
      assert data[i..][0] == data[i] && data[i..][1..] == data[i + 1..];
      crc := CrcNext(crc, data[i]);
    }
  }

  /** Reads the file in chunks; the k-th read returns at most `sizes[k]` bytes, and an empty one ends the loop. */
  method StreamFile(content: seq<Octet>, sizes: seq<nat>) returns (crc: Reg, pos: nat)
    ensures pos <= |content| && crc == Crc(content[..pos])
    ensures pos < |content| ==> |sizes| < |content| || 0 in sizes
  {
    hide Feed;
    crc, pos := SEED, 0;
    var k := 0;
    assert Feed(SEED, content[..0]) == SEED by { FeedNone(content[..0]); }
    while pos < |content|
      invariant k <= |sizes| && k <= pos <= |content|
      invariant crc == Feed(SEED, content[..pos])
      decreases |sizes| - k
    {
      var n := if k < |sizes| then Min(Min(sizes[k], READ_CHUNK), |content| - pos) else 0;
      if n <= 0 {
        break;
      }
      FeedAppend(SEED, content[..pos], content[pos..pos + n]);
      assert content[..pos + n] == content[..pos] + content[pos..pos + n];
      crc := FeedBytes(crc, content[pos..pos + n]);
      pos, k := pos + n, k + 1;
    }
  }

  lemma FeedNone(none: seq<Octet>)
    requires none == []
    ensures Feed(SEED, none) == SEED
  {
  }

  /** Sums up everything printed to it. */
  class CrcSink {
    var crc: Reg
    var len: nat
    ghost var printed: seq<Octet>

    ghost predicate Valid()
      reads this
    {
      crc == Crc(printed) && len == |printed|
    }

    constructor ()
      ensures Valid() && printed == []
    {
      crc, len, printed := SEED, 0, [];
    }

    method Write(b: Octet) returns (n: nat)
      requires Valid()
      modifies this
      ensures Valid() && printed == old(printed) + [b] && n == 1
    {
      hide Feed, Next;
      FeedAppend(SEED, printed, [b]);
      FeedOne(crc, b);
      crc := CrcNext(crc, b);
      len, printed, n := len + 1, printed + [b], 1;
    }

    method WriteBuffer(buffer: seq<Octet>) returns (n: nat)
      requires Valid()
      modifies this
      ensures Valid() && printed == old(printed) + buffer && n == |buffer|
    {
      hide Feed;
      if |buffer| == 0 {
        return 0;
      }
      FeedAppend(SEED, printed, buffer);
      crc := FeedBytes(crc, buffer);
      len, printed, n := len + |buffer|, printed + buffer, |buffer|;
    }
  }

  /** `crc16SerializedBaseConfig`: the checksum and length of a document printed in any pieces are those of the whole,
      so the checksum is that of the same document read back from its file in any chunks. */
  method Crc16Serialized(pieces: seq<seq<Octet>>) returns (crc: Reg, len: nat)
    ensures crc == Crc(Concat(pieces)) && len == |Concat(pieces)|
  {
    hide Crc;
    var sink := new CrcSink();
    for i := 0 to |pieces|
      invariant fresh(sink) && sink.Valid() && sink.printed == Concat(pieces[..i])
    {
      ConcatSnoc(pieces[..i], pieces[i]);
      assert pieces[..i + 1] == pieces[..i] + [pieces[i]];
      var n := sink.WriteBuffer(pieces[i]);
    }
    assert pieces[..|pieces|] == pieces;
    crc, len := sink.crc, sink.len;
  }
}
