/** Printing and parsing of numbers the way `Print` and the C library do it. */
module Numbers {
  import opened Bytes

  predicate IsSpace(c: char) { c in {' ', '\t', '\n', 11 as char, 12 as char, '\r'} }

  predicate IsDigit(c: char) { '0' <= c <= '9' }

  function SkipWs(s: string): (r: string)
    ensures |r| <= |s| && (r != [] ==> !IsSpace(r[0]))
  {
    if s != [] && IsSpace(s[0]) then SkipWs(s[1..]) else s
  }

  function DigitRun(s: string): (n: nat)
    ensures n <= |s|
  {
    if s != [] && IsDigit(s[0]) then 1 + DigitRun(s[1..]) else 0
  }

  function Value(s: string): nat {
    if s == [] then 0 else 10 * Value(s[..|s| - 1]) + (if IsDigit(s[|s| - 1]) then (s[|s| - 1] - '0') as nat else 0)
  }

  /** `strtoul` on the whole of a nonempty string, or nothing when it stops early: leading spaces, a sign, digits;
      too large a magnitude saturates and a minus sign negates in 32 bits. */
  function StrToUL(v: string): Option<nat> {
    var s := SkipWs(v);
    var digits := if s != [] && s[0] in {'+', '-'} then s[1..] else s;
    if digits == [] || DigitRun(digits) < |digits| then None
    else
      var m := Value(digits);
      Some(if m >= WORD then WORD - 1 else if s[0] == '-' then (WORD - m) % WORD else m)
  }

  function Decimal(n: nat): (s: string)
    ensures s != []
  {
    if n < 10 then ['0' + n as char] else Decimal(n / 10) + ['0' + (n % 10) as char]
  }

  lemma {:induction false} DecimalValue(n: nat)
    ensures Value(Decimal(n)) == n
    ensures forall i | 0 <= i < |Decimal(n)| :: IsDigit(Decimal(n)[i])
  {
    if n < 10 {
      assert Decimal(n)[..0] == [];
    } else {
      DecimalValue(n / 10);
      assert Decimal(n)[..|Decimal(n)| - 1] == Decimal(n / 10);
    }
  }

  lemma {:induction false} AllDigits(s: string)
    requires forall i | 0 <= i < |s| :: IsDigit(s[i])
    ensures DigitRun(s) == |s|
  {
    if s != [] {
      AllDigits(s[1..]);
    }
  }

  /** A printed 32-bit number reads back as itself. */
  lemma ReadsPrinted(n: nat)
    requires n < WORD
    ensures StrToUL(Decimal(n)) == Some(n)
  {
    DecimalValue(n);
    AllDigits(Decimal(n));
    assert SkipWs(Decimal(n)) == Decimal(n) by { assert IsDigit(Decimal(n)[0]); }
  }

  // ---- Hundredths ----------------------------------------------------------

  function Digit(n: nat): char
    requires n < 10
  {
    '0' + n as char
  }

  /** `Print` of a float: two decimals. */
  function FixedText(h: int): (s: string)
    ensures s != []
  {
    var a := if h < 0 then -h else h;
    (if h < 0 then "-" else "") + (Decimal(a / 100) + ['.', Digit(a / 10 % 10), Digit(a % 10)])
  }

  /** `strtof` in hundredths, on the texts that `Print` produces. */
  function ReadFixed(v: string): int {
    var t := if v != [] && v[0] == '-' then v[1..] else v;
    var n := |t| - 3;
    if n < 1 || t[n] != '.' || DigitRun(t[..n]) < n || !IsDigit(t[n + 1]) || !IsDigit(t[n + 2]) then 0
    else
      var a := Value(t[..n]) * 100 + ((t[n + 1] - '0') as nat) * 10 + (t[n + 2] - '0') as nat;
      if v[0] == '-' then -a else a
  }

  lemma Hundredths(a: nat)
    ensures a == a / 100 * 100 + a / 10 % 10 * 10 + a % 10
  {
    var t, o := a / 10, a % 10;
    var h, d := t / 10, t % 10;
    assert a == 10 * t + o && t == 10 * h + d;
    assert 100 * h <= a < 100 * h + 100;
    assert a / 100 == h;
  }

  lemma DigitReads(d: nat)
    requires d < 10
    ensures IsDigit(Digit(d)) && (Digit(d) - '0') as nat == d && Digit(d) != '.'
  {
  }

  /** Hundredths survive printing and reading. */
  lemma ReadsFixed(h: int)
    ensures ReadFixed(FixedText(h)) == h
  {
    hide Decimal, Value, DigitRun, Digit;
    var a := if h < 0 then -h else h;
    var whole, tens, ones := Decimal(a / 100), a / 10 % 10, a % 10;
    var t := whole + ['.', Digit(tens), Digit(ones)];
    DecimalValue(a / 100);
    AllDigits(whole);
    DigitReads(tens);
    DigitReads(ones);
    assert t[..|t| - 3] == whole;
    assert t[0] == whole[0] && IsDigit(whole[0]);
    assert FixedText(h) == if h < 0 then ['-'] + t else t;
    assert h < 0 ==> (['-'] + t)[1..] == t;
    Hundredths(a);
  }
}
