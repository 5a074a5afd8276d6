/**
 Numbers written as strings: the value of a string of binary digits
 (what `int(s, 2)` computes) and the decimal rendering of an integer (what
 `str(i)` produces), with the facts about them the mask calculator needs.
 */
module Numerals {
  import opened Text

  function Pow2(e: nat): (r: nat)
    ensures r >= 1
  {
    if e == 0 then 1 else 2 * Pow2(e - 1)
  }

  lemma {:induction false} Pow2Add(a: nat, b: nat)
    ensures Pow2(a + b) == Pow2(a) * Pow2(b)
  {
    if b > 0 {
      Pow2Add(a, b - 1);
      assert Pow2(a + b) == 2 * Pow2(a + b - 1);
    }
  }

  /** Powers of two grow strictly with the exponent. */
  lemma {:induction false} Pow2Increasing(a: nat, b: nat)
    requires a < b
    ensures Pow2(a) < Pow2(b)
  {
    if a + 1 < b {
      Pow2Increasing(a, b - 1);
    }
  }

  lemma Pow2Eight()
    ensures Pow2(8) == 256
  {
    assert Pow2(4) == 16;
  }

  lemma Pow2ThirtyTwo()
    ensures Pow2(32) == 0x1_0000_0000
  {
    Pow2Eight();
    Pow2Add(8, 8);
    Pow2Add(16, 16);
  }

  /** Every exponent up to 32 gives at most 2^32. */
  lemma Pow2AtMostThirtyTwo(e: nat)
    requires e <= 32
    ensures Pow2(e) <= 0x1_0000_0000
  {
    Pow2ThirtyTwo();
    if e < 32 {
      Pow2Increasing(e, 32);
    }
  }

  /** The weights of the two middle octets of an IPv4 mask. */
  lemma Pow2MiddleOctets()
    ensures Pow2(16) == 0x1_0000
    ensures Pow2(24) == 0x100_0000
  {
    Pow2Eight();
    Pow2Add(8, 8);
    Pow2Add(16, 8);
  }

  // ---------------------------------------------------------------------
  // Binary

  predicate IsBit(c: char) { c == '0' || c == '1' }

  predicate IsBitString(s: string) { forall i :: 0 <= i < |s| ==> IsBit(s[i]) }

  function BitValue(c: char): nat { if c == '1' then 1 else 0 }

  /** The number that the binary digits `s` denote, most significant first. */
  function BinToNat(s: string): (r: nat)
    requires IsBitString(s)
    ensures r < Pow2(|s|)
  {
    if |s| == 0 then 0
    else 2 * BinToNat(s[..|s| - 1]) + BitValue(s[|s| - 1])
  }

  lemma DoubleProduct(x: int, p: int)
    ensures 2 * (x * p) == x * (2 * p)
  {
  }

  lemma PredecessorProduct(x: int, y: int)
    ensures (x - 1) * y == x * y - y
  {
  }

  /** Reading `a` then `b` shifts the value of `a` left by `|b|` places. */
  lemma {:induction false} BinToNatAppend(a: string, b: string)
    requires IsBitString(a) && IsBitString(b)
    ensures BinToNat(a + b) == BinToNat(a) * Pow2(|b|) + BinToNat(b)
    decreases |b|
  {
    if |b| > 0 {
      var b' := b[..|b| - 1];
      assert (a + b)[..|a + b| - 1] == a + b';
      BinToNatAppend(a, b');
      var x, p, d := BinToNat(a), Pow2(|b'|), BitValue(b[|b| - 1]);
      assert BinToNat(a + b) == 2 * BinToNat(a + b') + d;
      assert Pow2(|b|) == 2 * p;
      assert BinToNat(b) == 2 * BinToNat(b') + d;
      DoubleProduct(x, p);
      assert x * Pow2(|b|) == x * (2 * p);
    } else {
      assert a + b == a;
    }
  }

  /** `k` one-bits are worth 2^k - 1. */
  lemma {:induction false} BinToNatOnes(k: nat)
    ensures BinToNat(Repeat('1', k)) == Pow2(k) - 1
  {
    if k > 0 {
      assert Repeat('1', k)[..k - 1] == Repeat('1', k - 1);
      BinToNatOnes(k - 1);
    }
  }

  /** Any number of zero-bits is worth 0. */
  lemma {:induction false} BinToNatZeros(k: nat)
    ensures BinToNat(Repeat('0', k)) == 0
  {
    if k > 0 {
      assert Repeat('0', k)[..k - 1] == Repeat('0', k - 1);
      BinToNatZeros(k - 1);
    }
  }

  /** `m` one-bits followed by `z` zero-bits are worth 2^(m+z) - 2^z. */
  lemma OnesThenZeros(m: nat, z: nat)
    ensures BinToNat(Repeat('1', m) + Repeat('0', z)) == Pow2(m + z) - Pow2(z)
  {
    BinToNatAppend(Repeat('1', m), Repeat('0', z));
    BinToNatOnes(m);
    BinToNatZeros(z);
    Pow2Add(m, z);
    PredecessorProduct(Pow2(m), Pow2(z));
  }

  /** An eight-bit slice of `m` ones then zeros is worth 256 - 2^(8 - m). */
  lemma OctetOfOnes(m: nat)
    requires m <= 8
    ensures IsBitString(Repeat('1', m) + Repeat('0', 8 - m))
    ensures BinToNat(Repeat('1', m) + Repeat('0', 8 - m)) == 256 - Pow2(8 - m)
  {
    OnesThenZeros(m, 8 - m);
    Pow2Eight();
  }

  // ---------------------------------------------------------------------
  // Decimal

  predicate IsDigit(c: char) { '0' <= c <= '9' }

  predicate IsDigitString(s: string) { forall i :: 0 <= i < |s| ==> IsDigit(s[i]) }

  /** A decimal numeral as `str` writes a natural number: at least one
      digit, and no leading zero unless the number is zero itself. */
  predicate IsCanonicalDecimal(s: string)
  {
    |s| > 0 && IsDigitString(s) && (|s| > 1 ==> s[0] != '0')
  }

  function DigitChar(d: nat): (c: char)
    requires d < 10
    ensures IsDigit(c)
  {
    ('0' as int + d) as char
  }

  function DigitValue(c: char): (d: nat)
    requires IsDigit(c)
    ensures d < 10 && DigitChar(d) == c
  {
    c as int - '0' as int
  }

  /** The number that the decimal digits `s` denote, most significant first. */
  function DecimalValue(s: string): nat
    requires IsDigitString(s)
  {
    if |s| == 0 then 0
    else 10 * DecimalValue(s[..|s| - 1]) + DigitValue(s[|s| - 1])
  }

  /** The decimal rendering of `k`: a canonical numeral that reads back as `k`. */
  function NatToDecimal(k: nat): (r: string)
    ensures IsCanonicalDecimal(r)
    ensures DecimalValue(r) == k
    ensures r[0] == '0' <==> k == 0
  {
    if k < 10 then [DigitChar(k)]
    else
      var r := NatToDecimal(k / 10) + [DigitChar(k % 10)];
      assert r[..|r| - 1] == NatToDecimal(k / 10);
      r
  }

  /** A canonical numeral whose first digit is not 0 denotes a positive number. */
  lemma {:induction false} DecimalPositive(s: string)
    requires IsDigitString(s) && |s| > 0 && s[0] != '0'
    ensures DecimalValue(s) > 0
  {
    if |s| > 1 {
      DecimalPositive(s[..|s| - 1]);
    }
  }

  /** Every canonical numeral is the rendering of the number it denotes, so
      `NatToDecimal` and `DecimalValue` are inverse to each other. */
  lemma {:induction false} CanonicalDecimalUnique(s: string)
    requires IsCanonicalDecimal(s)
    ensures NatToDecimal(DecimalValue(s)) == s
  {
    if |s| > 1 {
      var p := s[..|s| - 1];
      DecimalPositive(p);
      CanonicalDecimalUnique(p);
      var k := DecimalValue(s);
      assert k / 10 == DecimalValue(p) && k % 10 == DigitValue(s[|s| - 1]);
      assert p + [s[|s| - 1]] == s;
    }
  }

  /** A numeral as `str` writes any integer: a canonical decimal numeral,
      or a minus sign before the canonical numeral of a positive number. */
  predicate IsIntString(s: string)
  {
    IsCanonicalDecimal(s) || (|s| > 1 && s[0] == '-' && IsCanonicalDecimal(s[1..]) && s[1] != '0')
  }

  /** The integer a signed numeral denotes. */
  function ParseInt(s: string): int
    requires IsIntString(s)
  {
    if s[0] == '-' then -(DecimalValue(s[1..]) as int) else DecimalValue(s)
  }

  /** `str` of any integer: a numeral that reads back as `i`. */
  function IntToString(i: int): (r: string)
    ensures IsIntString(r)
    ensures ParseInt(r) == i
    ensures (r[0] == '-') <==> i < 0
  {
    if i < 0 then
      var r := "-" + NatToDecimal(-i);
      assert r[1..] == NatToDecimal(-i);
      r
    else NatToDecimal(i)
  }

  /** Every signed numeral is the rendering of the integer it denotes. */
  lemma IntToStringParseInt(s: string)
    requires IsIntString(s)
    ensures IntToString(ParseInt(s)) == s
  {
    if s[0] == '-' {
      CanonicalDecimalUnique(s[1..]);
      DecimalPositive(s[1..]);
      assert "-" + s[1..] == s;
    } else {
      CanonicalDecimalUnique(s);
    }
  }
}
