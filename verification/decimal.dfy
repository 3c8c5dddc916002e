/** Decimal digit strings: the reading of a string of '0'..'9' as a natural
    number, the canonical decimal of a number, and the stripping of leading
    zeros that to_string performs (bigint.hpp:578-581). */
module Decimal {
  import opened Arith

  predicate IsDigit(c: char) {
    '0' <= c <= '9'
  }

  function DigitValue(c: char): (d: nat)
    requires IsDigit(c)
    ensures d < 10
  {
    (c as int) - ('0' as int)
  }

  function DigitChar(d: nat): (c: char)
    requires d < 10
    ensures IsDigit(c) && DigitValue(c) == d
  {
    (('0' as int) + d) as char
  }

  predicate AllDigits(s: string) {
    forall i :: 0 <= i < |s| ==> IsDigit(s[i])
  }

  /** The number a digit string spells, most significant digit first; the
      empty string spells 0. */
  function DecVal(s: string): nat
    requires AllDigits(s)
    decreases |s|
  {
    if |s| == 0 then 0 else 10 * DecVal(s[..|s| - 1]) + DigitValue(s[|s| - 1])
  }

  /** A string with no superfluous leading zero: "0" itself, or a nonzero
      leading digit. */
  predicate NoLeadingZero(s: string) {
    |s| > 0 && (s[0] != '0' || |s| == 1)
  }

  /** The canonical decimal of n. */
  function DecimalOf(n: nat): (s: string)
    ensures AllDigits(s) && NoLeadingZero(s)
    ensures DecVal(s) == n
    decreases n
  {
    if n < 10 then [DigitChar(n)]
    else
      var hd := DecimalOf(n / 10);
      var s := hd + [DigitChar(n % 10)];
      assert s[..|s| - 1] == hd;
      s
  }

  /** Exactly k digits, zero-padded on the left: what `std::setw(k)` with
      `std::setfill('0')` prints for an n below 10^k. */
  function PadDigits(n: nat, k: nat): (s: string)
    ensures |s| == k && AllDigits(s)
    ensures n < Pow(10, k) ==> DecVal(s) == n
    decreases k
  {
    if k == 0 then ""
    else
      var hd := PadDigits(n / 10, k - 1);
      var s := hd + [DigitChar(n % 10)];
      assert s[..|s| - 1] == hd;
      PadStep(n, k);
      s
  }

  lemma PadStep(n: nat, k: nat)
    requires k > 0
    ensures n < Pow(10, k) ==> n / 10 < Pow(10, k - 1)
  {
    if n < Pow(10, k) {
      DivBelow(n, 10, Pow(10, k - 1));
    }
  }

  /** The leading-zero loop of to_string: drop a leading '0' while more than
      one character is left. */
  function StripZeros(s: string): (t: string)
    ensures |s| > 0 ==> NoLeadingZero(t)
    ensures AllDigits(s) ==> AllDigits(t) && DecVal(t) == DecVal(s)
    decreases |s|
  {
    if |s| > 1 && s[0] == '0' then
      ZeroPrefix(s);
      StripZeros(s[1..])
    else s
  }

  /** A leading '0' adds nothing to the value. */
  lemma ZeroPrefix(s: string)
    requires |s| > 0 && s[0] == '0'
    ensures AllDigits(s) ==> AllDigits(s[1..]) && DecVal(s[1..]) == DecVal(s)
  {
    if AllDigits(s) {
      assert s == [s[0]] + s[1..];
      DecValAppend([s[0]], s[1..]);
      assert [s[0]][..0] == [];
    }
  }

  /** Reading a concatenation: the left part is shifted up by the length of
      the right. */
  lemma {:induction false} DecValAppend(a: string, b: string)
    requires AllDigits(a) && AllDigits(b)
    ensures AllDigits(a + b)
    ensures DecVal(a + b) == DecVal(a) * Pow(10, |b|) + DecVal(b)
    decreases |b|
  {
    if |b| > 0 {
      var b' := b[..|b| - 1];
      DecValAppend(a, b');
      assert (a + b)[..|a + b| - 1] == a + b';
      assert (a + b)[|a + b| - 1] == b[|b| - 1];
      var d := DigitValue(b[|b| - 1]);
      assert DecVal(a + b) == 10 * DecVal(a + b') + d;
      assert DecVal(b) == 10 * DecVal(b') + d;
      assert Pow(10, |b|) == 10 * Pow(10, |b'|);
      ShiftDigit(DecVal(a), DecVal(b'), d, Pow(10, |b'|));
    } else {
      assert a + b == a;
    }
  }

  lemma ShiftDigit(x: int, y: int, d: int, p: int)
    ensures 10 * (x * p + y) + d == x * (10 * p) + (10 * y + d)
  {
    MulAssoc(10, x, p);
  }

  /** A digit string that reads as 0 is all zeros. */
  lemma {:induction false} ZeroValue(s: string)
    requires AllDigits(s) && DecVal(s) == 0
    ensures forall i :: 0 <= i < |s| ==> s[i] == '0'
    decreases |s|
  {
    if |s| > 0 {
      var s' := s[..|s| - 1];
      ZeroValue(s');
      assert forall i :: 0 <= i < |s| - 1 ==> s[i] == s'[i];
    }
  }

  /** The canonical decimal is the only digit string without a leading zero
      that spells its number. */
  lemma {:induction false} CanonicalDecimal(s: string)
    requires AllDigits(s) && NoLeadingZero(s)
    ensures s == DecimalOf(DecVal(s))
    decreases |s|
  {
    if |s| > 1 {
      var s', c := s[..|s| - 1], s[|s| - 1];
      LastDigit(s);
      if DecVal(s') == 0 {
        ZeroValue(s');
      }
      assert NoLeadingZero(s') by { assert s'[0] == s[0]; }
      CanonicalDecimal(s');
      DecimalStep(s', c, DecVal(s'));
    }
  }

  /** A string of two or more digits is its last digit appended to the rest,
      and reads as ten times the rest plus that digit. */
  lemma {:induction false} LastDigit(s: string)
    requires AllDigits(s) && |s| > 0
    ensures s == s[..|s| - 1] + [s[|s| - 1]]
    ensures DecVal(s) == 10 * DecVal(s[..|s| - 1]) + DigitValue(s[|s| - 1])
  {
  }

  /** Appending a digit to the canonical decimal of a positive number gives
      the canonical decimal of ten times it plus the digit. */
  lemma DecimalStep(s': string, c: char, v: nat)
    requires v > 0 && IsDigit(c) && s' == DecimalOf(v)
    ensures s' + [c] == DecimalOf(10 * v + DigitValue(c))
  {
    var d := DigitValue(c);
    DivUnique(10 * v + d, 10, v, d);
    assert DigitChar(d) == c;
  }
}
