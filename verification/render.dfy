/** to_string (bigint.hpp:555-585): the magnitude is cut into base-10^9
    groups by repeated division, each group printed as nine zero-padded
    digits in front of the text so far, leading zeros stripped, and a sign
    prepended. */
module Render {
  import opened Arith
  import opened Limbs
  import opened Value
  import opened Compare
  import opened AddSub
  import opened Multiply
  import opened Divide
  import opened Decimal

  /** The group size of to_string: 10^9, printed nine digits at a time. */
  const Billion: nat := 1_000_000_000

  lemma BillionPower()
    ensures Pow(10, 9) == Billion
  {
    assert Pow(10, 3) == 1000;
    PowAdd(10, 3, 3);
    PowAdd(10, 6, 3);
  }

  /** The groups loop: while tmp > 0, the remainder of tmp by 10^9 goes in
      front of the text (here: after the text of the quotient) as nine
      digits, and tmp becomes the quotient. */
  function Groups(tmp: BigInt): (s: string)
    requires !tmp.nan && IntVal(tmp) >= 0
    ensures AllDigits(s) && DecVal(s) == IntVal(tmp)
    ensures s == "" <==> IntVal(tmp) == 0
    decreases IntVal(tmp)
  {
    if !Gt(tmp, FromI32(0)) then ""
    else
      var q := Div(tmp, FromI32(1000000000));
      var r := Sub(tmp, Mul(q, FromI32(1000000000)));
      GroupSplit(tmp, q, r);
      var head := Groups(q);
      var group := PadDigits(r.digits[0], 9);
      GroupPrepend(head, group, IntVal(tmp), IntVal(q), r.digits[0]);
      head + group
  }

  /** The text of the quotient followed by the nine digits of the remainder
      reads as the whole. */
  lemma GroupPrepend(head: string, group: string, n: int, qv: int, rv: nat)
    requires AllDigits(head) && DecVal(head) == qv
    requires rv < Billion && group == PadDigits(rv, 9)
    requires n == qv * Billion + rv
    ensures AllDigits(head + group) && DecVal(head + group) == n
  {
    BillionPower();
    DecValAppend(head, group);
  }

  /** One turn of the groups loop in values: q is tmp / 10^9, and r, the
      remainder, is a single limb below 10^9. */
  lemma GroupSplit(tmp: BigInt, q: BigInt, r: BigInt)
    requires !tmp.nan && IntVal(tmp) > 0
    requires q == Div(tmp, FromI32(1000000000))
    requires r == Sub(tmp, Mul(q, FromI32(1000000000)))
    ensures !q.nan && 0 <= IntVal(q) < IntVal(tmp)
    ensures !r.nan && |r.digits| == 1 && r.digits[0] == IntVal(r) < Billion
    ensures IntVal(tmp) == IntVal(q) * Billion + IntVal(r)
  {
    var n := IntVal(tmp);
    DivBelow(n, Billion, n);
    assert IntVal(q) == n / Billion;
    NormalizedSign(r);
    CanonicalSmall(r.digits);
  }

  /** The digits of |x| as to_string prints them: the groups, "0" when there
      are none, with leading zeros stripped. */
  function MagnitudeText(x: BigInt): (s: string)
    requires !x.nan
    ensures s == DecimalOf(Mag(x))
  {
    var groups := Groups(Abs(x));
    var result := if |groups| == 0 then "0" else groups;
    assert AllDigits(result) && DecVal(result) == Mag(x);
    var t := StripZeros(result);
    CanonicalDecimal(t);
    t
  }

  /** to_string with the sign read from the normalised value, so a negative
      zero prints as "0". */
  function ToString(x: BigInt): (s: string)
    ensures x.nan ==> s == "NaN"
    ensures !x.nan ==> s == (if IntVal(x) < 0 then "-" else "") + DecimalOf(Mag(x))
  {
    if x.nan then "NaN"
    else
      NormalizedSign(Normalize(x));
      (if Normalize(x).minus then "-" else "") + MagnitudeText(x)
  }

  /** to_string exactly as written: the sign is the raw `minus` flag. */
  function ToStringAsWritten(x: BigInt): (s: string)
    ensures x.nan ==> s == "NaN"
    ensures !x.nan ==> s == (if x.minus then "-" else "") + DecimalOf(Mag(x))
  {
    if x.nan then "NaN"
    else (if x.minus then "-" else "") + MagnitudeText(x)
  }

  /** The written to_string agrees with the corrected one except on a
      negative zero. */
  lemma ToStringAsWrittenAgrees(x: BigInt)
    requires !(x.minus && Mag(x) == 0)
    ensures ToStringAsWritten(x) == ToString(x)
  {
  }

  /** Counterexample: (-BigInt(0)).to_string() is "-0" as written. */
  lemma ToStringAsWrittenNegZero()
    ensures IntVal(Neg(Zeroize())) == 0
    ensures ToStringAsWritten(Neg(Zeroize())) == "-0"
    ensures ToString(Neg(Zeroize())) == "0"
  {
    ValSingle(0);
    assert DecimalOf(0) == "0";
  }
}
