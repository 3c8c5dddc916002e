/** BigInt(const std::string) (bigint.hpp:79-94): a leading '-' or '+' is
    skipped, a ',' anywhere after the first character is skipped, and every
    other character is handed to std::stoul, which accepts exactly the digits
    '0'..'9' and throws on anything else. Each digit multiplies the value so
    far by 10 and adds itself; the sign is set from the first character at
    the end. The throw is modelled as a ParseError carrying the index of the
    offending character. */
module Parse {
  import opened Value
  import opened AddSub
  import opened Multiply
  import opened Decimal

  /** The characters the loop skips: a sign in front, a comma after it. */
  predicate Skipped(s: string, i: nat)
    requires i < |s|
  {
    || (i == 0 && (s[0] == '-' || s[0] == '+'))
    || (i != 0 && s[i] == ',')
  }

  /** The characters the constructor accepts at position i. */
  predicate AllowedAt(s: string, i: nat)
    requires i < |s|
  {
    Skipped(s, i) || IsDigit(s[i])
  }

  /** The digits of s, in order, with every other character dropped. */
  function DigitsOnly(s: string): (d: string)
    ensures AllDigits(d)
    decreases |s|
  {
    if |s| == 0 then ""
    else
      var last := s[|s| - 1];
      DigitsOnly(s[..|s| - 1]) + (if IsDigit(last) then [last] else [])
  }

  /** The value the constructor gives an accepted string: the digits read as
      a decimal number, negated when the string starts with '-'. */
  function SignedValue(s: string): int {
    var v: int := DecVal(DigitsOnly(s));
    if |s| > 0 && s[0] == '-' then -v else v
  }

  /** The first position from i on whose character is not allowed, or |s|
      when there is none. */
  function FirstBad(s: string, i: nat): nat
    requires i <= |s|
    decreases |s| - i
  {
    if i == |s| then |s| else if !AllowedAt(s, i) then i else FirstBad(s, i + 1)
  }

  lemma {:induction false} FirstBadIsFirst(s: string, i: nat)
    requires i <= |s|
    ensures i <= FirstBad(s, i) <= |s|
    ensures FirstBad(s, i) < |s| ==> !AllowedAt(s, FirstBad(s, i))
    ensures forall j | i <= j < FirstBad(s, i) :: AllowedAt(s, j)
    decreases |s| - i
  {
    if i < |s| && AllowedAt(s, i) {
      FirstBadIsFirst(s, i + 1);
    }
  }

  /** acc holds the value of the digits of s before position i. */
  predicate Prefix(s: string, i: nat, acc: BigInt) {
    i <= |s| && Normalized(acc) && !acc.nan && IntVal(acc) == DecVal(DigitsOnly(s[..i]))
  }

  /** The character loop from position i on, with acc the value of the
      digits before i: it fails at the first character not allowed, and
      otherwise ends with the value of all the digits. */
  function ParseLoop(s: string, i: nat, acc: BigInt): (r: Result<BigInt>)
    requires Prefix(s, i, acc)
    ensures r.Ok? <==> FirstBad(s, i) == |s|
    ensures r.Fail? ==> r.fault == ParseError(FirstBad(s, i))
    ensures r.Ok? ==> Normalized(r.value) && !r.value.nan && IntVal(r.value) == DecVal(DigitsOnly(s))
    decreases |s| - i
  {
    if i == |s| then
      assert s[..i] == s;
      Ok(acc)
    else if Skipped(s, i) then
      SkipStep(s, i, acc);
      ParseLoop(s, i + 1, acc)
    else if !IsDigit(s[i]) then
      Fail(ParseError(i))
    else
      DigitStep(s, i, acc);
      ParseLoop(s, i + 1, PushDigit(acc, s[i]))
  }

  /** A skipped sign or comma is no digit: the value so far stands. */
  lemma SkipStep(s: string, i: nat, acc: BigInt)
    requires i < |s| && Prefix(s, i, acc) && Skipped(s, i)
    ensures Prefix(s, i + 1, acc)
  {
    DigitsOnlyStep(s, i);
  }

  /** A digit multiplies the value so far by ten and adds itself. */
  lemma DigitStep(s: string, i: nat, acc: BigInt)
    requires i < |s| && Prefix(s, i, acc) && IsDigit(s[i])
    ensures Prefix(s, i + 1, PushDigit(acc, s[i]))
  {
    DigitsOnlyStep(s, i);
    DecValSnoc(DigitsOnly(s[..i]), s[i]);
  }

  /** `*this *= BigInt(10); *this += BigInt(std::stoul(c))`: the value so far
      times ten plus the digit. */
  function PushDigit(acc: BigInt, c: char): (r: BigInt)
    requires IsDigit(c) && !acc.nan
    ensures Normalized(r) && !r.nan && IntVal(r) == 10 * IntVal(acc) + DigitValue(c)
  {
    Add(Mul(acc, FromI32(10)), FromU64(DigitValue(c)))
  }

  /** Extending the prefix by one character extends its digits by that
      character if it is a digit. */
  lemma DigitsOnlyStep(s: string, i: nat)
    requires i < |s|
    ensures IsDigit(s[i]) ==> DigitsOnly(s[..i + 1]) == DigitsOnly(s[..i]) + [s[i]]
    ensures !IsDigit(s[i]) ==> DigitsOnly(s[..i + 1]) == DigitsOnly(s[..i])
  {
    assert s[..i + 1][..i] == s[..i];
    assert DigitsOnly(s[..i]) + [] == DigitsOnly(s[..i]);
  }

  lemma DecValSnoc(d: string, c: char)
    requires AllDigits(d) && IsDigit(c)
    ensures AllDigits(d + [c]) && DecVal(d + [c]) == 10 * DecVal(d) + DigitValue(c)
  {
    assert (d + [c])[..|d|] == d;
  }

  /** BigInt(const std::string): the string is accepted exactly when every
      character is allowed where it stands; then the value is SignedValue(s),
      normalised, so "-0" and "" both give zero. Otherwise the error names the
      first character that is not allowed. */
  function FromString(s: string): (r: Result<BigInt>)
    ensures r.Ok? <==> forall j | 0 <= j < |s| :: AllowedAt(s, j)
    ensures r.Ok? ==> Normalized(r.value) && !r.value.nan && IntVal(r.value) == SignedValue(s)
    ensures r.Fail? ==> r.fault.ParseError? && r.fault.index < |s| && !AllowedAt(s, r.fault.index)
    ensures r.Fail? ==> forall j | 0 <= j < r.fault.index :: AllowedAt(s, j)
  {
    assert s[..0] == [];
    assert Prefix(s, 0, Zeroize());
    FirstBadIsFirst(s, 0);
    match ParseLoop(s, 0, Zeroize())
    case Fail(e) => Fail(e)
    case Ok(v) =>
      NormalizedSign(v);
      Ok(Normalize(v.(minus := |s| > 0 && s[0] == '-')))
  }
}
