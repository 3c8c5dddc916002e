/** The laws the operators keep as a whole: they compute integer arithmetic
    on normalised values, so the ring laws hold as equalities of BigInt
    values; NaN absorbs; / and % agree with Python's floor semantics; and
    printing then parsing gives back the normalised value. */
module Laws {
  import opened Arith
  import opened Limbs
  import opened Value
  import opened Compare
  import opened AddSub
  import opened Multiply
  import opened Divide
  import opened Decimal
  import opened Parse
  import opened Render

  /** Two normalised results that agree on NaN-ness and on the integer they
      stand for are the same value. */
  lemma SameResult(a: BigInt, b: BigInt)
    requires Normalized(a) && Normalized(b) && a.nan == b.nan
    requires !a.nan ==> IntVal(a) == IntVal(b)
    ensures a == b
  {
    if !a.nan {
      NormalizedUnique(a, b);
    }
  }

  lemma AddCommutes(a: BigInt, b: BigInt)
    ensures Add(a, b) == Add(b, a)
  {
    SameResult(Add(a, b), Add(b, a));
  }

  lemma AddAssociates(a: BigInt, b: BigInt, c: BigInt)
    ensures Add(Add(a, b), c) == Add(a, Add(b, c))
  {
    SameResult(Add(Add(a, b), c), Add(a, Add(b, c)));
  }

  lemma MulCommutes(a: BigInt, b: BigInt)
    ensures Mul(a, b) == Mul(b, a)
  {
    SameResult(Mul(a, b), Mul(b, a));
  }

  lemma MulAssociates(a: BigInt, b: BigInt, c: BigInt)
    ensures Mul(Mul(a, b), c) == Mul(a, Mul(b, c))
  {
    var l, r := Mul(Mul(a, b), c), Mul(a, Mul(b, c));
    if !l.nan {
      MulAssoc(IntVal(a), IntVal(b), IntVal(c));
    }
    SameResult(l, r);
  }

  lemma MulDistributes(a: BigInt, b: BigInt, c: BigInt)
    ensures Mul(a, Add(b, c)) == Add(Mul(a, b), Mul(a, c))
  {
    var l, r := Mul(a, Add(b, c)), Add(Mul(a, b), Mul(a, c));
    if !l.nan {
      Distribute(IntVal(a), IntVal(b), IntVal(c), IntVal(Add(b, c)), IntVal(l), IntVal(Mul(a, b)), IntVal(Mul(a, c)));
    }
    SameResult(l, r);
  }

  lemma Distribute(x: int, y: int, z: int, s: int, p: int, u: int, v: int)
    requires s == y + z && p == x * s && u == x * y && v == x * z
    ensures p == u + v
  {
  }

  /** a - a is the normalised zero for every non-NaN a, a negative zero included. */
  lemma SubSelf(a: BigInt)
    requires !a.nan
    ensures Sub(a, a) == Zeroize()
  {
    SameResult(Sub(a, a), Zeroize());
  }

  /** NaN in, NaN out, for every arithmetic operator; a zero divisor also
      gives NaN. */
  lemma NaNAbsorbs(x: BigInt)
    ensures Add(NaN(), x) == NaN() && Add(x, NaN()) == NaN()
    ensures Sub(NaN(), x) == NaN() && Sub(x, NaN()) == NaN()
    ensures Mul(NaN(), x) == NaN() && Mul(x, NaN()) == NaN()
    ensures Canonical(x.digits) ==> Div(NaN(), x) == NaN() && Mod(NaN(), x) == NaN()
    ensures Div(x, Zeroize()) == NaN() && Mod(x, Zeroize()) == NaN()
  {
    ValSingle(0);
    SameResult(Add(NaN(), x), NaN());
    SameResult(Add(x, NaN()), NaN());
    SameResult(Sub(NaN(), x), NaN());
    SameResult(Sub(x, NaN()), NaN());
    SameResult(Mul(NaN(), x), NaN());
    SameResult(Mul(x, NaN()), NaN());
    SameResult(Div(x, Zeroize()), NaN());
    SameResult(Mod(x, Zeroize()), NaN());
    if Canonical(x.digits) {
      SameResult(Div(NaN(), x), NaN());
      SameResult(Mod(NaN(), x), NaN());
    }
  }

  /** b · (a / b) + a % b == a, as Python promises for // and %. */
  lemma DivModIdentity(a: BigInt, b: BigInt)
    requires Canonical(b.digits) && !a.nan && !b.nan && Mag(b) != 0
    ensures Add(Mul(b, Div(a, b)), Mod(a, b)) == Normalize(a)
  {
    SameResult(Add(Mul(b, Div(a, b)), Mod(a, b)), Normalize(a));
  }

  /** -7 / 2 == -4 and -7 % 2 == 1: the quotient rounds down, and the
      remainder takes the divisor's sign. */
  lemma FloorNegativeDividend()
    ensures Div(FromI32(-7), FromI32(2)) == FromI32(-4)
    ensures Mod(FromI32(-7), FromI32(2)) == FromI32(1)
  {
    ValSingle(2);
    SameResult(Div(FromI32(-7), FromI32(2)), FromI32(-4));
    SameResult(Mod(FromI32(-7), FromI32(2)), FromI32(1));
  }

  /** 7 / -2 == -4 and 7 % -2 == -1. */
  lemma FloorNegativeDivisor()
    ensures Div(FromI32(7), FromI32(-2)) == FromI32(-4)
    ensures Mod(FromI32(7), FromI32(-2)) == FromI32(-1)
  {
    ValSingle(2);
    SameResult(Div(FromI32(7), FromI32(-2)), FromI32(-4));
    SameResult(Mod(FromI32(7), FromI32(-2)), FromI32(-1));
  }

  /** On non-NaN values the comparisons form the integer order: exactly one
      of <, ==, > holds, and <= and >= are their unions. */
  lemma Trichotomy(a: BigInt, b: BigInt)
    requires !a.nan && !b.nan
    ensures Lt(a, b) || Eq(a, b) || Gt(a, b)
    ensures !(Lt(a, b) && Eq(a, b)) && !(Lt(a, b) && Gt(a, b)) && !(Eq(a, b) && Gt(a, b))
    ensures Le(a, b) <==> Lt(a, b) || Eq(a, b)
    ensures Ge(a, b) <==> Gt(a, b) || Eq(a, b)
    ensures Lt(a, b) <==> Gt(b, a)
  {
  }

  /** The digits ToString prints are all allowed by the parser, and a sign is
      allowed in front. */
  lemma {:induction false} PrintedAllowed(sign: string, d: string, j: nat)
    requires sign == "" || sign == "-"
    requires AllDigits(d) && j < |sign + d|
    ensures AllowedAt(sign + d, j)
  {
    if j >= |sign| {
      assert (sign + d)[j] == d[j - |sign|];
    }
  }

  /** The digits of a digit string are the string itself, and a leading '-'
      adds none. */
  lemma {:induction false} DigitsOfPrinted(sign: string, d: string)
    requires sign == "" || sign == "-"
    requires AllDigits(d)
    ensures DigitsOnly(sign + d) == d
    decreases |d|
  {
    if |d| == 0 {
      if sign == "-" {
        assert DigitsOnly(sign) == DigitsOnly(sign[..0]) + [];
        assert sign[..0] == "";
      }
      assert sign + d == sign;
    } else {
      var d' := d[..|d| - 1];
      DigitsOfPrinted(sign, d');
      assert (sign + d)[..|sign + d| - 1] == sign + d';
      assert d == d' + [d[|d| - 1]];
    }
  }

  /** Printing then parsing gives the normalised value back, a negative zero
      included. */
  lemma DecimalRoundTrip(x: BigInt)
    requires !x.nan
    ensures FromString(ToString(x)) == Ok(Normalize(x))
  {
    var sign := if IntVal(x) < 0 then "-" else "";
    var d := DecimalOf(Mag(x));
    var s := ToString(x);
    assert s == sign + d;
    forall j | 0 <= j < |s|
      ensures AllowedAt(s, j)
    {
      PrintedAllowed(sign, d, j);
    }
    DigitsOfPrinted(sign, d);
    assert |s| > 0 && s[0] == '-' <==> IntVal(x) < 0 by {
      assert |d| > 0 && IsDigit(d[0]);
      assert |s| > 0 && (s[0] == '-' <==> sign == "-");
    }
    SameResult(FromString(s).value, Normalize(x));
  }

  /** The text ToString prints: a canonical decimal, with a '-' in front of
      any but "0". */
  predicate CanonicalText(s: string) {
    || (AllDigits(s) && NoLeadingZero(s))
    || (|s| > 1 && s[0] == '-' && AllDigits(s[1..]) && NoLeadingZero(s[1..]) && s[1..] != "0")
  }

  /** Parsing then printing a canonical text gives the text back. */
  lemma PrintParse(s: string)
    requires CanonicalText(s)
    ensures FromString(s).Ok? && ToString(FromString(s).value) == s
  {
    var negative := s[0] == '-';
    var sign := if negative then "-" else "";
    var d := if negative then s[1..] else s;
    assert s == sign + d;
    ParseSigned(sign, d);
    CanonicalDecimal(d);
    if negative && DecVal(d) == 0 {
      ZeroValue(d);
      assert false;
    }
  }

  /** A sign and a digit string parse as the digits' value, negated after '-'. */
  lemma ParseSigned(sign: string, d: string)
    requires sign == "" || sign == "-"
    requires AllDigits(d)
    ensures FromString(sign + d).Ok?
    ensures Mag(FromString(sign + d).value) == DecVal(d)
    ensures IntVal(FromString(sign + d).value) == if sign == "-" then -(DecVal(d) as int) else DecVal(d)
  {
    var s := sign + d;
    forall j | 0 <= j < |s|
      ensures AllowedAt(s, j)
    {
      PrintedAllowed(sign, d, j);
    }
    DigitsOfPrinted(sign, d);
    assert |s| > 0 && s[0] == '-' <==> sign == "-";
  }

  /** "12a4" is refused at the 'a', index 2. */
  lemma ParseRejectsLetter()
    ensures FromString("12a4") == Fail(ParseError(2))
  {
    var s := "12a4";
    assert AllowedAt(s, 0) && AllowedAt(s, 1) && !AllowedAt(s, 2) && AllowedAt(s, 3);
  }

  /** "-1,000" reads as -1000: the sign and the comma are skipped. */
  lemma ParseSkipsComma()
    ensures FromString("-1,000") == Ok(FromI32(-1000))
  {
    var s := "-1,000";
    CommaText(s);
    var r := FromString(s);
    assert r.Ok? && IntVal(r.value) == -1000;
    SameResult(r.value, FromI32(-1000));
  }

  /** Every character of "-1,000" is allowed, and its digits read as 1000. */
  lemma CommaText(s: string)
    requires s == "-1,000"
    ensures forall j | 0 <= j < |s| :: AllowedAt(s, j)
    ensures SignedValue(s) == -1000
  {
    assert AllowedAt(s, 0) && AllowedAt(s, 1) && AllowedAt(s, 2);
    assert AllowedAt(s, 3) && AllowedAt(s, 4) && AllowedAt(s, 5);
    CommaDigits(s);
    ThousandValue();
  }

  /** The digits of "-1,000" are "1000". */
  lemma CommaDigits(s: string)
    requires s == "-1,000"
    ensures DigitsOnly(s) == "1000"
  {
    assert s[..0] == "" && s[..6] == s;
    DigitsOnlyStep(s, 0);
    DigitsOnlyStep(s, 1);
    DigitsOnlyStep(s, 2);
    DigitsOnlyStep(s, 3);
    DigitsOnlyStep(s, 4);
    DigitsOnlyStep(s, 5);
  }

  lemma ThousandValue()
    ensures DecVal("1000") == 1000
  {
    assert "1000"[..3] == "100" && "100"[..2] == "10" && "10"[..1] == "1";
  }
}
