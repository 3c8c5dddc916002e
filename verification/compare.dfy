/** The six comparisons (bigint.hpp:186-256). Any NaN operand makes every one
    of them false, so `!=` is not the negation of `==`. */
module Compare {
  import opened Arith
  import opened Limbs
  import opened Value

  /** The limb scan of operator>: from limb n-1 down, the first limb that
      differs decides; equal prefixes are not greater. */
  function GreaterFrom(l: seq<Limb>, r: seq<Limb>, n: nat): (g: bool)
    requires |l| == |r| && n <= |l|
    ensures g <==> Val(l[..n]) > Val(r[..n])
    decreases n
  {
    if n == 0 then false
    else if l[n - 1] != r[n - 1] then
      TopLimbDecides(l[..n], r[..n]);
      l[n - 1] > r[n - 1]
    else
      var g := GreaterFrom(l, r, n - 1);
      ValPrefixStep(l, n - 1);
      ValPrefixStep(r, n - 1);
      g
  }

  /** Two sequences of one length whose top limbs differ are ordered by them. */
  lemma TopLimbDecides(l: seq<Limb>, r: seq<Limb>)
    requires |l| == |r| > 0 && l[|l| - 1] != r[|r| - 1]
    ensures Val(l) > Val(r) <==> l[|l| - 1] > r[|r| - 1]
  {
    var n := |l| - 1;
    if l[n] > r[n] {
      TopLimbGreater(l, r);
    } else {
      TopLimbGreater(r, l);
    }
  }

  lemma TopLimbGreater(l: seq<Limb>, r: seq<Limb>)
    requires |l| == |r| > 0 && l[|l| - 1] > r[|r| - 1]
    ensures Val(l) > Val(r)
  {
    var n := |l| - 1;
    ValPrefixStep(l, n);
    ValPrefixStep(r, n);
    assert l[..n + 1] == l && r[..n + 1] == r;
    ValBound(r[..n]);
    TopDigitDominates(Val(l[..n]), Val(r[..n]), Pow(BASE, n), r[n], l[n]);
  }

  /** Magnitude order of canonical limbs: more limbs is larger, otherwise the scan. */
  function MagGreater(l: seq<Limb>, r: seq<Limb>): (g: bool)
    requires Canonical(l) && Canonical(r)
    ensures g <==> Val(l) > Val(r)
  {
    if |l| != |r| then
      if |l| > |r| then CanonicalLonger(l, r); true
      else CanonicalLonger(r, l); false
    else
      assert l[..|l|] == l && r[..|r|] == r;
      GreaterFrom(l, r, |l|)
  }

  /** operator== : equal sign and equal limbs after normalising both sides. */
  function Eq(a: BigInt, b: BigInt): (r: bool)
    ensures a.nan || b.nan ==> !r
    ensures !a.nan && !b.nan ==> (r <==> IntVal(a) == IntVal(b))
  {
    if a.nan || b.nan then false
    else
      var L := Normalize(a);
      var R := Normalize(b);
      NormalizedUnique(L, R);
      L.minus == R.minus && L.digits == R.digits
  }

  /** operator!= : false on NaN, else the negation of ==. */
  function Ne(a: BigInt, b: BigInt): (r: bool)
    ensures a.nan || b.nan ==> !r
    ensures !a.nan && !b.nan ==> (r <==> IntVal(a) != IntVal(b))
  {
    if a.nan || b.nan then false else !Eq(a, b)
  }

  /** The part of operator> after the sign test: compare magnitudes, with the
      operands swapped when both are negative. */
  function SameSignGreater(L: BigInt, R: BigInt): (g: bool)
    requires Normalized(L) && Normalized(R) && !L.nan && !R.nan && L.minus == R.minus
    ensures g <==> IntVal(L) > IntVal(R)
  {
    if L.minus then MagGreater(R.digits, L.digits) else MagGreater(L.digits, R.digits)
  }

  /** operator> with the sign test reading the normalised left operand. */
  function Gt(a: BigInt, b: BigInt): (r: bool)
    ensures a.nan || b.nan ==> !r
    ensures !a.nan && !b.nan ==> (r <==> IntVal(a) > IntVal(b))
  {
    if a.nan || b.nan then false
    else
      var L := Normalize(a);
      var R := Normalize(b);
      if L.minus != R.minus then !L.minus else SameSignGreater(L, R)
  }

  /** operator> exactly as written: the sign test reads the raw `minus` of the
      left operand, which differs from the normalised one on a negative zero. */
  function GtAsWritten(a: BigInt, b: BigInt): (r: bool)
    ensures a.nan || b.nan ==> !r
    ensures !a.nan && !b.nan && !(a.minus && Mag(a) == 0) ==> (r <==> IntVal(a) > IntVal(b))
    ensures !a.nan && !b.nan && a.minus && Mag(a) == 0 ==> !r
  {
    if a.nan || b.nan then false
    else
      var L := Normalize(a);
      var R := Normalize(b);
      if L.minus != R.minus then !a.minus else SameSignGreater(L, R)
  }

  /** operator>= : == or >. */
  function Ge(a: BigInt, b: BigInt): (r: bool)
    ensures a.nan || b.nan ==> !r
    ensures !a.nan && !b.nan ==> (r <==> IntVal(a) >= IntVal(b))
  {
    if a.nan || b.nan then false else Eq(a, b) || Gt(a, b)
  }

  /** operator< : not >=. */
  function Lt(a: BigInt, b: BigInt): (r: bool)
    ensures a.nan || b.nan ==> !r
    ensures !a.nan && !b.nan ==> (r <==> IntVal(a) < IntVal(b))
  {
    if a.nan || b.nan then false else !Ge(a, b)
  }

  /** operator<= : not >. */
  function Le(a: BigInt, b: BigInt): (r: bool)
    ensures a.nan || b.nan ==> !r
    ensures !a.nan && !b.nan ==> (r <==> IntVal(a) <= IntVal(b))
  {
    if a.nan || b.nan then false else !Gt(a, b)
  }

  /** operator>= exactly as written: == or the written >. A negative zero on
      the left is >= only a zero. */
  function GeAsWritten(a: BigInt, b: BigInt): (r: bool)
    ensures a.nan || b.nan ==> !r
    ensures !a.nan && !b.nan && !(a.minus && Mag(a) == 0) ==> (r <==> IntVal(a) >= IntVal(b))
    ensures !a.nan && !b.nan && a.minus && Mag(a) == 0 ==> (r <==> IntVal(b) == 0)
  {
    if a.nan || b.nan then false else Eq(a, b) || GtAsWritten(a, b)
  }

  /** operator< exactly as written: not the written >=. A negative zero on the
      left is < every nonzero value, negative ones included. */
  function LtAsWritten(a: BigInt, b: BigInt): (r: bool)
    ensures a.nan || b.nan ==> !r
    ensures !a.nan && !b.nan && !(a.minus && Mag(a) == 0) ==> (r <==> IntVal(a) < IntVal(b))
    ensures !a.nan && !b.nan && a.minus && Mag(a) == 0 ==> (r <==> IntVal(b) != 0)
  {
    if a.nan || b.nan then false else !GeAsWritten(a, b)
  }

  /** operator<= exactly as written: not the written >. A negative zero on the
      left is <= everything. */
  function LeAsWritten(a: BigInt, b: BigInt): (r: bool)
    ensures a.nan || b.nan ==> !r
    ensures !a.nan && !b.nan && !(a.minus && Mag(a) == 0) ==> (r <==> IntVal(a) <= IntVal(b))
    ensures !a.nan && !b.nan && a.minus && Mag(a) == 0 ==> r
  {
    if a.nan || b.nan then false else !GtAsWritten(a, b)
  }

  /** On normalised values == is equality of sign and limbs. */
  lemma EqIsIdentity(a: BigInt, b: BigInt)
    requires Normalized(a) && Normalized(b) && !a.nan && !b.nan
    ensures Eq(a, b) <==> a == b
  {
    NormalizedUnique(a, b);
  }

  /** NaN is equal to nothing, itself included, and not unequal to it either. */
  lemma NaNIncomparable(x: BigInt)
    ensures !Eq(NaN(), x) && !Ne(NaN(), x) && !Eq(x, NaN()) && !Ne(x, NaN())
    ensures !Gt(NaN(), x) && !Ge(NaN(), x) && !Lt(NaN(), x) && !Le(NaN(), x)
  {
  }

  /** The written operator> agrees with the corrected one except when its left
      operand is a negative zero. */
  lemma GtAsWrittenAgrees(a: BigInt, b: BigInt)
    requires !(a.minus && Mag(a) == 0)
    ensures GtAsWritten(a, b) == Gt(a, b)
  {
  }

  /** Counterexample: -BigInt(0) > BigInt(-3) is false as written, though 0 > -3. */
  lemma GtAsWrittenNegZero()
    ensures IntVal(Neg(Zeroize())) > IntVal(FromI32(-3))
    ensures !GtAsWritten(Neg(Zeroize()), FromI32(-3))
    ensures Gt(Neg(Zeroize()), FromI32(-3))
  {
    var z := Neg(Zeroize());
    assert Trim(z.digits) == [];
    assert Normalize(z) == Zeroize();
  }

  /** The written >=, < and <= agree with the corrected ones except when the
      left operand is a negative zero. */
  lemma OrderAsWrittenAgrees(a: BigInt, b: BigInt)
    requires !(a.minus && Mag(a) == 0)
    ensures GeAsWritten(a, b) == Ge(a, b)
    ensures LtAsWritten(a, b) == Lt(a, b)
    ensures LeAsWritten(a, b) == Le(a, b)
  {
  }

  /** Counterexample: as written, -BigInt(0) < BigInt(-3) and -BigInt(0) <=
      BigInt(-3) hold and -BigInt(0) >= BigInt(-3) does not, though 0 > -3. */
  lemma OrderAsWrittenNegZero()
    ensures LtAsWritten(Neg(Zeroize()), FromI32(-3)) && !Lt(Neg(Zeroize()), FromI32(-3))
    ensures LeAsWritten(Neg(Zeroize()), FromI32(-3)) && !Le(Neg(Zeroize()), FromI32(-3))
    ensures !GeAsWritten(Neg(Zeroize()), FromI32(-3)) && Ge(Neg(Zeroize()), FromI32(-3))
  {
    var z := Neg(Zeroize());
    assert Trim(z.digits) == [];
    assert Normalize(z) == Zeroize();
  }
}
