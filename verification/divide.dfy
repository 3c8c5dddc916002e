/** Long division (bigint.hpp:313-350, 466-530): abs_div brings the dividend
    down one limb at a time and finds each quotient limb by a binary search
    over the 32-bit limb range; / then rounds towards negative infinity and %
    is derived from /. */
module Divide {
  import opened Arith
  import opened Limbs
  import opened Value
  import opened Compare
  import opened AddSub
  import opened Multiply

  /** st is the floor of t / rv: rv·st <= t < rv·(st + 1). */
  predicate FloorDigit(rv: int, t: int, st: int) {
    rv * st <= t < rv * (st + 1)
  }

  /** The bracket of the search: the answer lies in [s - range + 1, s + range). */
  predicate Bracket(rv: int, t: int, s: int, range: int) {
    rv * (s - range + 1) <= t < rv * (s + range)
  }

  /** The value st starts with, which the search keeps if it never accepts. */
  const Unset: Limb := 0

  /** Where the search stands before step j: the range is 2^(31-j), the
      candidate s leaves room for it on both sides within the limb range, and
      the answer lies in the bracket around s. */
  predicate SearchState(rv: int, t: int, j: nat, range: nat, s: Limb) {
    j < 32 && range == Pow(2, 31 - j) && range <= s && s + range <= BASE && Bracket(rv, t, s, range)
  }

  /** The binary search for one quotient limb, from step j of 32 on: the
      candidate s is accepted when R·s <= tmp < R·s + R; otherwise the range
      halves and s moves up by it when tmp > R·s and down otherwise, in
      uint32_t arithmetic. The search state holds at every step, so the search
      never runs out of steps and returns the greatest st with R·st <= tmp. */
  function SearchDigit(tmp: BigInt, R: BigInt, j: nat, range: nat, s: Limb): (st: Limb)
    requires !tmp.nan && !R.nan && IntVal(R) > 0
    requires SearchState(IntVal(R), IntVal(tmp), j, range, s)
    ensures FloorDigit(IntVal(R), IntVal(tmp), st)
    decreases 32 - j
  {
    LastCandidate(IntVal(R), IntVal(tmp), j, range, s);
    if Accepts(tmp, R, s) then s
    else if j == 31 then
      assert false; Unset
    else
      var s' := Narrow(tmp, R, j, range, s);
      SearchDigit(tmp, R, j + 1, range / 2, s')
  }

  /** The acceptance test tmp >= R·s && tmp - R·s < R: s is the floor digit. */
  function Accepts(tmp: BigInt, R: BigInt, s: Limb): (ok: bool)
    requires !tmp.nan && !R.nan
    ensures ok <==> FloorDigit(IntVal(R), IntVal(tmp), s)
  {
    var p := Mul(R, FromU32(s));
    FoundDigit(IntVal(tmp), IntVal(R), s, Ge(tmp, p) && Lt(Sub(tmp, p), R));
    Ge(tmp, p) && Lt(Sub(tmp, p), R)
  }

  /** A rejected candidate moves by half the range, up when tmp > R·s and down
      otherwise, in uint32_t arithmetic; the bracket shrinks with the range. */
  function Narrow(tmp: BigInt, R: BigInt, j: nat, range: nat, s: Limb): (s': Limb)
    requires !tmp.nan && !R.nan && IntVal(R) > 0
    requires SearchState(IntVal(R), IntVal(tmp), j, range, s) && !FloorDigit(IntVal(R), IntVal(tmp), s)
    ensures SearchState(IntVal(R), IntVal(tmp), j + 1, range / 2, s')
  {
    var half := range / 2;
    var up := Gt(tmp, Mul(R, FromU32(s)));
    var s' := (s + (if up then half else BASE - half)) % BASE;
    SearchStep(IntVal(tmp), IntVal(R), j, s, range, half, s', up);
    s'
  }

  /** At the last step the bracket holds a single candidate, the floor digit. */
  lemma LastCandidate(rv: int, t: int, j: nat, range: nat, s: Limb)
    requires SearchState(rv, t, j, range, s)
    ensures j == 31 ==> FloorDigit(rv, t, s)
  {
  }

  /** The acceptance test of the search is the bracket R·s <= tmp < R·(s + 1). */
  lemma FoundDigit(t: int, rv: int, s: int, found: bool)
    requires found <==> t >= rv * s && t - rv * s < rv
    ensures found <==> FloorDigit(rv, t, s)
  {
  }

  /** The remainder left by a floor digit is below the divisor. */
  lemma FloorDigitRemainder(rv: int, t: int, st: int)
    requires FloorDigit(rv, t, st)
    ensures 0 <= t - rv * st < rv
  {
  }

  /** One halving step of the search keeps its bracket; with range 1 the
      bracket is the floor digit itself, so a search that has not accepted
      still has at least two candidates. */
  lemma SearchStep(t: int, rv: int, j: nat, s: int, range: int, half: int, s': int, up: bool)
    requires rv > 0 && j < 32 && range == Pow(2, 31 - j)
    requires range <= s && s + range <= BASE
    requires Bracket(rv, t, s, range) && !FloorDigit(rv, t, s)
    requires up <==> t > rv * s
    requires half == range / 2
    requires s' == (s + (if up then half else BASE - half)) % BASE
    ensures j < 31 && half == Pow(2, 31 - (j + 1))
    ensures half <= s' && s' + half <= BASE
    ensures Bracket(rv, t, s', half)
  {
    PowPositive(2, 30 - j);
    assert range == 2 * Pow(2, 30 - j);
    if up {
      DivUnique(s + half, BASE, 0, s + half);
      assert s' == s + half;
    } else {
      DivUnique(s + BASE - half, BASE, 1, s - half);
      assert s' == s - half;
    }
  }

  lemma Pow2Half()
    ensures Pow(2, 31) == 0x8000_0000
  {
    assert Pow(2, 8) == 0x100;
    assert Pow(2, 7) == 0x80;
    PowAdd(2, 8, 7);
    PowAdd(2, 8, 8);
    PowAdd(2, 16, 15);
  }

  /** One quotient limb: 1 on equality, 0 when tmp < R, otherwise the binary
      search started from the middle of the limb range. In every case it is
      the floor of tmp / R, which a remainder below R · BASE keeps a limb. */
  function QuotientDigit(tmp: BigInt, R: BigInt): (st: Limb)
    requires !tmp.nan && !R.nan && IntVal(R) > 0
    requires 0 <= IntVal(tmp) < IntVal(R) * BASE
    ensures FloorDigit(IntVal(R), IntVal(tmp), st)
  {
    if Eq(tmp, R) then 1
    else if Lt(tmp, R) then 0
    else
      Pow2Half();
      StartBracket(IntVal(R), IntVal(tmp));
      assert SearchState(IntVal(R), IntVal(tmp), 0, 0x8000_0000, 0x8000_0000);
      SearchDigit(tmp, R, 0, 0x8000_0000, 0x8000_0000)
  }

  /** Above R and below R · BASE, the answer lies in [1, 2^32). */
  lemma StartBracket(rv: int, t: int)
    requires rv < t < rv * BASE
    ensures Bracket(rv, t, 0x8000_0000, 0x8000_0000)
  {
  }

  /** whole = qv · rv + rem: the relation long division keeps between the
      limbs consumed so far, the quotient digits gathered and the remainder. */
  predicate Dividing(whole: int, qv: int, rv: int, rem: int) {
    whole == qv * rv + rem
  }

  /** A running remainder of the digit loop: a value in [0, R) for a positive R. */
  predicate Remainder(R: BigInt, tmp: BigInt) {
    !R.nan && IntVal(R) > 0 && !tmp.nan && 0 <= IntVal(tmp) < IntVal(R)
  }

  /** The digit loop of abs_div for i down to 0: the remainder tmp is shifted up
      one limb and L[i] brought down, the quotient limb is found and recorded,
      and R times it is subtracted. Quotient limbs are collected most
      significant first in acc; the final remainder is returned alongside.
      Limbs i + 1 .. of L are already consumed: they equal the gathered
      quotient times R plus the remainder, and at the end so does all of L. */
  function DivSteps(L: seq<Limb>, R: BigInt, i: int, tmp: BigInt, acc: seq<Limb>): (res: (seq<Limb>, BigInt))
    requires -1 <= i < |L| && Remainder(R, tmp)
    requires Dividing(Val(L[i + 1..]), Val(Reverse(acc)), IntVal(R), IntVal(tmp))
    ensures Remainder(R, res.1)
    ensures Dividing(Val(L), Val(Reverse(res.0)), IntVal(R), IntVal(res.1))
    decreases i + 1
  {
    if i < 0 then
      assert L[0..] == L;
      (acc, tmp)
    else
      var t := Add(Mul(tmp, FromI64(0x1_0000_0000)), FromU32(L[i]));
      BringDown(R, tmp, L[i]);
      var st := QuotientDigit(t, R);
      var rest := Sub(t, Mul(R, FromU32(st)));
      TakeAway(R, t, st);
      StepValue(L, R, i, tmp, acc, t, st, rest);
      DivSteps(L, R, i - 1, rest, acc + [st])
  }

  /** One step of the digit loop in values: bringing down limb i and recording
      the digit st with remainder rest keeps the division relation. */
  lemma StepValue(L: seq<Limb>, R: BigInt, i: nat, tmp: BigInt, acc: seq<Limb>,
                  t: BigInt, st: Limb, rest: BigInt)
    requires i < |L|
    requires IntVal(t) == IntVal(tmp) * BASE + L[i] && IntVal(t) == IntVal(R) * st + IntVal(rest)
    requires Dividing(Val(L[i + 1..]), Val(Reverse(acc)), IntVal(R), IntVal(tmp))
    ensures Dividing(Val(L[i..]), Val(Reverse(acc + [st])), IntVal(R), IntVal(rest))
  {
    ReverseSnoc(acc, st);
    assert L[i..] == [L[i]] + L[i + 1..];
    ValCons(L[i], L[i + 1..]);
    DivStepArith(Val(L[i + 1..]), L[i], Val(Reverse(acc)), IntVal(R), IntVal(tmp), IntVal(t), st,
                 IntVal(rest), Val(Reverse(acc + [st])), Val(L[i..]));
  }

  /** Shifting a remainder up one limb and adding limb l gives tmp · BASE + l,
      which is below R · BASE, so its quotient digit is a limb. */
  lemma BringDown(R: BigInt, tmp: BigInt, l: Limb)
    requires Remainder(R, tmp)
    ensures var t := Add(Mul(tmp, FromI64(0x1_0000_0000)), FromU32(l));
      && !t.nan && IntVal(t) == IntVal(tmp) * BASE + l
      && 0 <= IntVal(t) < IntVal(R) * BASE
  {
    LimbShiftBound(IntVal(tmp), l, IntVal(R));
  }

  /** Subtracting R times the floor digit leaves the next remainder. */
  lemma TakeAway(R: BigInt, t: BigInt, st: Limb)
    requires !R.nan && IntVal(R) > 0 && !t.nan && FloorDigit(IntVal(R), IntVal(t), st)
    ensures var rest := Sub(t, Mul(R, FromU32(st)));
      && Remainder(R, rest) && IntVal(t) == IntVal(R) * st + IntVal(rest)
  {
    FloorDigitRemainder(IntVal(R), IntVal(t), st);
  }

  /** Shifting a remainder below R up one limb and adding a limb stays below R · BASE. */
  lemma LimbShiftBound(t: int, l: int, rv: int)
    requires 0 <= t < rv && 0 <= l < BASE
    ensures 0 <= t * BASE + l < rv * BASE
  {
    MulMonotone(t + 1, rv, BASE);
  }

  /** The arithmetic of one step of the digit loop: if whole = a · rv + tmp,
      then l + BASE · whole = (st + BASE · a) · rv + rest whenever
      tmp · BASE + l = rv · st + rest. */
  lemma DivStepArith(whole: int, l: int, a: int, rv: int, tmp: int, t: int, st: int, rest: int,
                     a1: int, whole1: int)
    requires Dividing(whole, a, rv, tmp)
    requires t == tmp * BASE + l && t == rv * st + rest
    requires a1 == st + BASE * a && whole1 == l + BASE * whole
    ensures Dividing(whole1, a1, rv, rest)
  {
    calc {
      whole1;
      l + BASE * (a * rv + tmp);
      { MulAssoc(BASE, a, rv); }
      (BASE * a) * rv + (tmp * BASE + l);
      (BASE * a) * rv + rv * st + rest;
      (st + BASE * a) * rv + rest;
    }
  }

  /** A number with more limbs than a canonical one is not smaller, so a larger
      magnitude has at least as many limbs as a canonical divisor. */
  lemma LongerThanCanonical(l: seq<Limb>, r: seq<Limb>)
    requires Canonical(r) && Val(l) > Val(r)
    ensures |l| >= |r|
  {
    if |l| < |r| {
      ValBound(l);
      if |r| >= 2 {
        ValTopLower(r);
        PowMonotone(BASE, |l|, |r| - 1);
      }
    }
  }

  /** Fewer limbs than a canonical nonzero divisor means a smaller value. */
  lemma ShorterThanCanonical(l: seq<Limb>, r: seq<Limb>)
    requires Canonical(r) && Val(r) > 0 && |l| < |r|
    ensures Val(l) < Val(r)
  {
    ValBound(l);
    if |r| >= 2 {
      ValTopLower(r);
      PowMonotone(BASE, |l|, |r| - 1);
    } else {
      assert l == [];
    }
  }

  /** When the whole of L is the gathered quotient times R plus a remainder
      below R, the quotient is the floor of L / R. */
  lemma WholeQuotient(L: seq<Limb>, R: BigInt, q: seq<Limb>, rem: BigInt)
    requires !R.minus && Remainder(R, rem)
    requires Dividing(Val(L), Val(Reverse(q)), IntVal(R), IntVal(rem))
    ensures Val(Reverse(q)) == Val(L) / Mag(R)
  {
    assert IntVal(R) == Mag(R);
    DividingQuotient(Val(L), Val(Reverse(q)), Mag(R), IntVal(rem));
  }

  /** A remainder in [0, rv) pins the quotient down as the floor. */
  lemma DividingQuotient(whole: int, qv: int, rv: int, rem: int)
    requires Dividing(whole, qv, rv, rem) && 0 <= rem < rv
    ensures qv == whole / rv
  {
    DivUnique(whole, rv, qv, rem);
  }

  /** abs_div: the floor of |a| / |b|. A zero divisor, recognised as the single
      limb 0, gives NaN, as does a NaN operand. The divisor is taken canonical,
      as every constructor and operator leaves it; a non-canonical zero would
      slip past the zero test. */
  function AbsDiv(a: BigInt, b: BigInt): (r: BigInt)
    requires Canonical(b.digits)
    ensures Normalized(r)
    ensures r.nan <==> a.nan || b.nan || Mag(b) == 0
    ensures !r.nan ==> !r.minus && IntVal(r) == Mag(a) / Mag(b)
  {
    if a.nan || b.nan then NaN()
    else if |b.digits| == 1 && b.digits[0] == 0 then
      assert b.digits == [0];
      ValSingle(0);
      NaN()
    else
      var L := Abs(a);
      var R := Abs(b);
      NonzeroDivisor(b.digits);
      SmallQuotients(Mag(a), Mag(b));
      if Lt(L, R) then FromI32(0)
      else if Eq(L, R) then FromI32(1)
      else LongQuotient(L, R)
  }

  /** A canonical divisor other than the single limb 0 is positive. */
  lemma NonzeroDivisor(ds: seq<Limb>)
    requires Canonical(ds) && !(|ds| == 1 && ds[0] == 0)
    ensures Val(ds) > 0
  {
    if |ds| == 1 {
      ValSingle(ds[0]);
    } else {
      ValTopLower(ds);
      PowPositive(BASE, |ds| - 1);
    }
  }

  /** The two quotients abs_div answers without the digit loop. */
  lemma SmallQuotients(m: int, n: int)
    requires 0 <= m && 0 < n
    ensures m < n ==> m / n == 0
    ensures m == n ==> m / n == 1
  {
    if m < n {
      DivUnique(m, n, 0, m);
    } else if m == n {
      DivUnique(m, n, 1, 0);
    }
  }

  /** The digit loop of abs_div for |a| > |b|: the remainder starts as the top
      |b| - 1 limbs of a, the loop runs from limb |a| - |b| down to 0, and the
      quotient limbs, gathered most significant first, are reversed and
      normalised. */
  function LongQuotient(L: BigInt, R: BigInt): (r: BigInt)
    requires !L.nan && !R.nan && !R.minus && Canonical(R.digits) && Mag(L) > Mag(R) > 0
    ensures Normalized(r) && !r.nan && !r.minus && IntVal(r) == Mag(L) / Mag(R)
  {
    var q := QuotientLimbs(L, R);
    Normalize(BigInt(Reverse(q), false, false))
  }

  /** The quotient limbs the digit loop gathers, most significant first. */
  function QuotientLimbs(L: BigInt, R: BigInt): (q: seq<Limb>)
    requires !L.nan && !R.nan && !R.minus && Canonical(R.digits) && Mag(L) > Mag(R) > 0
    ensures Val(Reverse(q)) == Mag(L) / Mag(R)
  {
    StartRemainder(L, R);
    var i := |L.digits| - |R.digits|;
    var res := DivSteps(L.digits, R, i, BigInt(L.digits[i + 1..], false, false), []);
    WholeQuotient(L.digits, R, res.0, res.1);
    res.0
  }

  /** The remainder the digit loop starts from, the top |b| - 1 limbs of a, is
      below the divisor. */
  lemma StartRemainder(L: BigInt, R: BigInt)
    requires !L.nan && !R.nan && !R.minus && Canonical(R.digits) && Mag(L) > Mag(R) > 0
    ensures 0 < |R.digits| <= |L.digits|
    ensures var top := BigInt(L.digits[|L.digits| - |R.digits| + 1..], false, false);
      Remainder(R, top) && Dividing(Val(top.digits), Val(Reverse([])), IntVal(R), IntVal(top))
  {
    assert Reverse([]) == [] && Val([]) == 0;
    LongerThanCanonical(L.digits, R.digits);
    ShorterThanCanonical(L.digits[|L.digits| - |R.digits| + 1..], R.digits);
  }

  /** Signed /: the magnitude quotient, negative when the raw signs differ, and
      one less when they differ and the division leaves a remainder, which is
      Python's rounding towards negative infinity. */
  function Div(a: BigInt, b: BigInt): (r: BigInt)
    requires Canonical(b.digits)
    ensures Normalized(r)
    ensures r.nan <==> a.nan || b.nan || Mag(b) == 0
    ensures !r.nan ==> IntVal(r) == FloorDiv(IntVal(a), IntVal(b))
  {
    var q := AbsDiv(a, b);
    var res := q.(minus := a.minus != b.minus, nan := q.nan || a.nan || b.nan);
    var inexact := a.minus != b.minus && Ne(a, Mul(b, res));
    Rounding(a, b, res);
    if inexact then Normalize(Sub(res, FromI32(1))) else Normalize(res)
  }

  /** Why / rounds towards negative infinity: with the magnitude quotient
      signed by the raw signs, the floor is one less exactly when the signs
      differ and b times it misses a. */
  lemma Rounding(a: BigInt, b: BigInt, res: BigInt)
    requires Canonical(b.digits)
    requires res == AbsDiv(a, b).(minus := a.minus != b.minus, nan := AbsDiv(a, b).nan || a.nan || b.nan)
    ensures !res.nan && a.minus != b.minus && Ne(a, Mul(b, res)) ==> FloorDiv(IntVal(a), IntVal(b)) == IntVal(res) - 1
    ensures !res.nan && !(a.minus != b.minus && Ne(a, Mul(b, res))) ==> FloorDiv(IntVal(a), IntVal(b)) == IntVal(res)
  {
    if !res.nan {
      var qv := Mag(a) / Mag(b);
      assert Mag(res) == qv;
      FloorCorrection(Mag(a), Mag(b), a.minus, b.minus, IntVal(a), IntVal(b), IntVal(res),
                      IntVal(Mul(b, res)));
    }
  }

  /** The integer core of Rounding. */
  lemma FloorCorrection(ma: int, mb: int, sa: bool, sb: bool, ia: int, ib: int, rv: int, prod: int)
    requires ma >= 0 && mb > 0
    requires ia == (if sa then -ma else ma) && ib == (if sb then -mb else mb)
    requires rv == (if sa != sb then -(ma / mb) else ma / mb)
    requires prod == ib * rv
    ensures sa != sb && ia != prod ==> FloorDiv(ia, ib) == rv - 1
    ensures !(sa != sb && ia != prod) ==> FloorDiv(ia, ib) == rv
  {
    var q := ma / mb;
    FloorDivSigns(ma, mb);
    if sa != sb {
      assert ia != prod <==> mb * q != ma by {
        if sa {
          assert prod == mb * (-q) == -(mb * q);
        } else {
          assert prod == (-mb) * (-q) == mb * q;
        }
      }
    }
  }

  /** Signed %: a - (a / b) · b, so it takes the sign of the divisor and lies
      strictly between 0 and b. */
  function Mod(a: BigInt, b: BigInt): (r: BigInt)
    requires Canonical(b.digits)
    ensures Normalized(r)
    ensures r.nan <==> a.nan || b.nan || Mag(b) == 0
    ensures !r.nan ==> IntVal(r) == FloorMod(IntVal(a), IntVal(b))
    ensures !r.nan && IntVal(b) > 0 ==> 0 <= IntVal(r) < IntVal(b)
    ensures !r.nan && IntVal(b) < 0 ==> IntVal(b) < IntVal(r) <= 0
  {
    var q := Div(a, b);
    var r := Sub(a, Mul(q, b));
    ModArith(!r.nan, IntVal(a), IntVal(b), IntVal(q), IntVal(Mul(q, b)), IntVal(r));
    r
  }

  /** r = x - q · y with q the floor quotient is the floor remainder, which lies
      between 0 and y. */
  lemma ModArith(ok: bool, x: int, y: int, q: int, prod: int, r: int)
    requires ok ==> y != 0 && q == FloorDiv(x, y) && prod == q * y && r == x - prod
    ensures ok ==> r == FloorMod(x, y)
    ensures ok && y > 0 ==> 0 <= r < y
    ensures ok && y < 0 ==> y < r <= 0
  {
    if ok {
      FloorDivBracket(x, y);
    }
  }
}
