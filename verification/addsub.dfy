/** Magnitude addition and subtraction and the signed + and - built on them
    (bigint.hpp:258-295, 360-430). */
module AddSub {
  import opened Arith
  import opened Limbs
  import opened Value
  import opened Compare

  function Bit(b: bool): nat {
    if b then 1 else 0
  }

  /** The limb loop of abs_add: limb i of each operand (0 past its end) plus the
      carry, the low word kept, the high word carried; a final carry becomes one
      more limb 1. */
  function AddLimbs(l: seq<Limb>, r: seq<Limb>, carry: bool): (s: seq<Limb>)
    ensures Val(s) == Val(l) + Val(r) + Bit(carry)
    ensures |s| == Max(|l|, |r|) || (|s| == Max(|l|, |r|) + 1 && s[|s| - 1] == 1)
    decreases |l| + |r|
  {
    if |l| == 0 && |r| == 0 then
      if carry then ValSingle(1); [1] else []
    else
      var st := Head(l) + Head(r) + Bit(carry);
      var rest := AddLimbs(Tail(l), Tail(r), High(st) != 0);
      AddLimbsStep(l, r, carry, rest);
      [Low(st)] + rest
  }

  /** One limb of the carry loop in values and lengths. */
  lemma AddLimbsStep(l: seq<Limb>, r: seq<Limb>, carry: bool, rest: seq<Limb>)
    requires |l| + |r| > 0
    requires var st := Head(l) + Head(r) + Bit(carry);
      && Val(rest) == Val(Tail(l)) + Val(Tail(r)) + Bit(High(st) != 0)
      && (|rest| == Max(|Tail(l)|, |Tail(r)|)
          || (|rest| == Max(|Tail(l)|, |Tail(r)|) + 1 && rest[|rest| - 1] == 1))
    ensures var s := [Low(Head(l) + Head(r) + Bit(carry))] + rest;
      && Val(s) == Val(l) + Val(r) + Bit(carry)
      && (|s| == Max(|l|, |r|) || (|s| == Max(|l|, |r|) + 1 && s[|s| - 1] == 1))
  {
    var st := Head(l) + Head(r) + Bit(carry);
    ValHeadTail(l);
    ValHeadTail(r);
    assert ([Low(st)] + rest)[1..] == rest;
    assert st == Low(st) + BASE * Bit(High(st) != 0);
  }

  /** abs_add leaves max(len) limbs, plus one exactly when a carry is left over. */
  lemma {:induction false} AddLimbsLength(l: seq<Limb>, r: seq<Limb>)
    ensures var n := Max(|l|, |r|);
      |AddLimbs(l, r, false)| == n + Bit(Val(l) + Val(r) >= Pow(BASE, n))
  {
    var s := AddLimbs(l, r, false);
    var n := Max(|l|, |r|);
    var v := Val(l) + Val(r);
    assert Val(s) == v;
    if |s| == n {
      ValBound(s);
      assert v < Pow(BASE, n);
      assert Bit(v >= Pow(BASE, n)) == 0;
    } else {
      assert |s| == n + 1 && s[n] == 1;
      ValTopLower(s);
      assert v >= Pow(BASE, n);
      assert Bit(v >= Pow(BASE, n)) == 1;
    }
  }

  /** The limb loop of abs_sub with the intended borrow test ld >= rd + borrow. */
  function SubLimbs(l: seq<Limb>, r: seq<Limb>, borrow: bool): (res: (seq<Limb>, bool))
    ensures |res.0| == Max(|l|, |r|)
    ensures Val(res.0) == Val(l) - Val(r) - Bit(borrow) + Bit(res.1) * Pow(BASE, Max(|l|, |r|))
    decreases |l| + |r|
  {
    if |l| == 0 && |r| == 0 then ([], borrow)
    else
      var ld := Head(l);
      var rd := Head(r);
      var c := Bit(borrow);
      var next := ld < rd + c;
      var st: Limb := if next then ld + BASE - rd - c else ld - rd - c;
      var rest := SubLimbs(Tail(l), Tail(r), next);
      SubLimbsStep(l, r, borrow, st, next, rest.0, rest.1);
      ([st] + rest.0, rest.1)
  }

  /** One limb of the borrow loop in values: the limb st and the borrow next
      it passes on carry the promise about the remaining limbs up one place. */
  lemma SubLimbsStep(l: seq<Limb>, r: seq<Limb>, borrow: bool, st: Limb, next: bool,
                     rest: seq<Limb>, bout: bool)
    requires |l| + |r| > 0
    requires st == Head(l) - Head(r) - Bit(borrow) + Bit(next) * BASE
    requires |rest| == Max(|Tail(l)|, |Tail(r)|)
    requires Val(rest) == Val(Tail(l)) - Val(Tail(r)) - Bit(next)
                          + Bit(bout) * Pow(BASE, Max(|Tail(l)|, |Tail(r)|))
    ensures |[st] + rest| == Max(|l|, |r|)
    ensures Val([st] + rest) == Val(l) - Val(r) - Bit(borrow) + Bit(bout) * Pow(BASE, Max(|l|, |r|))
  {
    ValHeadTail(l);
    ValHeadTail(r);
    ValCons(st, rest);
    var p := Pow(BASE, Max(|l|, |r|) - 1);
    TailWidth(l, r);
    SubStep(Val(l), Val(r), Head(l), Head(r), Bit(borrow), Val(Tail(l)), Val(Tail(r)), st, Bit(next),
            Val(rest), Bit(bout), p);
  }

  /** Dropping the lowest limb of both operands shortens the wider by one. */
  lemma TailWidth(l: seq<Limb>, r: seq<Limb>)
    requires |l| + |r| > 0
    ensures Max(|Tail(l)|, |Tail(r)|) == Max(|l|, |r|) - 1
    ensures Pow(BASE, Max(|l|, |r|)) == BASE * Pow(BASE, Max(|l|, |r|) - 1)
  {
  }

  /** The arithmetic of one borrow step. */
  lemma SubStep(vl: int, vr: int, ld: int, rd: int, c: int, tl: int, tr: int, st: int,
                c': int, rest: int, bout: int, p: int)
    requires vl == ld + BASE * tl && vr == rd + BASE * tr
    requires st == ld - rd - c + c' * BASE
    requires rest == tl - tr - c' + bout * p
    ensures st + BASE * rest == vl - vr - c + bout * (BASE * p)
  {
    MulAssoc(BASE, bout, p);
  }

  /** A uint64_t result of a subtraction that may have wrapped. */
  function Wrap64(v: int): nat {
    v % 0x1_0000_0000_0000_0000
  }

  /** The limb loop of abs_sub exactly as written: the test ld - borrow >= rd is
      done in uint64_t, so ld == 0 with a pending borrow wraps to 2^64 - 1,
      passes, and the borrow is dropped. */
  function SubLimbsAsWritten(l: seq<Limb>, r: seq<Limb>, borrow: bool): (res: (seq<Limb>, bool))
    ensures |res.0| == Max(|l|, |r|)
    decreases |l| + |r|
  {
    if |l| == 0 && |r| == 0 then ([], borrow)
    else
      var ld := Head(l);
      var rd := Head(r);
      var c := Bit(borrow);
      if Wrap64(ld - c) >= rd then
        var rest := SubLimbsAsWritten(Tail(l), Tail(r), false);
        ([Low(Wrap64(ld - rd - c))] + rest.0, rest.1)
      else
        var rest := SubLimbsAsWritten(Tail(l), Tail(r), true);
        ([Low(Wrap64(ld + 0x1_0000_0000 - rd - c))] + rest.0, rest.1)
  }

  /** The distance between two magnitudes, ||a| - |b||. */
  function Dist(x: nat, y: nat): nat {
    if x >= y then x - y else y - x
  }

  /** With the larger magnitude as minuend the intended borrow test never
      leaves a borrow after the last limb. */
  lemma {:induction false} SubLimbsExact(l: seq<Limb>, r: seq<Limb>)
    requires Val(l) >= Val(r)
    ensures !SubLimbs(l, r, false).1
    ensures Val(SubLimbs(l, r, false).0) == Val(l) - Val(r)
  {
    var res := SubLimbs(l, r, false);
    ValBound(res.0);
    NoBorrowOut(Val(res.0), Val(l) - Val(r), Bit(res.1), Pow(BASE, Max(|l|, |r|)));
  }

  /** A difference that is not negative cannot owe a borrow past the top limb. */
  lemma NoBorrowOut(v: int, d: int, bit: int, p: int)
    requires v == d + bit * p && 0 <= v < p && d >= 0 && (bit == 0 || bit == 1)
    ensures bit == 0 && v == d
  {
  }

  /** abs_add: |a| + |b|, whatever the signs; NaN if either operand is NaN. */
  function AbsAdd(a: BigInt, b: BigInt): (r: BigInt)
    ensures Normalized(r)
    ensures r.nan <==> a.nan || b.nan
    ensures !r.nan ==> !r.minus && IntVal(r) == Mag(a) + Mag(b)
  {
    if a.nan || b.nan then NaN()
    else
      var L := Abs(a);
      var R := Abs(b);
      Normalize(BigInt(AddLimbs(L.digits, R.digits, false), false, false))
  }

  /** abs_sub: ||a| - |b||, the operands swapped so that the larger magnitude is
      the minuend; a borrow left after the last limb is a CarryError, which the
      intended borrow test never produces. */
  function AbsSub(a: BigInt, b: BigInt): (r: Result<BigInt>)
    ensures r.Ok?
    ensures Normalized(r.value)
    ensures r.value.nan <==> a.nan || b.nan
    ensures !r.value.nan ==> !r.value.minus
    ensures !r.value.nan ==> IntVal(r.value) == Dist(Mag(a), Mag(b))
  {
    if a.nan || b.nan then Ok(NaN())
    else
      var L0 := Abs(a);
      var R0 := Abs(b);
      var L := if Lt(L0, R0) then R0 else L0;
      var R := if Lt(L0, R0) then L0 else R0;
      var res := SubLimbs(L.digits, R.digits, false);
      SubLimbsExact(L.digits, R.digits);
      if res.1 then Fail(CarryError)
      else Ok(Normalize(BigInt(res.0, false, false)))
  }

  /** As written, a minuend at least the subtrahend plus the borrow leaves no
      borrow after the last limb either: a dropped borrow only makes the
      difference larger. */
  lemma {:induction false} AsWrittenNoFinalBorrow(l: seq<Limb>, r: seq<Limb>, borrow: bool)
    requires Val(l) >= Val(r) + Bit(borrow)
    ensures !SubLimbsAsWritten(l, r, borrow).1
    decreases |l| + |r|
  {
    if |l| + |r| > 0 {
      ValHeadTail(l);
      ValHeadTail(r);
      var ld: int, rd: int, c: int := Head(l), Head(r), Bit(borrow);
      TailsOrdered(ld, rd, c, Val(Tail(l)), Val(Tail(r)));
      WrapBorrow(ld - c);
      if Wrap64(ld - c) >= rd {
        AsWrittenNoFinalBorrow(Tail(l), Tail(r), false);
      } else {
        AsWrittenNoFinalBorrow(Tail(l), Tail(r), true);
      }
    }
  }

  /** If l >= r + c, the limbs above the lowest are ordered, strictly when the
      lowest limb has to borrow. */
  lemma TailsOrdered(ld: int, rd: int, c: int, tl: int, tr: int)
    requires 0 <= ld < 0x1_0000_0000 && 0 <= rd < 0x1_0000_0000 && 0 <= c <= 1
    requires ld + 0x1_0000_0000 * tl >= rd + 0x1_0000_0000 * tr + c
    ensures ld - c >= rd ==> tl >= tr
    ensures ld - c < rd ==> tl >= tr + 1
  {
  }

  /** The written test's left side: ld - borrow itself, or 2^64 - 1 when it wraps. */
  lemma WrapBorrow(v: int)
    requires -1 <= v < 0x1_0000_0000
    ensures Wrap64(v) == if v >= 0 then v else 0xFFFF_FFFF_FFFF_FFFF
  {
  }

  /** abs_sub exactly as written, with the uint64_t borrow test. It never
      throws either: the operands are ordered, so no borrow is left. */
  function AbsSubAsWritten(a: BigInt, b: BigInt): (r: Result<BigInt>)
    ensures r.Ok?
    ensures Normalized(r.value) && (r.value.nan <==> a.nan || b.nan)
  {
    if a.nan || b.nan then Ok(NaN())
    else
      var L0 := Abs(a);
      var R0 := Abs(b);
      var L := if Lt(L0, R0) then R0 else L0;
      var R := if Lt(L0, R0) then L0 else R0;
      var res := SubLimbsAsWritten(L.digits, R.digits, false);
      AsWrittenNoFinalBorrow(L.digits, R.digits, false);
      if res.1 then Fail(CarryError)
      else Ok(Normalize(BigInt(res.0, false, false)))
  }

  /** The limb loop as written on 2^64 - 1: limb 0 borrows, limb 1 computes
      0 - 1 in uint64_t, passes the test and drops the borrow. */
  lemma SubLimbsAsWrittenDropsBorrow()
    ensures SubLimbsAsWritten([0, 0, 1], [1], false) == ([0xFFFF_FFFF, 0xFFFF_FFFF, 1], false)
  {
    var m := 0xFFFF_FFFF;
    var e: seq<Limb> := [];
    var l2: seq<Limb> := [1];
    var l1: seq<Limb> := [0, 1];
    var l0: seq<Limb> := [0, 0, 1];
    var r0: seq<Limb> := [1];
    var out: seq<Limb> := [m, m, 1];
    assert Tail(l0) == l1 && Tail(l1) == l2 && Tail(l2) == e && Tail(r0) == e;
    assert [1] + e == l2 && [m] + l2 == out[1..] && [m] + out[1..] == out;
    assert SubLimbsAsWritten(e, e, false) == (e, false);
    assert SubLimbsAsWritten(l2, e, false) == (l2, false);
    assert Wrap64(0 - 1) >= 0;
    assert SubLimbsAsWritten(l1, e, true) == (out[1..], false);
    assert SubLimbsAsWritten(l0, r0, false) == (out, false);
  }

  /** Counterexample: 2^64 - 1 computed by the written abs_sub comes out as
      2^65 - 1. */
  lemma AbsSubAsWrittenDropsBorrow()
    ensures var a := BigInt([0, 0, 1], false, false);
      var b := FromU32(1);
      var r := AbsSubAsWritten(a, b);
      && IntVal(a) - IntVal(b) == 0xFFFF_FFFF_FFFF_FFFF
      && r.Ok? && IntVal(r.value) == 0x1_FFFF_FFFF_FFFF_FFFF
  {
    var a := BigInt([0, 0, 1], false, false);
    var b := FromU32(1);
    ValThree(0, 0, 1);
    assert !Lt(Abs(a), Abs(b));
    SubLimbsAsWrittenDropsBorrow();
    AbsSubAsWrittenResult(a, b, [0xFFFF_FFFF, 0xFFFF_FFFF, 1]);
    ValThree(0xFFFF_FFFF, 0xFFFF_FFFF, 1);
  }

  /** When the operands are ordered and the written loop ends without a borrow,
      the written abs_sub returns the loop's limbs. */
  lemma AbsSubAsWrittenResult(a: BigInt, b: BigInt, out: seq<Limb>)
    requires !a.nan && !b.nan && !Lt(Abs(a), Abs(b))
    requires SubLimbsAsWritten(Abs(a).digits, Abs(b).digits, false) == (out, false)
    requires Canonical(out) && |out| > 0 && out[|out| - 1] != 0
    ensures AbsSubAsWritten(a, b) == Ok(Normalize(BigInt(out, false, false)))
    ensures Mag(AbsSubAsWritten(a, b).value) == Val(out)
  {
    assert Trim(out) == out;
  }

  /** Signed +: magnitudes added on equal signs; otherwise subtracted, the sign
      taken from the operand of larger magnitude. */
  function Add(a: BigInt, b: BigInt): (r: BigInt)
    ensures Normalized(r)
    ensures r.nan <==> a.nan || b.nan
    ensures !r.nan ==> IntVal(r) == IntVal(a) + IntVal(b)
  {
    if a.minus == b.minus then
      Normalize(AbsAdd(a, b).(minus := a.minus, nan := a.nan || b.nan))
    else
      var sign := if Ge(Abs(a), Abs(b)) then a.minus else b.minus;
      Normalize(AbsSub(a, b).value.(minus := sign, nan := a.nan || b.nan))
  }

  /** Binary -: a + (-b). */
  function Sub(a: BigInt, b: BigInt): (r: BigInt)
    ensures Normalized(r)
    ensures r.nan <==> a.nan || b.nan
    ensures !r.nan ==> IntVal(r) == IntVal(a) - IntVal(b)
  {
    Add(a, Neg(b))
  }
}
