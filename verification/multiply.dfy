/** Schoolbook multiplication (bigint.hpp:297-304, 432-464): each limb of the
    right operand scales the whole left operand into a reused row buffer
    `tmp`, and every row is added into the running result. */
module Multiply {
  import opened Arith
  import opened Limbs
  import opened Value
  import opened AddSub

  /** A limb times a limb plus a limb carry fits in 64 bits, and its high word
      is again a limb. */
  lemma ProductFits(x: Limb, y: Limb, c: Limb)
    ensures x * y + c < BASE * BASE
    ensures High(x * y + c) < BASE
  {
    var b: int := BASE;
    ProductBound(x, y, c, b);
    MulMonotone(0, x, y);
    DivBelow(x * y + c, b, b);
  }

  /** One 64-bit step of the row loop: ld · rd + carry, split into its low
      word, which is stored, and its high word, which is carried. */
  function MulStep(ld: Limb, rd: Limb, carry: Limb): (w: (Limb, Limb))
    ensures w.0 + BASE * w.1 == ld * rd + carry
  {
    var st := ld * rd + carry;
    ProductFits(ld, rd, carry);
    (Low(st), High(st) as Limb)
  }

  /** The limbs of L · rd + carry, least significant first: what one row of
      the multiplication holds. */
  function ScaleLimbs(L: seq<Limb>, rd: Limb, carry: Limb): (s: seq<Limb>)
    ensures |s| == |L| + 1
    ensures Val(s) == Val(L) * rd + carry
    decreases |L|
  {
    if |L| == 0 then
      ValSingle(carry);
      [carry]
    else
      var w := MulStep(L[0], rd, carry);
      var rest := ScaleLimbs(L[1..], rd, w.1);
      assert ([w.0] + rest)[1..] == rest;
      ScaleStep(L[0], Val(L[1..]), rd, carry, w.0, w.1, Val(rest));
      [w.0] + rest
  }

  /** The arithmetic of one limb of a row. */
  lemma ScaleStep(l0: int, tl: int, rd: int, c: int, lo: int, hi: int, rest: int)
    requires lo + BASE * hi == l0 * rd + c && rest == tl * rd + hi
    ensures lo + BASE * rest == (l0 + BASE * tl) * rd + c
  {
    calc {
      lo + BASE * rest;
      lo + BASE * (tl * rd) + BASE * hi;
      l0 * rd + c + BASE * (tl * rd);
      { MulAssoc(BASE, tl, rd); }
      l0 * rd + c + (BASE * tl) * rd;
      (l0 + BASE * tl) * rd + c;
    }
  }

  lemma ScaleUnfold(L: seq<Limb>, j: nat, rd: Limb, carry: Limb)
    requires j < |L|
    ensures var w := MulStep(L[j], rd, carry);
      ScaleLimbs(L[j..], rd, carry) == [w.0] + ScaleLimbs(L[j + 1..], rd, w.1)
  {
    assert L[j..][1..] == L[j + 1..];
  }

  /** res is tmp with positions lo .. hi - 1 overwritten by the first limbs of
      S, and the last limb of S is returned as the carry. */
  predicate Passed(tmp: seq<Limb>, lo: nat, hi: nat, S: seq<Limb>, res: (seq<Limb>, Limb))
    requires lo <= hi <= |tmp| && |S| == hi - lo + 1
  {
    res.0 == tmp[..lo] + S[..hi - lo] + tmp[hi..] && res.1 == S[hi - lo]
  }

  /** The inner loop of row i: for j from j0 to |L| - 1, tmp[i + j] receives the
      low word of L[j] · rd + carry and the high word is carried; the final
      carry is returned. Together the written limbs and the carry are
      L[j0..] · rd + carry. */
  function RowPass(L: seq<Limb>, rd: Limb, i: nat, j: nat, carry: Limb, tmp: seq<Limb>): (res: (seq<Limb>, Limb))
    requires j <= |L| && i + |L| <= |tmp|
    ensures Passed(tmp, i + j, i + |L|, ScaleLimbs(L[j..], rd, carry), res)
    decreases |L| - j
  {
    if j == |L| then
      assert L[j..] == [];
      (tmp, carry)
    else
      var w := MulStep(L[j], rd, carry);
      var res := RowPass(L, rd, i, j + 1, w.1, tmp[i + j := w.0]);
      RowPassStep(L, rd, i, j, carry, tmp, res);
      res
  }

  /** One step of the inner loop: writing the low word of L[j] · rd + carry
      and passing over the rest with the high word is passing over L[j..]. */
  lemma RowPassStep(L: seq<Limb>, rd: Limb, i: nat, j: nat, carry: Limb, tmp: seq<Limb>, res: (seq<Limb>, Limb))
    requires j < |L| && i + |L| <= |tmp|
    requires var w := MulStep(L[j], rd, carry);
      Passed(tmp[i + j := w.0], i + j + 1, i + |L|, ScaleLimbs(L[j + 1..], rd, w.1), res)
    ensures Passed(tmp, i + j, i + |L|, ScaleLimbs(L[j..], rd, carry), res)
  {
    var w := MulStep(L[j], rd, carry);
    var S := ScaleLimbs(L[j + 1..], rd, w.1);
    ScaleUnfold(L, j, rd, carry);
    assert |S| == i + |L| - (i + j);
    PassStep(tmp, i + j, i + |L|, w.0, S, res);
  }

  /** Writing x at lo and then passing over lo + 1 .. hi is passing [x] + S over lo .. hi. */
  lemma PassStep(tmp: seq<Limb>, lo: nat, hi: nat, x: Limb, S: seq<Limb>, res: (seq<Limb>, Limb))
    requires lo < hi <= |tmp| && |S| == hi - lo
    requires Passed(tmp[lo := x], lo + 1, hi, S, res)
    ensures Passed(tmp, lo, hi, [x] + S, res)
  {
    var t := tmp[lo := x];
    assert t[..lo + 1] == tmp[..lo] + [x];
    assert ([x] + S)[..hi - lo] == [x] + S[..hi - (lo + 1)];
    assert t[hi..] == tmp[hi..];
    assert ([x] + S)[hi - lo] == S[hi - (lo + 1)];
  }

  /** The buffer after row i: L · R[i] placed at limb i, zero elsewhere. */
  function RowImage(L: seq<Limb>, R: seq<Limb>, i: nat): seq<Limb>
    requires i < |R|
  {
    Place(|L| + |R|, i, ScaleLimbs(L, R[i], 0))
  }

  /** What the buffer holds before row i: zeros before the first row, the
      previous row afterwards. */
  predicate BufferBefore(L: seq<Limb>, R: seq<Limb>, i: nat, tmp: seq<Limb>)
    requires i <= |R|
  {
    if i == 0 then tmp == Zeros(|L| + |R|) else tmp == RowImage(L, R, i - 1)
  }

  /** Row i of abs_mul: clear the stale limb tmp[i-1], run the inner loop, and
      store a nonzero final carry at tmp[i + |L|]. The buffer then holds
      exactly L · R[i] shifted by i limbs. */
  function Row(L: seq<Limb>, R: seq<Limb>, i: nat, tmp: seq<Limb>): (t: seq<Limb>)
    requires i < |R| && BufferBefore(L, R, i, tmp)
    ensures t == RowImage(L, R, i)
  {
    var t1 := Cleared(tmp, i);
    StaleCleared(L, R, i, tmp);
    var pass := RowPass(L, R[i], i, 0, 0, t1);
    assert L[0..] == L;
    PassedAt(t1, i, i + |L|, ScaleLimbs(L, R[i], 0), pass);
    RowFill(L, R, i, t1, pass);
    if pass.1 != 0 then pass.0[i + |L| := pass.1] else pass.0
  }

  /** The buffer with the stale limb i - 1 of the previous row cleared. */
  function Cleared(tmp: seq<Limb>, i: nat): (t: seq<Limb>)
    requires i <= |tmp|
    ensures |t| == |tmp|
  {
    if i > 0 then tmp[i - 1 := 0] else tmp
  }

  /** Once limb i - 1 is cleared, the buffer is zero outside limbs i .. i + |L| - 1. */
  lemma StaleCleared(L: seq<Limb>, R: seq<Limb>, i: nat, tmp: seq<Limb>)
    requires i < |R| && BufferBefore(L, R, i, tmp)
    ensures |tmp| == |L| + |R|
    ensures var t1 := Cleared(tmp, i);
      forall k | 0 <= k < |t1| && !(i <= k < i + |L|) :: t1[k] == 0
  {
  }

  /** Passed, limb by limb. */
  lemma PassedAt(tmp: seq<Limb>, lo: nat, hi: nat, S: seq<Limb>, res: (seq<Limb>, Limb))
    requires lo <= hi <= |tmp| && |S| == hi - lo + 1 && Passed(tmp, lo, hi, S, res)
    ensures |res.0| == |tmp| && res.1 == S[hi - lo]
    ensures forall k | 0 <= k < |tmp| :: res.0[k] == if lo <= k < hi then S[k - lo] else tmp[k]
  {
  }

  /** The buffer after the inner loop and the carry write is the row image:
      the stale limb i - 1 is cleared, limbs i .. i + |L| - 1 are written, and
      limb i + |L| holds the carry, or the zero it already held. */
  lemma RowFill(L: seq<Limb>, R: seq<Limb>, i: nat, t1: seq<Limb>, pass: (seq<Limb>, Limb))
    requires i < |R| && |t1| == |L| + |R|
    requires forall k | 0 <= k < |t1| && !(i <= k < i + |L|) :: t1[k] == 0
    requires var S := ScaleLimbs(L, R[i], 0);
      |pass.0| == |t1| && pass.1 == S[|L|] &&
      forall k | 0 <= k < |t1| :: pass.0[k] == if i <= k < i + |L| then S[k - i] else t1[k]
    ensures (if pass.1 != 0 then pass.0[i + |L| := pass.1] else pass.0) == RowImage(L, R, i)
  {
    var S := ScaleLimbs(L, R[i], 0);
    var t := if pass.1 != 0 then pass.0[i + |L| := pass.1] else pass.0;
    var img := RowImage(L, R, i);
    forall k | 0 <= k < |t|
      ensures t[k] == img[k]
    {
      PlaceAt(|L| + |R|, i, S, k);
      if k == i + |L| {
        assert t[k] == S[|L|];
      } else {
        assert t[k] == pass.0[k];
      }
    }
  }

  /** The row loop: add row i into the running result for i = i0 .. |R| - 1. */
  function MulRows(L: seq<Limb>, R: seq<Limb>, i: nat, tmp: seq<Limb>, acc: BigInt): (r: BigInt)
    requires i <= |R| && BufferBefore(L, R, i, tmp)
    requires !acc.nan && !acc.minus && Mag(acc) == Val(L) * Val(R[..i])
    ensures !r.nan && !r.minus && Mag(r) == Val(L) * Val(R)
    decreases |R| - i
  {
    if i == |R| then
      assert R[..i] == R;
      acc
    else
      var t := Row(L, R, i, tmp);
      var row := BigInt(t, false, false);
      var acc' := Add(acc, row);
      AddUnsigned(acc, row);
      RowAccumulates(L, R, i);
      MulRows(L, R, i + 1, t, acc')
  }

  /** The sum of two non-negative values is non-negative and spells the sum of
      their magnitudes. */
  lemma AddUnsigned(a: BigInt, b: BigInt)
    requires !a.nan && !a.minus && !b.nan && !b.minus
    ensures !Add(a, b).nan && !Add(a, b).minus && Mag(Add(a, b)) == Mag(a) + Mag(b)
  {
    NormalizedSign(Add(a, b));
  }

  /** Adding row i to L · R[..i] gives L · R[..i+1]. */
  lemma RowAccumulates(L: seq<Limb>, R: seq<Limb>, i: nat)
    requires i < |R|
    ensures Val(L) * Val(R[..i]) + Val(RowImage(L, R, i)) == Val(L) * Val(R[..i + 1])
  {
    ValPlace(|L| + |R|, i, ScaleLimbs(L, R[i], 0));
    ValPrefixStep(R, i);
    RowSum(Val(L), Val(R[..i]), R[i], Pow(BASE, i), Val(L) * Val(R[..i]),
           Val(RowImage(L, R, i)), Val(L) * Val(R[..i]) + Val(RowImage(L, R, i)));
  }

  /** The arithmetic of one row: L · R[..i] + L · R[i] · BASE^i = L · R[..i+1]. */
  lemma RowSum(vl: int, pre: int, ri: int, p: int, acc: int, row: int, sum: int)
    requires acc == vl * pre && row == p * (vl * ri + 0) && sum == acc + row
    ensures sum == vl * (pre + ri * p)
  {
    calc {
      sum;
      vl * pre + p * (vl * ri);
      { MulAssoc(p, vl, ri); MulAssoc(vl, ri, p); }
      vl * pre + vl * (ri * p);
    }
  }

  /** abs_mul: |a| · |b|, whatever the signs; NaN if either operand is NaN. */
  function AbsMul(a: BigInt, b: BigInt): (r: BigInt)
    ensures Normalized(r)
    ensures r.nan <==> a.nan || b.nan
    ensures !r.nan ==> !r.minus && IntVal(r) == Mag(a) * Mag(b)
  {
    if a.nan || b.nan then NaN()
    else
      var L := Abs(a).digits;
      var R := Abs(b).digits;
      assert R[..0] == [];
      Normalize(MulRows(L, R, 0, Zeros(|L| + |R|), BigInt([], false, false)))
  }

  /** Signed *: the magnitude product, negative exactly when the signs differ. */
  function Mul(a: BigInt, b: BigInt): (r: BigInt)
    ensures Normalized(r)
    ensures r.nan <==> a.nan || b.nan
    ensures !r.nan ==> IntVal(r) == IntVal(a) * IntVal(b)
  {
    var p := AbsMul(a, b);
    SignedProduct(a, b);
    Normalize(p.(minus := a.minus != b.minus, nan := a.nan || b.nan))
  }

  lemma SignedProduct(a: BigInt, b: BigInt)
    ensures IntVal(a) * IntVal(b) == if a.minus != b.minus then -(Mag(a) * Mag(b)) else Mag(a) * Mag(b)
  {
  }
}
