/** Little-endian base-2^32 digit sequences ("limbs"), the storage of a BigInt,
    and their value in the integers. */
module Limbs {
  import opened Arith

  const BASE: nat := 0x1_0000_0000

  /** One unsigned 32-bit digit. */
  type Limb = x: nat | x < 0x1_0000_0000

  /** The abstraction function: Σ ds[i] · 2^(32·i). */
  function Val(ds: seq<Limb>): nat
    decreases |ds|
  {
    if |ds| == 0 then 0 else ds[0] + BASE * Val(ds[1..])
  }

  /** Limb i of a loop that runs past the end of a shorter operand: ds[0], or 0. */
  function Head(ds: seq<Limb>): Limb {
    if |ds| == 0 then 0 else ds[0]
  }

  function Tail(ds: seq<Limb>): seq<Limb> {
    if |ds| == 0 then [] else ds[1..]
  }

  /** The low and high 32-bit halves of a 64-bit word. */
  function Low(v: nat): Limb {
    v % BASE
  }

  function High(v: nat): nat {
    v / BASE
  }

  function Zeros(n: nat): (z: seq<Limb>)
    ensures |z| == n
    ensures forall k :: 0 <= k < n ==> z[k] == 0
  {
    seq(n, _ => 0)
  }

  /** n limbs holding s starting at limb `offset`, zero elsewhere. */
  function Place(n: nat, offset: nat, s: seq<Limb>): (z: seq<Limb>)
    ensures |z| == n
  {
    seq(n, k => if offset <= k < offset + |s| then s[k - offset] else 0)
  }

  lemma PlaceAt(n: nat, offset: nat, s: seq<Limb>, k: nat)
    requires k < n
    ensures Place(n, offset, s)[k] == if offset <= k < offset + |s| then s[k - offset] else 0
  {
  }

  /** The storage invariant of every BigInt: at least one limb, and the top
      limb is nonzero unless the whole sequence is the single limb 0. */
  predicate Canonical(ds: seq<Limb>) {
    |ds| >= 1 && (|ds| == 1 || ds[|ds| - 1] != 0)
  }

  /** Pops most-significant zero limbs, possibly down to the empty sequence. */
  function Trim(ds: seq<Limb>): (r: seq<Limb>)
    ensures |r| <= |ds| && r == ds[..|r|]
    ensures |r| == 0 || r[|r| - 1] != 0
    ensures Val(r) == Val(ds)
    decreases |ds|
  {
    if |ds| > 0 && ds[|ds| - 1] == 0 then
      var r := Trim(ds[..|ds| - 1]);
      ValAppend(ds[..|ds| - 1], [0]);
      assert ds[..|ds| - 1] + [0] == ds;
      r
    else
      ds
  }

  function Reverse(ds: seq<Limb>): (r: seq<Limb>)
    ensures |r| == |ds|
    ensures forall k :: 0 <= k < |ds| ==> r[k] == ds[|ds| - 1 - k]
    decreases |ds|
  {
    if |ds| == 0 then [] else Reverse(ds[1..]) + [ds[0]]
  }

  lemma ValHeadTail(ds: seq<Limb>)
    ensures Val(ds) == Head(ds) + BASE * Val(Tail(ds))
  {
  }

  lemma ValSingle(x: Limb)
    ensures Val([x]) == x
  {
    assert [x][1..] == [];
  }

  lemma ValCons(x: Limb, rest: seq<Limb>)
    ensures Val([x] + rest) == x + BASE * Val(rest)
  {
    assert ([x] + rest)[1..] == rest;
  }

  lemma ValThree(x: Limb, y: Limb, z: Limb)
    ensures Val([x, y, z]) == x + BASE * (y + BASE * z)
  {
    assert [x, y, z][1..] == [y, z] && [y, z][1..] == [z];
    ValSingle(z);
  }

  lemma {:induction false} ValAppend(a: seq<Limb>, b: seq<Limb>)
    ensures Val(a + b) == Val(a) + Pow(BASE, |a|) * Val(b)
    decreases |a|
  {
    if |a| > 0 {
      assert (a + b)[1..] == a[1..] + b;
      ValAppend(a[1..], b);
      var p := Pow(BASE, |a| - 1);
      calc {
        Val(a + b);
        a[0] + BASE * Val(a[1..] + b);
        a[0] + BASE * (Val(a[1..]) + p * Val(b));
        a[0] + BASE * Val(a[1..]) + BASE * (p * Val(b));
        { MulAssoc(BASE, p, Val(b)); }
        Val(a) + Pow(BASE, |a|) * Val(b);
      }
    } else {
      assert a + b == b;
    }
  }

  lemma {:induction false} ValBound(ds: seq<Limb>)
    ensures Val(ds) < Pow(BASE, |ds|)
    decreases |ds|
  {
    if |ds| > 0 {
      ValBound(ds[1..]);
      MulMonotone(Val(ds[1..]) + 1, Pow(BASE, |ds| - 1), BASE);
    }
  }

  /** A sequence whose top limb is nonzero is at least BASE^(n-1). */
  lemma ValTopLower(ds: seq<Limb>)
    requires |ds| > 0 && ds[|ds| - 1] != 0
    ensures Val(ds) >= Pow(BASE, |ds| - 1)
  {
    var n := |ds| - 1;
    assert ds == ds[..n] + [ds[n]];
    ValAppend(ds[..n], [ds[n]]);
    ValSingle(ds[n]);
    PowPositive(BASE, n);
    MulMonotone(1, ds[n], Pow(BASE, n));
  }

  lemma ValSplit(ds: seq<Limb>, n: nat)
    requires n <= |ds|
    ensures Val(ds) == Val(ds[..n]) + Pow(BASE, n) * Val(ds[n..])
  {
    assert ds == ds[..n] + ds[n..];
    ValAppend(ds[..n], ds[n..]);
  }

  /** Adding limb n to a prefix adds ds[n] · BASE^n. */
  lemma ValPrefixStep(ds: seq<Limb>, n: nat)
    requires n < |ds|
    ensures Val(ds[..n + 1]) == Val(ds[..n]) + ds[n] * Pow(BASE, n)
  {
    assert ds[..n + 1] == ds[..n] + [ds[n]];
    ValAppend(ds[..n], [ds[n]]);
    ValSingle(ds[n]);
  }

  lemma {:induction false} ValZeros(n: nat)
    ensures Val(Zeros(n)) == 0
    decreases n
  {
    if n > 0 {
      assert Zeros(n)[1..] == Zeros(n - 1);
      ValZeros(n - 1);
    }
  }

  /** Placing s at limb `offset` scales its value by BASE^offset. */
  lemma ValPlace(n: nat, offset: nat, s: seq<Limb>)
    requires offset + |s| <= n
    ensures Val(Place(n, offset, s)) == Pow(BASE, offset) * Val(s)
  {
    var z := Place(n, offset, s);
    assert z == Zeros(offset) + (s + Zeros(n - offset - |s|));
    ValAppend(Zeros(offset), s + Zeros(n - offset - |s|));
    ValAppend(s, Zeros(n - offset - |s|));
    ValZeros(offset);
    ValZeros(n - offset - |s|);
  }

  /** Two sequences of the same length and value are the same sequence. */
  lemma {:induction false} SameLengthSameVal(a: seq<Limb>, b: seq<Limb>)
    requires |a| == |b| && Val(a) == Val(b)
    ensures a == b
    decreases |a|
  {
    if |a| > 0 {
      DivUnique(Val(a), BASE, Val(a[1..]), a[0]);
      DivUnique(Val(b), BASE, Val(b[1..]), b[0]);
      SameLengthSameVal(a[1..], b[1..]);
      assert a == [a[0]] + a[1..] && b == [b[0]] + b[1..];
    }
  }

  /** Among canonical sequences, the smaller value never has more limbs. */
  lemma CanonicalLength(a: seq<Limb>, b: seq<Limb>)
    requires Canonical(a) && Canonical(b) && Val(a) <= Val(b)
    ensures |a| <= |b|
  {
    if |a| > |b| {
      ValTopLower(a);
      ValBound(b);
      PowMonotone(BASE, |b|, |a| - 1);
      assert false;
    }
  }

  lemma CanonicalLonger(a: seq<Limb>, b: seq<Limb>)
    requires Canonical(a) && Canonical(b) && |a| > |b|
    ensures Val(a) > Val(b)
  {
    if Val(a) <= Val(b) {
      CanonicalLength(a, b);
    }
  }

  /** The canonical sequence of a value is unique. */
  lemma CanonicalUnique(a: seq<Limb>, b: seq<Limb>)
    requires Canonical(a) && Canonical(b) && Val(a) == Val(b)
    ensures a == b
  {
    CanonicalLength(a, b);
    CanonicalLength(b, a);
    SameLengthSameVal(a, b);
  }

  /** A canonical value below BASE is stored as one limb. */
  lemma CanonicalSmall(ds: seq<Limb>)
    requires Canonical(ds) && Val(ds) < BASE
    ensures ds == [Val(ds)]
  {
    ValSingle(Val(ds));
    CanonicalUnique(ds, [Val(ds)]);
  }

  lemma ReverseSnoc(acc: seq<Limb>, x: Limb)
    ensures Val(Reverse(acc + [x])) == x + BASE * Val(Reverse(acc))
  {
    var r := Reverse(acc + [x]);
    assert r == [x] + Reverse(acc);
    assert r[1..] == Reverse(acc);
  }
}
