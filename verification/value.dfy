/** The BigInt value: limbs, a sign flag and an invalid-result (NaN) flag, its
    meaning in the integers, normalisation, sign operations and construction
    from native integers (bigint.hpp:16-184, 352-358). */
module Value {
  import opened Arith
  import opened Limbs

  datatype BigInt = BigInt(digits: seq<Limb>, minus: bool, nan: bool)

  /** Why a fallible operation gave no value: a character `std::stoul` rejects,
      or the subtract kernel ending with an unresolved borrow. */
  datatype Fault = ParseError(index: nat) | CarryError

  datatype Result<T> = Ok(value: T) | Fail(fault: Fault)

  /** The magnitude, |x|, read from the limbs alone. */
  function Mag(x: BigInt): nat {
    Val(x.digits)
  }

  /** The integer a non-NaN value stands for; a negative zero stands for 0. */
  function IntVal(x: BigInt): int {
    var m: int := Val(x.digits);
    if x.minus then -m else m
  }

  /** The form every operator leaves its result in: canonical limbs, no
      negative zero, and NaN only as the single canonical NaN. */
  predicate Normalized(x: BigInt) {
    if x.nan then x.digits == [0] && !x.minus
    else Canonical(x.digits) && (Val(x.digits) == 0 ==> !x.minus)
  }

  /** The value zeroize() leaves, which is also what BigInt() constructs. */
  function Zeroize(): (r: BigInt)
    ensures Normalized(r) && !r.nan && IntVal(r) == 0
  {
    BigInt([0], false, false)
  }

  /** The canonical invalid value. */
  function NaN(): (r: BigInt)
    ensures Normalized(r) && r.nan
  {
    Zeroize().(nan := true)
  }

  function Normalize(x: BigInt): (r: BigInt)
    ensures Normalized(r)
    ensures r.nan == x.nan
    ensures !x.nan ==> IntVal(r) == IntVal(x)
    ensures !x.nan && Mag(x) != 0 ==> r.minus == x.minus
    ensures !x.nan && !x.minus ==> !r.minus
  {
    if x.nan then NaN()
    else
      var ds := Trim(x.digits);
      if |ds| == 0 then Zeroize()
      else
        ValTopLower(ds);
        PowPositive(BASE, |ds| - 1);
        x.(digits := ds)
  }

  /** Unary minus flips the sign without normalising, so -0 is a negative zero. */
  function Neg(x: BigInt): (r: BigInt)
    ensures r.nan == x.nan && Mag(r) == Mag(x)
    ensures IntVal(r) == -IntVal(x)
    ensures r.digits == x.digits && r.minus == !x.minus
  {
    x.(minus := !x.minus)
  }

  function Abs(x: BigInt): (r: BigInt)
    ensures r.nan == x.nan && !r.minus
    ensures IntVal(r) == Mag(x) && Mag(r) == Mag(x)
  {
    x.(minus := false)
  }

  /** BigInt(uint32_t). */
  function FromU32(v: Limb): (r: BigInt)
    ensures Normalized(r) && !r.nan && IntVal(r) == v
  {
    ValSingle(v);
    BigInt([v], false, false)
  }

  /** BigInt(uint64_t): the low and high halves, then normalised. */
  function FromU64(v: nat): (r: BigInt)
    requires v < 0x1_0000_0000_0000_0000
    ensures Normalized(r) && !r.nan && IntVal(r) == v
  {
    SplitValue(v);
    Normalize(BigInt([Low(v), High(v)], false, false))
  }

  /** BigInt(int32_t); std::abs of the most negative int32_t is undefined. */
  function FromI32(v: int): (r: BigInt)
    requires -0x8000_0000 < v < 0x8000_0000
    ensures Normalized(r) && !r.nan && IntVal(r) == v
  {
    ValSingle(if v < 0 then -v else v);
    BigInt([if v < 0 then -v else v], v < 0, false)
  }

  /** BigInt(int64_t); std::abs of the most negative int64_t is undefined. */
  function FromI64(v: int): (r: BigInt)
    requires -0x8000_0000_0000_0000 < v < 0x8000_0000_0000_0000
    ensures Normalized(r) && !r.nan && IntVal(r) == v
  {
    var a := if v < 0 then -v else v;
    SplitValue(a);
    Normalize(BigInt([Low(a), High(a)], v < 0, false))
  }

  lemma SplitValue(v: nat)
    requires v < 0x1_0000_0000_0000_0000
    ensures High(v) < BASE
    ensures Val([Low(v), High(v) as Limb]) == v
  {
    assert [Low(v), High(v) as Limb][1..] == [High(v) as Limb];
    ValSingle(High(v) as Limb);
  }

  /** Normalize changes nothing exactly on normalised values, so it is idempotent. */
  lemma NormalizeFixpoints(x: BigInt)
    ensures Normalized(x) <==> Normalize(x) == x
    ensures Normalize(Normalize(x)) == Normalize(x)
  {
    if Normalized(x) && !x.nan {
      var ds := x.digits;
      if |ds| == 1 && ds[0] == 0 {
        assert Trim(ds) == [];
      } else {
        assert Trim(ds) == ds;
      }
    }
    var n := Normalize(x);
    if !n.nan {
      assert Trim(n.digits) == n.digits || (n.digits == [0] && Trim(n.digits) == []);
    }
  }

  /** On normalised values, a negative sign means a strictly negative integer. */
  lemma NormalizedSign(x: BigInt)
    requires Normalized(x) && !x.nan
    ensures x.minus <==> IntVal(x) < 0
  {
  }

  /** A normalised value is determined by the integer it stands for. */
  lemma NormalizedUnique(a: BigInt, b: BigInt)
    requires Normalized(a) && Normalized(b) && !a.nan && !b.nan
    ensures IntVal(a) == IntVal(b) <==> a == b
  {
    if IntVal(a) == IntVal(b) {
      CanonicalUnique(a.digits, b.digits);
    }
  }

  lemma NegInvolution(x: BigInt)
    ensures Neg(Neg(x)) == x
  {
  }
}
