/**
 * The evidently intended versions of the operations whose code as written
 * computes something else: `addAbs` and `subtractAbs` without the seed limb
 * and with a borrow, `subtract` with the sign of its last branch fixed,
 * `multiply_simple` over the fixed `add`, a Karatsuba split into a low and a
 * high half, a `negate` that leaves zero Positive, and a `toString` that
 * prints every decimal digit.
 */
module Corrected {
  import opened Limbs
  import opened Representation
  import opened Results
  import opened Construct
  import opened Additive
  import opened Multiplicative
  import opened Conversion

  function Max(m: nat, n: nat): nat
  {
    if m >= n then m else n
  }

  // ---------------------------------------------------------------------------
  // addAbs and subtractAbs

  /** `addAbs` with the loop's limbs only: the exact sum of the magnitudes. */
  function FixedAddAbs(a: SuperLong, b: SuperLong): (r: SuperLong)
    ensures Canonical(r) && r.sign == Positive
    ensures Val(r.digits) == Val(a.digits) + Val(b.digits)
    ensures |r.digits| <= Max(|a.digits|, |b.digits|) + 1
  {
    AddLoopEncodes(a.digits, b.digits, 0);
    var ds := AddLoop(a.digits, b.digits, 0);
    ValSingle(0);
    var x := SuperLong(Positive, if |ds| == 0 then [0] else ds);
    TrimCanonical(x);
    Trim(x)
  }

  /** The loop of `subtractAbs` with a borrow: a limb below 0 takes 256 from the next position. */
  function BorrowLoop(a: seq<Limb>, b: seq<Limb>, borrow: nat): (r: seq<Limb>)
    requires borrow <= 1
    ensures |r| == Max(|a|, |b|)
    decreases |a| + |b|
  {
    if |a| == 0 && |b| == 0 then []
    else
      var diff := Low(a) - Low(b) - borrow;
      if diff < 0 then [diff + 256] + BorrowLoop(Rest(a), Rest(b), 1)
      else [diff] + BorrowLoop(Rest(a), Rest(b), 0)
  }

  /** One position of the subtraction: what is left above it still covers the borrow it passes up. */
  lemma BorrowArith(x: int, y: int, borrow: int, va: int, vb: int)
    requires 0 <= x < 256 && 0 <= y < 256 && 0 <= borrow <= 1
    requires x + 256 * va >= y + 256 * vb + borrow
    ensures va >= vb + (if x - y - borrow < 0 then 1 else 0)
  {
  }

  /** Where a covers b and the borrow, the loop's limbs encode the difference. */
  lemma {:induction false} BorrowLoopEncodes(a: seq<Limb>, b: seq<Limb>, borrow: nat)
    requires borrow <= 1 && Val(a) >= Val(b) + borrow
    ensures Val(BorrowLoop(a, b, borrow)) == Val(a) - Val(b) - borrow
    decreases |a| + |b|
  {
    ValRest(a);
    ValRest(b);
    if |a| != 0 || |b| != 0 {
      var diff := Low(a) - Low(b) - borrow;
      var next := if diff < 0 then 1 else 0;
      BorrowArith(Low(a), Low(b), borrow, Val(Rest(a)), Val(Rest(b)));
      BorrowLoopEncodes(Rest(a), Rest(b), next);
      var r := BorrowLoop(a, b, borrow);
      assert r[1..] == BorrowLoop(Rest(a), Rest(b), next);
    }
  }

  lemma BorrowLoopCovered(a: seq<Limb>, b: seq<Limb>)
    ensures Val(a) >= Val(b) ==> Val(BorrowLoop(a, b, 0)) == Val(a) - Val(b)
  {
    if Val(a) >= Val(b) {
      BorrowLoopEncodes(a, b, 0);
    }
  }

  /** `subtractAbs` with a borrow and without the seed limb: for |a| >= |b|, the exact difference. */
  function FixedSubtractAbs(a: SuperLong, b: SuperLong): (r: SuperLong)
    ensures Canonical(r) && r.sign == Positive
    ensures Val(a.digits) >= Val(b.digits) ==> Val(r.digits) == Val(a.digits) - Val(b.digits)
    ensures |r.digits| <= Max(|a.digits|, |b.digits|) || |r.digits| == 1
  {
    BorrowLoopCovered(a.digits, b.digits);
    var ds := BorrowLoop(a.digits, b.digits, 0);
    ValSingle(0);
    var x := SuperLong(Positive, if |ds| == 0 then [0] else ds);
    TrimCanonical(x);
    Trim(x)
  }

  // ---------------------------------------------------------------------------
  // add and subtract

  /** `add` over the fixed magnitude operations. */
  function FixedAdd(a: SuperLong, b: SuperLong): (r: SuperLong)
    ensures Normalised(r.digits)
    ensures a.sign == Positive && b.sign == Positive ==> r.sign == Positive && Val(r.digits) == Val(a.digits) + Val(b.digits)
  {
    if a.sign == b.sign then FixedAddAbs(a, b).(sign := a.sign)
    else
      var cmp := AbsCmp(a, b);
      if cmp == 0 then Zero()
      else if cmp > 0 then FixedSubtractAbs(a, b).(sign := a.sign)
      else FixedSubtractAbs(b, a).(sign := b.sign)
  }

  /** `subtract` over the fixed magnitude operations, with |a| < |b| taking the sign opposite to a's. */
  function FixedSubtract(a: SuperLong, b: SuperLong): (r: SuperLong)
    ensures Normalised(r.digits)
  {
    if a.sign != b.sign then FixedAddAbs(a, b).(sign := a.sign)
    else
      var cmp := AbsCmp(a, b);
      if cmp == 0 then Zero()
      else if cmp > 0 then FixedSubtractAbs(a, b).(sign := a.sign)
      else FixedSubtractAbs(b, a).(sign := Flip(a.sign))
  }

  /** A positive magnitude under a normalised vector is not the zero vector. */
  lemma PositiveNotZero(x: SuperLong)
    requires Val(x.digits) > 0
    ensures !IsZero(x)
  {
    if |x.digits| == 1 {
      assert x.digits == [x.digits[0]];
      ValSingle(x.digits[0]);
    }
  }

  /** A magnitude given the sign s stands for +/- its value, and is canonical when it is positive or s is Positive. */
  lemma SignedMagnitude(m: SuperLong, s: Sign, v: int)
    requires Canonical(m) && m.sign == Positive && Val(m.digits) == v
    ensures ToInt(m.(sign := s)) == (if s == Negative then -v else v)
    ensures v > 0 || s == Positive ==> Canonical(m.(sign := s))
  {
    if v > 0 {
      PositiveNotZero(m);
    }
  }

  /** Of two normalised magnitudes, the one `abscmp` calls larger is larger by the difference. */
  lemma LargerMagnitude(a: SuperLong, b: SuperLong)
    requires Normalised(a.digits) && Normalised(b.digits) && AbsCmp(a, b) > 0
    ensures Val(FixedSubtractAbs(a, b).digits) == Val(a.digits) - Val(b.digits) > 0
  {
    assert Val(a.digits) > Val(b.digits) by {
      AbsCmpByValue(a, b);
    }
  }

  /** A canonical non-Positive value has a positive magnitude. */
  lemma CanonicalNegative(a: SuperLong)
    requires Canonical(a) && a.sign == Negative
    ensures Val(a.digits) > 0
  {
    NormalisedNonZero(a.digits);
  }

  /** Equal magnitudes cancel to the canonical zero. */
  lemma EqualMagnitudes(a: SuperLong, b: SuperLong)
    requires AbsCmp(a, b) == 0
    ensures Val(a.digits) == Val(b.digits) && ToInt(Zero()) == 0 && Canonical(Zero())
  {
    ValSingle(0);
  }

  /** The fixed `add` is integer addition and keeps values canonical. */
  lemma FixedAddValue(a: SuperLong, b: SuperLong)
    requires Normalised(a.digits) && Normalised(b.digits)
    ensures ToInt(FixedAdd(a, b)) == ToInt(a) + ToInt(b)
    ensures Canonical(a) && Canonical(b) ==> Canonical(FixedAdd(a, b))
  {
    var r := FixedAdd(a, b);
    if a.sign == b.sign {
      assert r == FixedAddAbs(a, b).(sign := a.sign);
      if Canonical(a) && a.sign == Negative {
        CanonicalNegative(a);
      }
      SignedMagnitude(FixedAddAbs(a, b), a.sign, Val(a.digits) + Val(b.digits));
    } else if AbsCmp(a, b) == 0 {
      assert r == Zero();
      EqualMagnitudes(a, b);
    } else if AbsCmp(a, b) > 0 {
      assert r == FixedSubtractAbs(a, b).(sign := a.sign);
      LargerMagnitude(a, b);
      SignedMagnitude(FixedSubtractAbs(a, b), a.sign, Val(a.digits) - Val(b.digits));
    } else {
      assert r == FixedSubtractAbs(b, a).(sign := b.sign);
      AbsCmpAntisymmetric(a, b);
      LargerMagnitude(b, a);
      SignedMagnitude(FixedSubtractAbs(b, a), b.sign, Val(b.digits) - Val(a.digits));
    }
  }

  /** The fixed `subtract` is integer subtraction and keeps values canonical. */
  lemma FixedSubtractValue(a: SuperLong, b: SuperLong)
    requires Normalised(a.digits) && Normalised(b.digits)
    ensures ToInt(FixedSubtract(a, b)) == ToInt(a) - ToInt(b)
    ensures Canonical(a) && Canonical(b) ==> Canonical(FixedSubtract(a, b))
  {
    var r := FixedSubtract(a, b);
    if a.sign != b.sign {
      assert r == FixedAddAbs(a, b).(sign := a.sign);
      if Canonical(a) && Canonical(b) {
        if a.sign == Negative {
          CanonicalNegative(a);
        } else {
          CanonicalNegative(b);
        }
      }
      SignedMagnitude(FixedAddAbs(a, b), a.sign, Val(a.digits) + Val(b.digits));
    } else if AbsCmp(a, b) == 0 {
      assert r == Zero();
      EqualMagnitudes(a, b);
    } else if AbsCmp(a, b) > 0 {
      assert r == FixedSubtractAbs(a, b).(sign := a.sign);
      LargerMagnitude(a, b);
      SignedMagnitude(FixedSubtractAbs(a, b), a.sign, Val(a.digits) - Val(b.digits));
    } else {
      assert r == FixedSubtractAbs(b, a).(sign := Flip(a.sign));
      AbsCmpAntisymmetric(a, b);
      LargerMagnitude(b, a);
      SignedMagnitude(FixedSubtractAbs(b, a), Flip(a.sign), Val(b.digits) - Val(a.digits));
    }
  }

  /** With the sign fixed, subtracting is adding the negation, for every pair of values. */
  lemma FixedSubtractIsAddNegated(a: SuperLong, b: SuperLong)
    ensures FixedSubtract(a, b) == FixedAdd(a, Negated(b))
  {
  }

  /** As written, the same identity fails: (-1) - (-3) is negative while (-1) + 3 is not. */
  lemma SubtractIsNotAddNegated()
    ensures Subtract(FromInt64(-1), FromInt64(-3)) != Add(FromInt64(-1), Negated(FromInt64(-3)))
  {
    var a, b := FromInt64(-1), FromInt64(-3);
    FromInt64Exact(-1);
    FromInt64Exact(-3);
    AbsCmpByValue(a, b);
    SubtractSmallerIsNegative(a, b);
    AbsCmpAntisymmetric(a, b);
  }

  // ---------------------------------------------------------------------------
  // multiply_simple

  lemma FixedFoldArith(l: int, d: int, p: int, v: int)
    ensures (l + d * p) * v == l * v + p * (d * v)
  {
    assert (l + d * p) * v == l * v + (d * p) * v;
  }

  /** `result` of `multiply_simple` after n turns, added up with the fixed `add`: the low n limbs of a times b. */
  function FixedMultiplySimpleFold(a: SuperLong, b: SuperLong, n: nat): (f: SuperLong)
    requires n <= |a.digits|
    ensures f.sign == Positive
    ensures n >= 1 ==> Canonical(f)
    ensures Val(f.digits) == Val(a.digits[..n]) * Val(b.digits)
  {
    if n == 0 then
      assert a.digits[..0] == [];
      SuperLong(Positive, [])
    else
      var f := FixedMultiplySimpleFold(a, b, n - 1);
      FixedFoldStep(a, b, n, f);
      FixedAdd(f, PartialProduct(a, b, n - 1))
  }

  /** One turn of the fixed fold adds a_(n-1) * 256^(n-1) * |b|. */
  lemma FixedFoldStep(a: SuperLong, b: SuperLong, n: nat, f: SuperLong)
    requires 1 <= n <= |a.digits| && f.sign == Positive
    requires Val(f.digits) == Val(a.digits[..n - 1]) * Val(b.digits)
    ensures var r := FixedAdd(f, PartialProduct(a, b, n - 1));
      r.sign == Positive && Canonical(r) && Val(r.digits) == Val(a.digits[..n]) * Val(b.digits)
  {
    assert Val(a.digits[..n]) * Val(b.digits) == Val(a.digits[..n - 1]) * Val(b.digits) + Pow256(n - 1) * (a.digits[n - 1] * Val(b.digits)) by {
      assert a.digits[..n] == a.digits[..n - 1] + [a.digits[n - 1]];
      ValSnoc(a.digits[..n - 1], a.digits[n - 1]);
      FixedFoldArith(Val(a.digits[..n - 1]), a.digits[n - 1], Pow256(n - 1), Val(b.digits));
    }
  }

  /** `multiply_simple` over the fixed `add`: the exact product of the magnitudes. */
  function FixedMultiplySimple(a: SuperLong, b: SuperLong): (r: SuperLong)
    ensures r.sign == Positive
    ensures |a.digits| >= 1 ==> Canonical(r)
    ensures Val(r.digits) == Val(a.digits) * Val(b.digits)
  {
    var f := FixedMultiplySimpleFold(a, b, |a.digits|);
    assert a.digits[..|a.digits|] == a.digits;
    if |a.digits| >= 1 then TrimCanonicalFixed(f); Trim(f) else Trim(f)
  }

  /** For 12 * 3 the fixed `multiply_simple` gives 36 where the code as written gives 9216. */
  lemma FixedMultiplyExample()
    ensures Val(FixedMultiplySimple(FromInt64(12), FromInt64(3)).digits) == 36
  {
    FromInt64Small(12);
    FromInt64Small(3);
    ValSingle(12);
    ValSingle(3);
  }

  // ---------------------------------------------------------------------------
  // multiply_karatsuba

  /** The low m limbs of x, normalised and Positive: x modulo 256^m. */
  function LowHalf(x: SuperLong, m: nat): (r: SuperLong)
    requires 1 <= m <= |x.digits|
    ensures Canonical(r) && r.sign == Positive && |r.digits| <= m
  {
    var y := SuperLong(Positive, x.digits[..m]);
    TrimCanonical(y);
    Trim(y)
  }

  /**
   * The limbs of the Positive x from m up, normalised: x divided by 256^m
   * (HighHalfIsShift). With the low half it gives x back as high * 256^m + low.
   */
  function HighHalf(x: SuperLong, m: nat): (r: SuperLong)
    requires 1 <= m < |x.digits| && x.sign == Positive
    ensures Canonical(r) && r.sign == Positive && 1 <= |r.digits| <= |x.digits| - m
    ensures Val(x.digits) == Mul(Val(r.digits), Pow256(m)) + Val(LowHalf(x, m).digits)
  {
    var y := SuperLong(Positive, x.digits[m..]);
    TrimCanonical(y);
    TrimCanonical(SuperLong(Positive, x.digits[..m]));
    ValTake(x.digits, m);
    MulShift(Val(x.digits[m..]), m);
    Trim(y)
  }

  /** The high half is exactly what `divid256n(m)` returns for x. */
  lemma HighHalfIsShift(x: SuperLong, m: nat)
    requires 1 <= m < |x.digits| && x.sign == Positive
    ensures HighHalf(x, m) == Divid256n(x, m)
  {
  }

  /** The low half holds the value of the limbs below m, the high half that of the limbs from m up. */
  lemma HalfValues(x: SuperLong, m: nat)
    requires 1 <= m < |x.digits| && x.sign == Positive
    ensures Val(LowHalf(x, m).digits) == Val(x.digits[..m])
    ensures Val(HighHalf(x, m).digits) == Val(x.digits[m..])
  {
    TrimCanonical(SuperLong(Positive, x.digits[..m]));
    TrimCanonical(SuperLong(Positive, x.digits[m..]));
  }

  /** A canonical value with no negative integer is Positive, and its integer is its magnitude. */
  lemma CanonicalNonNegative(r: SuperLong)
    requires Canonical(r) && ToInt(r) >= 0
    ensures r.sign == Positive && ToInt(r) == Val(r.digits)
  {
    if r.sign == Negative {
      CanonicalNegative(r);
    }
  }

  /** `multi256n` of a canonical value is canonical and multiplies the integer by 256^k. */
  lemma ShiftCanonical(z: SuperLong, k: nat)
    requires Canonical(z)
    ensures Canonical(Multi256n(z, k)) && ToInt(Multi256n(z, k)) == Pow256(k) * ToInt(z)
  {
    var r := Multi256n(z, k);
    if IsZero(z) {
      ValSingle(0);
    } else if k > 0 {
      assert r.digits[|r.digits| - 1] == z.digits[|z.digits| - 1];
      PositiveNotZero(z) by {
        NormalisedNonZero(z.digits);
      }
      assert !IsZero(r);
    }
  }

  lemma KaratsubaArith(p: int, ha: int, lb: int, hc: int, ld: int)
    ensures (p * p) * (ha * hc) + p * ((ha + lb) * (hc + ld) - ha * hc - lb * ld) + lb * ld
         == (p * ha + lb) * (p * hc + ld)
  {
    assert (ha + lb) * (hc + ld) == ha * hc + ha * ld + lb * hc + lb * ld;
    assert (p * ha + lb) * (p * hc + ld) == (p * ha) * (p * hc) + (p * ha) * ld + lb * (p * hc) + lb * ld;
    assert (p * ha) * (p * hc) == (p * p) * (ha * hc);
    assert (p * ha) * ld + lb * (p * hc) == p * (ha * ld + lb * hc);
  }

  /** The combination `z2 << 2m + (z1 - z2 - z0) << m + z0`, with the fixed `add` and `subtract`. */
  function Recombine(z0: SuperLong, z1: SuperLong, z2: SuperLong, m: nat): SuperLong
  {
    FixedAdd(FixedAdd(Multi256n(z2, 2 * m), Multi256n(FixedSubtract(FixedSubtract(z1, z2), z0), m)), z0)
  }

  /** The recombination is exact once its parts are canonical: z2 * 256^(2m) + (z1 - z2 - z0) * 256^m + z0. */
  lemma RecombineValue(z0: SuperLong, z1: SuperLong, z2: SuperLong, m: nat)
    requires Canonical(z0) && Canonical(z1) && Canonical(z2)
    ensures Canonical(Recombine(z0, z1, z2, m))
    ensures ToInt(Recombine(z0, z1, z2, m))
         == Mul(ToInt(z2), Pow256(2 * m)) + Mul(ToInt(z1) - ToInt(z2) - ToInt(z0), Pow256(m)) + ToInt(z0)
  {
    var mid := FixedSubtract(FixedSubtract(z1, z2), z0);
    assert Canonical(mid) && ToInt(mid) == ToInt(z1) - ToInt(z2) - ToInt(z0) by {
      MiddleValue(z0, z1, z2);
    }
    var sum := FixedAdd(Multi256n(z2, 2 * m), Multi256n(mid, m));
    assert Canonical(sum) && ToInt(sum) == Mul(ToInt(z2), Pow256(2 * m)) + Mul(ToInt(mid), Pow256(m)) by {
      ShiftedSum(z2, mid, m);
    }
    var r := FixedAdd(sum, z0);
    assert Canonical(r) && ToInt(r) == ToInt(sum) + ToInt(z0) by {
      FixedAddValue(sum, z0);
    }
    assert r == Recombine(z0, z1, z2, m);
    MulArgs(ToInt(mid), ToInt(z1) - ToInt(z2) - ToInt(z0), Pow256(m), Pow256(m));
  }

  /** The middle term z1 - z2 - z0. */
  lemma MiddleValue(z0: SuperLong, z1: SuperLong, z2: SuperLong)
    requires Canonical(z0) && Canonical(z1) && Canonical(z2)
    ensures Canonical(FixedSubtract(FixedSubtract(z1, z2), z0))
    ensures ToInt(FixedSubtract(FixedSubtract(z1, z2), z0)) == ToInt(z1) - ToInt(z2) - ToInt(z0)
  {
    FixedSubtractValue(z1, z2);
    FixedSubtractValue(FixedSubtract(z1, z2), z0);
  }

  /** The two shifted terms added up. */
  lemma ShiftedSum(z2: SuperLong, mid: SuperLong, m: nat)
    requires Canonical(mid) && Canonical(z2)
    ensures Canonical(FixedAdd(Multi256n(z2, 2 * m), Multi256n(mid, m)))
    ensures ToInt(FixedAdd(Multi256n(z2, 2 * m), Multi256n(mid, m))) == Mul(ToInt(z2), Pow256(2 * m)) + Mul(ToInt(mid), Pow256(m))
  {
    ShiftCanonical(z2, 2 * m);
    ShiftCanonical(mid, m);
    FixedAddValue(Multi256n(z2, 2 * m), Multi256n(mid, m));
    MulShift(ToInt(z2), 2 * m);
    MulShift(ToInt(mid), m);
  }

  /** Both calls to the fixed `add` on the halves stay shorter than the operand they split. */
  lemma HalvesShorter(x: SuperLong, m: nat)
    requires 16 <= m && 2 * m <= |x.digits| && x.sign == Positive
    ensures |FixedAdd(HighHalf(x, m), LowHalf(x, m)).digits| < |x.digits|
    ensures FixedAdd(HighHalf(x, m), LowHalf(x, m)) == FixedAddAbs(HighHalf(x, m), LowHalf(x, m))
  {
  }

  /**
   * Multiplication as repeated addition. The Karatsuba recursion states its
   * products with it, so that its proof obligations hold no nonlinear terms;
   * `MulIsProduct` ties it to `*`.
   */
  function Mul(a: int, b: nat): int
  {
    if b == 0 then 0 else Mul(a, b - 1) + a
  }

  lemma {:induction false} MulIsProduct(a: int, b: nat)
    ensures Mul(a, b) == a * b
  {
    if b > 0 {
      MulIsProduct(a, b - 1);
    }
  }

  lemma PowDouble(m: nat)
    ensures Pow256(2 * m) == Pow256(m) * Pow256(m)
  {
    PowAdd(m, m);
    assert m + m == 2 * m;
  }

  /** Shifting by 256^k, as `Mul`. */
  lemma MulShift(v: int, k: nat)
    ensures Mul(v, Pow256(k)) == Pow256(k) * v
  {
    MulIsProduct(v, Pow256(k));
  }

  /** `Mul` of equal arguments. */
  lemma MulArgs(x: int, x': int, y: nat, y': nat)
    requires x == x' && y == y'
    ensures Mul(x, y) == Mul(x', y')
  {
  }

  /** The Karatsuba identity on integers: high/low halves at p = 256^m, q = p * p. */
  lemma KaratsubaInts(vx: int, vy: int, p: int, q: int, ha: int, lb: int, hc: int, ld: int, v0: int, v1: int, v2: int, r: int)
    requires vx == p * ha + lb && vy == p * hc + ld && q == p * p
    requires v0 == lb * ld && v1 == (ha + lb) * (hc + ld) && v2 == ha * hc
    requires r == q * v2 + p * (v1 - v2 - v0) + v0
    requires vx >= 0 && vy >= 0
    ensures r == vx * vy && r >= 0
  {
    KaratsubaArith(p, ha, lb, hc, ld);
  }

  /** The Karatsuba identity over `Mul`. */
  lemma KaratsubaMul(vx: nat, vy: nat, m: nat, ha: nat, lb: nat, hc: nat, ld: nat, v0: int, v1: int, v2: int, r: int)
    requires vx == Mul(ha, Pow256(m)) + lb && vy == Mul(hc, Pow256(m)) + ld
    requires v0 == Mul(lb, ld) && v1 == Mul(ha + lb, hc + ld) && v2 == Mul(ha, hc)
    requires r == Mul(v2, Pow256(2 * m)) + Mul(v1 - v2 - v0, Pow256(m)) + v0
    ensures r == Mul(vx, vy) && r >= 0
  {
    MulShift(ha, m);
    MulShift(hc, m);
    MulShift(v2, 2 * m);
    MulShift(v1 - v2 - v0, m);
    MulIsProduct(lb, ld);
    MulIsProduct(ha + lb, hc + ld);
    MulIsProduct(ha, hc);
    MulIsProduct(vx, vy);
    PowDouble(m);
    KaratsubaInts(vx, vy, Pow256(m), Pow256(2 * m), ha, lb, hc, ld, v0, v1, v2, r);
  }

  /** One level of the fixed Karatsuba, on integers: the three products of the halves recombine into x * y. */
  lemma KaratsubaCombine(vx: nat, vy: nat, m: nat, ha: nat, lb: nat, hc: nat, ld: nat, v0: int, v1: int, v2: int)
    requires vx == Mul(ha, Pow256(m)) + lb && vy == Mul(hc, Pow256(m)) + ld
    requires v0 == Mul(lb, ld) && v1 == Mul(ha + lb, hc + ld) && v2 == Mul(ha, hc)
    ensures Mul(v2, Pow256(2 * m)) + Mul(v1 - v2 - v0, Pow256(m)) + v0 == Mul(vx, vy)
    ensures Mul(vx, vy) >= 0
  {
    KaratsubaMul(vx, vy, m, ha, lb, hc, ld, v0, v1, v2, Mul(v2, Pow256(2 * m)) + Mul(v1 - v2 - v0, Pow256(m)) + v0);
  }

  /** Once its Positive parts recombine to a non-negative t, the recombination is the canonical Positive value t. */
  lemma RecombineExact(z0: SuperLong, z1: SuperLong, z2: SuperLong, m: nat, t: int)
    requires Canonical(z0) && Canonical(z1) && Canonical(z2)
    requires z0.sign == Positive && z1.sign == Positive && z2.sign == Positive
    requires Mul(Val(z2.digits), Pow256(2 * m)) + Mul(Val(z1.digits) - Val(z2.digits) - Val(z0.digits), Pow256(m)) + Val(z0.digits) == t
    requires t >= 0
    ensures Canonical(Recombine(z0, z1, z2, m)) && Recombine(z0, z1, z2, m).sign == Positive
    ensures Val(Recombine(z0, z1, z2, m).digits) == t
  {
    assert Mul(ToInt(z2), Pow256(2 * m)) + Mul(ToInt(z1) - ToInt(z2) - ToInt(z0), Pow256(m)) + ToInt(z0) == t by {
      assert ToInt(z0) == Val(z0.digits) && ToInt(z1) == Val(z1.digits) && ToInt(z2) == Val(z2.digits);
      MulArgs(ToInt(z2), Val(z2.digits), Pow256(2 * m), Pow256(2 * m));
      MulArgs(ToInt(z1) - ToInt(z2) - ToInt(z0), Val(z1.digits) - Val(z2.digits) - Val(z0.digits), Pow256(m), Pow256(m));
    }
    RecombineValue(z0, z1, z2, m);
    CanonicalNonNegative(Recombine(z0, z1, z2, m));
  }

  /** Halves a, b of x and c, d of y whose products are z0, z1, z2 recombine into x * y. */
  lemma KaratsubaParts(x: SuperLong, y: SuperLong, m: nat, a: SuperLong, b: SuperLong, c: SuperLong, d: SuperLong,
                       s: SuperLong, t: SuperLong, z0: SuperLong, z1: SuperLong, z2: SuperLong)
    requires Val(x.digits) == Mul(Val(a.digits), Pow256(m)) + Val(b.digits)
    requires Val(y.digits) == Mul(Val(c.digits), Pow256(m)) + Val(d.digits)
    requires Val(s.digits) == Val(a.digits) + Val(b.digits) && Val(t.digits) == Val(c.digits) + Val(d.digits)
    requires Val(z0.digits) == Mul(Val(b.digits), Val(d.digits))
    requires Val(z1.digits) == Mul(Val(s.digits), Val(t.digits))
    requires Val(z2.digits) == Mul(Val(a.digits), Val(c.digits))
    ensures Mul(Val(z2.digits), Pow256(2 * m)) + Mul(Val(z1.digits) - Val(z2.digits) - Val(z0.digits), Pow256(m)) + Val(z0.digits)
         == Mul(Val(x.digits), Val(y.digits))
    ensures Mul(Val(x.digits), Val(y.digits)) >= 0
  {
    MulArgs(Val(s.digits), Val(a.digits) + Val(b.digits), Val(t.digits), Val(c.digits) + Val(d.digits));
    KaratsubaCombine(Val(x.digits), Val(y.digits), m, Val(a.digits), Val(b.digits), Val(c.digits), Val(d.digits),
      Val(z0.digits), Val(z1.digits), Val(z2.digits));
  }

  /**
   * One level of the fixed Karatsuba: x = a * 256^m + b, y = c * 256^m + d,
   * s = a + b and t = c + d, and the three products z0 = b * d, z1 = s * t,
   * z2 = a * c recombine into the canonical Positive x * y.
   */
  lemma KaratsubaStep(x: SuperLong, y: SuperLong, m: nat, a: SuperLong, b: SuperLong, c: SuperLong, d: SuperLong,
                      s: SuperLong, t: SuperLong, z0: SuperLong, z1: SuperLong, z2: SuperLong)
    requires Val(x.digits) == Mul(Val(a.digits), Pow256(m)) + Val(b.digits)
    requires Val(y.digits) == Mul(Val(c.digits), Pow256(m)) + Val(d.digits)
    requires Val(s.digits) == Val(a.digits) + Val(b.digits) && Val(t.digits) == Val(c.digits) + Val(d.digits)
    requires Canonical(z0) && z0.sign == Positive && Val(z0.digits) == Mul(Val(b.digits), Val(d.digits))
    requires Canonical(z1) && z1.sign == Positive && Val(z1.digits) == Mul(Val(s.digits), Val(t.digits))
    requires Canonical(z2) && z2.sign == Positive && Val(z2.digits) == Mul(Val(a.digits), Val(c.digits))
    ensures Canonical(Recombine(z0, z1, z2, m)) && Recombine(z0, z1, z2, m).sign == Positive
    ensures Val(Recombine(z0, z1, z2, m).digits) == Mul(Val(x.digits), Val(y.digits))
  {
    KaratsubaParts(x, y, m, a, b, c, d, s, t, z0, z1, z2);
    RecombineExact(z0, z1, z2, m, Mul(Val(x.digits), Val(y.digits)));
  }

  /** The base case of the fixed Karatsuba: the fixed `multiply_simple`, its product stated with `Mul`. */
  function SimpleProduct(x: SuperLong, y: SuperLong): (r: SuperLong)
    requires Normalised(x.digits) && Normalised(y.digits) && x.sign == Positive && y.sign == Positive
    ensures Canonical(r) && r.sign == Positive
    ensures Val(r.digits) == Mul(Val(x.digits), Val(y.digits))
  {
    var r := FixedMultiplySimple(x, y);
    MulIsProduct(Val(x.digits), Val(y.digits));
    r
  }

  /** One operand of a Karatsuba level: its high half, its low half, and their sum. */
  datatype Halves = Halves(high: SuperLong, low: SuperLong, sum: SuperLong)

  /**
   * The split of lines 81-87, fixed: high = x / 256^m, low = x mod 256^m and
   * sum = high + low, each canonical, Positive and shorter than x.
   */
  function SplitOperand(x: SuperLong, m: nat): (h: Halves)
    requires Normalised(x.digits) && x.sign == Positive && 16 <= m && 2 * m <= |x.digits|
    ensures Canonical(h.high) && h.high.sign == Positive && |h.high.digits| < |x.digits|
    ensures Canonical(h.low) && h.low.sign == Positive && |h.low.digits| < |x.digits|
    ensures Canonical(h.sum) && h.sum.sign == Positive && |h.sum.digits| < |x.digits|
    ensures Val(x.digits) == Mul(Val(h.high.digits), Pow256(m)) + Val(h.low.digits)
    ensures Val(h.sum.digits) == Val(h.high.digits) + Val(h.low.digits)
  {
    var a, b := HighHalf(x, m), LowHalf(x, m);
    HalvesShorter(x, m);
    FixedAddValue(a, b);
    Halves(a, b, FixedAdd(a, b))
  }

  /**
   * `multiply_karatsuba` with the split the recombination needs: the high
   * half is `divid256n(m)`, the low half the low m limbs. Every recursive
   * call is on shorter operands, and the result is the exact product.
   */
  function FixedKaratsuba(x: SuperLong, y: SuperLong): (r: SuperLong)
    requires Normalised(x.digits) && Normalised(y.digits) && x.sign == Positive && y.sign == Positive
    ensures Canonical(r) && r.sign == Positive
    ensures Val(r.digits) == Mul(Val(x.digits), Val(y.digits))
    decreases |x.digits| + |y.digits|
  {
    if |x.digits| < KARATSUBA_THRESHOLD || |y.digits| < KARATSUBA_THRESHOLD then
      SimpleProduct(x, y)
    else
      var m := (if |x.digits| <= |y.digits| then |x.digits| else |y.digits|) / 2;
      var hx, hy := SplitOperand(x, m), SplitOperand(y, m);
      var z0 := FixedKaratsuba(hx.low, hy.low);
      var z1 := FixedKaratsuba(hx.sum, hy.sum);
      var z2 := FixedKaratsuba(hx.high, hy.high);
      KaratsubaStep(x, y, m, hx.high, hx.low, hy.high, hy.low, hx.sum, hy.sum, z0, z1, z2);
      Recombine(z0, z1, z2, m)
  }

  /** A normalised vector is `[0]` exactly when it denotes 0. */
  lemma MagnitudeZero(p: SuperLong)
    requires Normalised(p.digits)
    ensures IsZero(p) <==> Val(p.digits) == 0
  {
    if IsZero(p) {
      ValSingle(0);
    } else {
      NormalisedNonZero(p.digits);
    }
  }

  /** `multiply` over the fixed Karatsuba: integer multiplication, with a canonical result. */
  function FixedMultiply(a: SuperLong, b: SuperLong): (r: SuperLong)
    requires Normalised(a.digits) && Normalised(b.digits)
    ensures Canonical(r) && ToInt(r) == ToInt(a) * ToInt(b)
  {
    var p := FixedKaratsuba(a.(sign := Positive), b.(sign := Positive));
    SignedProduct(a, b, p);
    var s := p.(sign := if a.sign == b.sign then Positive else Negative);
    if IsZero(s) then s.(sign := Positive) else s
  }

  /** (-x) * y, x * (-y) and (-x) * (-y) in terms of x * y. */
  lemma NegatedFactors(x: int, y: int)
    ensures (-x) * y == -(x * y) && x * (-y) == -(x * y) && (-x) * (-y) == x * y
  {
  }

  /** The sign rule of `multiply` on the exact product of the magnitudes gives the integer product. */
  lemma SignedProduct(a: SuperLong, b: SuperLong, p: SuperLong)
    requires Canonical(p) && p.sign == Positive && Val(p.digits) == Mul(Val(a.digits), Val(b.digits))
    ensures var s := p.(sign := if a.sign == b.sign then Positive else Negative);
      var r := if IsZero(s) then s.(sign := Positive) else s;
      Canonical(r) && ToInt(r) == ToInt(a) * ToInt(b)
  {
    assert IsZero(p) <==> Val(p.digits) == 0 by {
      MagnitudeZero(p);
    }
    assert Val(p.digits) == Val(a.digits) * Val(b.digits) by {
      MulIsProduct(Val(a.digits), Val(b.digits));
    }
    NegatedFactors(Val(a.digits), Val(b.digits));
  }

  // ---------------------------------------------------------------------------
  // negate

  /** `negate` that leaves zero alone: integer negation, and canonical values stay canonical. */
  function FixedNegated(x: SuperLong): (r: SuperLong)
    ensures r.digits == x.digits
    ensures ToInt(r) == -ToInt(x)
    ensures Canonical(x) ==> Canonical(r)
  {
    if IsZero(x) then
      assert x.digits == [0];
      ValSingle(0);
      x
    else Negated(x)
  }

  // ---------------------------------------------------------------------------
  // toString

  /** The decimal digits of n, most significant first, with no leading zero. */
  function Decimal(n: nat): (s: string)
    ensures |s| >= 1 && AllDigits(s) && Dec(s) == n
    ensures s[0] != '0' || n == 0
    ensures IsDigit(s[0])
  {
    if n < 10 then
      assert Dec([DigitChar(n)]) == 10 * Dec([]) + n;
      [DigitChar(n)]
    else
      var s := Decimal(n / 10);
      DecSnoc(s, DigitChar(n % 10));
      s + [DigitChar(n % 10)]
  }

  /** `toString` printing every decimal digit: "0", or an optional '-' and the digits of the magnitude. */
  function FixedToString(x: SuperLong): (r: string)
    ensures |r| >= 1
    ensures Val(x.digits) % 10 < 10 && r[|r| - 1] == DigitChar(Val(x.digits) % 10)
  {
    if IsZero(x) then
      ValSingle(0);
      "0"
    else (if x.sign == Negative then "-" else "") + Decimal(Val(x.digits))
  }

  /** Parsing what the fixed `toString` prints gives back the same canonical value. */
  lemma FixedToStringRoundTrip(x: SuperLong)
    requires Canonical(x)
    ensures Parse(FixedToString(x)) == Success(x)
  {
    var s := FixedToString(x);
    if IsZero(x) {
      assert x.digits == [0] && s == "0";
      assert DigitPart(s) == "0";
    } else {
      var ds := Decimal(Val(x.digits));
      assert DigitPart(s) == ds;
      assert WellFormed(s);
      NormalisedNonZero(x.digits);
      assert DecimalValue(s) == ToInt(x);
      ParseExact(s);
      CanonicalUnique(Parse(s).value, x);
    }
  }

  /** The fixed `toString` prints 11 as "11"; from 10 on the as-written one always ends in '0', so its 11 ends in '0' (`Conversion.ToStringEndsInZero`). */
  lemma ToStringEleven()
    ensures FixedToString(FromInt64(11)) == "11"
  {
    FromInt64Small(11);
    ValSingle(11);
    assert Decimal(1) == "1";
    assert Decimal(11) == Decimal(1) + "1";
  }
}
