/**
 * The multiplicative engine of `SuperLong`: the limb shifts `multi256n` and
 * `divid256n`, schoolbook `multiply_simple`, the Karatsuba dispatcher and
 * `multiply`, as the code is written. `multiply_simple` folds its partial
 * products with `add`, so it inherits the seed limb of `addAbs`.
 */
module Multiplicative {
  import opened Limbs
  import opened Representation
  import opened Construct
  import opened Additive

  // ---------------------------------------------------------------------------
  // Limb shifts

  /** `multi256n`: unchanged for shift 0 or zero, otherwise `shift` zero limbs inserted at the bottom. */
  function Multi256n(x: SuperLong, shift: nat): (r: SuperLong)
    ensures r.sign == x.sign
    ensures Val(r.digits) == Pow256(shift) * Val(x.digits) || IsZero(x)
    ensures shift == 0 || IsZero(x) ==> r == x
    ensures shift > 0 && !IsZero(x) ==> |r.digits| == |x.digits| + shift
  {
    if shift == 0 || IsZero(x) then x
    else
      ValShift(shift, x.digits);
      x.(digits := Zeros(shift) + x.digits)
  }

  /** `divid256n`: unchanged for shift 0 or zero, zero once every limb is shifted out, else the low limbs dropped and normalised. */
  function Divid256n(x: SuperLong, shift: nat): (r: SuperLong)
    ensures shift == 0 || IsZero(x) ==> r == x
    ensures shift > 0 && !IsZero(x) ==> Val(r.digits) == Val(x.digits) / Pow256(shift) && Canonical(r)
    ensures shift > 0 && !IsZero(x) && !IsZero(r) ==> r.sign == x.sign
    ensures shift > 0 && !IsZero(x) && shift < |x.digits| ==> 1 <= |r.digits| <= |x.digits| - shift
  {
    if shift == 0 || IsZero(x) then x
    else if shift >= |x.digits| then
      ValDropLow(x.digits, shift);
      ValSingle(0);
      Zero()
    else
      var y := x.(digits := x.digits[shift..]);
      TrimCanonical(y);
      ValDropLow(x.digits, shift);
      Trim(y)
  }

  // ---------------------------------------------------------------------------
  // multiply_simple

  lemma LimbProductBound(x: Limb, y: Limb, carry: nat)
    requires carry < 256
    ensures x * y + carry <= 65280 && (x * y + carry) / 256 < 256
  {
    assert x * y <= x * 255 <= 255 * 255;
  }

  /**
   * The inner loops of `multiply_simple` for one limb d of a: d * b_j + carry
   * pushed as its low byte with the rest carried, then the carry pushed byte by
   * byte while it is not zero. A product never exceeds 65280, so the carry
   * stays below 256 and the `uint32_t` arithmetic never wraps.
   */
  function MulLimb(d: Limb, bs: seq<Limb>, carry: nat): seq<Limb>
    requires carry < 256
  {
    if |bs| == 0 then LimbsOf(carry)
    else
      LimbProductBound(d, bs[0], carry);
      var product := d * bs[0] + carry;
      [product % 256] + MulLimb(d, bs[1..], product / 256)
  }

  /** The limbs of one limb times a vector: d * |b| + carry, in at most one limb more than b. */
  lemma {:induction false} MulLimbEncodes(d: Limb, bs: seq<Limb>, carry: nat)
    requires carry < 256
    ensures Val(MulLimb(d, bs, carry)) == d * Val(bs) + carry
    ensures |bs| <= |MulLimb(d, bs, carry)| <= |bs| + 1
  {
    if |bs| == 0 {
      LimbsOfEncodes(carry);
      if carry > 0 {
        assert LimbsOf(carry / 256) == [];
      }
    } else {
      LimbProductBound(d, bs[0], carry);
      var product := d * bs[0] + carry;
      MulLimbEncodes(d, bs[1..], product / 256);
      var r := MulLimb(d, bs, carry);
      var v := Val(bs[1..]);
      assert r[1..] == MulLimb(d, bs[1..], product / 256);
      assert Val(r) == product % 256 + 256 * (d * v + product / 256);
      assert product == 256 * (product / 256) + product % 256;
      Distribute(d, bs[0], v);
    }
  }

  lemma Distribute(d: int, x: int, v: int)
    ensures d * (x + 256 * v) == d * x + 256 * (d * v)
  {
  }

  /** `temp` for limb i of a: i zero limbs, then the limbs of a_i * |b|; Positive. */
  function PartialProduct(a: SuperLong, b: SuperLong, i: nat): (t: SuperLong)
    requires i < |a.digits|
    ensures t.sign == Positive
    ensures Val(t.digits) == Pow256(i) * (a.digits[i] * Val(b.digits))
  {
    MulLimbEncodes(a.digits[i], b.digits, 0);
    ValShift(i, MulLimb(a.digits[i], b.digits, 0));
    SuperLong(Positive, Zeros(i) + MulLimb(a.digits[i], b.digits, 0))
  }

  /** `result` of `multiply_simple` after its first n turns: no limbs, then `add(result, temp)` each turn. */
  function MultiplySimpleFold(a: SuperLong, b: SuperLong, n: nat): SuperLong
    requires n <= |a.digits|
  {
    if n == 0 then SuperLong(Positive, [])
    else Add(MultiplySimpleFold(a, b, n - 1), PartialProduct(a, b, n - 1))
  }

  /** `multiply_simple`: the fold of all partial products, normalised. */
  function MultiplySimple(a: SuperLong, b: SuperLong): (r: SuperLong)
    ensures r.sign == Positive
    ensures |a.digits| >= 1 ==> Canonical(r)
  {
    MultiplySimplePositive(a, b, |a.digits|);
    var f := MultiplySimpleFold(a, b, |a.digits|);
    if |a.digits| >= 1 then TrimCanonical(f); Trim(f) else Trim(f)
  }

  /** The sum of the limbs, which the fold multiplies b by. */
  function DigitSum(s: seq<Limb>): nat
  {
    if |s| == 0 then 0 else DigitSum(s[..|s| - 1]) + s[|s| - 1]
  }

  lemma {:induction false} MultiplySimplePositive(a: SuperLong, b: SuperLong, n: nat)
    requires n <= |a.digits|
    ensures MultiplySimpleFold(a, b, n).sign == Positive
    ensures n >= 1 ==> Normalised(MultiplySimpleFold(a, b, n).digits)
  {
    if n > 0 {
      MultiplySimplePositive(a, b, n - 1);
    }
  }

  /** One turn of the fold in numbers: 256 * (p*s*v + p*(d*v)) == 256p * (s + d) * v. */
  lemma FoldArith(f: int, t: int, p: int, s: int, d: int, v: int, p': int, s': int)
    requires f == p * s * v && t == p * (d * v) && p' == 256 * p && s' == s + d
    ensures 256 * (f + t) == p' * s' * v
  {
    calc {
      256 * (f + t);
      256 * (p * (s * v + d * v));
      { assert s * v + d * v == (s + d) * v; }
      256 * (p * ((s + d) * v));
      (256 * p) * (s + d) * v;
    }
  }

  /**
   * Each turn multiplies the accumulated value by 256 on top of adding the
   * partial product, so after n turns the value is 256^n * (a_0 + ... +
   * a_{n-1}) * |b| instead of the product of the low n limbs of a with b.
   */
  lemma {:induction false} MultiplySimpleFoldValue(a: SuperLong, b: SuperLong, n: nat)
    requires n <= |a.digits|
    ensures Val(MultiplySimpleFold(a, b, n).digits) == Pow256(n) * DigitSum(a.digits[..n]) * Val(b.digits)
  {
    if n > 0 {
      MultiplySimpleFoldValue(a, b, n - 1);
      MultiplySimplePositive(a, b, n - 1);
      var f := MultiplySimpleFold(a, b, n - 1);
      var t := PartialProduct(a, b, n - 1);
      var p, s, d, v := Pow256(n - 1), DigitSum(a.digits[..n - 1]), a.digits[n - 1], Val(b.digits);
      AddAbsScaled(f, t);
      assert MultiplySimpleFold(a, b, n).digits == AddAbs(f, t).digits;
      assert a.digits[..n][..n - 1] == a.digits[..n - 1];
      assert DigitSum(a.digits[..n]) == s + d;
      FoldArith(Val(f.digits), Val(t.digits), p, s, d, v, Pow256(n), DigitSum(a.digits[..n]));
    } else {
      ValZeros(0);
    }
  }

  /** The value `multiply_simple` returns: 256^|a| * (sum of a's limbs) * |b|. */
  lemma MultiplySimpleValue(a: SuperLong, b: SuperLong)
    ensures Val(MultiplySimple(a, b).digits) == Pow256(|a.digits|) * DigitSum(a.digits) * Val(b.digits)
  {
    MultiplySimpleFoldValue(a, b, |a.digits|);
    assert a.digits[..|a.digits|] == a.digits;
  }

  /** The partial product loops of `multiply_simple` for limb i of a. */
  method ComputePartialProduct(a: SuperLong, b: SuperLong, i: nat) returns (temp: SuperLong)
    requires i < |a.digits|
    ensures temp == PartialProduct(a, b, i)
  {
    var zeros := PushZeros(i);
    var pushed, carry := MulLimbLoop(a.digits[i], b.digits);
    var digits := PushCarry(zeros + pushed, carry);
    assert digits == zeros + (pushed + LimbsOf(carry));
    temp := SuperLong(Positive, digits);
  }

  /** The loop that pads a partial product with i zero limbs. */
  method PushZeros(i: nat) returns (digits: seq<Limb>)
    ensures digits == Zeros(i)
  {
    digits := [];
    for k := 0 to i
      invariant digits == Zeros(k)
    {
      assert Zeros(k + 1) == Zeros(k) + [0];
      digits := digits + [0];
    }
  }

  /** The loop over the limbs of b: the low byte of d * b_j + carry is pushed, the rest carried. */
  method MulLimbLoop(d: Limb, bs: seq<Limb>) returns (pushed: seq<Limb>, carry: nat)
    ensures carry < 256 && pushed + LimbsOf(carry) == MulLimb(d, bs, 0)
  {
    pushed := [];
    carry := 0;
    for j := 0 to |bs|
      invariant carry < 256
      invariant pushed + MulLimb(d, bs[j..], carry) == MulLimb(d, bs, 0)
    {
      var product := d * bs[j] + carry;
      MulLimbStep(d, bs, j, carry);
      ghost var rest := MulLimb(d, bs[j + 1..], product / 256);
      assert (pushed + [product % 256]) + rest == pushed + ([product % 256] + rest);
      pushed := pushed + [product % 256];
      carry := product / 256;
    }
    assert bs[|bs|..] == [];
  }

  /** One turn of the loop over b, from position j. */
  lemma MulLimbStep(d: Limb, bs: seq<Limb>, j: nat, carry: nat)
    requires j < |bs| && carry < 256
    ensures (d * bs[j] + carry) / 256 < 256
    ensures MulLimb(d, bs[j..], carry) == [(d * bs[j] + carry) % 256] + MulLimb(d, bs[j + 1..], (d * bs[j] + carry) / 256)
  {
    LimbProductBound(d, bs[j], carry);
    assert bs[j..][1..] == bs[j + 1..];
  }

  /** The final carry pushed byte by byte. */
  method PushCarry(digits: seq<Limb>, carry: nat) returns (r: seq<Limb>)
    ensures r == digits + LimbsOf(carry)
  {
    r := digits;
    var c := carry;
    while c > 0
      invariant r + LimbsOf(c) == digits + LimbsOf(carry)
    {
      assert LimbsOf(c) == [c % 256] + LimbsOf(c / 256);
      assert (r + [c % 256]) + LimbsOf(c / 256) == r + ([c % 256] + LimbsOf(c / 256));
      r := r + [c % 256];
      c := c / 256;
    }
    assert r + [] == r;
  }

  /** The loops of `multiply_simple`. */
  method ComputeMultiplySimple(a: SuperLong, b: SuperLong) returns (r: SuperLong)
    ensures r == MultiplySimple(a, b)
  {
    var result := new SuperLongVar();
    result.digits := [];
    for i := 0 to |a.digits|
      invariant result.Value() == MultiplySimpleFold(a, b, i)
    {
      var temp := ComputePartialProduct(a, b, i);
      var sum := Add(result.Value(), temp);
      result.sign, result.digits := sum.sign, sum.digits;
    }
    result.RemoveLeadingZeros();
    r := result.Value();
  }

  // ---------------------------------------------------------------------------
  // multiply_karatsuba and multiply

  /** The outcome of a call that may not return. */
  datatype Halting<T> = Returns(value: T) | Diverges

  const KARATSUBA_THRESHOLD: nat := 32

  /**
   * `multiply_karatsuba`: `multiply_simple` when either operand has fewer than
   * 32 limbs. Otherwise the recursive calls never return (see
   * `KaratsubaOperandsGrow`), which this model states as `Diverges`.
   */
  function MultiplyKaratsuba(x: SuperLong, y: SuperLong): (r: Halting<SuperLong>)
    ensures r.Returns? <==> |x.digits| < KARATSUBA_THRESHOLD || |y.digits| < KARATSUBA_THRESHOLD
    ensures r.Returns? ==> r.value == MultiplySimple(x, y)
  {
    if |x.digits| < KARATSUBA_THRESHOLD || |y.digits| < KARATSUBA_THRESHOLD then Returns(MultiplySimple(x, y))
    else Diverges
  }

  /** The split of `multiply_karatsuba`: m, b = x >> m limbs, a = x << |b| limbs, and the same for y. */
  function KaratsubaSplit(x: SuperLong, y: SuperLong): (r: (SuperLong, SuperLong, SuperLong, SuperLong))
    ensures r.0.sign == x.sign && r.2.sign == y.sign
    ensures |r.0.digits| >= |x.digits| && |r.2.digits| >= |y.digits|
  {
    var m := (if |x.digits| <= |y.digits| then |x.digits| else |y.digits|) / 2;
    var b := Divid256n(x, m);
    var a := Multi256n(x, |b.digits|);
    var d := Divid256n(y, m);
    var c := Multi256n(y, |d.digits|);
    (a, b, c, d)
  }

  /**
   * With both operands of at least 32 limbs, `a` and `c` are x and y with
   * extra zero limbs below them, so the call `multiply_karatsuba(a, c)` is
   * again past the threshold with strictly longer operands. A call past the
   * threshold returns only if its call on (a, c) returns, whatever the calls
   * on (b, d) and (a + b, c + d) before it do; so by induction on the number
   * of steps no call of the recursive branch returns. The last conjunct is
   * the model's own definition of that outcome; the lengths are the content.
   */
  lemma KaratsubaOperandsGrow(x: SuperLong, y: SuperLong)
    requires |x.digits| >= KARATSUBA_THRESHOLD && |y.digits| >= KARATSUBA_THRESHOLD
    ensures var (a, b, c, d) := KaratsubaSplit(x, y);
      |a.digits| > |x.digits| && |c.digits| > |y.digits|
      && |a.digits| >= KARATSUBA_THRESHOLD && |c.digits| >= KARATSUBA_THRESHOLD
      && MultiplyKaratsuba(a, c) == Diverges
  {
  }

  /** `multiply`: the Karatsuba result with sign Positive iff the signs agree, and Positive for zero. */
  function Multiply(a: SuperLong, b: SuperLong): (r: Halting<SuperLong>)
    ensures r.Returns? <==> |a.digits| < KARATSUBA_THRESHOLD || |b.digits| < KARATSUBA_THRESHOLD
    ensures r.Returns? ==> r.value.digits == MultiplySimple(a, b).digits
    ensures r.Returns? && !IsZero(r.value) ==> (r.value.sign == Positive <==> a.sign == b.sign)
    ensures r.Returns? && IsZero(r.value) ==> r.value.sign == Positive
  {
    match MultiplyKaratsuba(a, b)
    case Diverges => Diverges
    case Returns(p) =>
      var s := p.(sign := if a.sign == b.sign then Positive else Negative);
      Returns(if IsZero(s) then s.(sign := Positive) else s)
  }

  /** `operator*`, forwarding to `multiply`. */
  function Times(a: SuperLong, b: SuperLong): (r: Halting<SuperLong>)
    ensures r == Multiply(a, b)
  {
    Multiply(a, b)
  }

  /** `operator*(int64_t)`: the number converted with the `int64_t` constructor first. */
  function TimesInt64(a: SuperLong, n: int): (r: Halting<SuperLong>)
    requires IsInt64(n)
    ensures r == Multiply(a, FromInt64(n))
  {
    Times(a, FromInt64(n))
  }

  /** Below the threshold `multiply` returns +/- 256^|a| * (sum of a's limbs) * |b|, negative iff the signs differ. */
  lemma MultiplyValue(a: SuperLong, b: SuperLong)
    requires |a.digits| < KARATSUBA_THRESHOLD || |b.digits| < KARATSUBA_THRESHOLD
    ensures ToInt(Multiply(a, b).value)
         == (if a.sign == b.sign then 1 else -1) * (Pow256(|a.digits|) * DigitSum(a.digits) * Val(b.digits))
  {
    MultiplySimpleValue(a, b);
    var r := Multiply(a, b).value;
    if IsZero(r) {
      ValSingle(0);
    }
  }

  /** 12 * 3 is 9216 = 256 * 12 * 3. */
  lemma MultiplyExample()
    ensures Multiply(FromInt64(12), FromInt64(3)).Returns?
    ensures ToInt(Multiply(FromInt64(12), FromInt64(3)).value) == 9216
  {
    FromInt64Small(12);
    FromInt64Small(3);
    MultiplySimpleValue(FromInt64(12), FromInt64(3));
    assert DigitSum([12]) == 12;
    ValSingle(3);
  }
}
