/**
 * The additive engine of `SuperLong`: `abscmp`, `addAbs`, `subtractAbs` and
 * the sign dispatch of `add` and `subtract`, as the code is written. Both
 * magnitude routines push their limbs onto a default-constructed result,
 * which already holds the limb 0, so every magnitude they return is 256
 * times what their loop computes; the loop of `subtractAbs` never borrows.
 */
module Additive {
  import opened Limbs
  import opened Representation
  import opened Construct

  function Sgn(x: int): int
  {
    if x < 0 then -1 else if x > 0 then 1 else 0
  }

  // ---------------------------------------------------------------------------
  // abscmp

  /** The scan of `abscmp` over equal-length vectors, limbs i-1 down to 0. */
  function CmpBelow(a: seq<Limb>, b: seq<Limb>, i: nat): (r: int)
    requires |a| == |b| && i <= |a|
    ensures -1 <= r <= 1
  {
    if i == 0 then 0
    else if a[i - 1] != b[i - 1] then (if a[i - 1] < b[i - 1] then -1 else 1)
    else CmpBelow(a, b, i - 1)
  }

  /** The scan is 0 exactly when the low i limbs agree. */
  lemma {:induction false} CmpBelowZero(a: seq<Limb>, b: seq<Limb>, i: nat)
    requires |a| == |b| && i <= |a|
    ensures CmpBelow(a, b, i) == 0 <==> a[..i] == b[..i]
  {
    if i > 0 {
      CmpBelowZero(a, b, i - 1);
      assert a[..i] == a[..i - 1] + [a[i - 1]];
      assert b[..i] == b[..i - 1] + [b[i - 1]];
      if a[..i] == b[..i] {
        assert a[..i][i - 1] == b[..i][i - 1];
        assert a[..i][..i - 1] == b[..i][..i - 1];
      }
    }
  }

  /** `abscmp`: a longer vector is larger; equal lengths compare from the top limb down. */
  function AbsCmp(a: SuperLong, b: SuperLong): (r: int)
    ensures -1 <= r <= 1
    ensures r == 0 <==> a.digits == b.digits
  {
    if |a.digits| != |b.digits| then (if |a.digits| < |b.digits| then -1 else 1)
    else
      CmpBelowZero(a.digits, b.digits, |a.digits|);
      assert a.digits[..|a.digits|] == a.digits && b.digits[..|b.digits|] == b.digits;
      CmpBelow(a.digits, b.digits, |a.digits|)
  }

  /** Swapping the operands negates the result. */
  lemma {:induction false} CmpBelowAntisymmetric(a: seq<Limb>, b: seq<Limb>, i: nat)
    requires |a| == |b| && i <= |a|
    ensures CmpBelow(a, b, i) == -CmpBelow(b, a, i)
  {
    if i > 0 && a[i - 1] == b[i - 1] {
      CmpBelowAntisymmetric(a, b, i - 1);
    }
  }

  lemma AbsCmpAntisymmetric(a: SuperLong, b: SuperLong)
    ensures AbsCmp(a, b) == -AbsCmp(b, a)
  {
    if |a.digits| == |b.digits| {
      CmpBelowAntisymmetric(a.digits, b.digits, |a.digits|);
    }
  }

  /** Between two vectors of one length, a smaller limb on top makes the smaller value. */
  lemma TopLimbDecides(x: seq<Limb>, y: seq<Limb>, dx: Limb, dy: Limb)
    requires |x| == |y| && dx < dy
    ensures Val(x + [dx]) < Val(y + [dy])
  {
    var p := Pow256(|x|);
    ValSnoc(x, dx);
    ValSnoc(y, dy);
    ValBound(x);
    MulMonotone(dx + 1, dy, p);
    assert Val(x + [dx]) < p + dx * p == (dx + 1) * p;
  }

  lemma MulMonotone(m: nat, n: nat, p: nat)
    requires m <= n
    ensures m * p <= n * p
  {
  }

  /** On equal lengths the scan is the sign of the difference of the low i limbs' values. */
  lemma {:induction false} CmpBelowByValue(a: seq<Limb>, b: seq<Limb>, i: nat)
    requires |a| == |b| && i <= |a|
    ensures CmpBelow(a, b, i) == Sgn(Val(a[..i]) - Val(b[..i]))
  {
    if i > 0 {
      assert a[..i] == a[..i - 1] + [a[i - 1]];
      assert b[..i] == b[..i - 1] + [b[i - 1]];
      if a[i - 1] < b[i - 1] {
        TopLimbDecides(a[..i - 1], b[..i - 1], a[i - 1], b[i - 1]);
      } else if a[i - 1] > b[i - 1] {
        TopLimbDecides(b[..i - 1], a[..i - 1], b[i - 1], a[i - 1]);
      } else {
        CmpBelowByValue(a, b, i - 1);
        ValSnoc(a[..i - 1], a[i - 1]);
        ValSnoc(b[..i - 1], b[i - 1]);
      }
    }
  }

  /** On normalised limb vectors `abscmp` is the sign of |a| - |b|. */
  lemma AbsCmpByValue(a: SuperLong, b: SuperLong)
    requires Normalised(a.digits) && Normalised(b.digits)
    ensures AbsCmp(a, b) == Sgn(Val(a.digits) - Val(b.digits))
  {
    var x, y := a.digits, b.digits;
    if |x| < |y| {
      ValBound(x);
      ValTopNonZero(y);
      PowMonotone(|x|, |y| - 1);
    } else if |x| > |y| {
      ValBound(y);
      ValTopNonZero(x);
      PowMonotone(|y|, |x| - 1);
    } else {
      CmpBelowByValue(x, y, |x|);
      assert x[..|x|] == x && y[..|y|] == y;
    }
  }

  /** The loop of `abscmp`, from the top limb down. */
  method ComputeAbsCmp(a: SuperLong, b: SuperLong) returns (r: int)
    ensures r == AbsCmp(a, b)
  {
    if |a.digits| != |b.digits| {
      return if |a.digits| < |b.digits| then -1 else 1;
    }
    var i := |a.digits|;
    while i > 0
      invariant 0 <= i <= |a.digits|
      invariant AbsCmp(a, b) == CmpBelow(a.digits, b.digits, i)
    {
      i := i - 1;
      if a.digits[i] != b.digits[i] {
        return if a.digits[i] < b.digits[i] then -1 else 1;
      }
    }
    return 0;
  }

  // ---------------------------------------------------------------------------
  // addAbs

  /**
   * The limbs the loop of `addAbs` pushes: (a_i + b_i + carry) % 256 for
   * every position below the longer length, missing limbs read as 0, then the
   * final carry limb when it is not 0. No sum exceeds 511, so the `uint32_t`
   * arithmetic never wraps.
   */
  function AddLoop(a: seq<Limb>, b: seq<Limb>, carry: nat): seq<Limb>
    requires carry <= 1
    decreases |a| + |b|
  {
    if |a| == 0 && |b| == 0 then (if carry > 0 then [carry] else [])
    else
      var sum := Low(a) + Low(b) + carry;
      [sum % 256] + AddLoop(Rest(a), Rest(b), sum / 256)
  }

  /** The pushed limbs encode |a| + |b| + carry, one limb per position plus at most one more. */
  lemma {:induction false} AddLoopEncodes(a: seq<Limb>, b: seq<Limb>, carry: nat)
    requires carry <= 1
    ensures Val(AddLoop(a, b, carry)) == Val(a) + Val(b) + carry
    ensures var m := if |a| >= |b| then |a| else |b|;
      m <= |AddLoop(a, b, carry)| <= m + 1
    decreases |a| + |b|
  {
    if |a| == 0 && |b| == 0 {
      if carry > 0 {
        ValSingle(carry);
      }
    } else {
      var sum := Low(a) + Low(b) + carry;
      AddLoopEncodes(Rest(a), Rest(b), sum / 256);
      ValRest(a);
      ValRest(b);
      var r := AddLoop(a, b, carry);
      assert r[1..] == AddLoop(Rest(a), Rest(b), sum / 256);
    }
  }

  lemma {:induction false} AddLoopSymmetric(a: seq<Limb>, b: seq<Limb>, carry: nat)
    requires carry <= 1
    ensures AddLoop(a, b, carry) == AddLoop(b, a, carry)
    decreases |a| + |b|
  {
    if |a| != 0 || |b| != 0 {
      AddLoopSymmetric(Rest(a), Rest(b), (Low(a) + Low(b) + carry) / 256);
    }
  }

  /** `addAbs`: the seed limb 0, then the loop's limbs, normalised; always Positive. */
  function AddAbs(a: SuperLong, b: SuperLong): (r: SuperLong)
    ensures Canonical(r) && r.sign == Positive
  {
    var x := SuperLong(Positive, [0] + AddLoop(a.digits, b.digits, 0));
    TrimCanonical(x);
    Trim(x)
  }

  /** Because of the seed limb, `addAbs` returns 256 * (|a| + |b|), not |a| + |b|. */
  lemma AddAbsScaled(a: SuperLong, b: SuperLong)
    ensures Val(AddAbs(a, b).digits) == 256 * (Val(a.digits) + Val(b.digits))
  {
    var ds := [0] + AddLoop(a.digits, b.digits, 0);
    AddLoopEncodes(a.digits, b.digits, 0);
    TrimCanonical(SuperLong(Positive, ds));
    assert ds[1..] == AddLoop(a.digits, b.digits, 0);
  }

  /** One turn of the loop of `addAbs` at position i: the low byte of the column sum is pushed, its high byte carried. */
  lemma {:induction false} AddLoopStep(a: seq<Limb>, b: seq<Limb>, i: nat, carry: nat, sum: nat, pushed: seq<Limb>, whole: seq<Limb>)
    requires carry <= 1 && (i < |a| || i < |b|)
    requires sum == (if i < |a| then a[i] else 0) + (if i < |b| then b[i] else 0) + carry
    requires pushed + AddLoop(Drop(a, i), Drop(b, i), carry) == whole
    ensures sum / 256 <= 1
    ensures (pushed + [sum % 256]) + AddLoop(Drop(a, i + 1), Drop(b, i + 1), sum / 256) == whole
  {
    DropStep(a, i);
    DropStep(b, i);
    var rest := AddLoop(Drop(a, i + 1), Drop(b, i + 1), sum / 256);
    assert AddLoop(Drop(a, i), Drop(b, i), carry) == [sum % 256] + rest;
    assert (pushed + [sum % 256]) + rest == pushed + ([sum % 256] + rest);
  }

  /** The loops of `addAbs`, pushing onto a default-constructed result object. */
  method ComputeAddAbs(a: SuperLong, b: SuperLong) returns (r: SuperLong)
    ensures r == AddAbs(a, b)
  {
    var result := new SuperLongVar();
    var pushed, carry := AddLimbsLoop(a.digits, b.digits);
    result.digits := result.digits + pushed;
    if carry > 0 {
      result.digits := result.digits + [carry];
    }
    assert result.digits == [0] + AddLoop(a.digits, b.digits, 0);
    ghost var x := result.Value();
    result.RemoveLeadingZeros();
    r := result.Value();
    assert r == Trim(x);
  }

  /** The for loop of `addAbs`: the limbs it pushes and the carry it leaves. */
  method AddLimbsLoop(a: seq<Limb>, b: seq<Limb>) returns (pushed: seq<Limb>, carry: nat)
    ensures carry <= 1 && pushed + (if carry > 0 then [carry] else []) == AddLoop(a, b, 0)
  {
    carry := 0;
    pushed := [];
    var maxSize := if |a| >= |b| then |a| else |b|;
    for i := 0 to maxSize
      invariant carry <= 1
      invariant pushed + AddLoop(Drop(a, i), Drop(b, i), carry) == AddLoop(a, b, 0)
    {
      var digitA := if i < |a| then a[i] else 0;
      var digitB := if i < |b| then b[i] else 0;
      var sum: nat := digitA + digitB + carry;
      AddLoopStep(a, b, i, carry, sum, pushed, AddLoop(a, b, 0));
      pushed := pushed + [sum % 256];
      carry := sum / 256;
    }
    assert Drop(a, maxSize) == [] && Drop(b, maxSize) == [];
  }

  // ---------------------------------------------------------------------------
  // subtractAbs

  /**
   * The limbs the loop of `subtractAbs` pushes, one per limb of a: `diff` is
   * computed in `uint32_t`, so `diff >= 0` always holds, `borrow` stays 0 and
   * each limb is the low byte of a_i - b_i taken modulo 2^32.
   */
  function SubLoop(a: seq<Limb>, b: seq<Limb>): (r: seq<Limb>)
    ensures |r| == |a|
  {
    if |a| == 0 then []
    else [Wrap32(a[0] - Low(b)) % 256] + SubLoop(a[1..], Rest(b))
  }

  /** The low byte of a 32-bit wrapped difference of two limbs is the difference modulo 256. */
  lemma Wrap32LowByte(x: int, y: int)
    requires 0 <= x < 256 && 0 <= y < 256
    ensures Wrap32(x - y) % 256 == (x - y) % 256
    ensures x >= y ==> Wrap32(x - y) % 256 == x - y
  {
  }

  /** Limb i of the loop is (a_i - b_i) mod 256, with b's missing limbs read as 0 and no borrow. */
  lemma {:induction false} SubLoopLimbs(a: seq<Limb>, b: seq<Limb>, i: nat)
    requires i < |a|
    ensures SubLoop(a, b)[i] == (a[i] - Low(Drop(b, i))) % 256
  {
    Wrap32LowByte(a[0], Low(b));
    if i > 0 {
      SubLoopLimbs(a[1..], Rest(b), i - 1);
      assert Drop(Rest(b), i - 1) == Drop(b, i);
    }
  }

  /** Where every limb of a is at least the limb of b below it, the loop does compute |a| - |b|. */
  lemma {:induction false} SubLoopNoBorrow(a: seq<Limb>, b: seq<Limb>)
    requires |b| <= |a|
    requires forall i :: 0 <= i < |a| ==> a[i] >= Low(Drop(b, i))
    ensures Val(SubLoop(a, b)) == Val(a) - Val(b)
  {
    if |a| > 0 {
      assert a[0] >= Low(Drop(b, 0));
      forall i | 0 <= i < |a| - 1
        ensures a[1..][i] >= Low(Drop(Rest(b), i))
      {
        assert a[1..][i] == a[i + 1] && Drop(Rest(b), i) == Drop(b, i + 1);
      }
      SubLoopNoBorrow(a[1..], Rest(b));
      Wrap32LowByte(a[0], Low(b));
      ValRest(b);
      var r := SubLoop(a, b);
      assert r[1..] == SubLoop(a[1..], Rest(b));
    } else {
      assert b == [];
    }
  }

  /** `subtractAbs`: the seed limb 0, then the loop's limbs, normalised; always Positive. */
  function SubtractAbs(a: SuperLong, b: SuperLong): (r: SuperLong)
    ensures Canonical(r) && r.sign == Positive
  {
    var x := SuperLong(Positive, [0] + SubLoop(a.digits, b.digits));
    TrimCanonical(x);
    Trim(x)
  }

  /** The value of `subtractAbs`: 256 times the value of the borrow-free limbs. */
  lemma SubtractAbsScaled(a: SuperLong, b: SuperLong)
    ensures Val(SubtractAbs(a, b).digits) == 256 * Val(SubLoop(a.digits, b.digits))
  {
    var ds := [0] + SubLoop(a.digits, b.digits);
    TrimCanonical(SuperLong(Positive, ds));
    assert ds[1..] == SubLoop(a.digits, b.digits);
  }

  /** Without a position where b's limb exceeds a's, `subtractAbs` gives 256 * (|a| - |b|). */
  lemma SubtractAbsNoBorrow(a: SuperLong, b: SuperLong)
    requires |b.digits| <= |a.digits|
    requires forall i :: 0 <= i < |a.digits| ==> a.digits[i] >= Low(Drop(b.digits, i))
    ensures Val(SubtractAbs(a, b).digits) == 256 * (Val(a.digits) - Val(b.digits))
  {
    SubtractAbsScaled(a, b);
    SubLoopNoBorrow(a.digits, b.digits);
  }

  /** `subtractAbs`, pushing onto a default-constructed result object. */
  method ComputeSubtractAbs(a: SuperLong, b: SuperLong) returns (r: SuperLong)
    ensures r == SubtractAbs(a, b)
  {
    var result := new SuperLongVar();
    var pushed := SubLimbsLoop(a.digits, b.digits);
    result.digits := result.digits + pushed;
    ghost var x := result.Value();
    result.RemoveLeadingZeros();
    r := result.Value();
    assert r == Trim(x);
  }

  /** The first limb of `SubLoop`, and the rest. */
  lemma SubLoopHead(a: seq<Limb>, b: seq<Limb>)
    requires |a| > 0
    ensures SubLoop(a, b) == [Wrap32(a[0] as int - Low(b)) % 256] + SubLoop(a[1..], Rest(b))
  {
  }

  /** One turn of the loop of `subtractAbs` at position i: the wrapped difference a_i - b_i is pushed. */
  lemma {:induction false} SubLoopStep(a: seq<Limb>, b: seq<Limb>, i: nat, pushed: seq<Limb>, whole: seq<Limb>)
    requires i < |a|
    requires pushed + SubLoop(a[i..], Drop(b, i)) == whole
    ensures var digitB: int := if i < |b| then b[i] else 0;
      (pushed + [Wrap32(a[i] as int - digitB) % 256]) + SubLoop(a[i + 1..], Drop(b, i + 1)) == whole
  {
    var tail, rest := a[i..], Drop(b, i);
    DropStep(b, i);
    assert tail[1..] == a[i + 1..];
    SubLoopHead(tail, rest);
    var limb := Wrap32(a[i] as int - Low(rest)) % 256;
    assert (pushed + [limb]) + SubLoop(tail[1..], Rest(rest)) == pushed + ([limb] + SubLoop(tail[1..], Rest(rest)));
  }

  /** The for loop of `subtractAbs`: the limbs it pushes. */
  method SubLimbsLoop(a: seq<Limb>, b: seq<Limb>) returns (pushed: seq<Limb>)
    ensures pushed == SubLoop(a, b)
  {
    pushed := [];
    var borrow: nat := 0;
    for i := 0 to |a|
      invariant borrow == 0
      invariant pushed + SubLoop(a[i..], Drop(b, i)) == SubLoop(a, b)
    {
      var digitA: int := a[i];
      var digitB: int := if i < |b| then b[i] else 0;
      var diff := Wrap32(digitA - digitB - borrow);
      if diff >= 0 {
        var limb: Limb := diff % 256;
        SubLoopStep(a, b, i, pushed, SubLoop(a, b));
        pushed := pushed + [limb];
        borrow := 0;
      } else {
        // An unsigned difference is never negative: the borrowing branch is dead code.
        assert false;
      }
    }
    assert a[|a|..] == [];
  }

  // ---------------------------------------------------------------------------
  // add and subtract

  /** `add`: equal signs add magnitudes; otherwise the smaller magnitude is subtracted from the larger. */
  function Add(a: SuperLong, b: SuperLong): (r: SuperLong)
    ensures Normalised(r.digits)
  {
    if a.sign == b.sign then AddAbs(a, b).(sign := a.sign)
    else
      var cmp := AbsCmp(a, b);
      if cmp == 0 then Zero()
      else if cmp > 0 then SubtractAbs(a, b).(sign := a.sign)
      else SubtractAbs(b, a).(sign := b.sign)
  }

  /** `subtract`: differing signs add magnitudes; otherwise the magnitudes are subtracted. */
  function Subtract(a: SuperLong, b: SuperLong): (r: SuperLong)
    ensures Normalised(r.digits)
  {
    if a.sign != b.sign then AddAbs(a, b).(sign := a.sign)
    else
      var cmp := AbsCmp(a, b);
      if cmp == 0 then Zero()
      else if cmp > 0 then SubtractAbs(a, b).(sign := a.sign)
      else Negated(SubtractAbs(b, a))
  }

  /** `operator+`, assumed to forward to `add`. */
  function Plus(a: SuperLong, b: SuperLong): (r: SuperLong)
    ensures r == Add(a, b)
  {
    Add(a, b)
  }

  /** `operator-`, assumed to forward to `subtract`. */
  function Minus(a: SuperLong, b: SuperLong): (r: SuperLong)
    ensures r == Subtract(a, b)
  {
    Subtract(a, b)
  }

  /** `add` does not depend on the order of its operands. */
  lemma AddCommutes(a: SuperLong, b: SuperLong)
    ensures Add(a, b) == Add(b, a)
  {
    AbsCmpAntisymmetric(a, b);
    AddLoopSymmetric(a.digits, b.digits, 0);
  }

  /** x + (-x) and x - x are canonical zero, whatever x is. */
  lemma CancelToZero(x: SuperLong)
    ensures Add(x, Negated(x)) == Zero() && Add(Negated(x), x) == Zero()
    ensures Subtract(x, x) == Zero()
  {
  }

  /** With equal signs `add` returns 256 times the sum, because of the seed limb of `addAbs`. */
  lemma AddSameSignScaled(a: SuperLong, b: SuperLong)
    requires a.sign == b.sign
    ensures ToInt(Add(a, b)) == 256 * (ToInt(a) + ToInt(b))
  {
    AddAbsScaled(a, b);
  }

  /** With differing signs `subtract` returns 256 times the difference. */
  lemma SubtractOppositeSignScaled(a: SuperLong, b: SuperLong)
    requires a.sign != b.sign
    ensures ToInt(Subtract(a, b)) == 256 * (ToInt(a) - ToInt(b))
  {
    AddAbsScaled(a, b);
  }

  /**
   * `subtract` with equal signs and |a| < |b| negates the Positive result of
   * `subtractAbs(b, a)`, so it is Negative even when a and b are both
   * negative and the difference is positive.
   */
  lemma SubtractSmallerIsNegative(a: SuperLong, b: SuperLong)
    requires a.sign == b.sign && AbsCmp(a, b) < 0
    ensures IsNegative(Subtract(a, b))
  {
  }

  /** Where no limb borrows, the magnitude branches of `add` give 256 times the sum. */
  lemma AddOppositeSignNoBorrow(a: SuperLong, b: SuperLong)
    requires a.sign != b.sign && Normalised(a.digits) && Normalised(b.digits)
    requires AbsCmp(a, b) > 0 && |b.digits| <= |a.digits|
    requires forall i :: 0 <= i < |a.digits| ==> a.digits[i] >= Low(Drop(b.digits, i))
    ensures ToInt(Add(a, b)) == 256 * (ToInt(a) + ToInt(b))
  {
    SubtractAbsNoBorrow(a, b);
  }

  /** 100 + 200 is 76800 (= 256 * 300) and (-100) - (-300) is negative. */
  lemma AdditiveExamples()
    ensures ToInt(Add(FromInt64(100), FromInt64(200))) == 76800
    ensures ToInt(Subtract(FromInt64(-100), FromInt64(-300))) < 0
  {
    FromInt64Exact(100);
    FromInt64Exact(200);
    AddSameSignScaled(FromInt64(100), FromInt64(200));
    FromInt64Exact(-100);
    FromInt64Exact(-300);
    var a, b := FromInt64(-100), FromInt64(-300);
    AbsCmpByValue(a, b);
    SubtractSmallerIsNegative(a, b);
    var r := Subtract(a, b);
    NormalisedNonZero(r.digits) by {
      assert r.digits == SubtractAbs(b, a).digits;
      SubtractAbsExample();
    }
  }

  /**
   * |-300| - |-100| as written: the limbs [44, 1] less [100] give [200, 1]
   * with no borrow, so the result denotes 256 * 456 instead of 200.
   */
  lemma SubtractAbsExample()
    ensures Val(SubtractAbs(FromInt64(-300), FromInt64(-100)).digits) == 256 * 456
    ensures !IsZero(SubtractAbs(FromInt64(-300), FromInt64(-100)))
  {
    var a, b := FromInt64(-300), FromInt64(-100);
    FromInt64Exact(-300);
    FromInt64Exact(-100);
    assert a.digits == [44, 1] && b.digits == [100] by {
      assert LimbsOf(300) == [44] + LimbsOf(1);
      assert LimbsOf(1) == [1] + LimbsOf(0);
      assert LimbsOf(100) == [100] + LimbsOf(0);
    }
    SubLoopLimbs(a.digits, b.digits, 0);
    SubLoopLimbs(a.digits, b.digits, 1);
    var s := SubLoop(a.digits, b.digits);
    assert s == [200, 1];
    ValRest(s);
    ValSingle(1);
    SubtractAbsScaled(a, b);
  }
}
