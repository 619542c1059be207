/**
 * `divide_quo_rem` and the `/` and `%` operators. Each quotient digit is
 * found by binary search over 1..255, which is proved here against an
 * arbitrary monotone predicate; the remainder is carried with the additive
 * operators as they are written.
 */
module Division {
  import opened Limbs
  import opened Representation
  import opened Results
  import opened Construct
  import opened Additive
  import opened Multiplicative

  datatype DivError = DivisionByZero

  // ---------------------------------------------------------------------------
  // The binary search for one quotient digit

  /**
   * The answers the search can get: `t[m]` is the outcome of the test at
   * digit m. The search asks only for m in 1..255; a table of all 256
   * outcomes lets it be stated over any test, monotone or not.
   */
  predicate IsTable(t: seq<bool>)
  {
    |t| == 256
  }

  /** The binary search of `divide_quo_rem`: a fitting mid raises `low` and becomes `best`, otherwise `high` drops. */
  function SearchDigit(t: seq<bool>, low: int, high: int, best: int): (r: int)
    requires IsTable(t)
    requires 0 <= best <= 255 && 1 <= low && high <= 255
    ensures 0 <= r <= 255
    ensures r == best || low <= r <= high
    decreases high - low + 1
  {
    if low > high then best
    else
      var mid := low + (high - low) / 2;
      if t[mid] then SearchDigit(t, mid + 1, high, mid)
      else SearchDigit(t, low, mid - 1, best)
  }

  /** A test on 1..255 that, once false, stays false. */
  predicate Monotone(t: seq<bool>)
    requires IsTable(t)
  {
    forall m, n :: 1 <= m <= n <= 255 && t[n] ==> t[m]
  }

  /** The test holds exactly at the digits 1..k: k is where it stops fitting. */
  predicate FitsUpTo(t: seq<bool>, k: int)
    requires IsTable(t)
  {
    forall m :: 1 <= m <= 255 ==> (t[m] <==> m <= k)
  }

  /**
   * The search keeps the cut k between `best` and `high`: `best` never passes
   * it, and when it lies above `best` it lies in low..high. So it ends on k.
   */
  lemma {:induction false} SearchDigitInvariant(t: seq<bool>, k: int, low: int, high: int, best: int)
    requires IsTable(t) && 0 <= k <= 255 && FitsUpTo(t, k)
    requires 1 <= low <= high + 1 && high <= 255 && best == low - 1
    requires best <= k && (k == best || k <= high)
    ensures SearchDigit(t, low, high, best) == k
    decreases high - low + 1
  {
    if low <= high {
      var mid := low + (high - low) / 2;
      if t[mid] {
        SearchDigitInvariant(t, k, mid + 1, high, mid);
      } else {
        SearchDigitInvariant(t, k, low, mid - 1, best);
      }
    }
  }

  /** The last digit in 1..n at which the test holds, or 0. */
  function LastFit(t: seq<bool>, n: nat): (k: nat)
    requires IsTable(t) && n <= 255
    ensures k <= n && (k >= 1 ==> t[k])
  {
    if n == 0 then 0
    else if t[n] then n
    else LastFit(t, n - 1)
  }

  /** A monotone test holds exactly up to its last fitting digit. */
  lemma {:induction false} LastFitIsCut(t: seq<bool>, n: nat)
    requires IsTable(t) && Monotone(t) && n <= 255
    ensures forall m :: 1 <= m <= n ==> (t[m] <==> m <= LastFit(t, n))
  {
    if n > 0 && !t[n] {
      LastFitIsCut(t, n - 1);
    }
  }

  /** For a monotone test the search finds the largest fitting digit in 1..255, or 0 if none fits. */
  lemma SearchDigitFindsLargest(t: seq<bool>)
    requires IsTable(t) && Monotone(t)
    ensures var r := SearchDigit(t, 1, 255, 0);
      0 <= r <= 255 && (r >= 1 ==> t[r]) && (forall m :: r < m <= 255 ==> !t[m])
  {
    var k := LastFit(t, 255);
    LastFitIsCut(t, 255);
    SearchDigitInvariant(t, k, 1, 255, 0);
  }

  /** Whatever the test, the answer is 0 or a digit at which the test held. */
  lemma {:induction false} SearchDigitAnswer(t: seq<bool>, low: int, high: int, best: int)
    requires IsTable(t) && 0 <= best <= 255 && 1 <= low && high <= 255
    requires best >= 1 ==> t[best]
    ensures var r := SearchDigit(t, low, high, best); r >= 1 ==> t[r]
    decreases high - low + 1
  {
    if low <= high {
      var mid := low + (high - low) / 2;
      if t[mid] {
        SearchDigitAnswer(t, mid + 1, high, mid);
      } else {
        SearchDigitAnswer(t, low, mid - 1, best);
      }
    }
  }

  // ---------------------------------------------------------------------------
  // The products the search compares

  /** The divisor multiplied by the digit m: `multiply` by a one-limb value, which never takes the recursive branch. */
  function Product(divisor: SuperLong, m: nat): (r: SuperLong)
    requires m < 256
    ensures |divisor.digits| >= 1 ==> Normalised(r.digits)
  {
    FromInt64Small(m);
    Multiply(divisor, FromInt64(m)).value
  }

  /** The product's magnitude: 256^n * (sum of the divisor's limbs) * m, as `multiply_simple` computes it. */
  lemma ProductValue(divisor: SuperLong, m: nat)
    requires m < 256
    ensures Val(Product(divisor, m).digits) == Pow256(|divisor.digits|) * DigitSum(divisor.digits) * m
  {
    FromInt64Small(m);
    MultiplySimpleValue(divisor, FromInt64(m));
    ValSingle(m);
  }

  /** The test of the search at every digit: is the divisor times the digit at most the remainder, by `abscmp`. */
  function FitTable(divisor: SuperLong, rem: SuperLong): (t: seq<bool>)
    ensures IsTable(t)
  {
    seq(256, m requires 0 <= m < 256 => Fits(divisor, rem, m))
  }

  /** One probe of the search. */
  predicate Fits(divisor: SuperLong, rem: SuperLong, m: int)
    requires 0 <= m < 256
  {
    AbsCmp(Product(divisor, m), rem) <= 0
  }

  /** Entry m of the table is the probe at m. */
  lemma FitTableAt(divisor: SuperLong, rem: SuperLong, m: int)
    requires 0 <= m < 256
    ensures FitTable(divisor, rem)[m] == Fits(divisor, rem, m)
  {
  }

  lemma MulMono(k: nat, m: nat, n: nat)
    requires m <= n
    ensures k * m <= k * n
  {
  }

  lemma MulMono3(p: nat, s: nat, m: nat, n: nat)
    requires m <= n
    ensures p * s * m <= p * s * n
  {
    MulMono(p * s, m, n);
  }

  /** With a non-empty divisor and a normalised remainder, a digit fits iff its product's value is at most the remainder's. */
  lemma FitsIff(divisor: SuperLong, rem: SuperLong, m: int)
    requires |divisor.digits| >= 1 && Normalised(rem.digits) && 0 <= m < 256
    ensures FitTable(divisor, rem)[m] <==> Val(Product(divisor, m).digits) <= Val(rem.digits)
  {
    FitTableAt(divisor, rem, m);
    AbsCmpByValue(Product(divisor, m), rem);
  }

  /** The test of the search is monotone, so the search finds the largest fitting digit. */
  lemma FitsMonotone(divisor: SuperLong, rem: SuperLong)
    requires |divisor.digits| >= 1 && Normalised(rem.digits)
    ensures Monotone(FitTable(divisor, rem))
  {
    var t := FitTable(divisor, rem);
    forall m, n | 1 <= m <= n <= 255 && t[n]
      ensures t[m]
    {
      FitsIff(divisor, rem, m);
      FitsIff(divisor, rem, n);
      ProductValue(divisor, m);
      ProductValue(divisor, n);
      MulMono3(Pow256(|divisor.digits|), DigitSum(divisor.digits), m, n);
    }
  }

  // ---------------------------------------------------------------------------
  // The long division loop

  /** `quotient.digits` (most significant first, before the reversal) and `remainder`. */
  datatype DivState = DivState(quotient: seq<Limb>, remainder: SuperLong)

  /** The remainder after bringing down one limb: shifted up one limb, then the limb added with `add`. */
  function BringDown(rem: SuperLong, limb: Limb): (r: SuperLong)
    ensures Normalised(r.digits)
  {
    Plus(Multi256n(rem, 1), FromInt64(limb))
  }

  /** One turn of the outer loop on one limb of the dividend. */
  function DivStep(st: DivState, limb: Limb, divisor: SuperLong): (r: DivState)
    ensures |r.quotient| == |st.quotient| + 1 && r.quotient[..|st.quotient|] == st.quotient
  {
    var rem := BringDown(st.remainder, limb);
    if AbsCmp(rem, divisor) >= 0 then
      var best := SearchDigit(FitTable(divisor, rem), 1, 255, 0);
      DivState(st.quotient + [best], Minus(rem, Product(divisor, best)))
    else
      DivState(st.quotient + [0], rem)
  }

  /** The state after the top k limbs of ds, starting from no digits and a default-constructed remainder. */
  function LongDivision(ds: seq<Limb>, divisor: SuperLong, k: nat): (r: DivState)
    requires k <= |ds|
    ensures |r.quotient| == k
  {
    if k == 0 then DivState([], Zero())
    else DivStep(LongDivision(ds, divisor, k - 1), ds[|ds| - k], divisor)
  }

  /** `divide_quo_rem`: the quotient and the remainder, or an error for a zero divisor. */
  function DivideQuoRem(a: SuperLong, b: SuperLong): (r: Result<(SuperLong, SuperLong), DivError>)
    ensures r.Failure? <==> IsZero(b)
  {
    if IsZero(b) then Failure(DivisionByZero)
    else if IsZero(a) then Success((Zero(), Zero()))
    else
      var dividend := a.(sign := Positive);
      var divisor := b.(sign := Positive);
      if AbsCmp(dividend, divisor) < 0 then Success((Zero(), a))
      else
        var st := LongDivision(dividend.digits, divisor, |dividend.digits|);
        var quotient := Trim(SuperLong(Positive, Reverse(st.quotient)));
        var remainder := Trim(st.remainder);
        Success((quotient.(sign := if a.sign == b.sign then Positive else Negative), remainder.(sign := a.sign)))
  }

  /** `operator/`. */
  function Quotient(a: SuperLong, b: SuperLong): (r: Result<SuperLong, DivError>)
    ensures r.Failure? <==> IsZero(b)
    ensures r.Success? ==> r.value == DivideQuoRem(a, b).value.0
  {
    match DivideQuoRem(a, b)
    case Success(qr) => Success(qr.0)
    case Failure(e) => Failure(e)
  }

  /** `operator%`. */
  function Remainder(a: SuperLong, b: SuperLong): (r: Result<SuperLong, DivError>)
    ensures r.Failure? <==> IsZero(b)
    ensures r.Success? ==> r.value == DivideQuoRem(a, b).value.1
  {
    match DivideQuoRem(a, b)
    case Success(qr) => Success(qr.1)
    case Failure(e) => Failure(e)
  }

  /** `operator/(int64_t)`. */
  function QuotientInt64(a: SuperLong, n: int): (r: Result<SuperLong, DivError>)
    requires IsInt64(n)
    ensures r.Failure? <==> n == 0
  {
    FromInt64Exact(n);
    ValSingle(0);
    Quotient(a, FromInt64(n))
  }

  /** `operator%(int64_t)`. */
  function RemainderInt64(a: SuperLong, n: int): (r: Result<SuperLong, DivError>)
    requires IsInt64(n)
    ensures r.Failure? <==> n == 0
  {
    FromInt64Exact(n);
    ValSingle(0);
    Remainder(a, FromInt64(n))
  }

  // ---------------------------------------------------------------------------
  // What the division promises

  /** Division fails exactly on a zero divisor; a zero dividend gives (0, 0). */
  lemma DivideEdgeCases(a: SuperLong, b: SuperLong)
    ensures DivideQuoRem(a, b).Failure? <==> IsZero(b)
    ensures !IsZero(b) && IsZero(a) ==> DivideQuoRem(a, b) == Success((Zero(), Zero()))
  {
  }

  /** A normalised dividend smaller in magnitude than a normalised divisor comes back as the remainder, sign untouched. */
  lemma DivideSmallDividend(a: SuperLong, b: SuperLong)
    requires Normalised(a.digits) && Normalised(b.digits) && !IsZero(a) && !IsZero(b)
    requires Val(a.digits) < Val(b.digits)
    ensures DivideQuoRem(a, b) == Success((Zero(), a))
  {
    AbsCmpByValue(a.(sign := Positive), b.(sign := Positive));
  }

  /**
   * On the long-division path one digit is collected per dividend limb; the
   * quotient is Positive iff the signs agree and the remainder takes a's
   * sign after normalisation, so both can be a Negative `[0]`.
   */
  lemma DivideSigns(a: SuperLong, b: SuperLong)
    requires |a.digits| >= 1 && !IsZero(a) && !IsZero(b) && AbsCmp(a, b) >= 0
    ensures DivideQuoRem(a, b).Success?
    ensures var (q, r) := DivideQuoRem(a, b).value;
      (q.sign == Positive <==> a.sign == b.sign) && r.sign == a.sign
      && Normalised(q.digits) && Normalised(r.digits)
      && |q.digits| <= |a.digits|
  {
    assert AbsCmp(a.(sign := Positive), b.(sign := Positive)) == AbsCmp(a, b);
    var st := LongDivision(a.digits, b.(sign := Positive), |a.digits|);
    TrimCanonical(SuperLong(Positive, Reverse(st.quotient)));
    BringDownNormalised(a.digits, b.(sign := Positive), |a.digits|);
    TrimCanonical(st.remainder);
  }

  lemma {:induction false} BringDownNormalised(ds: seq<Limb>, divisor: SuperLong, k: nat)
    requires k <= |ds|
    ensures Normalised(LongDivision(ds, divisor, k).remainder.digits)
  {
    if k > 0 {
      BringDownNormalised(ds, divisor, k - 1);
    }
  }

  lemma DigitSumTop(s: seq<Limb>)
    requires |s| > 0
    ensures DigitSum(s) >= s[|s| - 1]
  {
  }

  /**
   * With a canonical non-zero divisor, each collected digit is the largest m
   * in 1..255 whose product with the divisor is at most the brought-down
   * remainder, or 0 when none is: the search is right even though the
   * products and remainders it compares carry the scaling of `addAbs`.
   */
  lemma DivStepDigit(st: DivState, limb: Limb, divisor: SuperLong)
    requires Normalised(divisor.digits) && !IsZero(divisor)
    ensures var rem := BringDown(st.remainder, limb);
      var d := DivStep(st, limb, divisor).quotient[|st.quotient|];
      (d >= 1 ==> Val(Product(divisor, d).digits) <= Val(rem.digits))
      && forall m :: d < m <= 255 ==> Val(Product(divisor, m).digits) > Val(rem.digits)
  {
    DivStepDigitIs(st, limb, divisor);
    DigitChosen(divisor, BringDown(st.remainder, limb), DivStep(st, limb, divisor).quotient[|st.quotient|]);
  }

  /** The digit a turn chooses for a remainder is the largest that fits, or 0 when none does. */
  lemma DigitChosen(divisor: SuperLong, rem: SuperLong, d: int)
    requires Normalised(divisor.digits) && !IsZero(divisor) && Normalised(rem.digits)
    requires d == if AbsCmp(rem, divisor) >= 0 then SearchDigit(FitTable(divisor, rem), 1, 255, 0) else 0
    ensures (d >= 1 ==> Val(Product(divisor, d).digits) <= Val(rem.digits))
      && forall m :: d < m <= 255 ==> Val(Product(divisor, m).digits) > Val(rem.digits)
  {
    if AbsCmp(rem, divisor) >= 0 {
      SearchedDigitLargest(divisor, rem);
    } else {
      AbsCmpByValue(rem, divisor);
      NoDigitFits(divisor, rem);
    }
  }

  /** The digit one turn collects: the searched one when the remainder is at least the divisor, else 0. */
  lemma DivStepDigitIs(st: DivState, limb: Limb, divisor: SuperLong)
    ensures var rem := BringDown(st.remainder, limb);
      DivStep(st, limb, divisor).quotient[|st.quotient|]
      == if AbsCmp(rem, divisor) >= 0 then SearchDigit(FitTable(divisor, rem), 1, 255, 0) else 0
  {
  }

  /** The searched digit is the largest one whose product is at most the remainder. */
  lemma SearchedDigitLargest(divisor: SuperLong, rem: SuperLong)
    requires Normalised(divisor.digits) && Normalised(rem.digits)
    ensures var d := SearchDigit(FitTable(divisor, rem), 1, 255, 0);
      (d >= 1 ==> Val(Product(divisor, d).digits) <= Val(rem.digits))
      && forall m :: d < m <= 255 ==> Val(Product(divisor, m).digits) > Val(rem.digits)
  {
    var d := SearchDigit(FitTable(divisor, rem), 1, 255, 0);
    FitsMonotone(divisor, rem);
    SearchDigitFindsLargest(FitTable(divisor, rem));
    if d >= 1 {
      FitsIff(divisor, rem, d);
    }
    forall m | d < m <= 255
      ensures Val(Product(divisor, m).digits) > Val(rem.digits)
    {
      FitsIff(divisor, rem, m);
    }
  }

  /** A remainder below the divisor admits no non-zero digit. */
  lemma NoDigitFits(divisor: SuperLong, rem: SuperLong)
    requires Normalised(divisor.digits) && !IsZero(divisor)
    requires Val(rem.digits) < Val(divisor.digits)
    ensures forall m :: 0 < m <= 255 ==> Val(Product(divisor, m).digits) > Val(rem.digits)
  {
    forall m | 0 < m <= 255
      ensures Val(Product(divisor, m).digits) > Val(rem.digits)
    {
      ProductExceedsDivisor(divisor, m);
    }
  }

  /** A product by a non-zero digit is at least the divisor: 256^n * (sum of limbs) >= 256^n > |divisor|. */
  lemma ProductExceedsDivisor(divisor: SuperLong, m: int)
    requires Normalised(divisor.digits) && !IsZero(divisor) && 0 < m <= 255
    ensures Val(Product(divisor, m).digits) > Val(divisor.digits)
  {
    var n := |divisor.digits|;
    var k := Pow256(n) * DigitSum(divisor.digits);
    ProductValue(divisor, m);
    ValBound(divisor.digits);
    DigitSumTop(divisor.digits);
    MulMono(Pow256(n), 1, DigitSum(divisor.digits));
    MulMono(k, 1, m);
  }

  // ---------------------------------------------------------------------------
  // The loops

  /** The binary search of `divide_quo_rem`, forming `divisor * mid` at each probe. */
  method FindDigit(divisor: SuperLong, rem: SuperLong) returns (best: int)
    ensures best == SearchDigit(FitTable(divisor, rem), 1, 255, 0)
  {
    ghost var t := FitTable(divisor, rem);
    ghost var answer := SearchDigit(t, 1, 255, 0);
    best := 0;
    var low := 1;
    var high := 255;
    while low <= high
      invariant 1 <= low <= high + 1 && high <= 255 && 0 <= best <= 255
      invariant SearchDigit(t, low, high, best) == answer
      decreases high - low + 1
    {
      var mid := low + (high - low) / 2;
      var product := Product(divisor, mid);
      var c := ComputeAbsCmp(product, rem);
      FitTableAt(divisor, rem, mid);
      if c <= 0 {
        best := mid;
        low := mid + 1;
      } else {
        high := mid - 1;
      }
    }
  }

  /** One turn of the outer loop of `divide_quo_rem`: bring down a limb, then search for the digit if the remainder reaches the divisor. */
  method ComputeDivStep(quotient: seq<Limb>, remainder: SuperLong, limb: Limb, divisor: SuperLong)
    returns (quotient': seq<Limb>, remainder': SuperLong)
    ensures DivState(quotient', remainder') == DivStep(DivState(quotient, remainder), limb, divisor)
  {
    remainder' := BringDown(remainder, limb);
    var c := ComputeAbsCmp(remainder', divisor);
    if c >= 0 {
      var best := FindDigit(divisor, remainder');
      var digit: Limb := best;
      quotient' := quotient + [digit];
      remainder' := Minus(remainder', Product(divisor, digit));
    } else {
      quotient' := quotient + [0];
    }
  }

  /** The outer loop of `divide_quo_rem`, over the dividend's limbs from the top. */
  method ComputeLongDivision(ds: seq<Limb>, divisor: SuperLong) returns (quotient: seq<Limb>, remainder: SuperLong)
    ensures DivState(quotient, remainder) == LongDivision(ds, divisor, |ds|)
  {
    quotient := [];
    remainder := Zero();
    var i := |ds|;
    while i > 0
      invariant 0 <= i <= |ds|
      invariant DivState(quotient, remainder) == LongDivision(ds, divisor, |ds| - i)
    {
      i := i - 1;
      quotient, remainder := ComputeDivStep(quotient, remainder, ds[i], divisor);
    }
  }

  /** `divide_quo_rem`. */
  method ComputeDivideQuoRem(a: SuperLong, b: SuperLong) returns (r: Result<(SuperLong, SuperLong), DivError>)
    ensures r == DivideQuoRem(a, b)
  {
    if IsZero(b) {
      return Failure(DivisionByZero);
    }
    if IsZero(a) {
      return Success((Zero(), Zero()));
    }
    var dividend := a.(sign := Positive);
    var divisor := b.(sign := Positive);
    var cmp := ComputeAbsCmp(dividend, divisor);
    if cmp < 0 {
      return Success((Zero(), a));
    }
    var quotient, remainder := ComputeLongDivision(dividend.digits, divisor);
    var q := Trim(SuperLong(Positive, Reverse(quotient)));
    var rem := Trim(remainder);
    r := Success((q.(sign := if a.sign == b.sign then Positive else Negative), rem.(sign := a.sign)));
  }
}
