/** Base-256 limb vectors, least-significant limb first, and the number they denote. */
module Limbs {

  /** One limb: the `n256` type, an unsigned 8-bit integer. */
  type Limb = x: int | 0 <= x < 256

  function Pow256(n: nat): (r: nat)
    ensures r >= 1
  {
    if n == 0 then 1 else 256 * Pow256(n - 1)
  }

  /** The magnitude of a limb vector: the sum of ds[i] * 256^i. */
  function Val(ds: seq<Limb>): nat
  {
    if |ds| == 0 then 0 else ds[0] + 256 * Val(ds[1..])
  }

  function Zeros(n: nat): (r: seq<Limb>)
    ensures |r| == n
    ensures forall i :: 0 <= i < n ==> r[i] == 0
  {
    if n == 0 then [] else [0] + Zeros(n - 1)
  }

  /** The limbs from position `i` on, or none when `i` is past the end. */
  function Drop(s: seq<Limb>, i: nat): (r: seq<Limb>)
    ensures |r| == if i <= |s| then |s| - i else 0
  {
    if i <= |s| then s[i..] else []
  }

  /** The limbs below position `n`, all of them when `n` is past the end. */
  function Take(s: seq<Limb>, n: nat): (r: seq<Limb>)
    ensures |r| == if n <= |s| then n else |s|
  {
    if n <= |s| then s[..n] else s
  }

  /** The lowest limb, read as 0 when there is none. */
  function Low(s: seq<Limb>): Limb
  {
    if |s| > 0 then s[0] else 0
  }

  /** All limbs but the lowest. */
  function Rest(s: seq<Limb>): seq<Limb>
  {
    if |s| > 0 then s[1..] else []
  }

  lemma ValRest(s: seq<Limb>)
    ensures Val(s) == Low(s) + 256 * Val(Rest(s))
  {
  }

  lemma PowSucc(n: nat)
    ensures Pow256(n + 1) == 256 * Pow256(n)
  {
  }

  lemma {:induction false} PowAdd(m: nat, n: nat)
    ensures Pow256(m + n) == Pow256(m) * Pow256(n)
  {
    if m > 0 {
      PowAdd(m - 1, n);
      assert Pow256(m + n) == 256 * Pow256(m - 1 + n);
      assert 256 * (Pow256(m - 1) * Pow256(n)) == (256 * Pow256(m - 1)) * Pow256(n);
    }
  }

  lemma {:induction false} PowMonotone(m: nat, n: nat)
    requires m <= n
    ensures Pow256(m) <= Pow256(n)
  {
    if m < n {
      PowMonotone(m, n - 1);
    }
  }

  lemma {:induction false} ValAppend(a: seq<Limb>, b: seq<Limb>)
    ensures Val(a + b) == Val(a) + Pow256(|a|) * Val(b)
  {
    if |a| == 0 {
      assert a + b == b;
    } else {
      assert (a + b)[1..] == a[1..] + b;
      ValAppend(a[1..], b);
      assert Val(a + b) == a[0] + 256 * (Val(a[1..]) + Pow256(|a| - 1) * Val(b));
      ShiftArith(Val(a[1..]), Pow256(|a| - 1), Val(b));
    }
  }

  lemma ShiftArith(x: int, p: int, v: int)
    ensures 256 * (x + p * v) == 256 * x + (256 * p) * v
  {
  }

  /** Adding one limb on top adds limb * 256^|s|. */
  lemma ValSnoc(s: seq<Limb>, d: Limb)
    ensures Val(s + [d]) == Val(s) + d * Pow256(|s|)
  {
    ValAppend(s, [d]);
    ValSingle(d);
  }

  lemma ValSingle(d: Limb)
    ensures Val([d]) == d
  {
    assert [d][1..] == [];
  }

  lemma {:induction false} ValBound(s: seq<Limb>)
    ensures Val(s) < Pow256(|s|)
  {
    if |s| > 0 {
      ValBound(s[1..]);
      assert Val(s) <= 255 + 256 * (Pow256(|s| - 1) - 1);
    }
  }

  /** A vector whose top limb is not zero is at least 256^(|s|-1). */
  lemma ValTopNonZero(s: seq<Limb>)
    requires |s| > 0 && s[|s| - 1] != 0
    ensures Val(s) >= Pow256(|s| - 1)
  {
    assert s == s[..|s| - 1] + [s[|s| - 1]];
    ValSnoc(s[..|s| - 1], s[|s| - 1]);
  }

  lemma {:induction false} ValZeros(n: nat)
    ensures Val(Zeros(n)) == 0
  {
    if n > 0 {
      assert Zeros(n)[1..] == Zeros(n - 1);
      ValZeros(n - 1);
    }
  }

  /** Prepending n zero limbs multiplies the value by 256^n. */
  lemma ValShift(n: nat, s: seq<Limb>)
    ensures Val(Zeros(n) + s) == Pow256(n) * Val(s)
  {
    ValAppend(Zeros(n), s);
    ValZeros(n);
  }

  /** Zero limbs on top do not change the value. */
  lemma ValPadded(s: seq<Limb>, n: nat)
    ensures Val(s + Zeros(n)) == Val(s)
  {
    ValAppend(s, Zeros(n));
    ValZeros(n);
  }

  /** Only the all-zero vectors denote 0. */
  lemma {:induction false} ValZeroIff(s: seq<Limb>)
    ensures Val(s) == 0 <==> forall i :: 0 <= i < |s| ==> s[i] == 0
  {
    if |s| > 0 {
      ValZeroIff(s[1..]);
      assert forall i :: 1 <= i < |s| ==> s[i] == s[1..][i - 1];
    }
  }

  /** The low `n` limbs are the value modulo 256^n. */
  lemma ValTake(s: seq<Limb>, n: nat)
    requires n <= |s|
    ensures Val(s) == Val(s[..n]) + Pow256(n) * Val(s[n..])
  {
    assert s == s[..n] + s[n..];
    ValAppend(s[..n], s[n..]);
  }

  /** Reading position i of a vector, with positions past the end read as 0, as the loops do. */
  lemma DropStep(s: seq<Limb>, i: nat)
    ensures Low(Drop(s, i)) == if i < |s| then s[i] else 0
    ensures Rest(Drop(s, i)) == Drop(s, i + 1)
  {
  }

  /** Division with remainder has one answer. */
  lemma DivUnique(n: int, p: int, q: int, r: int)
    requires p > 0 && 0 <= r < p && n == p * q + r
    ensures n / p == q && n % p == r
  {
    var q', r' := n / p, n % p;
    assert n == p * q' + r';
    assert p * (q - q') == r' - r;
    if q > q' {
      MulAtLeast(p, q - q');
    } else if q < q' {
      MulAtLeast(p, q' - q);
    }
  }

  lemma MulAtLeast(p: int, k: int)
    requires p > 0 && k >= 1
    ensures p * k >= p
  {
    assert p * k == p * (k - 1) + p;
  }

  /** Dropping the low `shift` limbs divides the value by 256^shift, rounding down. */
  lemma ValDropLow(ds: seq<Limb>, shift: nat)
    ensures Val(Drop(ds, shift)) == Val(ds) / Pow256(shift)
  {
    if shift <= |ds| {
      ValTake(ds, shift);
      ValBound(ds[..shift]);
      DivUnique(Val(ds), Pow256(shift), Val(ds[shift..]), Val(ds[..shift]));
    } else {
      ValBound(ds);
      PowMonotone(|ds|, shift);
      DivUnique(Val(ds), Pow256(shift), 0, Val(ds));
    }
  }

  /** `std::reverse`, as a value: element i of the result is element |s| - 1 - i of s. */
  function Reverse<T>(s: seq<T>): (r: seq<T>)
    ensures |r| == |s| && forall i :: 0 <= i < |s| ==> r[i] == s[|s| - 1 - i]
  {
    if |s| == 0 then [] else [s[|s| - 1]] + Reverse(s[..|s| - 1])
  }
}
