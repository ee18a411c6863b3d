/** Polynomials with integer coefficients, stored lowest degree first:
    c represents c[0] + c[1]*t + ... + c[|c|-1]*t^(|c|-1). Evaluation is exact
    over the integers; residues modulo a prime are taken by the callers. */
module Polynomial {
  import opened ModArith

  function Pow(x: int, i: nat): int {
    if i == 0 then 1 else x * Pow(x, i - 1)
  }

  /** Horner evaluation. */
  function Eval(c: seq<int>, t: int): int
    decreases |c|
  {
    if c == [] then 0 else c[0] + t * Eval(c[1..], t)
  }

  /** The closed-form sum of the first m terms, c[0]*t^0 + ... + c[m-1]*t^(m-1). */
  function PowerSum(c: seq<int>, t: int, m: nat): int
    requires m <= |c|
  {
    if m == 0 then 0 else PowerSum(c, t, m - 1) + c[m - 1] * Pow(t, m - 1)
  }

  /** The list in reverse order: turns a highest-degree-first coefficient
      list into the lowest-degree-first form used here. */
  function Reverse(s: seq<int>): (r: seq<int>)
    ensures |r| == |s|
    ensures forall i :: 0 <= i < |s| ==> r[i] == s[|s| - 1 - i]
  {
    seq(|s|, i requires 0 <= i < |s| => s[|s| - 1 - i])
  }

  lemma ShiftAlgebra(c0: int, t: int, rest: int, cm: int, tm: int)
    ensures c0 + t * rest + cm * (t * tm) == c0 + t * (rest + cm * tm)
  {
  }

  lemma {:induction false} PowerSumShift(c: seq<int>, t: int, m: nat)
    requires m + 1 <= |c|
    ensures PowerSum(c, t, m + 1) == c[0] + t * PowerSum(c[1..], t, m)
  {
    if m > 0 {
      PowerSumShift(c, t, m - 1);
      var rest := PowerSum(c[1..], t, m - 1);
      var tm := Pow(t, m - 1);
      assert Pow(t, m) == t * tm;
      assert PowerSum(c, t, m + 1) == PowerSum(c, t, m) + c[m] * Pow(t, m);
      assert PowerSum(c, t, m) == c[0] + t * rest;
      assert PowerSum(c[1..], t, m) == rest + c[1..][m - 1] * tm;
      ShiftAlgebra(c[0], t, rest, c[m], tm);
    }
  }

  /** The closed-form sum and Horner's rule agree. */
  lemma {:induction false} PowerSumIsEval(c: seq<int>, t: int)
    ensures PowerSum(c, t, |c|) == Eval(c, t)
    decreases |c|
  {
    if c != [] {
      PowerSumShift(c, t, |c| - 1);
      PowerSumIsEval(c[1..], t);
    }
  }

  /** A polynomial evaluated at 0 is its constant term. */
  lemma EvalAtZero(c: seq<int>)
    ensures Eval(c, 0) == if c == [] then 0 else c[0]
  {
  }

  /** Coefficient-wise sum; the result is as long as the longer operand. */
  function Plus(a: seq<int>, b: seq<int>): (r: seq<int>)
    ensures |r| == if |a| < |b| then |b| else |a|
    decreases |a| + |b|
  {
    if a == [] then b
    else if b == [] then a
    else [a[0] + b[0]] + Plus(a[1..], b[1..])
  }

  lemma {:induction false} EvalPlus(a: seq<int>, b: seq<int>, t: int)
    ensures Eval(Plus(a, b), t) == Eval(a, t) + Eval(b, t)
    decreases |a| + |b|
  {
    if a != [] && b != [] {
      EvalPlus(a[1..], b[1..], t);
      var r := Plus(a, b);
      assert r[1..] == Plus(a[1..], b[1..]);
      assert t * (Eval(a[1..], t) + Eval(b[1..], t)) == t * Eval(a[1..], t) + t * Eval(b[1..], t);
    }
  }

  /** Every coefficient multiplied by s. */
  function Scale(a: seq<int>, s: int): (r: seq<int>)
    ensures |r| == |a|
    decreases |a|
  {
    if a == [] then [] else [s * a[0]] + Scale(a[1..], s)
  }

  lemma MulSwap(a: int, b: int, c: int)
    ensures a * (b * c) == b * (a * c)
  {
  }

  lemma {:induction false} EvalScale(a: seq<int>, s: int, t: int)
    ensures Eval(Scale(a, s), t) == s * Eval(a, t)
    decreases |a|
  {
    if a != [] {
      EvalScale(a[1..], s, t);
      var e := Eval(a[1..], t);
      assert Eval(Scale(a, s), t) == s * a[0] + t * (s * e);
      MulSwap(t, s, e);
    }
  }

  /** Coefficient-wise difference. */
  function Minus(a: seq<int>, b: seq<int>): (r: seq<int>)
    ensures |r| == if |a| < |b| then |b| else |a|
  {
    Plus(a, Scale(b, -1))
  }

  lemma EvalMinus(a: seq<int>, b: seq<int>, t: int)
    ensures Eval(Minus(a, b), t) == Eval(a, t) - Eval(b, t)
  {
    EvalPlus(a, Scale(b, -1), t);
    EvalScale(b, -1, t);
  }

  /** The product (t - x) * a(t). */
  function TimesLinear(a: seq<int>, x: int): (r: seq<int>)
    ensures |r| == if a == [] then 0 else |a| + 1
    decreases |a|
  {
    if a == [] then [] else [-x * a[0]] + Plus([a[0]], TimesLinear(a[1..], x))
  }

  lemma TimesLinearStep(a0: int, x: int, t: int, e: int)
    ensures -x * a0 + t * (a0 + (t - x) * e) == (t - x) * (a0 + t * e)
  {
  }

  lemma {:induction false} EvalTimesLinear(a: seq<int>, x: int, t: int)
    ensures Eval(TimesLinear(a, x), t) == (t - x) * Eval(a, t)
    decreases |a|
  {
    if a != [] {
      var rest := TimesLinear(a[1..], x);
      var r := TimesLinear(a, x);
      EvalTimesLinear(a[1..], x, t);
      EvalPlus([a[0]], rest, t);
      var e := Eval(a[1..], t);
      assert Eval([a[0]], t) == a[0];
      assert r[0] == -x * a[0] && r[1..] == Plus([a[0]], rest);
      assert Eval(r, t) == -x * a[0] + t * (a[0] + (t - x) * e);
      TimesLinearStep(a[0], x, t, e);
    }
  }

  /** Synthetic division by (t - x): the quotient q with
      a(t) == a(x) + (t - x) * q(t). */
  function DivLinear(a: seq<int>, x: int): (q: seq<int>)
    ensures |q| == if a == [] then 0 else |a| - 1
    decreases |a|
  {
    if |a| <= 1 then [] else [Eval(a[1..], x)] + DivLinear(a[1..], x)
  }

  lemma DivLinearStep(a0: int, x: int, t: int, ax: int, qt: int)
    ensures a0 + t * (ax + (t - x) * qt) == (a0 + x * ax) + (t - x) * (ax + t * qt)
  {
  }

  lemma {:induction false} EvalDivLinear(a: seq<int>, x: int, t: int)
    ensures Eval(a, t) == Eval(a, x) + (t - x) * Eval(DivLinear(a, x), t)
    decreases |a|
  {
    if |a| > 1 {
      var a' := a[1..];
      var q := DivLinear(a, x);
      var q' := DivLinear(a', x);
      EvalDivLinear(a', x, t);
      var ax, qt := Eval(a', x), Eval(q', t);
      assert q[0] == ax && q[1..] == q';
      assert Eval(q, t) == ax + t * qt;
      assert Eval(a, t) == a[0] + t * (ax + (t - x) * qt);
      assert Eval(a, x) == a[0] + x * ax;
      DivLinearStep(a[0], x, t, ax, qt);
    }
  }

  /** The points are pairwise distinct modulo p. */
  predicate DistinctMod(p: int, xs: seq<int>)
    requires p > 0
  {
    forall i, j :: 0 <= i < j < |xs| ==> xs[i] % p != xs[j] % p
  }

  /** A polynomial with at most m coefficients (degree below m) that is 0
      modulo a prime at m points distinct modulo that prime is 0 modulo the
      prime everywhere. */
  lemma {:induction false} VanishingEverywhere(p: int, h: seq<int>, xs: seq<int>, t: int)
    requires IsPrime(p)
    requires |h| <= |xs| && DistinctMod(p, xs)
    requires forall i :: 0 <= i < |xs| ==> Eval(h, xs[i]) % p == 0
    ensures Eval(h, t) % p == 0
    decreases |xs|
  {
    if h == [] {
      ModUnique(0, p, 0, 0);
    } else {
      var m := |xs|;
      var x := xs[m - 1];
      var q := DivLinear(h, x);
      var xs' := xs[..m - 1];
      forall i | 0 <= i < |xs'|
        ensures Eval(q, xs'[i]) % p == 0
      {
        var xi := xs'[i];
        assert xi == xs[i];
        EvalDivLinear(h, x, xi);
        // 0 == h(xi) == h(x) + (xi - x) * q(xi) == (xi - x) * q(xi) modulo p
        ModShift(0, p, 0);
        CongSub(Eval(h, xi), 0, Eval(h, x), 0, p);
        assert Eval(h, xi) - Eval(h, x) == (xi - x) * Eval(q, xi);
        Euclid(p, xi - x, Eval(q, xi));
        DiffNonzero(xi, x, p);
      }
      VanishingEverywhere(p, q, xs', t);
      EvalDivLinear(h, x, t);
      ModUnique(0, p, 0, 0);
      CongMul(t - x, t - x, Eval(q, t), 0, p);
      CongAdd(Eval(h, x), 0, (t - x) * Eval(q, t), 0, p);
    }
  }
}
