/** Lagrange interpolation modulo a prime p, written the textbook way as an
    independent reference for the secret reconstruction. For points
    xs[0..m) and values ys[0..m) the interpolating polynomial is
      L(t) = sum_i ys[i] * prod_{j != i} (t - xs[j]) / prod_{j != i} (xs[i] - xs[j])
    and the secret is L(0). */
module Lagrange {
  import opened ModArith
  import opened Polynomial

  /** prod_{j < J, j != i} (t - xs[j]), exact over the integers. */
  function Nodes(xs: seq<int>, i: int, t: int, J: nat): int
    requires J <= |xs|
  {
    if J == 0 then 1
    else if J - 1 == i then Nodes(xs, i, t, J - 1)
    else Nodes(xs, i, t, J - 1) * (t - xs[J - 1])
  }

  /** prod_{j < J} (t - xs[j]), exact over the integers. */
  function AllNodes(xs: seq<int>, t: int, J: nat): int
    requires J <= |xs|
  {
    if J == 0 then 1 else AllNodes(xs, t, J - 1) * (t - xs[J - 1])
  }

  /** prod_{j < J, j != i} (t - xs[j]) as a polynomial in t. */
  function NodesPoly(xs: seq<int>, i: int, J: nat): (r: seq<int>)
    requires J <= |xs|
    ensures |r| == if 0 <= i < J then J else J + 1
  {
    if J == 0 then [1]
    else if J - 1 == i then NodesPoly(xs, i, J - 1)
    else TimesLinear(NodesPoly(xs, i, J - 1), xs[J - 1])
  }

  /** The weight of point i: the inverse modulo p of its Lagrange denominator
      prod_{j != i} (xs[i] - xs[j]). */
  function Weight(p: int, xs: seq<int>, i: nat): int
    requires p >= 2 && i < |xs|
  {
    Inverse(p, Nodes(xs, i, xs[i], |xs|))
  }

  /** sum_{i < I} ys[i] * l_i(t), with l_i(t) the i-th Lagrange basis
      polynomial taken exactly except for its weight. */
  function Terms(p: int, xs: seq<int>, ys: seq<int>, t: int, I: nat): int
    requires p >= 2 && |ys| == |xs| && I <= |xs|
  {
    if I == 0 then 0
    else Terms(p, xs, ys, t, I - 1) + ys[I - 1] * (Weight(p, xs, I - 1) * Nodes(xs, I - 1, t, |xs|))
  }

  /** The same sum as a polynomial in t. */
  function InterpolatingPoly(p: int, xs: seq<int>, ys: seq<int>, I: nat): (r: seq<int>)
    requires p >= 2 && |ys| == |xs| && I <= |xs|
    ensures |r| <= |xs|
  {
    if I == 0 then []
    else Plus(InterpolatingPoly(p, xs, ys, I - 1),
              Scale(NodesPoly(xs, I - 1, |xs|), ys[I - 1] * Weight(p, xs, I - 1)))
  }

  /** The value at 0 of the polynomial through the points (xs[i], ys[i]),
      reduced into [0, p): the secret Lagrange interpolation recovers. */
  function Interpolate(p: int, xs: seq<int>, ys: seq<int>): (r: int)
    requires p >= 2 && |ys| == |xs|
    ensures 0 <= r < p
  {
    Terms(p, xs, ys, 0, |xs|) % p
  }

  lemma {:induction false} EvalNodesPoly(xs: seq<int>, i: int, t: int, J: nat)
    requires J <= |xs|
    ensures Eval(NodesPoly(xs, i, J), t) == Nodes(xs, i, t, J)
  {
    if J > 0 {
      EvalNodesPoly(xs, i, t, J - 1);
      if J - 1 != i {
        var prev := NodesPoly(xs, i, J - 1);
        EvalTimesLinear(prev, xs[J - 1], t);
        MulComm(t - xs[J - 1], Eval(prev, t));
      }
    }
  }

  lemma MulComm(a: int, b: int)
    ensures a * b == b * a
  {
  }

  lemma TermStep(y: int, w: int, e: int)
    ensures (y * w) * e == y * (w * e)
  {
  }

  lemma EvalInterpolatingPolyStep(p: int, xs: seq<int>, ys: seq<int>, t: int, i: nat)
    requires p >= 2 && |ys| == |xs| && i < |xs|
    ensures Eval(InterpolatingPoly(p, xs, ys, i + 1), t)
         == Eval(InterpolatingPoly(p, xs, ys, i), t) + ys[i] * (Weight(p, xs, i) * Nodes(xs, i, t, |xs|))
  {
    var np := NodesPoly(xs, i, |xs|);
    var w := Weight(p, xs, i);
    var s := ys[i] * w;
    EvalNodesPoly(xs, i, t, |xs|);
    EvalScale(np, s, t);
    EvalPlus(InterpolatingPoly(p, xs, ys, i), Scale(np, s), t);
    TermStep(ys[i], w, Nodes(xs, i, t, |xs|));
  }

  lemma {:induction false} EvalInterpolatingPoly(p: int, xs: seq<int>, ys: seq<int>, t: int, I: nat)
    requires p >= 2 && |ys| == |xs| && I <= |xs|
    ensures Eval(InterpolatingPoly(p, xs, ys, I), t) == Terms(p, xs, ys, t, I)
  {
    if I > 0 {
      var i := I - 1;
      var term := ys[i] * (Weight(p, xs, i) * Nodes(xs, i, t, |xs|));
      assert Terms(p, xs, ys, t, I) == Terms(p, xs, ys, t, i) + term;
      EvalInterpolatingPoly(p, xs, ys, t, i);
      EvalInterpolatingPolyStep(p, xs, ys, t, i);
    }
  }

  /** The basis product for point i vanishes at every other point. */
  lemma {:induction false} NodesVanish(xs: seq<int>, i: int, k: nat, J: nat)
    requires k < J <= |xs| && k != i
    ensures Nodes(xs, i, xs[k], J) == 0
  {
    if k < J - 1 {
      NodesVanish(xs, i, k, J - 1);
    }
  }

  /** Only the term of point k survives at xs[k]. */
  lemma {:induction false} TermsAtNode(p: int, xs: seq<int>, ys: seq<int>, k: nat, I: nat)
    requires p >= 2 && |ys| == |xs| && I <= |xs| && k < |xs|
    ensures Terms(p, xs, ys, xs[k], I)
         == if k < I then ys[k] * (Weight(p, xs, k) * Nodes(xs, k, xs[k], |xs|)) else 0
  {
    if I > 0 {
      var i := I - 1;
      var e := Nodes(xs, i, xs[k], |xs|);
      assert Terms(p, xs, ys, xs[k], I) == Terms(p, xs, ys, xs[k], i) + ys[i] * (Weight(p, xs, i) * e);
      TermsAtNode(p, xs, ys, k, i);
      if i != k {
        NodesVanish(xs, i, k, |xs|);
        assert e == 0;
      }
    }
  }

  /** A product of two numbers that are not 0 modulo a prime is not 0 modulo it. */
  lemma ProductNonzero(p: int, a: int, b: int)
    requires IsPrime(p) && a % p != 0 && b % p != 0
    ensures (a * b) % p != 0
  {
    if (a * b) % p == 0 {
      Euclid(p, a, b);
    }
  }

  /** A product with a factor that is 0 modulo p is 0 modulo p. */
  lemma ProductZero(p: int, a: int, b: int)
    requires p > 0 && b % p == 0
    ensures (a * b) % p == 0
  {
    ModUnique(0, p, 0, 0);
    CongMul(a, a, b, 0, p);
  }

  /** The denominator of point i is 0 modulo a prime exactly when another
      point among the first J coincides with xs[i] modulo that prime. */
  lemma {:induction false} DenominatorZero(p: int, xs: seq<int>, i: nat, J: nat)
    requires IsPrime(p) && i < |xs| && J <= |xs|
    ensures Nodes(xs, i, xs[i], J) % p == 0
        <==> exists j :: 0 <= j < J && j != i && xs[j] % p == xs[i] % p
  {
    if J == 0 {
      ModUnique(1, p, 0, 1);
    } else {
      DenominatorZero(p, xs, i, J - 1);
      var j := J - 1;
      if j != i {
        var rest := Nodes(xs, i, xs[i], J - 1);
        var f := xs[i] - xs[j];
        if xs[j] % p == xs[i] % p {
          CongSub(xs[i], xs[i], xs[j], xs[i], p);
          ModUnique(0, p, 0, 0);
          ProductZero(p, rest, f);
        } else if rest % p == 0 {
          ProductZero(p, f, rest);
          assert rest * f == f * rest;
        } else {
          DiffNonzero(xs[i], xs[j], p);
          ProductNonzero(p, rest, f);
          assert !(exists j' :: 0 <= j' < J - 1 && j' != i && xs[j'] % p == xs[i] % p);
        }
      }
    }
  }

  /** With distinct points, weight times denominator is 1 modulo p. */
  lemma WeightInverts(p: int, xs: seq<int>, k: nat)
    requires IsPrime(p) && DistinctMod(p, xs) && k < |xs|
    ensures (Weight(p, xs, k) * Nodes(xs, k, xs[k], |xs|)) % p == 1
  {
    DenominatorZero(p, xs, k, |xs|);
    var d := Nodes(xs, k, xs[k], |xs|);
    assert d % p != 0 by {
      forall j | 0 <= j < |xs| && j != k
        ensures xs[j] % p != xs[k] % p
      {
        if j < k { assert xs[j] % p != xs[k] % p; } else { assert xs[k] % p != xs[j] % p; }
      }
    }
    assert d * Weight(p, xs, k) == Weight(p, xs, k) * d;
  }

  /** The interpolating polynomial takes the prescribed value at every point. */
  lemma InterpolatesAtNode(p: int, xs: seq<int>, ys: seq<int>, k: nat)
    requires IsPrime(p) && DistinctMod(p, xs) && |ys| == |xs| && k < |xs|
    ensures Terms(p, xs, ys, xs[k], |xs|) % p == ys[k] % p
  {
    TermsAtNode(p, xs, ys, k, |xs|);
    WeightInverts(p, xs, k);
    var wd := Weight(p, xs, k) * Nodes(xs, k, xs[k], |xs|);
    ModUnique(1, p, 0, 1);
    CongMul(ys[k], ys[k], wd, 1, p);
  }

  /** The difference between c and the interpolating polynomial is 0 at
      every point modulo p. */
  lemma DifferenceVanishesAtNode(p: int, xs: seq<int>, ys: seq<int>, c: seq<int>, k: nat)
    requires IsPrime(p) && DistinctMod(p, xs) && |ys| == |xs| && k < |xs|
    requires ys[k] % p == Eval(c, xs[k]) % p
    ensures Eval(Minus(c, InterpolatingPoly(p, xs, ys, |xs|)), xs[k]) % p == 0
  {
    var x := xs[k];
    EvalInterpolatingPoly(p, xs, ys, x, |xs|);
    EvalMinus(c, InterpolatingPoly(p, xs, ys, |xs|), x);
    InterpolatesAtNode(p, xs, ys, k);
    CongSub(Eval(c, x), ys[k], Terms(p, xs, ys, x, |xs|), ys[k], p);
    ModUnique(0, p, 0, 0);
  }

  /** Interpolation theorem: through m points distinct modulo a prime, the
      Lagrange sum reproduces, modulo that prime, every polynomial of degree
      below m whose values it is given, at every t. */
  lemma InterpolationReproduces(p: int, xs: seq<int>, ys: seq<int>, c: seq<int>, t: int)
    requires IsPrime(p) && DistinctMod(p, xs) && |ys| == |xs| && |c| <= |xs|
    requires forall i :: 0 <= i < |xs| ==> ys[i] % p == Eval(c, xs[i]) % p
    ensures Terms(p, xs, ys, t, |xs|) % p == Eval(c, t) % p
  {
    var l := InterpolatingPoly(p, xs, ys, |xs|);
    var h := Minus(c, l);
    var lt := Terms(p, xs, ys, t, |xs|);
    assert Eval(l, t) == lt by {
      EvalInterpolatingPoly(p, xs, ys, t, |xs|);
    }
    assert Eval(h, t) % p == 0 by {
      forall k | 0 <= k < |xs|
        ensures Eval(h, xs[k]) % p == 0
      {
        DifferenceVanishesAtNode(p, xs, ys, c, k);
      }
      VanishingEverywhere(p, h, xs, t);
    }
    var ht := Eval(h, t);
    assert Eval(c, t) == ht + lt by {
      EvalMinus(c, l, t);
    }
    ModUnique(0, p, 0, 0);
    CongAdd(ht, 0, lt, lt, p);
  }

  /** Reconstruction: the Lagrange value at 0 is the constant term of any
      polynomial of degree below m through the m points. */
  lemma InterpolateRecoversConstant(p: int, xs: seq<int>, ys: seq<int>, c: seq<int>)
    requires IsPrime(p) && DistinctMod(p, xs) && |ys| == |xs| && 0 < |c| <= |xs|
    requires forall i :: 0 <= i < |xs| ==> ys[i] % p == Eval(c, xs[i]) % p
    ensures Interpolate(p, xs, ys) == c[0] % p
  {
    InterpolationReproduces(p, xs, ys, c, 0);
    EvalAtZero(c);
  }

  /** The basis values at 0 sum to 1: interpolating the constant 1. */
  lemma BasisSumsToOne(p: int, xs: seq<int>, ones: seq<int>)
    requires IsPrime(p) && DistinctMod(p, xs) && 0 < |xs| && |ones| == |xs|
    requires forall i :: 0 <= i < |ones| ==> ones[i] == 1
    ensures Interpolate(p, xs, ones) == 1
  {
    forall i | 0 <= i < |xs|
      ensures ones[i] % p == Eval([1], xs[i]) % p
    {
      assert Eval([1], xs[i]) == 1;
    }
    InterpolateRecoversConstant(p, xs, ones, [1]);
    ModUnique(1, p, 0, 1);
  }

  /** A single point (x, y) interpolates to y mod p, whatever x is. */
  lemma InterpolateSingle(p: int, x: int, y: int)
    requires IsPrime(p)
    ensures Interpolate(p, [x], [y]) == y % p
  {
    forall i | 0 <= i < 1
      ensures [y][i] % p == Eval([y], [x][i]) % p
    {
      assert Eval([y], x) == y;
    }
    InterpolateRecoversConstant(p, [x], [y], [y]);
  }

  lemma LinearStep(z: int, y1: int, y2: int, a: int, b: int, e: int, s: int, s1: int, s2: int)
    requires z == a * y1 + b * y2 && s == a * s1 + b * s2
    ensures s + z * e == a * (s1 + y1 * e) + b * (s2 + y2 * e)
  {
  }

  /** The Lagrange sum is linear in the values. */
  lemma {:induction false} TermsLinear(p: int, xs: seq<int>, ys1: seq<int>, ys2: seq<int>, zs: seq<int>,
                                       a: int, b: int, t: int, I: nat)
    requires p >= 2 && |ys1| == |xs| && |ys2| == |xs| && |zs| == |xs| && I <= |xs|
    requires forall i :: 0 <= i < |xs| ==> zs[i] == a * ys1[i] + b * ys2[i]
    ensures Terms(p, xs, zs, t, I) == a * Terms(p, xs, ys1, t, I) + b * Terms(p, xs, ys2, t, I)
  {
    if I > 0 {
      var i := I - 1;
      var e := Weight(p, xs, i) * Nodes(xs, i, t, |xs|);
      assert Terms(p, xs, zs, t, I) == Terms(p, xs, zs, t, i) + zs[i] * e;
      assert Terms(p, xs, ys1, t, I) == Terms(p, xs, ys1, t, i) + ys1[i] * e;
      assert Terms(p, xs, ys2, t, I) == Terms(p, xs, ys2, t, i) + ys2[i] * e;
      TermsLinear(p, xs, ys1, ys2, zs, a, b, t, i);
      LinearStep(zs[i], ys1[i], ys2[i], a, b, e,
                 Terms(p, xs, zs, t, i), Terms(p, xs, ys1, t, i), Terms(p, xs, ys2, t, i));
    }
  }

  /** Values that agree modulo p give Lagrange sums that agree modulo p. */
  lemma {:induction false} TermsCong(p: int, xs: seq<int>, ys: seq<int>, zs: seq<int>, t: int, I: nat)
    requires p >= 2 && |ys| == |xs| && |zs| == |xs| && I <= |xs|
    requires forall i :: 0 <= i < |xs| ==> ys[i] % p == zs[i] % p
    ensures Terms(p, xs, ys, t, I) % p == Terms(p, xs, zs, t, I) % p
  {
    if I > 0 {
      var i := I - 1;
      var e := Weight(p, xs, i) * Nodes(xs, i, t, |xs|);
      assert Terms(p, xs, ys, t, I) == Terms(p, xs, ys, t, i) + ys[i] * e;
      assert Terms(p, xs, zs, t, I) == Terms(p, xs, zs, t, i) + zs[i] * e;
      TermsCong(p, xs, ys, zs, t, i);
      CongMul(ys[i], zs[i], e, e, p);
      CongAdd(Terms(p, xs, ys, t, i), Terms(p, xs, zs, t, i), ys[i] * e, zs[i] * e, p);
    }
  }

  /** Pointwise sums of values (reduced mod p) interpolate to the sum of the
      two interpolated values. */
  lemma InterpolateAdd(p: int, xs: seq<int>, ys1: seq<int>, ys2: seq<int>, zs: seq<int>)
    requires p >= 2 && |ys1| == |xs| && |ys2| == |xs| && |zs| == |xs|
    requires forall i :: 0 <= i < |xs| ==> zs[i] == (ys1[i] + ys2[i]) % p
    ensures Interpolate(p, xs, zs) == (Interpolate(p, xs, ys1) + Interpolate(p, xs, ys2)) % p
  {
    var m := |xs|;
    var exact := seq(m, i requires 0 <= i < m => ys1[i] + ys2[i]);
    forall i | 0 <= i < m ensures zs[i] % p == exact[i] % p {
      ModMod(ys1[i] + ys2[i], p);
    }
    TermsCong(p, xs, zs, exact, 0, m);
    TermsLinear(p, xs, ys1, ys2, exact, 1, 1, 0, m);
    var t1, t2 := Terms(p, xs, ys1, 0, m), Terms(p, xs, ys2, 0, m);
    ModAddMul(t1, t2, p);
    ModAddMul(t1 % p, t2, p);
  }

  /** Multiplying every value by s multiplies the interpolated value by s. */
  lemma InterpolateScale(p: int, xs: seq<int>, ys: seq<int>, s: int, zs: seq<int>)
    requires p >= 2 && |ys| == |xs| && |zs| == |xs|
    requires forall i :: 0 <= i < |xs| ==> zs[i] == (s * ys[i]) % p
    ensures Interpolate(p, xs, zs) == (s * Interpolate(p, xs, ys)) % p
  {
    var m := |xs|;
    var exact := seq(m, i requires 0 <= i < m => s * ys[i]);
    forall i | 0 <= i < m ensures zs[i] % p == exact[i] % p {
      ModMod(s * ys[i], p);
    }
    TermsCong(p, xs, zs, exact, 0, m);
    TermsLinear(p, xs, ys, ys, exact, s, 0, 0, m);
    ModAddMul(s, Terms(p, xs, ys, 0, m), p);
  }

  /** Adding c to every value adds c to the interpolated value, because the
      basis values at 0 sum to 1. */
  lemma InterpolateShift(p: int, xs: seq<int>, ys: seq<int>, c: int, zs: seq<int>)
    requires IsPrime(p) && DistinctMod(p, xs) && 0 < |xs| && |ys| == |xs| && |zs| == |xs|
    requires forall i :: 0 <= i < |xs| ==> zs[i] == (ys[i] + c) % p
    ensures Interpolate(p, xs, zs) == (Interpolate(p, xs, ys) + c) % p
  {
    var m := |xs|;
    var ones := seq(m, i requires 0 <= i < m => 1);
    var exact := seq(m, i requires 0 <= i < m => ys[i] + c);
    forall i | 0 <= i < m ensures zs[i] % p == exact[i] % p && exact[i] == 1 * ys[i] + c * ones[i] {
      ModMod(ys[i] + c, p);
    }
    TermsCong(p, xs, zs, exact, 0, m);
    TermsLinear(p, xs, ys, ones, exact, 1, c, 0, m);
    BasisSumsToOne(p, xs, ones);
    var ty, to := Terms(p, xs, ys, 0, m), Terms(p, xs, ones, 0, m);
    // (ty + c*to) mod p == (ty mod p + c * (to mod p)) mod p == (ty mod p + c) mod p
    ModAddMul(c, to, p);
    CongAdd(ty, ty, c * to, c, p);
    ModAddMul(ty, c, p);
  }

  /** The product of all negated points is the negated point i times the
      product of the others. */
  lemma {:induction false} AllNodesSplit(xs: seq<int>, i: nat, t: int, J: nat)
    requires i < |xs| && J <= |xs|
    ensures AllNodes(xs, t, J) == (if i < J then t - xs[i] else 1) * Nodes(xs, i, t, J)
  {
    if J > 0 {
      AllNodesSplit(xs, i, t, J - 1);
      var f := t - xs[J - 1];
      var n := Nodes(xs, i, t, J - 1);
      var a := AllNodes(xs, t, J - 1);
      assert AllNodes(xs, t, J) == a * f;
      if J - 1 == i {
        assert a == n;
        assert Nodes(xs, i, t, J) == n;
        MulComm(n, f);
      } else {
        var g := if i < J - 1 then t - xs[i] else 1;
        assert a == g * n;
        assert Nodes(xs, i, t, J) == n * f;
        TermStep(g, n, f);
      }
    }
  }

  lemma NegatedFactor(a: int, x: int, n: int, inv: int)
    requires a == (0 - x) * n
    ensures a * inv == -n * (x * inv)
  {
  }

  /** The numerator shortcut of the reconstruction: the product of all
      negated points divided by point i is the NEGATED numerator of the
      i-th basis value at 0, prod_{j != i} (-xs[j]). */
  lemma NumeratorSign(p: int, xs: seq<int>, i: nat)
    requires IsPrime(p) && i < |xs| && xs[i] % p != 0
    ensures (AllNodes(xs, 0, |xs|) % p * Inverse(p, xs[i])) % p == (-Nodes(xs, i, 0, |xs|)) % p
  {
    var m := |xs|;
    var n := Nodes(xs, i, 0, m);
    var inv := Inverse(p, xs[i]);
    AllNodesSplit(xs, i, 0, m);
    ModAddMul(AllNodes(xs, 0, m), inv, p);
    NegatedFactor(AllNodes(xs, 0, m), xs[i], n, inv);
    ModUnique(1, p, 0, 1);
    CongMul(-n, -n, xs[i] * inv, 1, p);
  }
}
