/** Shamir's (k, n)-threshold secret sharing over the prime field GF(p)
    (Shamir, "How to share a secret", CACM 22(11), 1979). */
module Secretsharing {
  import opened ModArith
  import opened Field
  import opened Polynomial
  import opened Lagrange

  /** The ways share and reveal fail. */
  datatype Error =
    | ValueOutOfField    // a secret or share component is not an element of GF(p)
    | EmptyCoefficients  // k == 0: there is no coefficient to hold the secret
    | NoShares           // reveal was given no shares
    | DivisionByZero     // a point is 0, or two points coincide

  datatype Result<T> = Ok(value: T) | Err(error: Error)

  /** Every coordinate of every share is a field element. */
  predicate AllInField(p: int, shares: seq<(int, int)>) {
    forall i :: 0 <= i < |shares| ==> InField(p, shares[i].0) && InField(p, shares[i].1)
  }

  function Xs(shares: seq<(int, int)>): (xs: seq<int>)
    ensures |xs| == |shares| && forall i :: 0 <= i < |shares| ==> xs[i] == shares[i].0
  {
    seq(|shares|, i requires 0 <= i < |shares| => shares[i].0)
  }

  function Ys(shares: seq<(int, int)>): (ys: seq<int>)
    ensures |ys| == |shares| && forall i :: 0 <= i < |shares| ==> ys[i] == shares[i].1
  {
    seq(|shares|, i requires 0 <= i < |shares| => shares[i].1)
  }

  /** The points reveal can divide by: none is 0 and no two coincide. */
  predicate UsablePoints(xs: seq<int>) {
    (forall i :: 0 <= i < |xs| ==> xs[i] != 0) &&
    (forall i, j :: 0 <= i < j < |xs| ==> xs[i] != xs[j])
  }

  /** The shares at the given positions, in the given order. */
  function Pick(shares: seq<(int, int)>, picks: seq<int>): (pool: seq<(int, int)>)
    requires forall a :: 0 <= a < |picks| ==> 0 <= picks[a] < |shares|
    ensures |pool| == |picks| && forall a :: 0 <= a < |picks| ==> pool[a] == shares[picks[a]]
  {
    seq(|picks|, a requires 0 <= a < |picks| => shares[picks[a]])
  }

  /** The coefficient list share builds, highest degree first: the drawn
      values with the last one replaced by the secret, which is therefore
      the constant term. */
  function Coefficients(drawn: seq<int>, secret: int): (coeffs: seq<int>)
    requires |drawn| > 0
    ensures |coeffs| == |drawn| && coeffs[|drawn| - 1] == secret
    ensures coeffs[..|drawn| - 1] == drawn[..|drawn| - 1]
  {
    drawn[..|drawn| - 1] + [secret]
  }

  /** The value at x of the polynomial whose coefficient list, highest degree
      first, is coeffs: sum_{i < |coeffs|} coeffs[|coeffs|-1-i] * x^i mod p. */
  function PolyValue(p: int, coeffs: seq<int>, x: int): (y: int)
    requires p >= 2
    ensures InField(p, y)
  {
    PowerSum(Reverse(coeffs), x, |coeffs|) % p
  }

  /** The closed form is Horner's rule on the reversed list. */
  lemma PolyValueIsEval(p: int, coeffs: seq<int>)
    requires p >= 2
    ensures forall x :: PolyValue(p, coeffs, x) == Eval(Reverse(coeffs), x) % p
  {
    forall x ensures PolyValue(p, coeffs, x) == Eval(Reverse(coeffs), x) % p {
      PowerSumIsEval(Reverse(coeffs), x);
    }
  }

  /** The polynomial at 0 is the last entry of the list, reduced. */
  lemma PolyValueAtZero(p: int, coeffs: seq<int>)
    requires p >= 2 && |coeffs| > 0
    ensures PolyValue(p, coeffs, 0) == coeffs[|coeffs| - 1] % p
  {
    PolyValueIsEval(p, coeffs);
    EvalAtZero(Reverse(coeffs));
  }

  /** The numerator shortcut of reveal: dividing the product of all negated
      points by point i and then by its denominator gives the NEGATED i-th
      Lagrange basis value at 0. */
  lemma ShortcutBasisValue(p: int, xs: seq<int>, i: nat)
    requires IsPrime(p) && i < |xs| && InField(p, xs[i]) && xs[i] != 0
    requires Nodes(xs, i, xs[i], |xs|) % p != 0
    ensures Div(p, Div(p, AllNodes(xs, 0, |xs|) % p, xs[i]), Nodes(xs, i, xs[i], |xs|) % p)
         == (-(Weight(p, xs, i) * Nodes(xs, i, 0, |xs|))) % p
  {
    ModUnique(xs[i], p, 0, xs[i]);
    NumeratorSign(p, xs, i);
    DivideShortcut(p, AllNodes(xs, 0, |xs|), xs[i], Nodes(xs, i, 0, |xs|), Nodes(xs, i, xs[i], |xs|));
  }

  lemma DivideShortcut(p: int, a: int, x: int, n: int, d: int)
    requires IsPrime(p) && InField(p, x) && x != 0 && d % p != 0
    requires (a % p * Inverse(p, x)) % p == (-n) % p
    ensures Div(p, Div(p, a % p, x), d % p) == (-(Inverse(p, d) * n)) % p
  {
    var w := Inverse(p, d);
    var num := Div(p, a % p, x);
    assert num == (a % p * Inverse(p, x)) % p;
    ModMod(d, p);
    assert Inverse(p, d % p) == w;
    var li := Div(p, num, d % p);
    assert li == (num * w) % p;
    ModAddMul(-n, w, p);
    assert -n * w == -(w * n);
  }

  /** Adding y * li to a negated partial sum, with li the negated basis
      value e, gives the negated sum extended by y * e. */
  lemma AccumulateNegated(p: int, sums: int, t: int, y: int, li: int, e: int)
    requires p >= 2 && sums == (-t) % p && li == (-e) % p
    ensures Add(p, sums, Mul(p, y, li)) == (-(t + y * e)) % p
  {
    ModAddMul(y, -e, p);
    assert y * -e == -(y * e);
    ModMod(-t, p);
    ModMod(-(y * e), p);
    CongAdd(sums, -t, Mul(p, y, li), -(y * e), p);
  }

  /** Two share lists on the same points with their values added pointwise,
      reduced modulo p. */
  function AddValues(p: int, pool1: seq<(int, int)>, pool2: seq<(int, int)>): (pool: seq<(int, int)>)
    requires p >= 2 && |pool1| == |pool2|
    ensures |pool| == |pool1|
    ensures forall a :: 0 <= a < |pool| ==>
      pool[a].0 == pool1[a].0 && InField(p, pool[a].1) && pool[a].1 == Add(p, pool1[a].1, pool2[a].1)
  {
    seq(|pool1|, a requires 0 <= a < |pool1| => (pool1[a].0, (pool1[a].1 + pool2[a].1) % p))
  }

  /** A share list with c added to every value, reduced modulo p. */
  function ShiftValues(p: int, pool: seq<(int, int)>, c: int): (shifted: seq<(int, int)>)
    requires p >= 2
    ensures |shifted| == |pool|
    ensures forall a :: 0 <= a < |pool| ==>
      shifted[a].0 == pool[a].0 && InField(p, shifted[a].1) && shifted[a].1 == Add(p, pool[a].1, c)
  {
    seq(|pool|, a requires 0 <= a < |pool| => (pool[a].0, (pool[a].1 + c) % p))
  }

  /** A share list with every value multiplied by m, reduced modulo p. */
  function ScaleValues(p: int, pool: seq<(int, int)>, m: int): (scaled: seq<(int, int)>)
    requires p >= 2
    ensures |scaled| == |pool|
    ensures forall a :: 0 <= a < |pool| ==>
      scaled[a].0 == pool[a].0 && InField(p, scaled[a].1) && scaled[a].1 == Mul(p, pool[a].1, m)
  {
    seq(|pool|, a requires 0 <= a < |pool| => (pool[a].0, (pool[a].1 * m) % p))
  }

  /** Negating the negated sum gives back the sum, reduced. */
  lemma NegatedSum(p: int, t: int, sums: int)
    requires p >= 2 && sums == (-t) % p
    ensures Neg(p, sums) == t % p
  {
    ModMod(-t, p);
    CongNeg(sums, -t, p);
  }

  /** Share lists on the same points, added pointwise, interpolate to the
      sum of what each interpolates to. */
  lemma AddValuesInterpolate(p: int, pool1: seq<(int, int)>, pool2: seq<(int, int)>)
    requires p >= 2 && |pool1| == |pool2| && Xs(pool1) == Xs(pool2)
    ensures Xs(AddValues(p, pool1, pool2)) == Xs(pool1)
    ensures Interpolate(p, Xs(pool1), Ys(AddValues(p, pool1, pool2)))
         == (Interpolate(p, Xs(pool1), Ys(pool1)) + Interpolate(p, Xs(pool1), Ys(pool2))) % p
  {
    var pool := AddValues(p, pool1, pool2);
    assert Xs(pool) == Xs(pool1);
    forall a | 0 <= a < |pool| ensures Ys(pool)[a] == (Ys(pool1)[a] + Ys(pool2)[a]) % p {
    }
    InterpolateAdd(p, Xs(pool1), Ys(pool1), Ys(pool2), Ys(pool));
  }

  /** A share list on points distinct modulo a prime, with c added to every
      value, interpolates to the original value plus c. */
  lemma ShiftValuesInterpolate(p: int, pool: seq<(int, int)>, c: int)
    requires IsPrime(p) && pool != [] && DistinctMod(p, Xs(pool))
    ensures Xs(ShiftValues(p, pool, c)) == Xs(pool)
    ensures Interpolate(p, Xs(pool), Ys(ShiftValues(p, pool, c)))
         == (Interpolate(p, Xs(pool), Ys(pool)) + c) % p
  {
    var pool' := ShiftValues(p, pool, c);
    assert Xs(pool') == Xs(pool);
    InterpolateShift(p, Xs(pool), Ys(pool), c, Ys(pool'));
  }

  /** A share list with every value multiplied by m interpolates to m times
      the original value. */
  lemma ScaleValuesInterpolate(p: int, pool: seq<(int, int)>, m: int)
    requires p >= 2
    ensures Xs(ScaleValues(p, pool, m)) == Xs(pool)
    ensures Interpolate(p, Xs(pool), Ys(ScaleValues(p, pool, m)))
         == (m * Interpolate(p, Xs(pool), Ys(pool))) % p
  {
    var pool' := ScaleValues(p, pool, m);
    assert Xs(pool') == Xs(pool);
    forall a | 0 <= a < |pool| ensures Ys(pool')[a] == (m * Ys(pool)[a]) % p {
      assert pool[a].1 * m == m * pool[a].1;
    }
    InterpolateScale(p, Xs(pool), Ys(pool), m, Ys(pool'));
  }

  /** The scheme over GF(order). Its only state, the field, is fixed when the
      object is made. */
  class Shamir {
    const order: int

    ghost predicate Valid() {
      IsPrime(order)
    }

    constructor (order: int)
      requires IsPrime(order)
      ensures this.order == order && Valid()
    {
      this.order := order;
    }

    /** Splits secret into n shares (x, p(x)) for x = 1 .. n, where p is the
        polynomial of degree k-1 whose constant term is secret and whose other
        coefficients are the values drawn at random (all but the last of the
        k drawn values; the last is overwritten by the secret). */
    function Share(k: nat, n: int, secret: int, drawn: seq<int>): (r: Result<seq<(int, int)>>)
      requires Valid()
      requires |drawn| == k && forall i :: 0 <= i < k ==> InField(order, drawn[i])
      ensures !InField(order, secret) ==> r == Err(ValueOutOfField)
      ensures InField(order, secret) && k == 0 ==> r == Err(EmptyCoefficients)
      ensures InField(order, secret) && k > 0 ==> r.Ok? && |r.value| == if n < 0 then 0 else n
      ensures r.Ok? ==> forall i :: 0 <= i < |r.value| ==>
                r.value[i].0 == i + 1 && InField(order, r.value[i].1)
      ensures r.Ok? ==> (k > 0 &&
                var c := Reverse(Coefficients(drawn, secret));
                |c| == k && c[0] == secret && c[1..] == Reverse(drawn[..k - 1]) &&
                forall i :: 0 <= i < |r.value| ==> r.value[i].1 == Eval(c, i + 1) % order)
    {
      if !InField(order, secret) then Err(ValueOutOfField)
      else if k == 0 then Err(EmptyCoefficients)
      else
        var coeffs := Coefficients(drawn, secret);
        var m := if n < 0 then 0 else n;
        PolyValueIsEval(order, coeffs);
        Ok(seq(m, i requires 0 <= i < m => (i + 1, PolyValue(order, coeffs, i + 1))))
    }

    /** Evaluates the polynomial with coefficient list coeffs (highest degree
        first) at x, accumulating x^index * coeffs[|coeffs|-1-index]. */
    method Poly(x: int, coeffs: seq<int>) returns (y: int)
      requires Valid()
      ensures y == PolyValue(order, coeffs, x)
    {
      var rev := Reverse(coeffs);
      y := 0;
      ModUnique(0, order, 0, 0);
      for index := 0 to |rev|
        invariant y == PowerSum(rev, x, index) % order
      {
        var term := Pow(x, index) * rev[index];
        ModAddMul(PowerSum(rev, x, index), term, order);
        ModAddMul(y, term, order);
        assert term == rev[index] * Pow(x, index);
        y := Add(order, y, Mul(order, Pow(x, index), rev[index]));
      }
    }

    /** One term of the reconstruction, as the source computes it, extends
        the negated Lagrange sum by one term. */
    lemma RevealStep(xs: seq<int>, ys: seq<int>, i: nat, product: int, denominator: int, sums: int)
      requires Valid() && |ys| == |xs| && i < |xs|
      requires product == AllNodes(xs, 0, |xs|) % order
      requires denominator == Nodes(xs, i, xs[i], |xs|) % order && denominator != 0
      requires InField(order, xs[i]) && xs[i] != 0
      requires sums == (-Terms(order, xs, ys, 0, i)) % order
      ensures Add(order, sums, Mul(order, ys[i], Div(order, Div(order, product, xs[i]), denominator)))
           == (-Terms(order, xs, ys, 0, i + 1)) % order
    {
      var p := order;
      var li := Div(p, Div(p, product, xs[i]), denominator);
      var e := Weight(p, xs, i) * Nodes(xs, i, 0, |xs|);
      ShortcutBasisValue(p, xs, i);
      AccumulateNegated(p, sums, Terms(p, xs, ys, 0, i), ys[i], li, e);
    }

    /** The product of all negated points, reduced: the numerator reveal
        precomputes. */
    method NegatedProduct(x: seq<int>) returns (product: int)
      requires Valid()
      ensures product == AllNodes(x, 0, |x|) % order
    {
      product := 1;
      ModUnique(1, order, 0, 1);
      for k := 0 to |x|
        invariant product == AllNodes(x, 0, k) % order
      {
        ModAddMul(AllNodes(x, 0, k), -x[k], order);
        ModAddMul(product, -x[k], order);
        product := Mul(order, product, Neg(order, x[k]));
      }
    }

    /** The Lagrange denominator of point i, the product of x[i] - x[j] over
        every other point j, reduced. */
    method Denominator(x: seq<int>, i: nat) returns (denominator: int)
      requires Valid() && i < |x|
      ensures denominator == Nodes(x, i, x[i], |x|) % order
    {
      denominator := 1;
      ModUnique(1, order, 0, 1);
      for j := 0 to |x|
        invariant denominator == Nodes(x, i, x[i], j) % order
      {
        if i == j {
          continue;
        }
        ModAddMul(Nodes(x, i, x[i], j), x[i] - x[j], order);
        ModAddMul(denominator, x[i] - x[j], order);
        denominator := Mul(order, denominator, Sub(order, x[i], x[j]));
      }
    }

    /** Reconstructs the secret from shares by Lagrange interpolation at 0:
        splits the shares into points and values, precomputes the product of
        all negated points and sums the terms. */
    method Reveal(shares: seq<(int, int)>) returns (r: Result<int>)
      requires Valid()
      ensures !AllInField(order, shares) ==> r == Err(ValueOutOfField)
      ensures AllInField(order, shares) && shares == [] ==> r == Err(NoShares)
      ensures AllInField(order, shares) && shares != [] && !UsablePoints(Xs(shares)) ==>
                r == Err(DivisionByZero)
      ensures AllInField(order, shares) && shares != [] && UsablePoints(Xs(shares)) ==>
                r == Ok(Interpolate(order, Xs(shares), Ys(shares)))
    {
      if !AllInField(order, shares) {
        return Err(ValueOutOfField);
      }
      if shares == [] {
        return Err(NoShares);
      }
      var x, y := Xs(shares), Ys(shares);
      var product := NegatedProduct(x);
      r := SumTerms(x, y, product);
    }

    /** The reconstruction loop of reveal: for each point i, divides the
        precomputed numerator by x[i] and by the denominator of i, which gives
        the negated basis value at 0, accumulates y[i] times it, and finally
        negates the sum. Fails when a division by 0 would happen. */
    method SumTerms(x: seq<int>, y: seq<int>, product: int) returns (r: Result<int>)
      requires Valid() && |y| == |x|
      requires forall j :: 0 <= j < |x| ==> InField(order, x[j])
      requires product == AllNodes(x, 0, |x|) % order
      ensures !UsablePoints(x) ==> r == Err(DivisionByZero)
      ensures UsablePoints(x) ==> r == Ok(Interpolate(order, x, y))
    {
      var m := |x|;
      var sums := 0;
      ModUnique(0, order, 0, 0);
      for i := 0 to m
        invariant sums == (-Terms(order, x, y, 0, i)) % order
        invariant forall i' :: 0 <= i' < i ==> x[i'] != 0 && Nodes(x, i', x[i'], m) % order != 0
      {
        var denominator := Denominator(x, i);
        if x[i] == 0 {
          return Err(DivisionByZero);
        }
        var num := Div(order, product, x[i]);
        if denominator == 0 {
          CoincidingPoints(x, i);
          return Err(DivisionByZero);
        }
        var li := Div(order, num, denominator);
        RevealStep(x, y, i, product, denominator, sums);
        sums := Add(order, sums, Mul(order, y[i], li));
      }
      DistinctFromDenominators(x);
      NegatedSum(order, Terms(order, x, y, 0, m), sums);
      r := Ok(Neg(order, sums));
    }

    /** Round trip: any k or more distinct shares produced by Share reveal the
        secret. With n < order every point 1 .. n is a nonzero field element,
        so reveal takes its success path. */
    lemma RevealOfShares(k: nat, n: int, secret: int, drawn: seq<int>, picks: seq<int>)
      requires Valid() && InField(order, secret) && 1 <= k && n < order
      requires |drawn| == k && forall i :: 0 <= i < k ==> InField(order, drawn[i])
      requires k <= |picks| && forall a :: 0 <= a < |picks| ==> 0 <= picks[a] < n
      requires forall a, b :: 0 <= a < b < |picks| ==> picks[a] != picks[b]
      ensures Share(k, n, secret, drawn).Ok? && |Share(k, n, secret, drawn).value| == n
      ensures var pool := Pick(Share(k, n, secret, drawn).value, picks);
                AllInField(order, pool) && pool != [] && UsablePoints(Xs(pool)) &&
                (forall a :: 0 <= a < |picks| ==> Xs(pool)[a] == picks[a] + 1) &&
                Interpolate(order, Xs(pool), Ys(pool)) == secret
    {
      var p := order;
      var shares := Share(k, n, secret, drawn).value;
      var pool := Pick(shares, picks);
      var xs, ys := Xs(pool), Ys(pool);
      var c := Reverse(Coefficients(drawn, secret));
      forall a | 0 <= a < |picks|
        ensures xs[a] == picks[a] + 1 && xs[a] % p == xs[a]
        ensures ys[a] % p == Eval(c, xs[a]) % p
      {
        ModUnique(xs[a], p, 0, xs[a]);
        ModMod(Eval(c, xs[a]), p);
      }
      assert DistinctMod(p, xs);
      InterpolateRecoversConstant(p, xs, ys, c);
      ModUnique(secret, p, 0, secret);
    }

    /** Reveal applied to k or more distinct shares of secret returns it. */
    method ShareThenReveal(k: nat, n: int, secret: int, drawn: seq<int>, picks: seq<int>)
      returns (r: Result<int>)
      requires Valid() && InField(order, secret) && 1 <= k && n < order
      requires |drawn| == k && forall i :: 0 <= i < k ==> InField(order, drawn[i])
      requires k <= |picks| && forall a :: 0 <= a < |picks| ==> 0 <= picks[a] < n
      requires forall a, b :: 0 <= a < b < |picks| ==> picks[a] != picks[b]
      ensures r == Ok(secret)
    {
      var shares := Share(k, n, secret, drawn);
      RevealOfShares(k, n, secret, drawn, picks);
      r := Reveal(Pick(shares.value, picks));
    }

    /** Adding two share sets of the same points pointwise gives shares of the
        sum of the secrets. */
    lemma SumOfSharesRevealsSum(k: nat, n: int, s1: int, d1: seq<int>, s2: int, d2: seq<int>, picks: seq<int>)
      requires Valid() && InField(order, s1) && InField(order, s2) && 1 <= k && n < order
      requires |d1| == k && forall i :: 0 <= i < k ==> InField(order, d1[i])
      requires |d2| == k && forall i :: 0 <= i < k ==> InField(order, d2[i])
      requires k <= |picks| && forall a :: 0 <= a < |picks| ==> 0 <= picks[a] < n
      requires forall a, b :: 0 <= a < b < |picks| ==> picks[a] != picks[b]
      ensures Share(k, n, s1, d1).Ok? && Share(k, n, s2, d2).Ok?
      ensures var pool := AddValues(order, Pick(Share(k, n, s1, d1).value, picks),
                                           Pick(Share(k, n, s2, d2).value, picks));
              AllInField(order, pool) && pool != [] && UsablePoints(Xs(pool)) &&
              Interpolate(order, Xs(pool), Ys(pool)) == (s1 + s2) % order
    {
      RevealOfShares(k, n, s1, d1, picks);
      RevealOfShares(k, n, s2, d2, picks);
      var pool1 := Pick(Share(k, n, s1, d1).value, picks);
      var pool2 := Pick(Share(k, n, s2, d2).value, picks);
      assert Xs(pool2) == Xs(pool1);
      AddValuesInterpolate(order, pool1, pool2);
    }

    /** Adding c to every share value gives shares of secret + c. */
    lemma ShiftedSharesRevealShiftedSecret(k: nat, n: int, secret: int, drawn: seq<int>, picks: seq<int>, c: int)
      requires Valid() && InField(order, secret) && 1 <= k && n < order
      requires |drawn| == k && forall i :: 0 <= i < k ==> InField(order, drawn[i])
      requires k <= |picks| && forall a :: 0 <= a < |picks| ==> 0 <= picks[a] < n
      requires forall a, b :: 0 <= a < b < |picks| ==> picks[a] != picks[b]
      ensures Share(k, n, secret, drawn).Ok?
      ensures var pool := ShiftValues(order, Pick(Share(k, n, secret, drawn).value, picks), c);
              AllInField(order, pool) && pool != [] && UsablePoints(Xs(pool)) &&
              Interpolate(order, Xs(pool), Ys(pool)) == (secret + c) % order
    {
      RevealOfShares(k, n, secret, drawn, picks);
      var pool1 := Pick(Share(k, n, secret, drawn).value, picks);
      var xs := Xs(pool1);
      assert DistinctMod(order, xs) by {
        forall a | 0 <= a < |xs| ensures xs[a] % order == xs[a] {
          ModUnique(xs[a], order, 0, xs[a]);
        }
      }
      ShiftValuesInterpolate(order, pool1, c);
    }

    /** Multiplying every share value by m gives shares of m * secret. */
    lemma ScaledSharesRevealScaledSecret(k: nat, n: int, secret: int, drawn: seq<int>, picks: seq<int>, m: int)
      requires Valid() && InField(order, secret) && 1 <= k && n < order
      requires |drawn| == k && forall i :: 0 <= i < k ==> InField(order, drawn[i])
      requires k <= |picks| && forall a :: 0 <= a < |picks| ==> 0 <= picks[a] < n
      requires forall a, b :: 0 <= a < b < |picks| ==> picks[a] != picks[b]
      ensures Share(k, n, secret, drawn).Ok?
      ensures var pool := ScaleValues(order, Pick(Share(k, n, secret, drawn).value, picks), m);
              AllInField(order, pool) && pool != [] && UsablePoints(Xs(pool)) &&
              Interpolate(order, Xs(pool), Ys(pool)) == (m * secret) % order
    {
      RevealOfShares(k, n, secret, drawn, picks);
      var pool1 := Pick(Share(k, n, secret, drawn).value, picks);
      ScaleValuesInterpolate(order, pool1, m);
    }

    /** A point whose denominator is 0 modulo the order coincides with another
        point, so the points are not usable. */
    lemma CoincidingPoints(xs: seq<int>, i: nat)
      requires Valid() && i < |xs|
      requires forall j :: 0 <= j < |xs| ==> InField(order, xs[j])
      requires Nodes(xs, i, xs[i], |xs|) % order == 0
      ensures exists a, b :: 0 <= a < b < |xs| && xs[a] == xs[b]
      ensures !UsablePoints(xs)
    {
      DenominatorZero(order, xs, i, |xs|);
      var j :| 0 <= j < |xs| && j != i && xs[j] % order == xs[i] % order;
      ModUnique(xs[j], order, 0, xs[j]);
      ModUnique(xs[i], order, 0, xs[i]);
      if j < i {
        assert xs[j] == xs[i];
      } else {
        assert xs[i] == xs[j];
      }
    }

    /** Points whose denominators are all nonzero are pairwise distinct. */
    lemma DistinctFromDenominators(xs: seq<int>)
      requires Valid()
      requires forall i :: 0 <= i < |xs| ==> InField(order, xs[i])
      requires forall i :: 0 <= i < |xs| ==> Nodes(xs, i, xs[i], |xs|) % order != 0
      ensures forall i, j :: 0 <= i < j < |xs| ==> xs[i] != xs[j]
    {
      forall i, j | 0 <= i < j < |xs|
        ensures xs[i] != xs[j]
      {
        DenominatorZero(order, xs, i, |xs|);
      }
    }
  }
}
