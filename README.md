# Shamir secret sharing over GF(p), modelled in Dafny

This project models the `Shamir` class of `secretsharing.py`. The class
implements Shamir's (k, n)-threshold secret sharing (Shamir, "How to share a
secret", Communications of the ACM 22(11), 1979) over a prime field GF(p).

- `share(k, n, secret)` builds a coefficient list of length k, highest degree
  first. The list is random except for its last entry, which is the secret and
  so the constant term. It returns the n points `(x, poly(x))` for
  x = 1 .. n.
- `__poly(x, coeffs)` evaluates that polynomial by walking the reversed list
  and accumulating `x^index * coeff`.
- `reveal(shares)` interpolates the shares at 0 with Lagrange's formula. It
  precomputes the product P of all negated points. For each point i it
  computes `(P / x_i) / prod_{j != i}(x_i - x_j)`, which is the NEGATED i-th
  basis value at 0. It accumulates `y_i` times that value and returns the
  negated sum.

The Dafny modules follow that structure:

- `ModArith` holds integer facts modulo p: congruences, extended Euclid, the
  inverse modulo a prime, and Euclid's lemma.
- `Field` holds GF(p) as the integers 0 .. p-1 with `Add`, `Mul`, `Neg`, `Sub`
  and `Div`. It stands in for the `galois` field arrays.
- `Polynomial` holds integer polynomials stored lowest degree first. It has
  Horner evaluation, the closed-form power sum, synthetic division, and the
  root theorem: a polynomial of degree below m that vanishes modulo a prime at
  m distinct points vanishes everywhere.
- `Lagrange` is a textbook Lagrange interpolation at 0. It is the independent
  reference that reveal is proved against. It carries the interpolation
  theorem and linearity in the values.
- `Secretsharing` holds the class `Shamir`:
  - `Share` is a function, because the source is one list comprehension.
  - `Poly`, `Reveal` and the loops of reveal are methods with loop
    invariants.
  - The class also carries the round trip and the linearity lemmas that the
    demonstration block of the source exercises.

The randomness of `share` is a parameter. `drawn` is the list of k field
elements that `GF.Random(k)` would return. Its last element is overwritten by
the secret, as in the source.

Behaviour of the code worth noting:

- `share` has no `n < k` check. With n < k it simply returns n shares, and
  the model does the same. Apart from a secret outside the field and a
  negative k (see "## Left out"), it fails only when k == 0, because then
  there is no last coefficient to overwrite.
- `reveal` notices zero or repeated points only as a division by 0. The model
  reports `DivisionByZero` for both.
- `reveal` negates each point in the product and negates the final sum. The
  model keeps both negations and proves that together they give the Lagrange
  value.

## Model

| member | source | states |
|---|---|---|
| Secretsharing.Shamir.constructor | secretsharing.py:12-18 | the field order is fixed once; the order must be prime |
| Secretsharing.Shamir.Share | secretsharing.py:20-33 | a secret outside the field fails; k == 0 fails; otherwise exactly max(n, 0) shares, share i has x = i + 1, a field-element y, and y equal to the polynomial (constant term the secret, other coefficients the drawn values in reverse) at x, modulo p |
| Secretsharing.Coefficients | secretsharing.py:31-32 | the coefficient list has length k, keeps the first k-1 drawn values and ends with the secret |
| Secretsharing.Shamir.Poly | secretsharing.py:59-63 | the accumulator loop computes sum over i < k of coeffs[k-1-i] * x^i modulo p |
| Secretsharing.PolyValueIsEval | secretsharing.py:59-63 | that closed-form sum equals Horner evaluation of the reversed list |
| Secretsharing.PolyValueAtZero | secretsharing.py:59-63 | the polynomial at 0 is the last coefficient, i.e. the secret reduced modulo p |
| Secretsharing.Shamir.Reveal | secretsharing.py:35-57 | a share outside the field fails; an empty list fails; points with a 0 or a repeat fail with division by zero; otherwise the result is the Lagrange value at 0 of the shares |
| Secretsharing.Xs | secretsharing.py:42 | the first components of the shares, one per share and in order: the points x |
| Secretsharing.Ys | secretsharing.py:42 | the second components of the shares, one per share and in order: the values y |
| Secretsharing.Shamir.NegatedProduct | secretsharing.py:43-46 | the loop computes the product of all negated points modulo p |
| Secretsharing.Shamir.Denominator | secretsharing.py:50-54 | the inner loop computes prod over j != i of (x_i - x_j) modulo p, skipping j == i |
| Secretsharing.Shamir.SumTerms | secretsharing.py:48-57 | the reconstruction loop fails exactly when the points are not all nonzero and distinct, and otherwise returns the Lagrange value at 0 |
| Secretsharing.Shamir.RevealStep | secretsharing.py:55-56 | one iteration extends the negated Lagrange sum by one term |
| Lagrange.NumeratorSign | secretsharing.py:43-46 | P / x_i is minus the product of the other negated points |
| Secretsharing.ShortcutBasisValue | secretsharing.py:55 | (P / x_i) / denominator_i is the negated i-th basis value at 0 |
| Secretsharing.AccumulateNegated | secretsharing.py:56 | adding y_i times the negated basis value keeps sums equal to minus the partial Lagrange sum |
| Secretsharing.NegatedSum | secretsharing.py:57 | negating the accumulated sum gives the Lagrange sum modulo p |
| Secretsharing.Shamir.CoincidingPoints | secretsharing.py:51-55 | a zero denominator means two points coincide, so the points are not usable |
| Secretsharing.Shamir.DistinctFromDenominators | secretsharing.py:50-55 | when no denominator is 0 the points are pairwise distinct |
| Lagrange.DenominatorZero | secretsharing.py:50-54 | the denominator of point i is 0 modulo p iff another point equals x_i modulo p |
| Lagrange.Interpolate | secretsharing.py:57 | the reconstructed value is a field element in [0, p) |
| Lagrange.InterpolatesAtNode | secretsharing.py:55-56 | the Lagrange sum takes the value y_k at x_k |
| Lagrange.InterpolationReproduces | secretsharing.py:22-23 | through m points distinct modulo p, the Lagrange sum reproduces every polynomial of degree below m at every t |
| Lagrange.InterpolateRecoversConstant | secretsharing.py:22-23 | the Lagrange value at 0 is the constant term of such a polynomial |
| Secretsharing.Shamir.RevealOfShares | secretsharing.py:22-23 | with p prime and n < p, any k or more distinct shares from Share pass every check of reveal and interpolate to the secret |
| Secretsharing.Pick | secretsharing.py:79-81 | the pool holds, in order, the shares at the chosen positions; the slice `shares[0:k]` is the choice 0 .. k-1 |
| Secretsharing.Shamir.ShareThenReveal | secretsharing.py:79-82 | Reveal of k or more distinct shares from Share returns Ok(secret) |
| Lagrange.InterpolateSingle | secretsharing.py:48-57 | one point (x, y) interpolates to y mod p; `Reveal` returns it when x is not 0 |
| Lagrange.BasisSumsToOne | secretsharing.py:85-86 | the basis values at 0 sum to 1 |
| Lagrange.InterpolateAdd | secretsharing.py:83-84 | the Lagrange value is additive in the values |
| Lagrange.InterpolateScale | secretsharing.py:87-88 | the Lagrange value scales with the values |
| Lagrange.InterpolateShift | secretsharing.py:85-86 | adding c to every value adds c to the Lagrange value |
| Secretsharing.AddValues | secretsharing.py:83 | the pool keeps the first list's points and holds the field sum of the two values at each position |
| Secretsharing.ShiftValues | secretsharing.py:85 | the pool keeps the points and holds the field sum of each value and c |
| Secretsharing.ScaleValues | secretsharing.py:87 | the pool keeps the points and holds the field product of each value and m |
| Secretsharing.AddValuesInterpolate | secretsharing.py:83 | share lists on the same points, added pointwise modulo p, interpolate to the sum |
| Secretsharing.ShiftValuesInterpolate | secretsharing.py:85 | a share list with c added to every value interpolates to the value plus c |
| Secretsharing.ScaleValuesInterpolate | secretsharing.py:87 | a share list with every value times m interpolates to m times the value |
| Secretsharing.Shamir.SumOfSharesRevealsSum | secretsharing.py:83-84 | the pointwise sum of two share sets reveals s1 + s2 modulo p |
| Secretsharing.Shamir.ShiftedSharesRevealShiftedSecret | secretsharing.py:85-86 | shares plus c reveal secret + c modulo p |
| Secretsharing.Shamir.ScaledSharesRevealScaledSecret | secretsharing.py:87-88 | shares times m reveal m * secret modulo p |
| Field.Add | secretsharing.py:56 | field addition yields a field element |
| Field.Mul | secretsharing.py:46 | field multiplication yields a field element |
| Field.Neg | secretsharing.py:57 | the negation is a field element whose sum with the input is 0 |
| Field.Sub | secretsharing.py:54 | the difference is a field element that gives back the minuend when the subtrahend is added |
| Field.Div | secretsharing.py:55 | division by a nonzero element gives the field element that, multiplied back, returns the dividend |
| ModArith.Inverse | secretsharing.py:55 | modulo a prime, every element that is not 0 has an inverse in [0, p) |

## Left out

- The `galois` library (secretsharing.py:1, 18, 31, 42) is replaced by hand-written arithmetic modulo p. Its field arrays and their conversions are left out.
- Random coefficient generation (secretsharing.py:31) is the parameter `drawn`. The distribution of the draw is not modelled.
- The claim that fewer than k shares reveal nothing about the secret is probabilistic. It has no functional contract here.
- Prime-power fields, including characteristic 2, are not modelled. The class does not support them (secretsharing.py:16).
- Secretsharing.Shamir.constructor requires a prime order. The library's error for an order that is not a prime power, and its silent acceptance of prime-power orders the class does not support, are not modelled.
- Secretsharing.Shamir.Share takes k as a natural number. A negative k, which the library rejects while drawing, is not modelled.
- Secretsharing.Shamir.Share requires the drawn values to be field elements, which the library guarantees for its random draw.
- Inputs that are not integers, and the library's type errors for them, are not modelled.
- `x ** index * val` in `__poly` multiplies a Python integer by a field element. It is modelled as multiplication modulo p of the exact power by the coefficient.
- The demonstration block (secretsharing.py:66-88) prints. Only its computations are modelled: the round trip and the three linearity lemmas.
