/** Integer facts behind arithmetic modulo a prime: congruence is preserved by
    sums and products, extended Euclid gives Bezout coefficients, and a prime
    divides a product only if it divides one of the factors. */
module ModArith {

  /** d is a positive divisor of n. */
  predicate Divides(d: int, n: int) {
    d > 0 && n % d == 0
  }

  /** The order of a prime field. */
  ghost predicate IsPrime(p: int) {
    p >= 2 && forall d :: 2 <= d < p ==> !Divides(d, p)
  }

  /** Euclidean division is unique: any decomposition x == d*q + r with
      0 <= r < d is the one Dafny's / and % compute. */
  lemma ModUnique(x: int, d: int, q: int, r: int)
    requires d > 0 && x == d * q + r && 0 <= r < d
    ensures x % d == r && x / d == q
  {
    var q0, r0 := x / d, x % d;
    assert d * (q - q0) == r0 - r;
    assert q - q0 >= 1 ==> d * (q - q0) >= d;
    assert q - q0 <= -1 ==> d * (q0 - q) >= d;
  }

  /** Adding a multiple of the modulus does not change the residue. */
  lemma ModShift(x: int, p: int, k: int)
    requires p > 0
    ensures (x + p * k) % p == x % p
  {
    var q := x / p;
    assert x + p * k == p * (q + k) + x % p;
    ModUnique(x + p * k, p, q + k, x % p);
  }

  /** Two integers with the same residue differ by a multiple of the modulus. */
  lemma CongDiff(a: int, b: int, p: int)
    requires p > 0 && a % p == b % p
    ensures a == b + p * (a / p - b / p)
  {
    assert a == p * (a / p) + a % p;
    assert b == p * (b / p) + b % p;
  }

  lemma ModMod(a: int, p: int)
    requires p > 0
    ensures (a % p) % p == a % p
  {
    ModUnique(a % p, p, 0, a % p);
  }

  lemma Distribute(p: int, u: int, v: int)
    ensures p * (u + v) == p * u + p * v
  {
  }

  lemma CongAdd(a: int, a': int, b: int, b': int, p: int)
    requires p > 0 && a % p == a' % p && b % p == b' % p
    ensures (a + b) % p == (a' + b') % p
  {
    CongDiff(a, a', p);
    CongDiff(b, b', p);
    var u, v := a / p - a' / p, b / p - b' / p;
    Distribute(p, u, v);
    ModShift(a' + b', p, u + v);
  }

  lemma CongNeg(a: int, a': int, p: int)
    requires p > 0 && a % p == a' % p
    ensures (-a) % p == (-a') % p
  {
    CongDiff(a, a', p);
    var u := a / p - a' / p;
    assert -a == -a' + p * (-u);
    ModShift(-a', p, -u);
  }

  lemma CongSub(a: int, a': int, b: int, b': int, p: int)
    requires p > 0 && a % p == a' % p && b % p == b' % p
    ensures (a - b) % p == (a' - b') % p
  {
    CongNeg(b, b', p);
    CongAdd(a, a', -b, -b', p);
  }

  lemma ProductExpand(a: int, a': int, b: int, b': int, p: int, u: int, v: int)
    requires a == a' + p * u && b == b' + p * v
    ensures a * b == a' * b' + p * (u * b' + a' * v + p * u * v)
  {
  }

  lemma CongMul(a: int, a': int, b: int, b': int, p: int)
    requires p > 0 && a % p == a' % p && b % p == b' % p
    ensures (a * b) % p == (a' * b') % p
  {
    CongDiff(a, a', p);
    CongDiff(b, b', p);
    var u, v := a / p - a' / p, b / p - b' / p;
    ProductExpand(a, a', b, b', p, u, v);
    ModShift(a' * b', p, u * b' + a' * v + p * u * v);
  }

  /** Reducing either operand first does not change a reduced sum or product. */
  lemma ModAddMul(a: int, b: int, p: int)
    requires p > 0
    ensures (a % p + b) % p == (a + b) % p
    ensures (a + b % p) % p == (a + b) % p
    ensures (a % p * b) % p == (a * b) % p
    ensures (a * (b % p)) % p == (a * b) % p
  {
    ModMod(a, p);
    ModMod(b, p);
    CongAdd(a % p, a, b, b, p);
    CongAdd(a, a, b % p, b, p);
    CongMul(a % p, a, b, b, p);
    CongMul(a, a, b % p, b, p);
  }

  /** Numbers with different residues do not differ by a multiple of p. */
  lemma DiffNonzero(a: int, b: int, p: int)
    requires p > 0 && a % p != b % p
    ensures (a - b) % p != 0
  {
    ModMod(a - b, p);
    CongAdd(a - b, (a - b) % p, b, b, p);
    ModMod(b, p);
  }

  /** Any multiple of p is 0 modulo p. */
  lemma ModMultiple(p: int, k: int)
    requires p > 0
    ensures (p * k) % p == 0
  {
    ModShift(0, p, k);
  }

  /** Extended Euclid on non-negative integers: (g, s, t) with g == a*s + b*t,
      where g divides both a and b (and is positive unless both are 0). */
  function Egcd(a: nat, b: nat): (r: (int, int, int))
    decreases b
  {
    if b == 0 then (a, 1, 0)
    else
      var (g, s, t) := Egcd(b, a % b);
      (g, t, s - (a / b) * t)
  }

  /** If d divides b and r then it divides b*q + r. */
  lemma DividesCombination(d: int, b: int, q: int, r: int)
    requires Divides(d, b) && Divides(d, r)
    ensures Divides(d, b * q + r)
  {
    CongDiff(b, 0, d);
    CongDiff(r, 0, d);
    var u, v := b / d, r / d;
    assert b * q + r == d * (u * q + v);
    ModMultiple(d, u * q + v);
  }

  lemma BezoutStep(a: int, b: int, q: int, r: int, s: int, t: int)
    requires a == b * q + r
    ensures a * t + b * (s - q * t) == b * s + r * t
  {
  }

  lemma {:induction false} EgcdBezout(a: nat, b: nat)
    requires a > 0 || b > 0
    ensures Egcd(a, b).0 == a * Egcd(a, b).1 + b * Egcd(a, b).2
    ensures Divides(Egcd(a, b).0, a) && Divides(Egcd(a, b).0, b)
    decreases b
  {
    if b == 0 {
      ModUnique(0, a, 0, 0);
      ModUnique(a, a, 1, 0);
    } else {
      var r := a % b;
      EgcdBezout(b, r);
      var (g, s, t) := Egcd(b, r);
      var q := a / b;
      BezoutStep(a, b, q, r, s, t);
      DividesCombination(g, b, q, r);
    }
  }

  /** A positive divisor of a positive number is at most that number. */
  lemma DivisorBound(d: int, n: int)
    requires Divides(d, n) && n > 0
    ensures d <= n
  {
    CongDiff(n, 0, d);
    var c := n / d;
    assert n == d * c;
    assert c <= 0 ==> d * c <= 0;
    assert c >= 1 ==> d * c >= d;
  }

  /** Every residue that is not 0 modulo a prime has an inverse. */
  lemma InverseExists(p: int, a: int)
    requires IsPrime(p) && 0 < a < p
    ensures (a * Egcd(a, p).1) % p == 1
  {
    EgcdBezout(a, p);
    var (g, s, t) := Egcd(a, p);
    DivisorBound(g, a);
    if g >= 2 {
      assert false;
    }
    assert g == 1;
    assert a * s == 1 + p * (-t);
    ModShift(1, p, -t);
    ModUnique(1, p, 0, 1);
  }

  lemma InverseCorrect(p: int, a: int)
    requires p >= 2
    ensures IsPrime(p) && a % p != 0 ==> (a * (Egcd(a % p, p as nat).1 % p)) % p == 1
  {
    if IsPrime(p) && a % p != 0 {
      var s := Egcd(a % p, p as nat).1;
      InverseExists(p, a % p);
      ModAddMul(a, s, p);
      ModAddMul(a, s % p, p);
      ModAddMul(a % p, s, p);
    }
  }

  /** The multiplicative inverse modulo a prime, by extended Euclid. */
  function Inverse(p: int, a: int): (r: int)
    requires p >= 2
    ensures 0 <= r < p
    ensures IsPrime(p) && a % p != 0 ==> (a * r) % p == 1
  {
    InverseCorrect(p, a);
    Egcd(a % p, p as nat).1 % p
  }

  lemma Rearrange(a: int, s: int, b: int)
    ensures a * s * b == s * (a * b)
  {
  }

  /** Euclid's lemma: a prime that divides a product divides a factor. */
  lemma Euclid(p: int, a: int, b: int)
    requires IsPrime(p) && (a * b) % p == 0
    ensures a % p == 0 || b % p == 0
  {
    if a % p != 0 {
      var s := Inverse(p, a);
      var ab := a * b;
      // b == (a*s)*b == s*(a*b) == s*0 modulo p
      ModUnique(1, p, 0, 1);
      CongMul(1, a * s, b, b, p);
      Rearrange(a, s, b);
      ModAddMul(s, ab, p);
      assert (s * (ab % p)) % p == 0;
    }
  }
}
