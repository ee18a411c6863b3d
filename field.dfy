/** The prime field GF(p): elements are the integers 0 .. p-1 and every
    operation reduces its result modulo p. */
module Field {
  import opened ModArith

  predicate InField(p: int, a: int) {
    0 <= a < p
  }

  function Add(p: int, a: int, b: int): (r: int)
    requires p >= 2
    ensures InField(p, r)
  {
    (a + b) % p
  }

  function Mul(p: int, a: int, b: int): (r: int)
    requires p >= 2
    ensures InField(p, r)
  {
    (a * b) % p
  }

  /** The additive inverse: adding it back gives 0. */
  function Neg(p: int, a: int): (r: int)
    requires p >= 2
    ensures InField(p, r) && Add(p, a, r) == 0
  {
    ModAddMul(a, -a, p);
    ModUnique(0, p, 0, 0);
    (-a) % p
  }

  /** Subtraction: adding b back gives a (reduced). */
  function Sub(p: int, a: int, b: int): (r: int)
    requires p >= 2
    ensures InField(p, r) && Add(p, r, b) == a % p
  {
    ModAddMul(a - b, b, p);
    (a - b) % p
  }

  /** Division by an element that is not 0: multiplying back by b gives a
      (reduced). Dividing by 0 is an error the callers check for first. */
  function Div(p: int, a: int, b: int): (r: int)
    requires IsPrime(p) && InField(p, b) && b != 0
    ensures InField(p, r) && Mul(p, r, b) == a % p
  {
    ModUnique(b, p, 0, b);
    var inv := Inverse(p, b);
    ModAddMul(a * inv, b, p);
    assert (a * inv) * b == a * (inv * b);
    ModAddMul(a, inv * b, p);
    assert (inv * b) % p == 1 by { assert inv * b == b * inv; }
    Mul(p, a, inv)
  }
}
