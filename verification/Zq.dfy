/** The prime field the shares, nonces and signature shares live in.

    `Q` is declared without a value: all that is known about it is that it is a prime, so every
    statement of this project holds for every prime order.  Polynomials and sums are computed over
    the integers; a statement about scalars says that a difference is `Zero`, a multiple of `Q`. */
module Zq {

  predicate Divides(d: int, n: int)
    requires d > 0
  {
    n % d == 0
  }

  ghost predicate IsPrime(p: int) {
    p > 1 && forall d | 1 < d < p :: !Divides(d, p)
  }

  type Prime = p: int | IsPrime(p) witness 2

  const Q: Prime

  type Scalar = x: int | 0 <= x < Q witness 0

  /** The scalar an integer stands for: its remainder modulo Q, as `RedIsRemainder` shows.  Written
      by subtraction, so that unfolding the definition in a proof only yields linear facts. */
  function Red(a: int): Scalar
    decreases if a < 0 then Q - a else a
  {
    if a < 0 then Red(a + Q) else if a >= Q then Red(a - Q) else a
  }

  /** `a` represents the scalar 0. */
  predicate Zero(a: int) {
    Red(a) == 0
  }

  // ----- division with remainder

  lemma SmallMultiple(d: int, m: int)
    requires d > 0 && 0 - d < m * d < d
    ensures m == 0
  {}

  lemma RemainderUnique(d: int, a: int, k: int, r: int)
    requires d > 0 && a == k * d + r && 0 <= r < d
    ensures a % d == r
  {
    assert (k - a / d) * d == a % d - r;
    SmallMultiple(d, k - a / d);
  }

  lemma DividesCombination(d: int, a: int, b: int, q: int)
    requires d > 0 && Divides(d, a) && Divides(d, b)
    ensures Divides(d, q * a + b)
  {
    var k, l := a / d, b / d;
    assert q * a + b == (q * k + l) * d + 0 by {
      assert a == k * d && b == l * d;
    }
    RemainderUnique(d, q * a + b, q * k + l, 0);
  }

  lemma {:induction false} RedIsRemainder(a: int)
    ensures Red(a) == a % Q
    decreases if a < 0 then Q - a else a
  {
    if a < 0 {
      RedIsRemainder(a + Q);
      ShiftedRemainder(a, 1);
    } else if a >= Q {
      RedIsRemainder(a - Q);
      ShiftedRemainder(a, -1);
    } else {
      RemainderUnique(Q, a, 0, a);
    }
  }

  lemma ShiftedRemainder(a: int, k: int)
    ensures (a + k * Q) % Q == a % Q
  {
    RemainderUnique(Q, a + k * Q, a / Q + k, a % Q);
  }

  // ----- congruence modulo Q

  lemma ZeroDivides(a: int)
    ensures Zero(a) <==> Divides(Q, a)
  {
    RedIsRemainder(a);
  }

  lemma ZeroZero()
    ensures Zero(0)
  {}

  lemma ZeroMultiple(k: int)
    ensures Zero(k * Q)
  {
    RemainderUnique(Q, k * Q, k, 0);
    ZeroDivides(k * Q);
  }

  lemma ZeroCombination(k: int, a: int, b: int)
    requires Zero(a) && Zero(b)
    ensures Zero(k * a + b)
  {
    ZeroDivides(a);
    ZeroDivides(b);
    DividesCombination(Q, a, b, k);
    ZeroDivides(k * a + b);
  }

  lemma ZeroAdd(a: int, b: int)
    requires Zero(a) && Zero(b)
    ensures Zero(a + b)
  {
    ZeroCombination(1, a, b);
  }

  lemma ZeroSub(a: int, b: int)
    requires Zero(a) && Zero(b)
    ensures Zero(a - b)
  {
    ZeroCombination(-1, b, a);
  }

  lemma ZeroScale(k: int, a: int)
    requires Zero(a)
    ensures Zero(k * a) && Zero(a * k)
  {
    ZeroCombination(k, a, 0);
  }

  lemma RedZero(a: int)
    ensures Zero(a - Red(a)) && Zero(Red(a) - a)
  {
    hide Zero;
    var k := a / Q;
    RedIsRemainder(a);
    assert a - Red(a) == k * Q;
    ZeroMultiple(k);
    assert Red(a) - a == (-k) * Q;
    ZeroMultiple(-k);
  }

  lemma SmallZero(a: int)
    requires 0 - Q < a < Q && Zero(a)
    ensures a == 0
  {
    ZeroDivides(a);
    SmallMultiple(Q, a / Q);
  }

  /** Two integers stand for the same scalar exactly when they differ by a multiple of Q. */
  lemma RedEqual(a: int, b: int)
    ensures Red(a) == Red(b) <==> Zero(a - b)
  {
    hide *;
    RedZero(a);
    RedZero(b);
    if Zero(a - b) {
      ZeroAdd(a - b, b - Red(b));
      ZeroSub(a - Red(b), a - Red(a));
      SmallZero(Red(a) - Red(b));
    } else if Red(a) == Red(b) {
      ZeroSub(a - Red(a), b - Red(b));
    }
  }

  lemma RedScalar(s: Scalar)
    ensures Red(s) == s
  {}

  // ----- inverses

  datatype Bezout = Bezout(g: int, x: int, y: int)

  /** Euclid's algorithm with the Bezout coefficients. */
  function Euclid(a: int, b: int): Bezout
    requires a >= 0 && b >= 0
    decreases b
  {
    if b == 0 then Bezout(a, 1, 0)
    else
      var s := Euclid(b, a % b);
      Bezout(s.g, s.y, s.x - a / b * s.y)
  }

  lemma {:induction false} EuclidCorrect(a: int, b: int)
    requires a >= 0 && b >= 0 && a + b > 0
    ensures Certifies(Euclid(a, b), a, b)
    decreases b
  {
    if b == 0 {
      RemainderUnique(a, a, 1, 0);
      RemainderUnique(a, 0, 0, 0);
    } else {
      EuclidCorrect(b, a % b);
      EuclidStep(a, b, a / b, a % b, Euclid(b, a % b));
    }
  }

  /** `r` holds a common divisor of `a` and `b` and writes it as a combination of them. */
  predicate Certifies(r: Bezout, a: int, b: int) {
    r.g > 0 && a * r.x + b * r.y == r.g && Divides(r.g, a) && Divides(r.g, b)
  }

  lemma EuclidStep(a: int, b: int, k: int, r: int, s: Bezout)
    requires a == k * b + r && Certifies(s, b, r)
    ensures Certifies(Bezout(s.g, s.y, s.x - k * s.y), a, b)
  {
    DividesCombination(s.g, b, r, k);
    BezoutStep(a, b, k, s);
  }

  lemma BezoutStep(a: int, b: int, k: int, s: Bezout)
    requires b * s.x + (a - k * b) * s.y == s.g
    ensures a * s.y + b * (s.x - k * s.y) == s.g
  {
    assert (a - k * b) * s.y == a * s.y - k * b * s.y;
    assert b * (s.x - k * s.y) == b * s.x - b * (k * s.y);
    assert k * b * s.y == b * (k * s.y);
  }

  /** The multiplicative inverse, and 0 for 0. */
  function Inv(a: int): Scalar {
    if Zero(a) then 0 else Red(Euclid(Red(a), Q).x)
  }

  /** Euclid's algorithm on a non-zero scalar and the prime Q ends in the divisor 1. */
  lemma EuclidCoprime(s: Scalar)
    requires s != 0
    ensures Zero(s * Euclid(s, Q).x - 1)
  {
    var e := Euclid(s, Q);
    EuclidCorrect(s, Q);
    DividesBound(e.g, s);
    assert Divides(e.g, Q);
    ZeroMultiple(e.y);
    ZeroScale(-1, e.y * Q);
    assert s * e.x - 1 == -1 * (e.y * Q);
  }

  lemma InverseLaw(a: int)
    requires !Zero(a)
    ensures Zero(a * Inv(a) - 1)
  {
    var s := Red(a);
    assert s != 0 by { RedZero(a); }
    EuclidCoprime(s);
    RedScalar(s);
    RedScalar(Inv(a));
    ZeroReplace(a, s, Euclid(s, Q).x, Inv(a));
  }

  /** Replacing both factors of a product by congruent ones. */
  lemma ZeroReplace(a: int, s: int, x: int, y: int)
    requires Zero(s * x - 1) && Red(a) == Red(s) && Red(x) == Red(y)
    ensures Zero(a * y - 1)
  {
    hide *;
    RedMul(a, s, y, x);
    RedEqual(s * x, 1);
    RedEqual(a * y, 1);
  }

  lemma DividesBound(d: int, n: int)
    requires d > 0 && n > 0 && Divides(d, n)
    ensures d <= n
  {
    if d > n { RemainderUnique(d, n, 0, n); }
  }

  /** Z_Q has no zero divisors. */
  lemma ZeroProduct(a: int, b: int)
    requires Zero(a * b)
    ensures Zero(a) || Zero(b)
  {
    if !Zero(a) {
      var i := Inv(a);
      InverseLaw(a);
      ZeroScale(i, a * b);
      ZeroScale(b, a * i - 1);
      ZeroSub(i * (a * b), b * (a * i - 1));
      CancelFactor(a, b, i);
    }
  }

  lemma CancelFactor(a: int, b: int, i: int)
    ensures i * (a * b) - b * (a * i - 1) == b
  {}

  // ----- equal residues are kept by the ring operations

  lemma RedRed(a: int)
    ensures Red(Red(a)) == Red(a)
  {
    RedScalar(Red(a));
  }

  lemma RedAdd(a: int, b: int, c: int, d: int)
    requires Red(a) == Red(b) && Red(c) == Red(d)
    ensures Red(a + c) == Red(b + d) && Red(a - c) == Red(b - d)
  {
    RedEqual(a, b);
    RedEqual(c, d);
    ZeroAdd(a - b, c - d);
    ZeroSub(a - b, c - d);
    assert (a - b) + (c - d) == (a + c) - (b + d);
    assert (a - b) - (c - d) == (a - c) - (b - d);
    RedEqual(a + c, b + d);
    RedEqual(a - c, b - d);
  }

  lemma ProductGap(a: int, b: int, c: int)
    ensures c * (a - b) == a * c - b * c
  {}

  lemma RedMulLeft(a: int, b: int, c: int)
    requires Red(a) == Red(b)
    ensures Red(a * c) == Red(b * c)
  {
    hide *;
    RedEqual(a, b);
    ZeroScale(c, a - b);
    ProductGap(a, b, c);
    RedEqual(a * c, b * c);
  }

  lemma RedMul(a: int, b: int, c: int, d: int)
    requires Red(a) == Red(b) && Red(c) == Red(d)
    ensures Red(a * c) == Red(b * d)
  {
    hide *;
    RedMulLeft(a, b, c);
    RedMulLeft(c, d, b);
    assert b * c == c * b && b * d == d * b;
  }

  /** Replacing the product of two factors out of three. */
  lemma RedReplace(y: int, w: int, o: int, l: int)
    requires Red(w * o) == Red(l)
    ensures Red(y * w * o) == Red(l * y)
  {
    RedMul(w * o, l, y, y);
    Rotate(y, w, o);
  }

  lemma Rotate(a: int, b: int, c: int)
    ensures a * b * c == b * c * a
  {}

  lemma RedCancel(k: int, a: int, b: int)
    requires !Zero(k) && Red(k * a) == Red(k * b)
    ensures Red(a) == Red(b)
  {
    RedEqual(k * a, k * b);
    assert k * a - k * b == k * (a - b);
    ZeroProduct(k, a - b);
    RedEqual(a, b);
  }

  lemma InverseRed(a: int)
    requires !Zero(a)
    ensures Red(a * Inv(a)) == Red(1) == Red(Inv(a) * a)
  {
    InverseLaw(a);
    RedEqual(a * Inv(a), 1);
    Swap(a, Inv(a));
  }

  lemma Swap(a: int, b: int)
    ensures a * b == b * a
  {}

  lemma Distribute(l: int, y: int, z: int)
    ensures l * (y + z) == l * y + l * z
  {}

  /** Distinct scalars differ by something invertible. */
  lemma DistinctScalars(a: Scalar, b: Scalar)
    requires a != b
    ensures !Zero(a - b)
  {
    if Zero(a - b) { SmallZero(a - b); }
  }
}
