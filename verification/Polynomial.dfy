/** Polynomials over Z_Q, least significant coefficient first: evaluation, the root bound,
    existence and uniqueness of interpolation, and Lagrange interpolation at 0. */
module Polynomial {
  import opened Zq

  // ----- evaluation

  /** The value of `f` at `x`, over the integers. */
  function Eval(f: seq<int>, x: int): int {
    if f == [] then 0 else f[0] + x * Eval(f[1..], x)
  }

  function Pow(x: int, k: nat): int {
    if k == 0 then 1 else x * Pow(x, k - 1)
  }

  /** The textbook form: the sum of `f[i] * x^(k+i)`. */
  function PowerSum(f: seq<int>, x: int, k: nat): int {
    if f == [] then 0 else f[0] * Pow(x, k) + PowerSum(f[1..], x, k + 1)
  }

  lemma PowerStep(p: int, c: int, x: int, e: int)
    ensures p * (c + x * e) == c * p + x * p * e
  {
    assert x * p * e == p * (x * e);
  }

  lemma {:induction false} EvalIsPowerSum(f: seq<int>, x: int, k: nat)
    ensures PowerSum(f, x, k) == Pow(x, k) * Eval(f, x)
  {
    if f != [] {
      var p, e := Pow(x, k), Eval(f[1..], x);
      EvalIsPowerSum(f[1..], x, k + 1);
      PowerStep(p, f[0], x, e);
    }
  }

  lemma PowerSumFromZero(f: seq<int>, x: int)
    ensures PowerSum(f, x, 0) == Eval(f, x)
  {
    EvalIsPowerSum(f, x, 0);
    assert Pow(x, 0) == 1;
  }

  lemma LastCoefficient(p: seq<Scalar>, x: int)
    requires |p| > 0
    ensures Red(Eval(p[|p| - 1..], x)) == p[|p| - 1]
  {
    var last := p[|p| - 1..];
    assert last == [p[|p| - 1]] && last[1..] == [];
    assert x * 0 == 0;
    RedScalar(p[|p| - 1]);
  }

  /** `Polynomial.Evaluate`: Horner's rule from the top coefficient down, reducing at every step. */
  method Evaluate(p: seq<Scalar>, x: Scalar) returns (value: Scalar)
    requires |p| > 0
    ensures value == Red(PowerSum(p, x, 0)) == Red(Eval(p, x))
  {
    hide Red, Eval, PowerSum, Pow;
    value := p[|p| - 1];
    var i := |p| - 2;
    LastCoefficient(p, x);
    while i >= 0
      invariant -1 <= i <= |p| - 2
      invariant value == Red(Eval(p[i + 1..], x))
    {
      HornerStep(p, x, i, value);
      value := Red(value * x);
      value := Red(value + p[i]);
      i := i - 1;
    }
    assert p[0..] == p;
    PowerSumFromZero(p, x);
  }

  lemma HornerStep(p: seq<Scalar>, x: Scalar, i: nat, value: Scalar)
    requires i < |p| && value == Red(Eval(p[i + 1..], x))
    ensures Red(Red(value * x) + p[i]) == Red(Eval(p[i..], x))
  {
    var e := Eval(p[i + 1..], x);
    assert p[i..][1..] == p[i + 1..];
    RedRed(e);
    RedMul(value, e, x, x);
    RedRed(value * x);
    RedAdd(Red(value * x), e * x, p[i], p[i]);
    assert e * x == x * e;
  }

  // ----- sums and multiples of polynomials

  function Plus(f: seq<int>, g: seq<int>): (h: seq<int>)
    ensures |h| == if |f| < |g| then |g| else |f|
  {
    if f == [] then g else if g == [] then f else [f[0] + g[0]] + Plus(f[1..], g[1..])
  }

  function Times(k: int, f: seq<int>): (h: seq<int>)
    ensures |h| == |f|
  {
    if f == [] then [] else [k * f[0]] + Times(k, f[1..])
  }

  lemma {:induction false} EvalPlus(f: seq<int>, g: seq<int>, x: int)
    ensures Eval(Plus(f, g), x) == Eval(f, x) + Eval(g, x)
  {
    if f != [] && g != [] {
      var a, b := Eval(f[1..], x), Eval(g[1..], x);
      EvalPlus(f[1..], g[1..], x);
      assert Plus(f, g)[1..] == Plus(f[1..], g[1..]);
      assert x * (a + b) == x * a + x * b;
    }
  }

  lemma ScaleStep(k: int, c: int, x: int, a: int)
    ensures k * (c + x * a) == k * c + x * (k * a)
  {
    assert k * (x * a) == x * (k * a);
  }

  lemma {:induction false} EvalTimes(k: int, f: seq<int>, x: int)
    ensures Eval(Times(k, f), x) == k * Eval(f, x)
  {
    if f != [] {
      var a := Eval(f[1..], x);
      EvalTimes(k, f[1..], x);
      assert Times(k, f)[1..] == Times(k, f[1..]);
      ScaleStep(k, f[0], x, a);
    }
  }

  // ----- the root bound

  /** All coefficients stand for 0. */
  predicate Null(f: seq<int>) {
    forall i | 0 <= i < |f| :: Zero(f[i])
  }

  predicate Distinct(xs: seq<Scalar>) {
    forall i, j | 0 <= i < j < |xs| :: xs[i] != xs[j]
  }

  /** Synthetic division by `z - a`. */
  function Quotient(f: seq<int>, a: int): (q: seq<int>)
    ensures f != [] ==> |q| == |f| - 1
  {
    if |f| <= 1 then [] else [Eval(f[1..], a)] + Quotient(f[1..], a)
  }

  lemma {:induction false} QuotientLaw(f: seq<int>, a: int, z: int)
    ensures Eval(f, z) == Eval(f, a) + (z - a) * Eval(Quotient(f, a), z)
  {
    if |f| > 1 {
      var r := f[1..];
      var q := Quotient(r, a);
      QuotientLaw(r, a, z);
      assert Quotient(f, a)[1..] == q;
      QuotientAlgebra(f[0], z, a, Eval(r, z), Eval(r, a), Eval(q, z));
    } else if |f| == 1 {
      assert f[1..] == [];
    }
  }

  lemma QuotientAlgebra(c: int, z: int, a: int, rz: int, ra: int, qz: int)
    requires rz == ra + (z - a) * qz
    ensures c + z * rz == c + a * ra + (z - a) * (ra + z * qz)
  {
    assert z * rz == z * ra + z * ((z - a) * qz);
    assert z * ((z - a) * qz) == (z - a) * (z * qz);
    assert (z - a) * (ra + z * qz) == (z - a) * ra + (z - a) * (z * qz);
  }

  lemma {:induction false} NullFromQuotient(f: seq<int>, a: int)
    requires Zero(Eval(f, a)) && Null(Quotient(f, a))
    ensures Null(f)
  {
    if |f| == 1 {
      assert f[1..] == [];
    } else if |f| > 1 {
      var r := f[1..];
      assert Quotient(f, a)[0] == Eval(r, a);
      forall i | 0 <= i < |Quotient(r, a)| ensures Zero(Quotient(r, a)[i]) {
        assert Quotient(f, a)[i + 1] == Quotient(r, a)[i];
      }
      NullFromQuotient(r, a);
      ZeroScale(a, Eval(r, a));
      ZeroSub(Eval(f, a), a * Eval(r, a));
      forall i | 0 <= i < |f| ensures Zero(f[i]) {
        if i > 0 { assert f[i] == r[i - 1]; }
      }
    }
  }

  lemma RootOfQuotient(f: seq<int>, a: Scalar, x: Scalar)
    requires Zero(Eval(f, a)) && Zero(Eval(f, x)) && a != x
    ensures Zero(Eval(Quotient(f, a), x))
  {
    QuotientLaw(f, a, x);
    ZeroSub(Eval(f, x), Eval(f, a));
    DistinctScalars(x, a);
    ZeroProduct(x - a, Eval(Quotient(f, a), x));
  }

  /** A polynomial with at least as many distinct roots as coefficients is the zero polynomial. */
  lemma {:induction false} RootBound(f: seq<int>, xs: seq<Scalar>)
    requires |f| <= |xs| && Distinct(xs)
    requires forall i | 0 <= i < |xs| :: Zero(Eval(f, xs[i]))
    ensures Null(f)
    decreases |f|
  {
    if f != [] {
      var a := xs[0];
      var q := Quotient(f, a);
      forall i | 0 <= i < |xs[1..]| ensures Zero(Eval(q, xs[1..][i])) {
        RootOfQuotient(f, a, xs[i + 1]);
      }
      RootBound(q, xs[1..]);
      NullFromQuotient(f, a);
    }
  }

  lemma {:induction false} EvalNull(f: seq<int>, x: int)
    requires Null(f)
    ensures Zero(Eval(f, x))
  {
    if f == [] {
      ZeroZero();
    } else {
      forall i | 0 <= i < |f[1..]| ensures Zero(f[1..][i]) { assert f[1..][i] == f[i + 1]; }
      EvalNull(f[1..], x);
      ZeroScale(x, Eval(f[1..], x));
      ZeroAdd(f[0], x * Eval(f[1..], x));
    }
  }

  predicate Agree(f: seq<int>, g: seq<int>, xs: seq<Scalar>) {
    forall i | 0 <= i < |xs| :: Red(Eval(f, xs[i])) == Red(Eval(g, xs[i]))
  }

  function Minus(f: seq<int>, g: seq<int>): (h: seq<int>)
    ensures |h| == if |f| < |g| then |g| else |f|
  {
    Plus(f, Times(-1, g))
  }

  lemma EvalMinus(f: seq<int>, g: seq<int>, x: int)
    ensures Eval(Minus(f, g), x) == Eval(f, x) - Eval(g, x)
    ensures Zero(Eval(Minus(f, g), x)) <==> Red(Eval(f, x)) == Red(Eval(g, x))
  {
    EvalPlus(f, Times(-1, g), x);
    EvalTimes(-1, g, x);
    RedEqual(Eval(f, x), Eval(g, x));
  }

  lemma DifferenceNull(f: seq<int>, g: seq<int>, xs: seq<Scalar>)
    requires |f| <= |xs| && |g| <= |xs| && Distinct(xs) && Agree(f, g, xs)
    ensures Null(Minus(f, g))
  {
    forall i | 0 <= i < |xs| ensures Zero(Eval(Minus(f, g), xs[i])) {
      EvalMinus(f, g, xs[i]);
    }
    RootBound(Minus(f, g), xs);
  }

  /** Polynomials that agree on enough points agree everywhere. */
  lemma AgreeEverywhere(f: seq<int>, g: seq<int>, xs: seq<Scalar>, z: int)
    requires |f| <= |xs| && |g| <= |xs| && Distinct(xs) && Agree(f, g, xs)
    ensures Red(Eval(f, z)) == Red(Eval(g, z))
  {
    DifferenceNull(f, g, xs);
    EvalNull(Minus(f, g), z);
    EvalMinus(f, g, z);
  }

  lemma {:induction false} CoefficientsOfDifference(f: seq<int>, g: seq<int>, i: nat)
    requires i < |f| == |g|
    ensures Minus(f, g)[i] == f[i] - g[i]
  {
    if i > 0 { CoefficientsOfDifference(f[1..], g[1..], i - 1); }
  }

  /** ... and, when they have the same length, coefficient by coefficient. */
  lemma AgreeCoefficients(f: seq<Scalar>, g: seq<Scalar>, xs: seq<Scalar>)
    requires |f| == |g| <= |xs| && Distinct(xs) && Agree(f, g, xs)
    ensures f == g
  {
    DifferenceNull(f, g, xs);
    forall i | 0 <= i < |f| ensures f[i] == g[i] {
      CoefficientsOfDifference(f, g, i);
      var a: int, b: int := f[i], g[i];
      SmallZero(a - b);
    }
  }
}
