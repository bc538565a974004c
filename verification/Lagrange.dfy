/** Lagrange interpolation: the coefficient of section 4.2 of RFC 9591, that the coefficients
    recover a polynomial's constant term, and that interpolation exists and is unique. */
module Lagrange {
  import opened Zq
  import opened Polynomial

  // ----- the interpolating value of a signer

  /** The product of the other signers' identifiers. */
  function Numerator(xs: seq<Scalar>, x: Scalar): int {
    if xs == [] then 1
    else if xs[0] == x then Numerator(xs[1..], x)
    else xs[0] * Numerator(xs[1..], x)
  }

  /** The product of the differences to the other signers' identifiers. */
  function Denominator(xs: seq<Scalar>, x: Scalar): int {
    if xs == [] then 1
    else if xs[0] == x then Denominator(xs[1..], x)
    else (xs[0] - x) * Denominator(xs[1..], x)
  }

  function Lambda(xs: seq<Scalar>, x: Scalar): Scalar {
    Red(Numerator(xs, x) * Inv(Denominator(xs, x)))
  }

  /** The sum over the signers `xs` of their interpolating value times their entry of `ys`. */
  function LagrangeSum(all: seq<Scalar>, xs: seq<Scalar>, ys: seq<int>): int
    requires |xs| == |ys|
  {
    if xs == [] then 0 else Lambda(all, xs[0]) * ys[0] + LagrangeSum(all, xs[1..], ys[1..])
  }

  // ----- basis polynomials

  /** `(z - a) * f`. */
  function TimesLinear(f: seq<int>, a: int): (h: seq<int>)
    ensures |h| == |f| + 1
  {
    Minus([0] + f, Times(a, f))
  }

  lemma EvalTimesLinear(f: seq<int>, a: int, z: int)
    ensures Eval(TimesLinear(f, a), z) == (z - a) * Eval(f, z)
  {
    hide Red, Zero;
    EvalMinus([0] + f, Times(a, f), z);
    EvalTimes(a, f, z);
    assert ([0] + f)[1..] == f;
  }

  /** The product of `z - y` over the other members `y` of `xs`. */
  function Others(xs: seq<Scalar>, x: Scalar, z: int): int {
    if xs == [] then 1
    else if xs[0] == x then Others(xs[1..], x, z)
    else (z - xs[0]) * Others(xs[1..], x, z)
  }

  function Basis(xs: seq<Scalar>, x: Scalar): (h: seq<int>)
    ensures |h| <= |xs| + 1
    ensures x in xs ==> |h| <= |xs|
  {
    if xs == [] then [1]
    else if xs[0] == x then Basis(xs[1..], x)
    else TimesLinear(Basis(xs[1..], x), xs[0])
  }

  lemma {:induction false} EvalBasis(xs: seq<Scalar>, x: Scalar, z: int)
    ensures Eval(Basis(xs, x), z) == Others(xs, x, z)
  {
    if xs != [] {
      EvalBasis(xs[1..], x, z);
      if xs[0] != x { EvalTimesLinear(Basis(xs[1..], x), xs[0], z); }
    } else {
      assert Eval([1][1..], z) == 0;
    }
  }

  lemma {:induction false} OthersVanish(xs: seq<Scalar>, x: Scalar, y: Scalar)
    requires y in xs && y != x
    ensures Others(xs, x, y) == 0
  {
    if xs[0] != y { OthersVanish(xs[1..], x, y); }
  }

  lemma {:induction false} OthersNonzero(xs: seq<Scalar>, x: Scalar)
    ensures !Zero(Others(xs, x, x))
  {
    if xs == [] {
      if Zero(1) { SmallZero(1); }
    } else {
      OthersNonzero(xs[1..], x);
      if xs[0] != x && Zero(Others(xs, x, x)) {
        DistinctScalars(x, xs[0]);
        ZeroProduct(x - xs[0], Others(xs[1..], x, x));
      }
    }
  }

  // ----- the interpolating polynomial

  function Weight(all: seq<Scalar>, x: Scalar): Scalar {
    Inv(Others(all, x, x))
  }

  /** The sum of the basis polynomials of `xs`, scaled to take the values `ys`. */
  function Interpolant(all: seq<Scalar>, xs: seq<Scalar>, ys: seq<int>): (h: seq<int>)
    requires |xs| == |ys| && forall x <- xs :: x in all
    ensures |h| <= |all|
  {
    if xs == [] then []
    else Plus(Times(ys[0] * Weight(all, xs[0]), Basis(all, xs[0])), Interpolant(all, xs[1..], ys[1..]))
  }

  /** Its value at `z`, as a sum. */
  function InterpolantSum(all: seq<Scalar>, xs: seq<Scalar>, ys: seq<int>, z: int): int
    requires |xs| == |ys|
  {
    if xs == [] then 0
    else ys[0] * Weight(all, xs[0]) * Others(all, xs[0], z) + InterpolantSum(all, xs[1..], ys[1..], z)
  }

  lemma {:induction false} EvalInterpolant(all: seq<Scalar>, xs: seq<Scalar>, ys: seq<int>, z: int)
    requires |xs| == |ys| && forall x <- xs :: x in all
    ensures Eval(Interpolant(all, xs, ys), z) == InterpolantSum(all, xs, ys, z)
  {
    if xs != [] {
      var k, b := ys[0] * Weight(all, xs[0]), Basis(all, xs[0]);
      EvalInterpolant(all, xs[1..], ys[1..], z);
      EvalPlus(Times(k, b), Interpolant(all, xs[1..], ys[1..]), z);
      EvalTimes(k, b, z);
      EvalBasis(all, xs[0], z);
    }
  }

  lemma {:induction false} SumAwayFromNode(all: seq<Scalar>, xs: seq<Scalar>, ys: seq<int>, x: Scalar)
    requires |xs| == |ys| && x in all && x !in xs
    ensures InterpolantSum(all, xs, ys, x) == 0
  {
    if xs != [] {
      OthersVanish(all, xs[0], x);
      SumAwayFromNode(all, xs[1..], ys[1..], x);
      assert ys[0] * Weight(all, xs[0]) * 0 == 0;
    }
  }

  lemma OwnTerm(all: seq<Scalar>, x: Scalar, y: int)
    ensures Red(y * Weight(all, x) * Others(all, x, x)) == Red(y)
  {
    var p, w := Others(all, x, x), Weight(all, x);
    OthersNonzero(all, x);
    InverseLaw(p);
    RedEqual(p * w, 1);
    RedReplace(y, w, p, 1);
  }

  lemma {:induction false} SumAtNode(all: seq<Scalar>, xs: seq<Scalar>, ys: seq<int>, i: nat)
    requires |xs| == |ys| && Distinct(xs) && (forall x <- xs :: x in all) && i < |xs|
    ensures Red(InterpolantSum(all, xs, ys, xs[i])) == Red(ys[i])
  {
    assert xs[i] in all;
    if i == 0 {
      SumAwayFromNode(all, xs[1..], ys[1..], xs[0]);
      OwnTerm(all, xs[0], ys[0]);
    } else {
      OthersVanish(all, xs[0], xs[i]);
      assert ys[0] * Weight(all, xs[0]) * 0 == 0;
      SumAtNode(all, xs[1..], ys[1..], i - 1);
    }
  }

  /** Existence: the interpolant of `ys` takes each of the values. */
  lemma InterpolantTakesValues(xs: seq<Scalar>, ys: seq<int>, i: nat)
    requires |xs| == |ys| && Distinct(xs) && i < |xs|
    ensures Red(Eval(Interpolant(xs, xs, ys), xs[i])) == Red(ys[i])
  {
    EvalInterpolant(xs, xs, ys, xs[i]);
    SumAtNode(xs, xs, ys, i);
  }

  // ----- interpolation at 0

  function Sign(xs: seq<Scalar>, x: Scalar): (s: int)
    ensures s * s == 1
  {
    if xs == [] then 1 else if xs[0] == x then Sign(xs[1..], x) else -Sign(xs[1..], x)
  }

  lemma {:induction false} OthersSigns(xs: seq<Scalar>, x: Scalar)
    ensures Others(xs, x, 0) == Sign(xs, x) * Numerator(xs, x)
    ensures Others(xs, x, x) == Sign(xs, x) * Denominator(xs, x)
  {
    if xs != [] {
      OthersSigns(xs[1..], x);
      if xs[0] != x {
        MoveSign(xs[0], Sign(xs[1..], x), Numerator(xs[1..], x));
        MoveSign(xs[0] - x, Sign(xs[1..], x), Denominator(xs[1..], x));
      }
    }
  }

  lemma MoveSign(a: int, s: int, n: int)
    ensures (-a) * (s * n) == (-s) * (a * n)
  {}

  lemma Shuffle(d: int, i: int, s: int, n: int)
    ensures d * (i * (s * n)) == s * d * i * n
  {
    var sn := s * n;
    assert d * (i * sn) == (d * i) * sn;
    assert (d * i) * (s * n) == s * (d * i) * n;
    assert s * (d * i) == s * d * i;
  }

  lemma SignedQuotient(s: int, n: int, d: int)
    requires s * s == 1 && !Zero(s * d) && !Zero(d)
    ensures Red(Inv(s * d) * (s * n)) == Red(n * Inv(d))
  {
    hide *;
    var i, j := Inv(s * d), Inv(d);
    InverseLaw(s * d);
    InverseLaw(d);
    RedEqual(s * d * i, 1);
    RedEqual(d * j, 1);
    RedMul(s * d * i, 1, n, n);
    RedMul(d * j, 1, n, n);
    Shuffle(d, i, s, n);
    Reorder(d, j, n);
    RedCancel(d, i * (s * n), n * j);
  }

  lemma Reorder(d: int, j: int, n: int)
    ensures d * (n * j) == d * j * n
  {
    assert n * j == j * n;
  }

  /** The weight of a node at 0 is the interpolating value of section 4.2. */
  lemma WeightAtZero(xs: seq<Scalar>, x: Scalar)
    ensures Red(Weight(xs, x) * Others(xs, x, 0)) == Lambda(xs, x)
  {
    var s, n, d := Sign(xs, x), Numerator(xs, x), Denominator(xs, x);
    OthersSigns(xs, x);
    OthersNonzero(xs, x);
    if Zero(d) { ZeroScale(s, d); }
    SignedQuotient(s, n, d);
  }

  lemma TermAtZero(all: seq<Scalar>, x: Scalar, y: int)
    ensures Red(y * Weight(all, x) * Others(all, x, 0)) == Red(Lambda(all, x) * y)
  {
    var w, o := Weight(all, x), Others(all, x, 0);
    WeightAtZero(all, x);
    RedRed(w * o);
    RedReplace(y, w, o, Lambda(all, x));
  }

  lemma {:induction false} SumAtZero(all: seq<Scalar>, xs: seq<Scalar>, ys: seq<int>)
    requires |xs| == |ys|
    ensures Red(InterpolantSum(all, xs, ys, 0)) == Red(LagrangeSum(all, xs, ys))
  {
    if xs != [] {
      var x, y := xs[0], ys[0];
      SumAtZero(all, xs[1..], ys[1..]);
      TermAtZero(all, x, y);
      RedAdd(y * Weight(all, x) * Others(all, x, 0), Lambda(all, x) * y,
             InterpolantSum(all, xs[1..], ys[1..], 0), LagrangeSum(all, xs[1..], ys[1..]));
    }
  }

  /** Any |xs| distinct signers recover the constant term of a polynomial with at most |xs|
      coefficients from its values at their identifiers. */
  lemma LagrangeAtZero(f: seq<int>, xs: seq<Scalar>, ys: seq<int>)
    requires |f| <= |xs| == |ys| && Distinct(xs)
    requires forall i | 0 <= i < |xs| :: Red(ys[i]) == Red(Eval(f, xs[i]))
    ensures Red(LagrangeSum(xs, xs, ys)) == Red(Eval(f, 0))
  {
    var g := Interpolant(xs, xs, ys);
    forall i | 0 <= i < |xs| ensures Red(Eval(f, xs[i])) == Red(Eval(g, xs[i])) {
      InterpolantTakesValues(xs, ys, i);
    }
    AgreeEverywhere(f, g, xs, 0);
    EvalInterpolant(xs, xs, ys, 0);
    SumAtZero(xs, xs, ys);
  }

  // ----- what t - 1 shares say about the secret

  /** Coefficient-wise reduction, padded with zeros to length `t`. */
  function Reduced(f: seq<int>, t: nat): (g: seq<Scalar>)
    requires |f| <= t
    ensures |g| == t
  {
    if t == 0 then [] else if f == [] then [0] + Reduced([], t - 1) else [Red(f[0])] + Reduced(f[1..], t - 1)
  }

  lemma RedHorner(k: int, c: int, x: int, a: int, b: int)
    requires Red(k) == Red(c) && Red(a) == Red(b)
    ensures Red(k + x * a) == Red(c + x * b)
  {
    hide *;
    RedMul(x, x, a, b);
    RedAdd(k, c, x * a, x * b);
  }

  lemma {:induction false} EvalReduced(f: seq<int>, t: nat, x: int)
    requires |f| <= t
    ensures Red(Eval(Reduced(f, t), x)) == Red(Eval(f, x))
  {
    hide Red;
    if t > 0 {
      var r, c, k := if f == [] then [] else f[1..], if f == [] then 0 else f[0], Reduced(f, t)[0];
      EvalReduced(r, t - 1, x);
      assert Reduced(f, t)[1..] == Reduced(r, t - 1);
      RedRed(c);
      assert Red(k) == Red(c) by { RedScalar(0); }
      var a, b := Eval(Reduced(r, t - 1), x), Eval(r, x);
      RedHorner(k, c, x, a, b);
    }
  }

  /** `f` is a t-coefficient polynomial with constant term `secret` whose shares are `ys`. */
  predicate Explains(f: seq<Scalar>, t: nat, secret: Scalar, ids: seq<Scalar>, ys: seq<Scalar>)
    requires |ids| == |ys|
  {
    && |f| == t > 0 && f[0] == secret
    && forall i | 0 <= i < |ids| :: Red(Eval(f, ids[i])) == ys[i]
  }

  function Explanation(secret: Scalar, ids: seq<Scalar>, ys: seq<Scalar>): seq<Scalar>
    requires |ids| == |ys|
  {
    Reduced(Interpolant([0] + ids, [0] + ids, [secret] + ys), |ids| + 1)
  }

  lemma EvalAtZero(f: seq<Scalar>)
    requires f != []
    ensures Red(Eval(f, 0)) == f[0]
  {
    RedScalar(f[0]);
  }

  lemma ExplanationExplains(t: nat, secret: Scalar, ids: seq<Scalar>, ys: seq<Scalar>)
    requires |ids| == |ys| == t - 1 && Distinct(ids) && 0 !in ids
    ensures Explains(Explanation(secret, ids, ys), t, secret, ids, ys)
  {
    var xs, vs: seq<Scalar> := [0] + ids, [secret] + ys;
    var g := Explanation(secret, ids, ys);
    forall i | 0 <= i < t ensures Red(Eval(g, xs[i])) == vs[i] {
      InterpolantTakesValues(xs, vs, i);
      EvalReduced(Interpolant(xs, xs, vs), t, xs[i]);
      RedScalar(vs[i]);
    }
    assert xs[0] == 0 && vs[0] == secret;
    EvalAtZero(g);
    forall i | 0 <= i < |ids| ensures Red(Eval(g, ids[i])) == ys[i] {
      assert xs[i + 1] == ids[i] && vs[i + 1] == ys[i];
    }
  }

  lemma ExplanationUnique(f: seq<Scalar>, g: seq<Scalar>, t: nat, secret: Scalar, ids: seq<Scalar>, ys: seq<Scalar>)
    requires |ids| == |ys| == t - 1 && Distinct(ids) && 0 !in ids
    requires Explains(f, t, secret, ids, ys) && Explains(g, t, secret, ids, ys)
    ensures f == g
  {
    var xs: seq<Scalar> := [0] + ids;
    EvalAtZero(f);
    EvalAtZero(g);
    assert Distinct(xs) by {
      forall i, j | 0 <= i < j < |xs| ensures xs[i] != xs[j] {
        assert xs[j] == ids[j - 1];
        if i > 0 { assert xs[i] == ids[i - 1]; }
      }
    }
    forall i | 0 <= i < t ensures Red(Eval(f, xs[i])) == Red(Eval(g, xs[i])) {
      if i > 0 { assert xs[i] == ids[i - 1]; }
    }
    AgreeCoefficients(f, g, xs);
  }

  /** t - 1 shares of a t-coefficient polynomial fit every secret, and fit it in exactly one way. */
  lemma EverySecretOneExplanation(t: nat, secret: Scalar, ids: seq<Scalar>, ys: seq<Scalar>)
    requires |ids| == |ys| == t - 1 && Distinct(ids) && 0 !in ids
    ensures forall f: seq<Scalar> :: Explains(f, t, secret, ids, ys) <==> f == Explanation(secret, ids, ys)
  {
    var g := Explanation(secret, ids, ys);
    ExplanationExplains(t, secret, ids, ys);
    forall f: seq<Scalar> | Explains(f, t, secret, ids, ys) ensures f == g {
      ExplanationUnique(f, g, t, secret, ids, ys);
    }
  }
}
