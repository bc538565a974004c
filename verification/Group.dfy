/** The prime-order group the keys live in: an arbitrary Z_Q-module generated by its base element.
    No statement of this project looks inside an element. */
module Group {
  import opened Wrappers
  import opened Zq
  import opened Sums
  import opened Wire

  datatype Group<!E(!new)> = Group(
    base: E,
    identity: E,
    add: (E, E) -> E,
    mul: (Scalar, E) -> E,
    encode: E -> seq<byte>,
    decode: seq<byte> -> Option<E>)
  {
    // Each law is a predicate of its own, so that the verifier uses an instance only where it is named.

    ghost predicate Associative(a: E, b: E, c: E) { add(add(a, b), c) == add(a, add(b, c)) }
    ghost predicate Commutative(a: E, b: E) { add(a, b) == add(b, a) }
    ghost predicate Neutral(a: E) { add(a, identity) == a }
    ghost predicate ScalarSum(k: Scalar, l: Scalar, a: E) { mul(Red(k + l), a) == add(mul(k, a), mul(l, a)) }
    ghost predicate ScalarProduct(k: Scalar, l: Scalar, a: E) { mul(Red(k * l), a) == mul(k, mul(l, a)) }
    ghost predicate ElementSum(k: Scalar, a: E, b: E) { mul(k, add(a, b)) == add(mul(k, a), mul(k, b)) }
    ghost predicate Unit(a: E) { mul(Red(1), a) == a }
    ghost predicate Multiple(k: Scalar, a: E) { mul(k, base) == a }
    ghost predicate Generated(a: E) { exists k: Scalar :: Multiple(k, a) }
    ghost predicate Readable(a: E) { decode(encode(a)) == Some(a) }
    ghost predicate Decodable(a: E) { Readable(a) || (a == identity && decode(encode(a)).None?) }

    /** Decoding inverts encoding, except that it may reject the identity (section 3.1 of RFC 9591). */
    ghost predicate Lawful() {
      && (forall a, b, c :: Associative(a, b, c))
      && (forall a, b :: Commutative(a, b))
      && (forall a :: Neutral(a))
      && (forall k, l, a :: ScalarSum(k, l, a))
      && (forall k, l, a :: ScalarProduct(k, l, a))
      && (forall k, a, b :: ElementSum(k, a, b))
      && (forall a :: Unit(a))
      && (forall a :: Generated(a))
      && (forall a :: Decodable(a))
      && base != identity
    }

    /** `k` times the base element, for any integer `k`. */
    function Exp(k: int): E {
      mul(Red(k), base)
    }

    ghost function Log(a: E): Scalar
      requires Lawful()
      ensures Exp(Log(a)) == a
    {
      assert Generated(a);
      var k: Scalar :| Multiple(k, a);
      RedScalar(k);
      k
    }

    lemma ExpAdd(k: int, l: int)
      requires Lawful()
      ensures add(Exp(k), Exp(l)) == Exp(k + l)
    {
      assert ScalarSum(Red(k), Red(l), base);
      RedRed(k);
      RedRed(l);
      RedAdd(Red(k), k, Red(l), l);
    }

    lemma ExpMul(s: Scalar, k: int)
      requires Lawful()
      ensures mul(s, Exp(k)) == Exp(s * k)
    {
      assert ScalarProduct(s, Red(k), base);
      RedRed(k);
      RedMul(s, s, Red(k), k);
    }

    lemma TermIsExp(p: int, s: Scalar)
      requires Lawful()
      ensures mul(Red(p), mul(s, base)) == Exp(s * p)
    {
      hide Red;
      RedScalar(s);
      ExpMul(Red(p), s);
      RedRed(p);
      RedMul(Red(p), p, s, s);
      Swap(p, s);
    }

    lemma ExpZero()
      requires Lawful()
      ensures Exp(0) == identity
    {
      var z := Exp(0);
      ExpAdd(0, 0);
      var m := Exp(0 - Log(z));
      // z + z == z; every element has an inverse, so z is neutral and therefore the identity
      var k := Log(identity);
      ExpAdd(0, k);
      assert add(z, identity) == identity;
      assert Neutral(z);
    }

    /** Here primality makes the group faithful: only multiples of Q send the base to the identity. */
    lemma NoTorsion(d: int)
      requires Lawful() && !Zero(d)
      ensures Exp(d) != identity
    {
      if Exp(d) == identity {
        ScaledIdentity(d, Inv(d));
        ScaledInverse(d);
      }
    }

    lemma ScaledIdentity(d: int, i: Scalar)
      requires Lawful() && Exp(d) == identity
      ensures Exp(i * d) == identity
    {
      ExpZero();
      ExpMul(i, d);
      ExpMul(i, 0);
    }

    lemma ScaledInverse(d: int)
      requires Lawful() && !Zero(d)
      ensures Exp(Inv(d) * d) == base
    {
      InverseRed(d);
      assert Unit(base);
    }

    lemma ExpEqual(k: int, l: int)
      requires Lawful()
      ensures Exp(k) == Exp(l) <==> Red(k) == Red(l)
    {
      RedEqual(k, l);
      if Exp(k) == Exp(l) {
        ExpAdd(k, -l);
        ExpAdd(l, -l);
        ExpZero();
        assert Exp(k - l) == identity;
        if !Zero(k - l) { NoTorsion(k - l); }
      }
    }

    lemma ReadableExp(k: int)
      requires Lawful()
      ensures Readable(Exp(k)) <==> Readable(identity) || !Zero(k)
    {
      assert Decodable(Exp(k));
      ExpZero();
      if Zero(k) {
        ExpEqual(k, 0);
        assert Exp(k) == identity;
      } else {
        NoTorsion(k);
      }
    }

    // ----- sums of elements

    /** The running sum of a list, as the loops over commitments compute it. */
    function Sum(es: seq<E>): E {
      if es == [] then identity else add(Sum(es[..|es| - 1]), es[|es| - 1])
    }

    ghost function Logs(es: seq<E>): (ks: seq<int>)
      requires Lawful()
      ensures |ks| == |es| && forall i | 0 <= i < |es| :: ks[i] == Log(es[i])
    {
      seq(|es|, i requires 0 <= i < |es| => Log(es[i]))
    }

    lemma {:induction false} SumIsExp(es: seq<E>, ks: seq<int>)
      requires Lawful() && |es| == |ks| && forall i | 0 <= i < |es| :: es[i] == Exp(ks[i])
      ensures Sum(es) == Exp(Total(ks))
    {
      if es == [] {
        ExpZero();
      } else {
        var n := |es| - 1;
        SumIsExp(es[..n], ks[..n]);
        ExpAdd(Total(ks[..n]), ks[n]);
        TotalAppend(ks[..n], [ks[n]]);
        assert ks == ks[..n] + [ks[n]];
      }
    }

    /** The sum does not depend on the order of the elements. */
    lemma SumPermuted(es: seq<E>, fs: seq<E>)
      requires Lawful() && multiset(es) == multiset(fs)
      ensures Sum(es) == Sum(fs)
    {
      var log: E -> int := e => LogOr(e);
      SumIsExp(es, Logs(es));
      SumIsExp(fs, Logs(fs));
      assert Logs(es) == Map(log, es) && Logs(fs) == Map(log, fs);
      TotalMapPermuted(log, es, fs);
    }

    ghost function LogOr(e: E): int {
      if Lawful() then Log(e) else 0
    }
  }

  // ----- the laws are satisfiable: Z_Q itself is such a group, with and without a readable identity

  function AddScalars(a: Scalar, b: Scalar): Scalar {
    Red(a + b)
  }

  function MulScalars(k: Scalar, a: Scalar): Scalar {
    Red(k * a)
  }

  function DecodeNonzero(bytes: seq<byte>): Option<Scalar> {
    match DecodeScalar(bytes)
    case Some(s) => if s == 0 then None else Some(s)
    case None => None
  }

  function ScalarGroup(strict: bool): Group<Scalar> {
    Group(1, 0, AddScalars, MulScalars, EncodeScalar, if strict then DecodeNonzero else DecodeScalar)
  }

  lemma ReduceSums(a: int, b: int)
    ensures Red(Red(a) + b) == Red(a + b) == Red(a + Red(b))
  {
    hide Red;
    RedRed(a);
    RedRed(b);
    RedAdd(Red(a), a, b, b);
    RedAdd(a, a, Red(b), b);
  }

  lemma ReduceProducts(a: int, b: int)
    ensures Red(Red(a) * b) == Red(a * b) == Red(a * Red(b))
  {
    hide Red;
    RedRed(a);
    RedRed(b);
    RedMul(Red(a), a, b, b);
    RedMul(a, a, Red(b), b);
  }

  lemma ReduceBoth(a: int, b: int)
    ensures Red(Red(a) + Red(b)) == Red(a + b)
  {
    hide Red;
    ReduceSums(a, Red(b));
    ReduceSums(a, b);
  }

  lemma LeftDistribute(k: int, l: int, a: int)
    ensures (k + l) * a == k * a + l * a
  {}

  lemma ReduceLeft(m: int, a: int)
    ensures Red(Red(m) * a) == Red(m * a)
  {
    ReduceProducts(m, a);
  }

  lemma ReduceRight(a: int, m: int)
    ensures Red(a * Red(m)) == Red(a * m)
  {
    ReduceProducts(a, m);
  }

  lemma LeftSumOf(m: int, a: int, p: int, q: int)
    requires m * a == p + q
    ensures Red(Red(m) * a) == Red(Red(p) + Red(q))
  {
    hide *;
    ReduceLeft(m, a);
    ReduceBoth(p, q);
  }

  lemma RightSumOf(m: int, a: int, p: int, q: int)
    requires a * m == p + q
    ensures Red(a * Red(m)) == Red(Red(p) + Red(q))
  {
    hide *;
    ReduceRight(a, m);
    ReduceBoth(p, q);
  }

  lemma LeftSum(k: int, l: int, a: int)
    ensures Red(Red(k + l) * a) == Red(Red(k * a) + Red(l * a))
  {
    hide *;
    LeftDistribute(k, l, a);
    LeftSumOf(k + l, a, k * a, l * a);
  }

  lemma RightSum(k: int, l: int, a: int)
    ensures Red(a * Red(k + l)) == Red(Red(a * k) + Red(a * l))
  {
    hide *;
    Distribute(a, k, l);
    RightSumOf(k + l, a, a * k, a * l);
  }

  lemma ProductLaw(k: int, l: int, a: int)
    ensures Red(Red(k * l) * a) == Red(k * Red(l * a))
  {
    hide Red;
    ReduceProducts(k * l, a);
    ReduceProducts(k, l * a);
    assert k * l * a == k * (l * a);
  }

  lemma ScalarSumLaws(strict: bool, a: Scalar, b: Scalar, c: Scalar)
    ensures var g := ScalarGroup(strict); g.Associative(a, b, c) && g.Commutative(a, b) && g.Neutral(a)
  {
    hide Red, EncodeScalar, DecodeScalar;
    ReduceSums(a + b, c);
    ReduceSums(a, b + c);
    RedScalar(a);
  }

  lemma ScalarProductLaws(strict: bool, k: Scalar, l: Scalar, a: Scalar)
    ensures
      var g := ScalarGroup(strict);
      g.ScalarSum(k, l, a) && g.ScalarProduct(k, l, a) && g.ElementSum(a, k, l) && g.Unit(a)
  {
    hide Red, EncodeScalar, DecodeScalar;
    LeftSum(k, l, a);
    RightSum(k, l, a);
    ProductLaw(k, l, a);
    RedScalar(1);
    RedScalar(a);
  }

  lemma ScalarElementLaws(strict: bool, a: Scalar)
    ensures ScalarGroup(strict).Generated(a) && ScalarGroup(strict).Decodable(a)
    ensures ScalarGroup(strict).Readable(0) <==> !strict
  {
    hide Red, EncodeScalar, DecodeScalar;
    RedScalar(a);
    assert ScalarGroup(strict).Multiple(a, a);
    ScalarRoundTrip(a);
    ScalarRoundTrip(0);
  }

  /** A lawful group may read its identity or reject it. */
  lemma ScalarGroupLawful(strict: bool)
    ensures ScalarGroup(strict).Lawful()
    ensures ScalarGroup(strict).Readable(ScalarGroup(strict).identity) <==> !strict
  {
    hide Red, EncodeScalar, DecodeScalar;
    var g := ScalarGroup(strict);
    forall a: Scalar, b: Scalar, c: Scalar ensures g.Associative(a, b, c) { ScalarSumLaws(strict, a, b, c); }
    forall a: Scalar, b: Scalar ensures g.Commutative(a, b) { ScalarSumLaws(strict, a, b, 0); }
    forall a: Scalar ensures g.Neutral(a) { ScalarSumLaws(strict, a, 0, 0); }
    forall k: Scalar, l: Scalar, a: Scalar ensures g.ScalarSum(k, l, a) { ScalarProductLaws(strict, k, l, a); }
    forall k: Scalar, l: Scalar, a: Scalar ensures g.ScalarProduct(k, l, a) { ScalarProductLaws(strict, k, l, a); }
    forall k: Scalar, a: Scalar, b: Scalar ensures g.ElementSum(k, a, b) { ScalarProductLaws(strict, a, b, k); }
    forall a: Scalar ensures g.Unit(a) { ScalarProductLaws(strict, 0, 0, a); }
    forall a: Scalar ensures g.Generated(a) { ScalarElementLaws(strict, a); }
    forall a: Scalar ensures g.Decodable(a) { ScalarElementLaws(strict, a); }
    ScalarElementLaws(strict, 0);
  }
}
