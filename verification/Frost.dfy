/** The algebra of one signature (sections 4.4 to 4.6 and 5.1 to 5.3 of RFC 9591): what each signer
    returns, what the aggregator adds up, and when the result verifies. */
module Frost {
  import opened Zq
  import opened Sums
  import opened Lagrange
  import opened Wire
  import opened Group

  datatype Nonce = Nonce(hiding: Scalar, binding: Scalar)

  /** A signer's published commitment to one pair of nonces. */
  datatype NonceCommitment<E> = NonceCommitment(signerId: uint16, commitmentId: nat, hiding: E, binding: E)

  datatype SignatureShare = SignatureShare(signerId: uint16, share: Scalar)

  datatype Signature<E> = Signature(r: E, z: Scalar)

  /** The hashes of section 3.2, arbitrary functions of everything that enters them: the binding
      factor of a signer (section 4.4) and the challenge (section 4.6). */
  datatype Hashes<!E(!new)> = Hashes(
    bindingFactor: (E, string, seq<NonceCommitment<E>>, uint16) -> Scalar,
    challenge: (E, E, string) -> Scalar)

  /** What a signature is about: the group, the hashes, the verification key, the message and the
      sorted list of commitments. */
  datatype Context<!E(==,!new)> = Context(
    group: Group<E>,
    hashes: Hashes<E>,
    key: E,
    message: string,
    list: seq<NonceCommitment<E>>)
  {
    function Ids(): (r: seq<Scalar>)
      ensures |r| == |list|
    {
      seq(|list|, k requires 0 <= k < |list| => Red(list[k].signerId))
    }

    function Rho(id: uint16): Scalar {
      hashes.bindingFactor(key, message, list, id)
    }

    /** The contribution of one signer to the group commitment. */
    function Term(c: NonceCommitment<E>): E {
      group.add(c.hiding, group.mul(Rho(c.signerId), c.binding))
    }

    function Terms(): (r: seq<E>)
      ensures |r| == |list|
    {
      seq(|list|, k requires 0 <= k < |list| => Term(list[k]))
    }

    /** Section 4.5. */
    function GroupCommitment(): E {
      group.Sum(Terms())
    }

    /** Section 4.6. */
    function Challenge(): Scalar {
      hashes.challenge(GroupCommitment(), key, message)
    }

    /** The factor of a signer's secret in its share. */
    function Factor(id: uint16): Scalar {
      Red(Lambda(Ids(), Red(id)) * Challenge())
    }

    /** Section 5.2: the share of a signer with these nonces and this secret. */
    function Share(id: uint16, nonce: Nonce, secret: Scalar): Scalar {
      Red(nonce.hiding + Rho(id) * nonce.binding + Factor(id) * secret)
    }

    /** Section 5.4: one share against the signer's commitment and public key share. */
    predicate ShareVerifies(c: NonceCommitment<E>, publicKey: E, share: Scalar) {
      group.mul(share, group.base) == group.add(Term(c), group.mul(Factor(c.signerId), publicKey))
    }

    /** Section 5.3, the sum of the shares in the order they came. */
    function Aggregated(shares: seq<Scalar>): Signature<E> {
      Signature(GroupCommitment(), Red(Total(shares)))
    }

    /** The Schnorr verification equation. */
    predicate Verifies(sig: Signature<E>) {
      group.mul(sig.z, group.base) == group.add(sig.r, group.mul(hashes.challenge(sig.r, key, message), key))
    }

    // ----- honest signers

    /** The commitments in the list are those to `nonces`, in order. */
    ghost predicate CommitsTo(nonces: seq<Nonce>) {
      && |nonces| == |list|
      && forall k | 0 <= k < |list| ::
           && list[k].hiding == group.mul(nonces[k].hiding, group.base)
           && list[k].binding == group.mul(nonces[k].binding, group.base)
    }

    function HonestShares(nonces: seq<Nonce>, secrets: seq<Scalar>): (r: seq<Scalar>)
      requires |nonces| == |secrets| == |list|
      ensures |r| == |list|
    {
      seq(|list|, k requires 0 <= k < |list| => Share(list[k].signerId, nonces[k], secrets[k]))
    }

    function Exponents(nonces: seq<Nonce>): (r: seq<int>)
      requires |nonces| == |list|
      ensures |r| == |list|
    {
      seq(|list|, k requires 0 <= k < |list| => nonces[k].hiding + Rho(list[k].signerId) * nonces[k].binding)
    }

    lemma TermOfNonce(c: NonceCommitment<E>, nonce: Nonce)
      requires group.Lawful()
      requires c.hiding == group.mul(nonce.hiding, group.base) && c.binding == group.mul(nonce.binding, group.base)
      ensures Term(c) == group.Exp(nonce.hiding + Rho(c.signerId) * nonce.binding)
    {
      hide Red;
      var d: int, e: int, rho := nonce.hiding, nonce.binding, Rho(c.signerId);
      RedScalar(nonce.hiding);
      RedScalar(nonce.binding);
      group.ExpMul(rho, e);
      group.ExpAdd(d, rho * e);
    }

    lemma CommitmentIsExponent(nonces: seq<Nonce>)
      requires group.Lawful() && CommitsTo(nonces)
      ensures GroupCommitment() == group.Exp(Total(Exponents(nonces)))
    {
      hide Red, Total;
      forall k | 0 <= k < |list| ensures Terms()[k] == group.Exp(Exponents(nonces)[k]) {
        TermOfNonce(list[k], nonces[k]);
      }
      group.SumIsExp(Terms(), Exponents(nonces));
    }

    /** The check of section 5.4 passes the share of the signer that knows the nonces and the secret, and
        no other scalar, whatever the other entries of the list are. */
    lemma ShareVerifiesIff(c: NonceCommitment<E>, nonce: Nonce, secret: Scalar, share: Scalar)
      requires group.Lawful()
      requires c.hiding == group.mul(nonce.hiding, group.base) && c.binding == group.mul(nonce.binding, group.base)
      ensures ShareVerifies(c, group.mul(secret, group.base), share) <==> share == Share(c.signerId, nonce, secret)
    {
      hide Red, Term, Factor, Group.Lawful;
      var x, f := nonce.hiding + Rho(c.signerId) * nonce.binding, Factor(c.signerId);
      TermOfNonce(c, nonce);
      RedScalar(secret);
      RedScalar(share);
      group.ExpMul(f, secret);
      group.ExpAdd(x, f * secret);
      group.ExpEqual(share, x + f * secret);
    }

    // ----- the sum of the shares

    lemma HonestTotal(nonces: seq<Nonce>, secrets: seq<Scalar>)
      requires |nonces| == |secrets| == |list|
      ensures Red(Total(HonestShares(nonces, secrets)))
              == Red(Total(Exponents(nonces)) + Challenge() * LagrangeSum(Ids(), Ids(), secrets))
    {
      hide Red, Total, LagrangeSum, Lambda, Challenge, Rho;
      forall k | 0 <= k < |list|
        ensures HonestShares(nonces, secrets)[k]
                == Red(Exponents(nonces)[k] + Red(Lambda(Ids(), Ids()[k]) * Challenge()) * secrets[k])
      {}
      TotalOfShares(Challenge(), Ids(), Ids(), Exponents(nonces), secrets, HonestShares(nonces, secrets));
    }

    /** For signers that hold `secrets`, whatever these are: the aggregate verifies under the key
        `secret * B` exactly when the challenge annuls the error of the interpolated secret. */
    lemma AggregateVerifiesIff(nonces: seq<Nonce>, secrets: seq<Scalar>, shares: seq<Scalar>, secret: int)
      requires group.Lawful() && CommitsTo(nonces) && |secrets| == |list|
      requires multiset(shares) == multiset(HonestShares(nonces, secrets))
      requires key == group.Exp(secret)
      ensures Verifies(Aggregated(shares)) <==> Zero(Challenge() * (LagrangeSum(Ids(), Ids(), secrets) - secret))
    {
      hide Red, Total, LagrangeSum, Lambda, Zero, HonestShares, Exponents, Ids, GroupCommitment;
      var x := Total(Exponents(nonces));
      CommitmentIsExponent(nonces);
      TotalPermuted(shares, HonestShares(nonces, secrets));
      HonestTotal(nonces, secrets);
      EquationIff(group, x, Challenge(), LagrangeSum(Ids(), Ids(), secrets), secret, Red(Total(shares)));
    }
  }

  /** The verification equation with everything written as a multiple of the base. */
  lemma EquationIff<E(!new)>(group: Group<E>, x: int, c: Scalar, l: int, secret: int, z: Scalar)
    requires group.Lawful() && z == Red(x + c * l)
    ensures group.mul(z, group.base) == group.add(group.Exp(x), group.mul(c, group.Exp(secret)))
            <==> Zero(c * (l - secret))
  {
    hide Red, Zero;
    group.ExpMul(c, secret);
    group.ExpAdd(x, c * secret);
    group.ExpEqual(x + c * l, x + c * secret);
    RedEqual(x + c * l, x + c * secret);
    Factored(x, c, l, secret);
  }

  lemma Factored(x: int, c: int, l: int, s: int)
    ensures (x + c * l) - (x + c * s) == c * (l - s)
  {}

  lemma {:induction false} TotalOfShares(c: Scalar, all: seq<Scalar>, ids: seq<Scalar>, xs: seq<int>,
                                         secrets: seq<Scalar>, zs: seq<Scalar>)
    requires |ids| == |xs| == |secrets| == |zs|
    requires forall k | 0 <= k < |ids| :: zs[k] == Red(xs[k] + Red(Lambda(all, ids[k]) * c) * secrets[k])
    ensures Red(Total(zs)) == Red(Total(xs) + c * LagrangeSum(all, ids, secrets))
  {
    hide Red, Lambda;
    if ids != [] {
      forall k | 0 <= k < |ids[1..]|
        ensures zs[1..][k] == Red(xs[1..][k] + Red(Lambda(all, ids[1..][k]) * c) * secrets[1..][k])
      {
        assert zs[1..][k] == zs[k + 1] && xs[1..][k] == xs[k + 1] && ids[1..][k] == ids[k + 1]
          && secrets[1..][k] == secrets[k + 1];
      }
      TotalOfShares(c, all, ids[1..], xs[1..], secrets[1..], zs[1..]);
      ShareStep(zs[0], xs[0], Lambda(all, ids[0]), c, secrets[0],
                Total(zs[1..]), Total(xs[1..]), LagrangeSum(all, ids[1..], secrets[1..]));
    }
  }

  lemma ShareStep(z: Scalar, x: int, l: Scalar, c: Scalar, s: Scalar, zt: int, xt: int, lt: int)
    requires z == Red(x + Red(l * c) * s) && Red(zt) == Red(xt + c * lt)
    ensures Red(z + zt) == Red(x + xt + c * (l * s + lt))
  {
    hide Red;
    RedRed(l * c);
    RedMul(Red(l * c), l * c, s, s);
    RedAdd(x, x, Red(l * c) * s, l * c * s);
    RedRed(x + Red(l * c) * s);
    RedAdd(z, x + l * c * s, zt, xt + c * lt);
    Regroup(x, l, c, s, xt, lt);
  }

  lemma Regroup(x: int, l: int, c: int, s: int, xt: int, lt: int)
    ensures x + l * c * s + (xt + c * lt) == x + xt + c * (l * s + lt)
  {
    assert l * c * s == c * (l * s);
    assert c * (l * s + lt) == c * (l * s) + c * lt;
  }
}
