/** What the key shares of a committee of signers add up to after the key generation. */
module Reconstruction {
  import opened Wrappers
  import opened Zq
  import opened Polynomial
  import opened Lagrange
  import opened Wire
  import opened Group
  import opened Dkg
  import opened DkgTheorems

  /** `who` lists at least a threshold of different participants. */
  ghost predicate Committee(threshold: nat, n: nat, who: seq<nat>) {
    && |who| >= threshold
    && (forall k | 0 <= k < |who| :: who[k] < n)
    && (forall k, l | 0 <= k < l < |who| :: who[k] != who[l])
  }

  function Identifiers(ids: seq<uint16>, who: seq<nat>): (xs: seq<Scalar>)
    requires forall k | 0 <= k < |who| :: who[k] < |ids|
    ensures |xs| == |who|
  {
    seq(|who|, k requires 0 <= k < |who| => Red(ids[who[k]]))
  }

  /** The secret that a committee interpolates from its shares. */
  function Recovered(xs: seq<Scalar>, shares: seq<int>): Scalar
    requires |xs| == |shares|
  {
    Red(LagrangeSum(xs, xs, shares))
  }

  /** The outcome of the ceremony for every participant. */
  function Outcomes<E(!new)>(c: Ceremony, group: Group<E>, received: seq<seq<Option<SharePackage>>>)
    : (r: seq<Result<KeyShare<E>, DkgError>>)
    requires |c.ids| == |c.polys| == |received|
    ensures |r| == |c.ids|
  {
    seq(|c.ids|, i requires 0 <= i < |c.ids| =>
      Outcome(group, c.ids[i], c.polys[i], c.Commitments(group), received[i]))
  }

  ghost predicate AllOk<E, F>(keys: seq<Result<KeyShare<E>, F>>) {
    forall i | 0 <= i < |keys| :: keys[i].Ok?
  }

  function Secrets<E, F>(keys: seq<Result<KeyShare<E>, F>>, who: seq<nat>): (r: seq<Scalar>)
    requires forall k | 0 <= k < |who| :: who[k] < |keys| && keys[who[k]].Ok?
    ensures |r| == |who|
  {
    seq(|who|, k requires 0 <= k < |who| => keys[who[k]].value.secret)
  }

  // ----- interpolation is linear

  lemma {:induction false} LagrangeSumCongruent(all: seq<Scalar>, xs: seq<Scalar>, ys: seq<int>, zs: seq<int>)
    requires |xs| == |ys| == |zs| && forall i | 0 <= i < |xs| :: Red(ys[i]) == Red(zs[i])
    ensures Red(LagrangeSum(all, xs, ys)) == Red(LagrangeSum(all, xs, zs))
  {
    hide Red, Lambda;
    if xs != [] {
      forall i | 0 <= i < |xs[1..]| ensures Red(ys[1..][i]) == Red(zs[1..][i]) {
        assert ys[1..][i] == ys[i + 1] && zs[1..][i] == zs[i + 1];
      }
      LagrangeSumCongruent(all, xs[1..], ys[1..], zs[1..]);
      var l := Lambda(all, xs[0]);
      RedMul(l, l, ys[0], zs[0]);
      RedAdd(l * ys[0], l * zs[0], LagrangeSum(all, xs[1..], ys[1..]), LagrangeSum(all, xs[1..], zs[1..]));
    }
  }

  function Added(ys: seq<int>, zs: seq<int>): (r: seq<int>)
    requires |ys| == |zs|
    ensures |r| == |ys|
  {
    seq(|ys|, i requires 0 <= i < |ys| => ys[i] + zs[i])
  }

  lemma {:induction false} LagrangeSumAdded(all: seq<Scalar>, xs: seq<Scalar>, ys: seq<int>, zs: seq<int>)
    requires |xs| == |ys| == |zs|
    ensures LagrangeSum(all, xs, Added(ys, zs)) == LagrangeSum(all, xs, ys) + LagrangeSum(all, xs, zs)
  {
    hide Lambda;
    if xs != [] {
      LagrangeSumAdded(all, xs[1..], ys[1..], zs[1..]);
      assert Added(ys, zs)[1..] == Added(ys[1..], zs[1..]);
      Distribute(Lambda(all, xs[0]), ys[0], zs[0]);
    }
  }

  lemma {:induction false} LagrangeSumZeros(all: seq<Scalar>, xs: seq<Scalar>, ys: seq<int>)
    requires |xs| == |ys| && forall i | 0 <= i < |ys| :: ys[i] == 0
    ensures LagrangeSum(all, xs, ys) == 0
  {
    hide Lambda;
    if xs != [] {
      LagrangeSumZeros(all, xs[1..], ys[1..]);
      assert Lambda(all, xs[0]) * 0 == 0;
    }
  }

  lemma IdentifiersDistinct(ids: seq<uint16>, threshold: nat, who: seq<nat>)
    requires ValidIds(ids) && Committee(threshold, |ids|, who)
    ensures Distinct(Identifiers(ids, who)) && 0 !in Identifiers(ids, who)
    ensures forall k | 0 <= k < |who| :: Identifiers(ids, who)[k] == ids[who[k]]
  {
    forall k, l | 0 <= k < l < |who| ensures Identifiers(ids, who)[k] != Identifiers(ids, who)[l] {
      assert ids[who[k]] != ids[who[l]] by {
        if who[k] > who[l] { assert ids[who[l]] != ids[who[k]]; }
      }
    }
  }

  /** The values of the joint polynomial at a committee's identifiers recover its constant term. */
  lemma JointRecovered(c: Ceremony, who: seq<nat>, values: seq<int>)
    requires c.Valid() && Committee(c.threshold, |c.ids|, who) && |values| == |who|
    requires forall k | 0 <= k < |who| :: Red(values[k]) == Red(Eval(c.Joint(), c.ids[who[k]]))
    ensures Recovered(Identifiers(c.ids, who), values) == Red(Eval(c.Joint(), 0))
  {
    hide Red, Eval, SumOf;
    IdentifiersDistinct(c.ids, c.threshold, who);
    SumOfLength(c.polys, c.threshold);
    LagrangeAtZero(c.Joint(), Identifiers(c.ids, who), values);
  }

  // ----- the intended ceremony

  /** Unless the broadcast constant terms can be read, nobody finalises. */
  lemma UnpublishedFails<E(!new)>(c: Ceremony, group: Group<E>, received: seq<seq<Option<SharePackage>>>, i: nat)
    requires c.Valid() && group.Lawful() && |received| == |c.ids| && i < |c.ids| && !c.Published(group)
    ensures Outcomes(c, group, received)[i].Err?
  {
    hide Red, Eval, SumOf, Finalized, GroupKey, Group.Lawful, Ceremony.Published;
    GroupKeyIsJoint(c, group);
  }

  /** Everybody finalises with one package from every other participant: then all succeed with the
      same group key, provided the broadcast constant terms can be read, and that key is the public
      key of the secret every committee recovers. */
  lemma PeerCeremony<E(!new)>(c: Ceremony, group: Group<E>, received: seq<seq<Option<SharePackage>>>, who: seq<nat>)
    requires c.Valid() && group.Lawful() && |received| == |c.ids| && Committee(c.threshold, |c.ids|, who)
    requires forall i | 0 <= i < |c.ids| :: FromEveryPeer(c, i, received[i])
    ensures AllOk(Outcomes(c, group, received)) <==> c.Published(group)
    ensures c.Published(group) ==>
      var keys := Outcomes(c, group, received);
      var recovered := Recovered(Identifiers(c.ids, who), Secrets(keys, who));
      && recovered == Red(Eval(c.Joint(), 0))
      && forall i | 0 <= i < |keys| :: keys[i].value.verificationKey == group.mul(recovered, group.base)
  {
    hide Red, Eval, SumOf, LagrangeSum, Outcomes, Group.Lawful, Ceremony.Published, FromEveryPeer;
    if c.Published(group) {
      forall i | 0 <= i < |c.ids|
        ensures Outcomes(c, group, received)[i]
                == Ok(KeyShareOf(group, c.ids[i], Red(Eval(c.Joint(), c.ids[i])), group.Exp(Eval(c.Joint(), 0))))
      {
        PeerOutcome(c, group, received, i);
      }
      var ys := Secrets(Outcomes(c, group, received), who);
      forall k | 0 <= k < |who| ensures Red(ys[k]) == Red(Eval(c.Joint(), c.ids[who[k]])) {
        RedRed(Eval(c.Joint(), c.ids[who[k]]));
      }
      JointRecovered(c, who, ys);
    } else {
      UnpublishedFails(c, group, received, who[0]);
    }
  }

  lemma PeerOutcome<E(!new)>(c: Ceremony, group: Group<E>, received: seq<seq<Option<SharePackage>>>, i: nat)
    requires c.Valid() && group.Lawful() && |received| == |c.ids| && i < |c.ids|
    requires FromEveryPeer(c, i, received[i]) && c.Published(group)
    ensures Outcomes(c, group, received)[i]
            == Ok(KeyShareOf(group, c.ids[i], Red(Eval(c.Joint(), c.ids[i])), group.Exp(Eval(c.Joint(), 0))))
  {
    hide Red, Eval, SumOf, Finalized, GroupKey, Group.Lawful, Ceremony.Published, FromEveryPeer;
    GroupKeyIsJoint(c, group);
    PeerShare(c, group, i, received[i], group.Exp(Eval(c.Joint(), 0)));
  }

  /** There are such ceremonies: zero constant terms, where a lawful group rejects the identity. */
  lemma UnpublishedExample(t: nat, ids: seq<uint16>)
    requires t > 0 && ids != [] && ValidIds(ids)
    ensures ScalarGroup(true).Lawful()
    ensures var c := Ceremony(t, ids, seq(|ids|, _ => seq(t, _ => 0))); c.Valid() && !c.Published(ScalarGroup(true))
  {
    hide Group.Lawful, ValidIds, Group.Readable;
    ScalarGroupLawful(true);
    var c := Ceremony(t, ids, seq(|ids|, _ => seq(t, _ => 0)));
    assert c.polys[0][0] == 0;
  }

  // ----- the ceremony as the coordinator drives it

  /** The committee's own values: what the doubled own shares add before interpolation. */
  function OwnValues(c: Ceremony, who: seq<nat>): (r: seq<int>)
    requires |c.ids| == |c.polys| && forall k | 0 <= k < |who| :: who[k] < |c.ids|
    ensures |r| == |who|
  {
    seq(|who|, k requires 0 <= k < |who| => Eval(c.polys[who[k]], c.ids[who[k]]))
  }

  function Correction(c: Ceremony, who: seq<nat>): int
    requires |c.ids| == |c.polys| && forall k | 0 <= k < |who| :: who[k] < |c.ids|
  {
    LagrangeSum(Identifiers(c.ids, who), Identifiers(c.ids, who), OwnValues(c, who))
  }

  /** Everybody finalises with one package from every participant, itself included, so that the own
      share counts twice: a committee recovers the group secret plus the correction, and the group
      key is the public key of what it recovers exactly when the correction is zero. */
  lemma DrivenCeremony<E(!new)>(c: Ceremony, group: Group<E>, received: seq<seq<Option<SharePackage>>>, who: seq<nat>)
    requires c.Valid() && group.Lawful() && |received| == |c.ids| && Committee(c.threshold, |c.ids|, who)
    requires forall i | 0 <= i < |c.ids| :: FromEverybody(c, i, received[i])
    ensures AllOk(Outcomes(c, group, received)) <==> c.Published(group)
    ensures c.Published(group) ==>
      var keys := Outcomes(c, group, received);
      var recovered := Recovered(Identifiers(c.ids, who), Secrets(keys, who));
      && recovered == Red(Eval(c.Joint(), 0) + Correction(c, who))
      && forall i | 0 <= i < |keys| ::
           keys[i].value.verificationKey == group.mul(recovered, group.base) <==> Zero(Correction(c, who))
  {
    hide Red, Eval, SumOf, LagrangeSum, Lambda, Outcomes, Group.Lawful, Ceremony.Published, FromEverybody, Correction,
      Zero;
    if c.Published(group) {
      var secret := Eval(c.Joint(), 0);
      forall i | 0 <= i < |c.ids|
        ensures Outcomes(c, group, received)[i] == Ok(KeyShareOf(group, c.ids[i],
          Red(Eval(c.Joint(), c.ids[i]) + Eval(c.polys[i], c.ids[i])), group.Exp(secret)))
      {
        DrivenOutcome(c, group, received, i);
      }
      DrivenRecovered(c, who, Secrets(Outcomes(c, group, received), who));
      KeyMatchesIff(group, secret, Correction(c, who));
    } else {
      UnpublishedFails(c, group, received, who[0]);
    }
  }

  lemma DrivenOutcome<E(!new)>(c: Ceremony, group: Group<E>, received: seq<seq<Option<SharePackage>>>, i: nat)
    requires c.Valid() && group.Lawful() && |received| == |c.ids| && i < |c.ids|
    requires FromEverybody(c, i, received[i]) && c.Published(group)
    ensures Outcomes(c, group, received)[i]
            == Ok(KeyShareOf(group, c.ids[i], Red(Eval(c.Joint(), c.ids[i]) + Eval(c.polys[i], c.ids[i])),
              group.Exp(Eval(c.Joint(), 0))))
  {
    hide Red, Eval, SumOf, Finalized, GroupKey, Group.Lawful, Ceremony.Published, FromEverybody;
    GroupKeyIsJoint(c, group);
    DrivenShare(c, group, i, received[i], group.Exp(Eval(c.Joint(), 0)));
  }

  lemma DrivenRecovered(c: Ceremony, who: seq<nat>, ys: seq<int>)
    requires c.Valid() && Committee(c.threshold, |c.ids|, who) && |ys| == |who|
    requires forall k | 0 <= k < |who| ::
      ys[k] == Red(Eval(c.Joint(), c.ids[who[k]]) + Eval(c.polys[who[k]], c.ids[who[k]]))
    ensures Recovered(Identifiers(c.ids, who), ys) == Red(Eval(c.Joint(), 0) + Correction(c, who))
  {
    hide Red, Eval, SumOf, Lambda, LagrangeSum;
    var xs, own := Identifiers(c.ids, who), OwnValues(c, who);
    var joint := seq(|who|, k requires 0 <= k < |who| => Eval(c.Joint(), c.ids[who[k]]));
    JointRecovered(c, who, joint);
    forall k | 0 <= k < |who| ensures Red(ys[k]) == Red(Added(joint, own)[k]) {
      RedRed(joint[k] + own[k]);
    }
    LagrangeSumCongruent(xs, xs, ys, Added(joint, own));
    LagrangeSumAdded(xs, xs, joint, own);
    RedAdd(LagrangeSum(xs, xs, joint), Eval(c.Joint(), 0), Correction(c, who), Correction(c, who));
  }

  lemma KeyMatchesIff<E(!new)>(group: Group<E>, secret: int, correction: int)
    requires group.Lawful()
    ensures group.Exp(secret) == group.mul(Red(secret + correction), group.base) <==> Zero(correction)
  {
    hide Red, Zero;
    group.ExpEqual(secret + correction, secret);
    RedEqual(secret + correction, secret);
  }

  // ----- the correction is not always zero

  lemma {:induction false} NumeratorNonzero(xs: seq<Scalar>, x: Scalar)
    requires 0 !in xs
    ensures !Zero(Numerator(xs, x))
  {
    if xs != [] {
      NumeratorNonzero(xs[1..], x);
      assert xs[0] in xs;
      if xs[0] != x && Zero(Numerator(xs, x)) {
        ZeroProduct(xs[0], Numerator(xs[1..], x));
      }
    }
  }

  lemma InverseNonzero(d: int)
    requires !Zero(d)
    ensures !Zero(Inv(d))
  {
    hide Inv;
    InverseRed(d);
    RedScalar(1);
    if Zero(Inv(d)) {
      ZeroScale(d, Inv(d));
    }
  }

  lemma LambdaNonzero(xs: seq<Scalar>, x: Scalar)
    requires 0 !in xs
    ensures !Zero(Lambda(xs, x))
  {
    hide Red, Inv, Numerator, Denominator;
    var n, d := Numerator(xs, x), Denominator(xs, x);
    NumeratorNonzero(xs, x);
    OthersSigns(xs, x);
    OthersNonzero(xs, x);
    if Zero(d) { ZeroScale(Sign(xs, x), d); }
    InverseNonzero(d);
    RedRed(n * Inv(d));
    if Zero(n * Inv(d)) { ZeroProduct(n, Inv(d)); }
  }

  /** Every participant's list of packages when each is sent everybody's. */
  function EverybodysPackages(c: Ceremony): (r: seq<seq<Option<SharePackage>>>)
    requires |c.ids| == |c.polys|
    ensures |r| == |c.ids|
  {
    seq(|c.ids|, i requires 0 <= i < |c.ids| => c.PackagesFor(c.ids[i]))
  }

  lemma SentToEverybody(c: Ceremony)
    requires |c.ids| == |c.polys|
    ensures forall i | 0 <= i < |c.ids| :: FromEverybody(c, i, EverybodysPackages(c)[i])
  {
    forall i | 0 <= i < |c.ids| ensures FromEverybody(c, i, EverybodysPackages(c)[i]) {
      AddressedAll(c.PackagesFor(c.ids[i]), c.ids[i]);
    }
  }

  /** Whatever the identifiers and the committee: if all participants choose the same polynomial, with
      any constant term but zero, the ceremony as driven hands out shares that do not belong to its
      group key. */
  lemma DrivenCeremonyFails<E(!new)>(threshold: nat, ids: seq<uint16>, group: Group<E>, who: seq<nat>, g: seq<Scalar>)
    requires threshold > 0 && ValidIds(ids) && Committee(threshold, |ids|, who) && group.Lawful()
    requires |g| == threshold && g[0] != 0
    ensures
      var c := Ceremony(threshold, ids, seq(|ids|, _ => g));
      var keys := Outcomes(c, group, EverybodysPackages(c));
      && c.Valid() && AllOk(keys)
      && forall i | 0 <= i < |keys| ::
           keys[i].value.verificationKey
           != group.mul(Recovered(Identifiers(ids, who), Secrets(keys, who)), group.base)
  {
    hide Red, Zero, Eval, LagrangeSum, Outcomes, SumOf, Correction;
    var c := Ceremony(threshold, ids, seq(|ids|, _ => g));
    SameCorrection(c, who, g);
    SentToEverybody(c);
    DrivenCeremony(c, group, EverybodysPackages(c), who);
  }

  lemma SameCorrection(c: Ceremony, who: seq<nat>, g: seq<Scalar>)
    requires c.Valid() && Committee(c.threshold, |c.ids|, who) && |g| == c.threshold
    requires forall i | 0 <= i < |c.polys| :: c.polys[i] == g
    ensures Zero(Correction(c, who)) <==> g[0] == 0
  {
    hide Red, Eval, LagrangeSum;
    IdentifiersDistinct(c.ids, c.threshold, who);
    LagrangeAtZero(g, Identifiers(c.ids, who), OwnValues(c, who));
    EvalAtZero(g);
  }

  /** The ceremony with another constant term for participant `i`. */
  function WithConstant(c: Ceremony, i: nat, b: Scalar): Ceremony
    requires i < |c.polys| && c.polys[i] != []
  {
    c.(polys := c.polys[i := [b] + c.polys[i][1..]])
  }

  /** The constant term that makes the committee's correction zero. */
  function RightConstant(c: Ceremony, who: seq<nat>, k: nat): Scalar
    requires c.Valid() && Committee(c.threshold, |c.ids|, who) && k < |who|
  {
    Red(c.polys[who[k]][0] - Correction(c, who) * Inv(Lambda(Identifiers(c.ids, who), Identifiers(c.ids, who)[k])))
  }

  /** How rarely the ceremony as driven comes out right for a committee: whatever everything else is,
      exactly one of the Q possible constant terms of any one member makes the correction zero. */
  lemma OneConstantInQ(c: Ceremony, who: seq<nat>, k: nat, b: Scalar)
    requires c.Valid() && Committee(c.threshold, |c.ids|, who) && k < |who|
    ensures Zero(Correction(WithConstant(c, who[k], b), who)) <==> b == RightConstant(c, who, k)
  {
    hide Red, Zero, Lambda, LagrangeSum, Inv;
    var xs := Identifiers(c.ids, who);
    IdentifiersDistinct(c.ids, c.threshold, who);
    LambdaNonzero(xs, xs[k]);
    CorrectionMoves(c, who, k, b);
    LinearRoot(Correction(c, who), Lambda(xs, xs[k]), c.polys[who[k]][0], b);
  }

  lemma CorrectionMoves(c: Ceremony, who: seq<nat>, k: nat, b: Scalar)
    requires c.Valid() && Committee(c.threshold, |c.ids|, who) && k < |who|
    ensures Correction(WithConstant(c, who[k], b), who)
            == Correction(c, who)
              + Lambda(Identifiers(c.ids, who), Identifiers(c.ids, who)[k]) * (b - c.polys[who[k]][0])
  {
    hide Red, Lambda, LagrangeSum;
    var xs, own, i := Identifiers(c.ids, who), OwnValues(c, who), who[k];
    var d := b - c.polys[i][0];
    var moved := OwnValues(WithConstant(c, i, b), who);
    forall l | 0 <= l < |who| ensures moved[l] == if l == k then own[l] + d else own[l] {
      if l == k {
        assert ([b] + c.polys[i][1..])[1..] == c.polys[i][1..];
      } else {
        assert who[l] != i by { if l > k { assert who[k] != who[l]; } }
      }
    }
    assert moved == own[k := own[k] + d];
    LagrangeSumMoves(xs, xs, own, k, d);
  }

  lemma {:induction false} LagrangeSumMoves(all: seq<Scalar>, xs: seq<Scalar>, ys: seq<int>, k: nat, d: int)
    requires |xs| == |ys| && k < |xs|
    ensures LagrangeSum(all, xs, ys[k := ys[k] + d]) == LagrangeSum(all, xs, ys) + Lambda(all, xs[k]) * d
  {
    hide Lambda;
    var zs := ys[k := ys[k] + d];
    if k == 0 {
      assert zs[1..] == ys[1..];
      Distribute(Lambda(all, xs[0]), ys[0], d);
    } else {
      assert zs[1..] == ys[1..][k - 1 := ys[1..][k - 1] + d];
      LagrangeSumMoves(all, xs[1..], ys[1..], k - 1, d);
    }
  }

  /** The root of a linear function over Z_Q. */
  lemma LinearRoot(c: int, l: Scalar, a: Scalar, b: Scalar)
    requires !Zero(l)
    ensures Zero(c + l * (b - a)) <==> b == Red(a - c * Inv(l))
  {
    hide *;
    var root := Red(a - c * Inv(l));
    RootVanishes(c, l, a, root);
    if Zero(c + l * (b - a)) {
      ZeroSub(c + l * (b - a), c + l * (root - a));
      Distribute(l, b - root, root - a);
      assert (c + l * (b - a)) - (c + l * (root - a)) == l * (b - root);
      ZeroProduct(l, b - root);
      if b != root { DistinctScalars(b, root); }
    }
  }

  lemma RootVanishes(c: int, l: Scalar, a: Scalar, root: Scalar)
    requires !Zero(l) && root == Red(a - c * Inv(l))
    ensures Zero(c + l * (root - a))
  {
    hide *;
    var e := a - c * Inv(l);
    var u, v := root - e, l * Inv(l) - 1;
    RedZero(e);
    InverseLaw(l);
    ZeroScale(l, u);
    ZeroScale(-c, v);
    ZeroAdd(l * u, -c * v);
    RootAlgebra(c, l, Inv(l), a, root, u, v);
  }

  lemma RootAlgebra(c: int, l: int, i: int, a: int, root: int, u: int, v: int)
    requires u == root - (a - c * i) && v == l * i - 1
    ensures l * u + -c * v == c + l * (root - a)
  {
    Distribute(l, root - a, c * i);
    assert l * (c * i) == c * (l * i);
    Distribute(-c, l * i, -1);
  }
}
