/** Signing with the key shares that the key generation hands out. */
module CeremonySigning {
  import opened Wrappers
  import opened Zq
  import opened Polynomial
  import opened Lagrange
  import opened Wire
  import opened Group
  import opened Dkg
  import opened DkgTheorems
  import opened Reconstruction
  import opened Frost
  import opened Signers
  import opened HonestSigning
  import opened SigningSystem
  import opened SigningRuns

  /** `ctx` is a signing context of the committee `who` under the ceremony's group key, and `shares`
      are the committee's shares with its ceremony secrets, in any order. */
  ghost predicate CommitteeSigns<E(!new)>(c: Ceremony, group: Group<E>, received: seq<seq<Option<SharePackage>>>,
                                          who: seq<nat>, ctx: Context<E>, nonces: seq<Nonce>, shares: seq<Scalar>)
  {
    && c.Valid() && group.Lawful() && |received| == |c.ids| && Committee(c.threshold, |c.ids|, who)
    && AllOk(Outcomes(c, group, received))
    && ctx.group == group && |ctx.list| == |who| && ctx.CommitsTo(nonces)
    && (forall k | 0 <= k < |who| :: ctx.list[k].signerId == c.ids[who[k]])
    && ctx.key == Outcomes(c, group, received)[who[0]].value.verificationKey
    && multiset(shares) == multiset(ctx.HonestShares(nonces, Secrets(Outcomes(c, group, received), who)))
  }

  /** The signature of any committee verifies exactly when the challenge annuls the difference between
      the secret the committee recovers and the group secret. */
  lemma CommitteeVerifiesIff<E(!new)>(c: Ceremony, group: Group<E>, received: seq<seq<Option<SharePackage>>>,
                                      who: seq<nat>, ctx: Context<E>, nonces: seq<Nonce>, shares: seq<Scalar>,
                                      recovered: int)
    requires CommitteeSigns(c, group, received, who, ctx, nonces, shares)
    requires recovered
      == LagrangeSum(Identifiers(c.ids, who), Identifiers(c.ids, who), Secrets(Outcomes(c, group, received), who))
    ensures ctx.Verifies(ctx.Aggregated(shares)) <==> Zero(ctx.Challenge() * (recovered - Eval(c.Joint(), 0)))
  {
    hide Red, Zero, Eval, SumOf, LagrangeSum, Context.Verifies, Context.Aggregated, Context.Challenge,
      Context.HonestShares, Group.Lawful, GroupKey, Finalized;
    var keys := Outcomes(c, group, received);
    GroupKeyIsJoint(c, group);
    assert keys[who[0]].value.verificationKey == group.Exp(Eval(c.Joint(), 0)) by {
      KeyOfOutcome(c, group, received, who[0]);
    }
    assert ctx.Ids() == Identifiers(c.ids, who);
    ctx.AggregateVerifiesIff(nonces, Secrets(keys, who), shares, Eval(c.Joint(), 0));
  }

  lemma KeyOfOutcome<E(!new)>(c: Ceremony, group: Group<E>, received: seq<seq<Option<SharePackage>>>, i: nat)
    requires c.Valid() && group.Lawful() && |received| == |c.ids| && i < |c.ids|
    requires Outcomes(c, group, received)[i].Ok?
    ensures Outcomes(c, group, received)[i].value.verificationKey == group.Exp(Eval(c.Joint(), 0))
  {
    hide Red, Eval, SumOf, GroupKey, ReceivedSum, FirstError, Group.Lawful;
    GroupKeyIsJoint(c, group);
  }

  /** Key shares finalised from peers' packages sign: every committee, every message, all nonces. */
  lemma PeerSharesSign<E(!new)>(c: Ceremony, group: Group<E>, received: seq<seq<Option<SharePackage>>>, who: seq<nat>,
                                ctx: Context<E>, nonces: seq<Nonce>, shares: seq<Scalar>)
    requires CommitteeSigns(c, group, received, who, ctx, nonces, shares)
    requires forall i | 0 <= i < |c.ids| :: FromEveryPeer(c, i, received[i])
    ensures ctx.Verifies(ctx.Aggregated(shares))
  {
    hide Red, Zero, Eval, SumOf, LagrangeSum, Context.Verifies, Context.Aggregated, Context.Challenge, Outcomes,
      Group.Lawful, FromEveryPeer;
    PeerCeremony(c, group, received, who);
    var xs := Identifiers(c.ids, who);
    var recovered := LagrangeSum(xs, xs, Secrets(Outcomes(c, group, received), who));
    CommitteeVerifiesIff(c, group, received, who, ctx, nonces, shares, recovered);
    RedEqual(recovered, Eval(c.Joint(), 0));
    ZeroScale(ctx.Challenge(), recovered - Eval(c.Joint(), 0));
  }

  /** Key shares from the ceremony as driven sign under its group key exactly when the challenge or
      the committee's correction is zero. */
  lemma DrivenSharesSignIff<E(!new)>(c: Ceremony, group: Group<E>, received: seq<seq<Option<SharePackage>>>,
                                     who: seq<nat>, ctx: Context<E>, nonces: seq<Nonce>, shares: seq<Scalar>)
    requires CommitteeSigns(c, group, received, who, ctx, nonces, shares)
    requires forall i | 0 <= i < |c.ids| :: FromEverybody(c, i, received[i])
    ensures ctx.Verifies(ctx.Aggregated(shares)) <==> ctx.Challenge() == 0 || Zero(Correction(c, who))
  {
    hide Red, Eval, SumOf, LagrangeSum, Context.Verifies, Context.Aggregated, Context.Challenge, Outcomes,
      Group.Lawful, FromEverybody, Correction, Zero;
    DrivenCeremony(c, group, received, who);
    var xs := Identifiers(c.ids, who);
    var recovered := LagrangeSum(xs, xs, Secrets(Outcomes(c, group, received), who));
    CommitteeVerifiesIff(c, group, received, who, ctx, nonces, shares, recovered);
    ProductZeroIff(ctx.Challenge(), recovered, Eval(c.Joint(), 0), Correction(c, who));
  }

  lemma ProductZeroIff(challenge: Scalar, recovered: int, secret: int, correction: int)
    requires Red(recovered) == Red(secret + correction)
    ensures Zero(challenge * (recovered - secret)) <==> challenge == 0 || Zero(correction)
  {
    hide Red;
    RedScalar(challenge);
    RedAdd(recovered, secret + correction, secret, secret);
    assert Zero(recovered - secret) <==> Zero(correction);
    if Zero(challenge * (recovered - secret)) {
      ZeroProduct(challenge, recovered - secret);
    }
    if challenge == 0 || Zero(correction) {
      assert Zero(challenge) || Zero(recovered - secret);
      ScaleEither(challenge, recovered - secret);
    }
  }

  lemma ScaleEither(a: int, b: int)
    requires Zero(a) || Zero(b)
    ensures Zero(a * b)
  {
    if Zero(a) { ZeroScale(b, a); } else { ZeroScale(a, b); }
  }

  // ----- peers' keys are a dealing

  /** The signer works with this key share. */
  ghost predicate Uses<E(!new)>(config: Config<E>, share: KeyShare<E>, id: uint16, st: SignerState<E>) {
    && share.id == st.id == id && st.secret == share.secret
    && id in config.publicShares && config.publicShares[id] == share.publicKey
  }

  /** Signers configured with the key shares and the group key of a ceremony. */
  ghost predicate Configured<E(!new)>(c: Ceremony, received: seq<seq<Option<SharePackage>>>, config: Config<E>,
                                      signers: map<uint16, SignerState<E>>) {
    && c.Valid() && c.ids != [] && |received| == |c.ids| && config.group.Lawful()
    && (forall i | 0 <= i < |c.ids| :: FromEveryPeer(c, i, received[i]))
    && AllOk(Outcomes(c, config.group, received))
    && config.threshold == c.threshold && config.key == Outcomes(c, config.group, received)[0].value.verificationKey
    && forall id <- signers :: exists i ::
      0 <= i < |c.ids| && Uses(config, Outcomes(c, config.group, received)[i].value, id, signers[id])
  }

  lemma PeerKeyOk<E(!new)>(c: Ceremony, group: Group<E>, received: seq<seq<Option<SharePackage>>>, i: nat)
    requires c.Valid() && group.Lawful() && |received| == |c.ids| && i < |c.ids| && FromEveryPeer(c, i, received[i])
    requires Outcomes(c, group, received)[i].Ok?
    ensures Outcomes(c, group, received)[i]
            == Ok(KeyShareOf(group, c.ids[i], Red(Eval(Reduced(c.Joint(), JointFits(c)), c.ids[i])),
                             group.Exp(Eval(Reduced(c.Joint(), JointFits(c)), 0))))
  {
    hide Outcomes, Group.Lawful, FromEveryPeer, Eval, Red, SumOf, Ceremony.Published, Reduced;
    if !c.Published(group) { UnpublishedFails(c, group, received, i); }
    PeerOutcome(c, group, received, i);
    var t := JointFits(c);
    EvalReduced(c.Joint(), t, c.ids[i]);
    EvalReduced(c.Joint(), t, 0);
    group.ExpEqual(Eval(Reduced(c.Joint(), t), 0), Eval(c.Joint(), 0));
  }

  /** The joint polynomial has at most a threshold of coefficients. */
  ghost function JointFits(c: Ceremony): (t: nat)
    requires c.Valid()
    ensures t == c.threshold && |c.Joint()| <= t
  {
    SumOfLength(c.polys, c.threshold);
    c.threshold
  }

  /** Key shares finalised from peers' packages are a dealing of the joint polynomial. */
  lemma PeerKeysDealt<E(!new)>(c: Ceremony, received: seq<seq<Option<SharePackage>>>, config: Config<E>,
                               signers: map<uint16, SignerState<E>>)
    requires Configured(c, received, config, signers)
    ensures |c.Joint()| <= c.threshold && Dealt(config, Reduced(c.Joint(), c.threshold), signers)
  {
    hide Outcomes, Group.Lawful, FromEveryPeer, Eval, Red, SumOf, Reduced, PackageOf;
    var f := Reduced(c.Joint(), JointFits(c));
    var keys := Outcomes(c, config.group, received);
    PeerKeyOk(c, config.group, received, 0);
    forall id | id in signers ensures DealtTo(config, f, id, signers[id]) {
      var i :| 0 <= i < |c.ids| && Uses(config, keys[i].value, id, signers[id]);
      PeerKeyOk(c, config.group, received, i);
      RedRed(Eval(f, id));
    }
  }

  /** So the aggregator accepts the shares of any threshold of them, each checked against its public
      key share, and the signature verifies. */
  lemma PeerKeysAggregate<E(!new)>(c: Ceremony, received: seq<seq<Option<SharePackage>>>, config: Config<E>,
                                   signers: map<uint16, SignerState<E>>, message: string,
                                   list: seq<NonceCommitment<E>>, order: seq<NonceCommitment<E>>,
                                   shares: seq<SignatureShare>)
    requires Configured(c, received, config, signers) && Ready(config, signers, list)
    requires multiset(order) == multiset(list) && |order| == |shares|
    requires forall k | 0 <= k < |order| :: shares[k] == ShareFor(ContextOf(config, message, list), signers, order[k])
    ensures Aggregate(config, message, shares, list).Ok?
    ensures ContextOf(config, message, list).Verifies(Aggregate(config, message, shares, list).value)
  {
    hide Group.Lawful, Aggregate, ShareFor, ContextOf, Ready, Dealt, Context.Verifies;
    PeerKeysDealt(c, received, config, signers);
    HonestAggregate(config, Reduced(c.Joint(), c.threshold), signers, message, list, order, shares);
  }

  /** ... and with these signers, their books still empty, begin the runs of the signing system. */
  lemma PeerKeysBegin<E(!new)>(c: Ceremony, received: seq<seq<Option<SharePackage>>>, config: Config<E>, w: World<E>)
    requires Configured(c, received, config, w.signers) && w.sessions == [] && w.uses == []
    requires forall id <- w.signers ::
      w.signers[id].outstanding == map[] && w.signers[id].spent == map[] && w.signers[id].issued == map[]
    ensures |c.Joint()| <= c.threshold && Initial(config, Reduced(c.Joint(), c.threshold), w)
  {
    hide Configured, Dealt;
    PeerKeysDealt(c, received, config, w.signers);
  }
}
