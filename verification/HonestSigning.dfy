/** Any threshold of dealt signers, in any order, produce a signature that the aggregator accepts and
    that verifies under the group key. */
module HonestSigning {
  import opened Wrappers
  import opened Zq
  import opened Sums
  import opened Polynomial
  import opened Lagrange
  import opened Wire
  import opened Group
  import opened Frost
  import opened CommitmentList
  import opened Signers

  /** The key material comes from the polynomial `f`: the group key from its constant term, every
      signer's secret and public key share from its value at the signer's identifier. */
  ghost predicate Dealt<E(!new)>(config: Config<E>, f: seq<Scalar>, signers: map<uint16, SignerState<E>>) {
    && 0 < |f| == config.threshold
    && config.key == config.group.Exp(Eval(f, 0))
    && forall id <- signers :: DealtTo(config, f, id, signers[id])
  }

  ghost predicate DealtTo<E(!new)>(config: Config<E>, f: seq<Scalar>, id: uint16, st: SignerState<E>) {
    && 0 < id < Q && st.id == id
    && st.secret == Red(Eval(f, id))
    && id in config.publicShares && config.publicShares[id] == config.group.mul(st.secret, config.group.base)
  }

  /** The commitment was handed out by its signer, which has since used its nonces. */
  ghost predicate Spent<E(!new)>(group: Group<E>, signers: map<uint16, SignerState<E>>, c: NonceCommitment<E>) {
    && c.signerId in signers
    && c.commitmentId in signers[c.signerId].spent
    && c == CommitmentFor(group, c.signerId, c.commitmentId, signers[c.signerId].spent[c.commitmentId])
  }

  function NonceOf<E(!new)>(signers: map<uint16, SignerState<E>>, c: NonceCommitment<E>): Nonce {
    if c.signerId in signers && c.commitmentId in signers[c.signerId].spent
    then signers[c.signerId].spent[c.commitmentId]
    else Nonce(0, 0)
  }

  function SecretOf<E(!new)>(signers: map<uint16, SignerState<E>>, c: NonceCommitment<E>): Scalar {
    if c.signerId in signers then signers[c.signerId].secret else 0
  }

  /** The share that the signer of `c` returns in the context `ctx`. */
  function ShareFor<E(==,!new)>(ctx: Context<E>, signers: map<uint16, SignerState<E>>,
                                c: NonceCommitment<E>): SignatureShare {
    SignatureShare(c.signerId, ctx.Share(c.signerId, NonceOf(signers, c), SecretOf(signers, c)))
  }

  function Nonces<E(==,!new)>(ctx: Context<E>, signers: map<uint16, SignerState<E>>): (r: seq<Nonce>)
    ensures |r| == |ctx.list|
  {
    seq(|ctx.list|, k requires 0 <= k < |ctx.list| => NonceOf(signers, ctx.list[k]))
  }

  function SecretsOf<E(==,!new)>(ctx: Context<E>, signers: map<uint16, SignerState<E>>): (r: seq<Scalar>)
    ensures |r| == |ctx.list|
  {
    seq(|ctx.list|, k requires 0 <= k < |ctx.list| => SecretOf(signers, ctx.list[k]))
  }

  ghost predicate Ready<E(!new)>(config: Config<E>, signers: map<uint16, SignerState<E>>,
                                 list: seq<NonceCommitment<E>>) {
    && DistinctSigners(list) && config.threshold <= |list| <= config.maxSigners
    && forall c <- list :: Spent(config.group, signers, c)
  }

  lemma SortedReady<E(!new)>(config: Config<E>, signers: map<uint16, SignerState<E>>, list: seq<NonceCommitment<E>>)
    requires Ready(config, signers, list)
    ensures Ready(config, signers, SortBySigner(list))
  {
    var sorted := SortBySigner(list);
    SortSorts(list);
    SameLength(list, sorted);
    DistinctPermuted(list, sorted);
    forall c | c in sorted ensures Spent(config.group, signers, c) {
      assert c in multiset(sorted);
    }
  }

  // ----- the interpolated secret

  lemma IdsDistinct<E(!new)>(config: Config<E>, f: seq<Scalar>, ctx: Context<E>, signers: map<uint16, SignerState<E>>)
    requires Dealt(config, f, signers) && Ready(config, signers, ctx.list)
    ensures Distinct(ctx.Ids())
    ensures forall k | 0 <= k < |ctx.list| :: ctx.Ids()[k] == ctx.list[k].signerId && ctx.list[k].signerId in signers
  {
    forall k | 0 <= k < |ctx.list| ensures ctx.Ids()[k] == ctx.list[k].signerId && ctx.list[k].signerId in signers {
      assert Spent(config.group, signers, ctx.list[k]);
      assert DealtTo(config, f, ctx.list[k].signerId, signers[ctx.list[k].signerId]);
      RedScalar(ctx.list[k].signerId);
    }
  }

  lemma SecretsInterpolate<E(!new)>(config: Config<E>, f: seq<Scalar>, ctx: Context<E>,
                                    signers: map<uint16, SignerState<E>>)
    requires Dealt(config, f, signers) && Ready(config, signers, ctx.list)
    ensures Zero(LagrangeSum(ctx.Ids(), ctx.Ids(), SecretsOf(ctx, signers)) - Eval(f, 0))
  {
    hide Red, Zero, Eval, LagrangeSum, Spent;
    var xs, ys := ctx.Ids(), SecretsOf(ctx, signers);
    IdsDistinct(config, f, ctx, signers);
    forall k | 0 <= k < |xs| ensures Red(ys[k]) == Red(Eval(f, xs[k])) {
      assert DealtTo(config, f, ctx.list[k].signerId, signers[ctx.list[k].signerId]);
      RedRed(Eval(f, xs[k]));
    }
    LagrangeAtZero(f, xs, ys);
    RedEqual(LagrangeSum(xs, xs, ys), Eval(f, 0));
  }

  lemma SpentCommits<E(!new)>(config: Config<E>, ctx: Context<E>, signers: map<uint16, SignerState<E>>)
    requires ctx.group == config.group && Ready(config, signers, ctx.list)
    ensures ctx.CommitsTo(Nonces(ctx, signers))
  {
    forall k | 0 <= k < |ctx.list|
      ensures ctx.list[k].hiding == ctx.group.mul(Nonces(ctx, signers)[k].hiding, ctx.group.base)
           && ctx.list[k].binding == ctx.group.mul(Nonces(ctx, signers)[k].binding, ctx.group.base)
    {
      assert Spent(config.group, signers, ctx.list[k]);
    }
  }

  // ----- the aggregator accepts

  lemma {:induction false} EntryFound<E>(list: seq<NonceCommitment<E>>, k: nat)
    requires DistinctSigners(list) && k < |list|
    ensures EntryOf(list, list[k].signerId) == Some(list[k])
  {
    if k > 0 { EntryFound(list[1..], k - 1); }
  }

  lemma ShareAccepted<E(!new)>(config: Config<E>, f: seq<Scalar>, ctx: Context<E>,
                               signers: map<uint16, SignerState<E>>, c: NonceCommitment<E>)
    requires config.group.Lawful() && ctx.group == config.group
    requires Dealt(config, f, signers) && Ready(config, signers, ctx.list) && c in ctx.list
    ensures EntryOf(ctx.list, c.signerId) == Some(c) && c.signerId in config.publicShares
    ensures ctx.ShareVerifies(c, config.publicShares[c.signerId], ShareFor(ctx, signers, c).share)
  {
    hide Red, Eval, Context.Term, Context.Factor, Context.Share, Context.Rho, Group.Lawful, Context.ShareVerifies,
      EntryOf;
    var k :| 0 <= k < |ctx.list| && ctx.list[k] == c;
    EntryFound(ctx.list, k);
    assert Spent(config.group, signers, c);
    assert DealtTo(config, f, c.signerId, signers[c.signerId]);
    ctx.ShareVerifiesIff(c, NonceOf(signers, c), SecretOf(signers, c), ShareFor(ctx, signers, c).share);
  }

  lemma {:induction false} NoBadShare<E(!new)>(config: Config<E>, f: seq<Scalar>, ctx: Context<E>,
                                               signers: map<uint16, SignerState<E>>, order: seq<NonceCommitment<E>>,
                                               shares: seq<SignatureShare>)
    requires config.group.Lawful() && ctx.group == config.group
    requires Dealt(config, f, signers) && Ready(config, signers, ctx.list)
    requires |order| == |shares| && forall k | 0 <= k < |order| ::
      order[k] in ctx.list && shares[k] == ShareFor(ctx, signers, order[k])
    ensures FirstBadShare(config, ctx, shares).None?
    decreases |shares|
  {
    hide Dealt, Ready, Group.Lawful, Context.ShareVerifies, Context.Share, EntryOf;
    if shares != [] {
      assert order[0] in ctx.list && shares[0] == ShareFor(ctx, signers, order[0]);
      ShareAccepted(config, f, ctx, signers, order[0]);
      NoBadShare(config, f, ctx, signers, order[1..], shares[1..]);
    }
  }

  // ----- the aggregate verifies

  lemma SharesPermuted<E(!new)>(ctx: Context<E>, signers: map<uint16, SignerState<E>>, order: seq<NonceCommitment<E>>,
                                shares: seq<SignatureShare>)
    requires multiset(order) == multiset(ctx.list) && |order| == |shares|
    requires forall k | 0 <= k < |order| :: shares[k] == ShareFor(ctx, signers, order[k])
    ensures multiset(ShareValues(shares)) == multiset(ctx.HonestShares(Nonces(ctx, signers), SecretsOf(ctx, signers)))
  {
    hide Context.Share;
    var value: NonceCommitment<E> -> Scalar := c => ShareFor(ctx, signers, c).share;
    MapPermuted(value, order, ctx.list);
    assert ShareValues(shares) == Map(value, order);
    assert ctx.HonestShares(Nonces(ctx, signers), SecretsOf(ctx, signers)) == Map(value, ctx.list);
  }

  /** For every dealing, every list of distinct dealt signers of at least the threshold, every message,
      all nonces, and the shares in any order: the aggregator accepts them and returns a signature
      that satisfies z * B == R + c * key. */
  lemma HonestAggregate<E(!new)>(config: Config<E>, f: seq<Scalar>, signers: map<uint16, SignerState<E>>,
                                 message: string, list: seq<NonceCommitment<E>>, order: seq<NonceCommitment<E>>,
                                 shares: seq<SignatureShare>)
    requires config.group.Lawful() && Dealt(config, f, signers) && Ready(config, signers, list)
    requires multiset(order) == multiset(list) && |order| == |shares|
    requires forall k | 0 <= k < |order| :: shares[k] == ShareFor(ContextOf(config, message, list), signers, order[k])
    ensures Aggregate(config, message, shares, list).Ok?
    ensures ContextOf(config, message, list).Verifies(Aggregate(config, message, shares, list).value)
    ensures Aggregate(config, message, shares, list).value.r == ContextOf(config, message, list).GroupCommitment()
  {
    hide Group.Lawful, Context.Verifies, Context.Share, FirstBadShare, Context.Aggregated, SortBySigner,
      Context.GroupCommitment, Spent, Dealt;
    var ctx := ContextOf(config, message, list);
    SortedReady(config, signers, list);
    SortSorts(list);
    forall k | 0 <= k < |order| ensures order[k] in ctx.list {
      assert order[k] in multiset(order);
      assert order[k] in multiset(ctx.list);
    }
    NoBadShare(config, f, ctx, signers, order, shares);
    AggregateVerifies(config, f, ctx, signers, order, shares);
  }

  lemma AggregateVerifies<E(!new)>(config: Config<E>, f: seq<Scalar>, ctx: Context<E>,
                                   signers: map<uint16, SignerState<E>>, order: seq<NonceCommitment<E>>,
                                   shares: seq<SignatureShare>)
    requires config.group.Lawful() && ctx.group == config.group && ctx.key == config.key
    requires Dealt(config, f, signers) && Ready(config, signers, ctx.list)
    requires multiset(order) == multiset(ctx.list) && |order| == |shares|
    requires forall k | 0 <= k < |order| :: shares[k] == ShareFor(ctx, signers, order[k])
    ensures ctx.Verifies(ctx.Aggregated(ShareValues(shares)))
    ensures ctx.Aggregated(ShareValues(shares)).r == ctx.GroupCommitment()
  {
    hide Group.Lawful, Red, Zero, Eval, LagrangeSum, Context.Verifies, Context.GroupCommitment, Context.Share, Ready;
    SpentCommits(config, ctx, signers);
    SharesPermuted(ctx, signers, order, shares);
    SecretsInterpolate(config, f, ctx, signers);
    var l := LagrangeSum(ctx.Ids(), ctx.Ids(), SecretsOf(ctx, signers));
    ZeroScale(ctx.Challenge(), l - Eval(f, 0));
    ctx.AggregateVerifiesIff(Nonces(ctx, signers), SecretsOf(ctx, signers), ShareValues(shares), Eval(f, 0));
  }
}
