/** Exactly what a signer and the aggregator answer to any input, in the terms of RFC 9591 alone: the
    definitions here are written out over the hashes and the list, and no handler uses them. */
module SignOutcomes {
  import opened Wrappers
  import opened Zq
  import opened Sums
  import opened Polynomial
  import opened Lagrange
  import opened Wire
  import opened Group
  import opened Frost
  import opened CommitmentList
  import opened Signers
  import opened HonestSigning
  import opened SigningRuns

  /** Section 4.5: the sum of hiding + bindingFactor * binding over the sorted list, the binding factors
      being those of section 4.4 for the verification key, the message, the list and the signer. */
  function BoundTerms<E(==,!new)>(config: Config<E>, message: string, sorted: seq<NonceCommitment<E>>): (r: seq<E>)
    ensures |r| == |sorted|
  {
    seq(|sorted|, k requires 0 <= k < |sorted| => config.group.add(sorted[k].hiding, config.group.mul(
      config.hashes.bindingFactor(config.key, message, sorted, sorted[k].signerId), sorted[k].binding)))
  }

  function BoundCommitment<E(==,!new)>(config: Config<E>, message: string, sorted: seq<NonceCommitment<E>>): E {
    config.group.Sum(BoundTerms(config, message, sorted))
  }

  function SignerScalars<E>(sorted: seq<NonceCommitment<E>>): (r: seq<Scalar>)
    ensures |r| == |sorted|
  {
    seq(|sorted|, k requires 0 <= k < |sorted| => Red(sorted[k].signerId))
  }

  /** Section 5.4: the share times the base is the signer's bound nonces plus its interpolating value
      times the challenge times its public key share. */
  ghost predicate Checks<E(!new)>(config: Config<E>, message: string, sorted: seq<NonceCommitment<E>>,
                                     c: NonceCommitment<E>, publicKey: E, share: Scalar) {
    var challenge := config.hashes.challenge(BoundCommitment(config, message, sorted), config.key, message);
    config.group.mul(share, config.group.base)
    == config.group.add(
      config.group.add(c.hiding, config.group.mul(
        config.hashes.bindingFactor(config.key, message, sorted, c.signerId), c.binding)),
      config.group.mul(Red(Lambda(SignerScalars(sorted), Red(c.signerId)) * challenge), publicKey))
  }

  lemma CommitmentOfContext<E(!new)>(config: Config<E>, message: string, list: seq<NonceCommitment<E>>)
    ensures ContextOf(config, message, list).GroupCommitment()
            == BoundCommitment(config, message, SortBySigner(list))
  {
    hide SortBySigner;
    assert ContextOf(config, message, list).Terms() == BoundTerms(config, message, SortBySigner(list));
  }

  lemma ChecksIff<E(!new)>(config: Config<E>, message: string, list: seq<NonceCommitment<E>>, c: NonceCommitment<E>,
                           publicKey: E, share: Scalar)
    ensures ContextOf(config, message, list).ShareVerifies(c, publicKey, share)
            <==> Checks(config, message, SortBySigner(list), c, publicKey, share)
  {
    hide SortBySigner, Red, Lambda, Context.GroupCommitment, BoundCommitment;
    CommitmentOfContext(config, message, list);
    assert ContextOf(config, message, list).Ids() == SignerScalars(SortBySigner(list));
  }

  // ----- the list after sorting

  /** The size of the list is within bounds and no signer is in it twice. */
  ghost predicate WellFormed<E(!new)>(config: Config<E>, list: seq<NonceCommitment<E>>) {
    && config.threshold <= |list| <= config.maxSigners
    && forall i, j | 0 <= i < j < |list| :: list[i].signerId != list[j].signerId
  }

  lemma SortedList<E(!new)>(config: Config<E>, list: seq<NonceCommitment<E>>)
    ensures ValidList(config, SortBySigner(list)) <==> WellFormed(config, list)
    ensures forall c :: c in SortBySigner(list) <==> c in list
  {
    hide SortBySigner;
    var sorted := SortBySigner(list);
    SortSorts(list);
    SameLength(list, sorted);
    if DistinctSigners(list) { DistinctPermuted(list, sorted); }
    if DistinctSigners(sorted) { DistinctPermuted(sorted, list); }
    forall c ensures c in sorted <==> c in list {
      assert c in sorted <==> c in multiset(sorted);
      assert c in list <==> c in multiset(list);
    }
  }

  /** The entry found in the sorted list is the one of the signer, if it has one. */
  lemma EntryIff<E(!new)>(config: Config<E>, list: seq<NonceCommitment<E>>, id: uint16)
    requires WellFormed(config, list)
    ensures forall c :: EntryOf(SortBySigner(list), id) == Some(c) <==> c in list && c.signerId == id
    ensures EntryOf(SortBySigner(list), id).None? <==> forall c <- list :: c.signerId != id
  {
    hide SortBySigner, EntryOf;
    SortedList(config, list);
    forall c ensures EntryOf(SortBySigner(list), id) == Some(c) <==> c in list && c.signerId == id {
      if c in list && c.signerId == id {
        var k :| 0 <= k < |list| && list[k] == c;
        SortedEntry(config, list, k);
      }
    }
  }

  // ----- a signer

  /** The commitment is the signer's, handed out by it and not used. */
  ghost predicate Usable<E(!new)>(st: SignerState<E>, c: NonceCommitment<E>) {
    && c.signerId == st.id && c.commitmentId in st.outstanding
    && c.commitmentId in st.issued && st.issued[c.commitmentId] == c
  }

  /** Exactly when a signer signs with a list, and why it does not. */
  lemma SignedIff<E(!new)>(config: Config<E>, st: SignerState<E>, message: string, list: seq<NonceCommitment<E>>)
    ensures
      var r := Signed(config, st, message, list).1;
      && (r.Ok? <==> WellFormed(config, list) && exists c <- list :: Usable(st, c))
      && (r == Err(InvalidList) <==> !WellFormed(config, list))
      && (r == Err(NotListed) <==> WellFormed(config, list) && forall c <- list :: c.signerId != st.id)
      && (r == Err(UnknownCommitment) <==>
            WellFormed(config, list) && exists c <- list :: c.signerId == st.id && !Usable(st, c))
      && r != Err(Malformed)
  {
    hide SortBySigner, EntryOf, ValidList, WellFormed, Context.Share;
    SortedList(config, list);
    if WellFormed(config, list) { EntryIff(config, list, st.id); }
  }

  /** A request with a text that cannot be read is refused as such, and otherwise the texts are what
      the signer works with, in order. */
  lemma HandledIff<E(!new)>(config: Config<E>, codec: Codec<E>, st: SignerState<E>, message: string,
                            items: seq<string>)
    ensures Handled(config, codec, st, message, items).1 == Err(Malformed)
            <==> exists t <- items :: codec.decode(t).None?
    ensures forall list: seq<NonceCommitment<E>> |
      |list| == |items| && (forall k | 0 <= k < |list| :: codec.decode(items[k]) == Some(list[k])) ::
      Handled(config, codec, st, message, items) == Signed(config, st, message, list)
  {
    hide Signed, DecodeAll;
    var decoded := DecodeAll(codec.decode, items);
    if decoded.Some? {
      SignedIff(config, st, message, decoded.value);
      forall list: seq<NonceCommitment<E>> |
        |list| == |items| && (forall k | 0 <= k < |list| :: codec.decode(items[k]) == Some(list[k]))
        ensures list == decoded.value
      {}
    }
  }

  /** Every share that a signer returns passes the check of section 5.4 for the message, the list and
      the public key of the signer's secret, no other scalar does, and it costs exactly the nonce of the
      signer's commitment in the list. */
  lemma SignedChecks<E(!new)>(config: Config<E>, st: SignerState<E>, message: string, list: seq<NonceCommitment<E>>)
    requires config.group.Lawful() && SignerInv(config.group, st) && Signed(config, st, message, list).1.Ok?
    ensures
      var r := Signed(config, st, message, list).1.value;
      && r.signerId == st.id
      && exists c <- list ::
           && Usable(st, c)
           && Signed(config, st, message, list).0
              == st.(outstanding := st.outstanding - {c.commitmentId},
                     spent := st.spent[c.commitmentId := st.outstanding[c.commitmentId]])
           && forall s: Scalar ::
                Checks(config, message, SortBySigner(list), c, config.group.mul(st.secret, config.group.base), s)
                <==> s == r.share
  {
    hide SortBySigner, EntryOf, WellFormed, Checks, Context.Share, Group.Lawful, Context.ShareVerifies;
    SignedIff(config, st, message, list);
    var c :| c in list && Usable(st, c);
    EntryIff(config, list, st.id);
    var ctx := ContextOf(config, message, list);
    var nonce := st.outstanding[c.commitmentId];
    assert c == CommitmentFor(config.group, st.id, c.commitmentId, nonce);
    var key := config.group.mul(st.secret, config.group.base);
    forall s: Scalar
      ensures Checks(config, message, SortBySigner(list), c, key, s)
              <==> s == Signed(config, st, message, list).1.value.share
    {
      ChecksIff(config, message, list, c, key, s);
      ctx.ShareVerifiesIff(c, nonce, st.secret, s);
    }
  }

  // ----- the aggregator

  /** The share is one of a signer in the list with a known public key share, and passes its check. */
  ghost predicate Passes<E(!new)>(config: Config<E>, message: string, list: seq<NonceCommitment<E>>,
                                  s: SignatureShare) {
    && s.signerId in config.publicShares
    && exists c <- list ::
         c.signerId == s.signerId
           && Checks(config, message, SortBySigner(list), c, config.publicShares[s.signerId], s.share)
  }

  /** The share is of a signer that is in the list and has a known public key share. */
  ghost predicate Listed<E(!new)>(config: Config<E>, list: seq<NonceCommitment<E>>, s: SignatureShare) {
    s.signerId in config.publicShares && exists c <- list :: c.signerId == s.signerId
  }

  /** The Schnorr equation. */
  ghost predicate Schnorr<E(!new)>(config: Config<E>, message: string, sig: Signature<E>) {
    config.group.mul(sig.z, config.group.base)
    == config.group.add(sig.r, config.group.mul(config.hashes.challenge(sig.r, config.key, message), config.key))
  }

  /** What the aggregator decides for the first of some shares. */
  lemma FirstShare<E(!new)>(config: Config<E>, message: string, list: seq<NonceCommitment<E>>,
                            shares: seq<SignatureShare>)
    requires WellFormed(config, list) && shares != []
    ensures
      var ctx := ContextOf(config, message, list);
      FirstBadShare(config, ctx, shares)
      == if Passes(config, message, list, shares[0]) then FirstBadShare(config, ctx, shares[1..])
         else if Listed(config, list, shares[0]) then Some(BadShare(shares[0].signerId))
         else Some(UnknownSigner(shares[0].signerId))
  {
    hide SortBySigner, EntryOf, WellFormed, Checks, Context.ShareVerifies;
    var ctx := ContextOf(config, message, list);
    var s := shares[0];
    EntryIff(config, list, s.signerId);
    if s.signerId in config.publicShares && EntryOf(ctx.list, s.signerId).Some? {
      ChecksIff(config, message, list, EntryOf(ctx.list, s.signerId).value, config.publicShares[s.signerId], s.share);
    }
  }

  /** No share is bad exactly when all pass, and otherwise the first that does not is reported. */
  lemma {:induction false} FirstBadIff<E(!new)>(config: Config<E>, message: string, list: seq<NonceCommitment<E>>,
                                                shares: seq<SignatureShare>)
    requires WellFormed(config, list)
    ensures
      var bad := FirstBadShare(config, ContextOf(config, message, list), shares);
      && (bad.None? <==> forall s <- shares :: Passes(config, message, list, s))
      && forall k | 0 <= k < |shares| && !Passes(config, message, list, shares[k])
           && (forall s <- shares[..k] :: Passes(config, message, list, s)) ::
           bad == Some(if Listed(config, list, shares[k]) then BadShare(shares[k].signerId)
                       else UnknownSigner(shares[k].signerId))
  {
    hide SortBySigner, WellFormed, Passes, Listed, FirstBadShare;
    if shares == [] {
      NoShares(config, ContextOf(config, message, list));
    } else {
      FirstShare(config, message, list, shares);
      FirstBadIff(config, message, list, shares[1..]);
      assert shares == [shares[0]] + shares[1..];
      if Passes(config, message, list, shares[0]) {
        forall k | 0 <= k < |shares| && !Passes(config, message, list, shares[k])
          && (forall s <- shares[..k] :: Passes(config, message, list, s))
          ensures FirstBadShare(config, ContextOf(config, message, list), shares)
                  == Some(if Listed(config, list, shares[k]) then BadShare(shares[k].signerId)
                          else UnknownSigner(shares[k].signerId))
        {
          assert shares[..k] == [shares[0]] + shares[1..][..k - 1];
          assert shares[1..][k - 1] == shares[k];
        }
      } else {
        forall k | 0 < k < |shares| ensures shares[0] in shares[..k] {
          assert shares[..k][0] == shares[0];
        }
      }
    }
  }

  lemma NoShares<E(!new)>(config: Config<E>, ctx: Context<E>)
    ensures FirstBadShare(config, ctx, []).None?
  {}

  /** Exactly when the aggregator returns a signature, and which. */
  lemma AggregateIff<E(!new)>(config: Config<E>, message: string, shares: seq<SignatureShare>,
                              list: seq<NonceCommitment<E>>, sig: Signature<E>)
    ensures Aggregate(config, message, shares, list) == Ok(sig) <==>
      && WellFormed(config, list) && (forall s <- shares :: Passes(config, message, list, s))
      && sig.r == BoundCommitment(config, message, SortBySigner(list)) && sig.z == Red(Total(ShareValues(shares)))
      && Schnorr(config, message, sig)
  {
    hide SortBySigner, ValidList, WellFormed, Passes, FirstBadShare, Context.GroupCommitment, BoundCommitment, Red;
    SortedList(config, list);
    CommitmentOfContext(config, message, list);
    if WellFormed(config, list) { FirstBadIff(config, message, list, shares); }
  }

  /** ... and what it reports instead: a list that is not well-formed, then the first share that does
      not pass, and only then a signature that does not satisfy the equation. */
  lemma AggregateErrors<E(!new)>(config: Config<E>, message: string, shares: seq<SignatureShare>,
                                 list: seq<NonceCommitment<E>>)
    ensures
      var r := Aggregate(config, message, shares, list);
      && (r == Err(BadCommitments) <==> !WellFormed(config, list))
      && (r == Err(BadSignature) <==>
            && WellFormed(config, list) && (forall s <- shares :: Passes(config, message, list, s))
            && !Schnorr(config, message, Signature(
              BoundCommitment(config, message, SortBySigner(list)), Red(Total(ShareValues(shares))))))
      && (WellFormed(config, list) ==>
            forall k | 0 <= k < |shares| && !Passes(config, message, list, shares[k])
              && (forall s <- shares[..k] :: Passes(config, message, list, s)) ::
              r == Err(if Listed(config, list, shares[k]) then BadShare(shares[k].signerId)
                       else UnknownSigner(shares[k].signerId)))
  {
    hide SortBySigner, ValidList, WellFormed, Passes, Listed, FirstBadShare, Context.GroupCommitment, BoundCommitment,
      Red;
    SortedList(config, list);
    CommitmentOfContext(config, message, list);
    if WellFormed(config, list) {
      FirstBadIff(config, message, list, shares);
      BadKinds(config, ContextOf(config, message, list), shares);
    }
  }

  lemma {:induction false} BadKinds<E(!new)>(config: Config<E>, ctx: Context<E>, shares: seq<SignatureShare>)
    ensures
      var bad := FirstBadShare(config, ctx, shares);
      bad.Some? ==> bad.value.BadShare? || bad.value.UnknownSigner?
  {
    hide Context.ShareVerifies, EntryOf;
    if shares != [] { BadKinds(config, ctx, shares[1..]); }
  }

  // ----- dealt signers

  /** The share is the one its signer makes for this message and list. */
  ghost predicate Honest<E(!new)>(config: Config<E>, signers: map<uint16, SignerState<E>>, message: string,
                                  list: seq<NonceCommitment<E>>, s: SignatureShare) {
    exists c <- list :: c.signerId == s.signerId && s == ShareFor(ContextOf(config, message, list), signers, c)
  }

  /** The aggregator's check tells exactly the honest shares from all others. */
  lemma HonestIffPasses<E(!new)>(config: Config<E>, f: seq<Scalar>, signers: map<uint16, SignerState<E>>,
                                 message: string, list: seq<NonceCommitment<E>>, s: SignatureShare)
    requires config.group.Lawful() && Dealt(config, f, signers) && Ready(config, signers, list)
    ensures Passes(config, message, list, s) <==> Honest(config, signers, message, list, s)
    ensures Listed(config, list, s) <==> exists c <- list :: c.signerId == s.signerId
  {
    hide SortBySigner, Checks, Context.Share, Context.ShareVerifies, Group.Lawful, Eval, Red, Spent;
    var ctx := ContextOf(config, message, list);
    forall c | c in list && c.signerId == s.signerId
      ensures c.signerId in config.publicShares
      ensures Checks(config, message, SortBySigner(list), c, config.publicShares[c.signerId], s.share)
              <==> s == ShareFor(ctx, signers, c)
    {
      assert Spent(config.group, signers, c);
      SpentNonce(config.group, signers, c);
      assert DealtTo(config, f, c.signerId, signers[c.signerId]);
      ChecksIff(config, message, list, c, config.publicShares[c.signerId], s.share);
      ctx.ShareVerifiesIff(c, NonceOf(signers, c), SecretOf(signers, c), s.share);
    }
  }

  lemma SpentNonce<E(!new)>(group: Group<E>, signers: map<uint16, SignerState<E>>, c: NonceCommitment<E>)
    requires Spent(group, signers, c)
    ensures c.signerId in signers
    ensures c.hiding == group.mul(NonceOf(signers, c).hiding, group.base)
    ensures c.binding == group.mul(NonceOf(signers, c).binding, group.base)
  {}

  /** For dealt signers and any shares whatever: a share that is not the honest one is refused, the
      first of them by the name of its signer; a signature is returned exactly when all are honest and
      add up to what one from every signer in the list adds up to, and then it is their signature. */
  lemma DealtAggregate<E(!new)>(config: Config<E>, f: seq<Scalar>, signers: map<uint16, SignerState<E>>,
                                message: string, list: seq<NonceCommitment<E>>, shares: seq<SignatureShare>)
    requires config.group.Lawful() && Dealt(config, f, signers) && Ready(config, signers, list)
    ensures
      var r := Aggregate(config, message, shares, list);
      var all := Map((c: NonceCommitment<E>) => ShareFor(ContextOf(config, message, list), signers, c), list);
      && (r.Ok? <==>
            && (forall s <- shares :: Honest(config, signers, message, list, s))
            && Red(Total(ShareValues(shares))) == Red(Total(ShareValues(all))))
      && (r == Err(BadSignature) <==>
            && (forall s <- shares :: Honest(config, signers, message, list, s))
            && Red(Total(ShareValues(shares))) != Red(Total(ShareValues(all))))
      && forall k | 0 <= k < |shares| && !Honest(config, signers, message, list, shares[k])
           && (forall s <- shares[..k] :: Honest(config, signers, message, list, s)) ::
           r == Err(if exists c <- list :: c.signerId == shares[k].signerId then BadShare(shares[k].signerId)
                    else UnknownSigner(shares[k].signerId))
  {
    hide SortBySigner, WellFormed, Passes, Listed, Honest, Context.GroupCommitment, BoundCommitment, Red, Aggregate,
      Dealt, Ready, Group.Lawful, Schnorr, Total;
    assert WellFormed(config, list) by { ReadyWellFormed(config, signers, list); }
    forall s: SignatureShare
      ensures Passes(config, message, list, s) <==> Honest(config, signers, message, list, s)
      ensures Listed(config, list, s) <==> exists c <- list :: c.signerId == s.signerId
    {
      HonestIffPasses(config, f, signers, message, list, s);
    }
    AggregateErrors(config, message, shares, list);
    var all := Map((c: NonceCommitment<E>) => ShareFor(ContextOf(config, message, list), signers, c), list);
    AllShares(config, f, signers, message, list, all);
    var z := Red(Total(ShareValues(shares)));
    var r := BoundCommitment(config, message, SortBySigner(list));
    OneSignature(config, message, r, z, Red(Total(ShareValues(all))));
    AggregateIff(config, message, shares, list, Signature(r, z));
    if Aggregate(config, message, shares, list).Ok? {
      AggregateIff(config, message, shares, list, Aggregate(config, message, shares, list).value);
    }
  }

  lemma ReadyWellFormed<E(!new)>(config: Config<E>, signers: map<uint16, SignerState<E>>,
                                 list: seq<NonceCommitment<E>>)
    requires Ready(config, signers, list)
    ensures WellFormed(config, list)
  {}

  /** One share from every signer makes a signature. */
  lemma AllShares<E(!new)>(config: Config<E>, f: seq<Scalar>, signers: map<uint16, SignerState<E>>, message: string,
                           list: seq<NonceCommitment<E>>, all: seq<SignatureShare>)
    requires config.group.Lawful() && Dealt(config, f, signers) && Ready(config, signers, list)
    requires |all| == |list|
      && forall k | 0 <= k < |list| :: all[k] == ShareFor(ContextOf(config, message, list), signers, list[k])
    ensures Schnorr(config, message, Signature(
      BoundCommitment(config, message, SortBySigner(list)), Red(Total(ShareValues(all)))))
  {
    hide SortBySigner, Context.GroupCommitment, BoundCommitment, Red, Aggregate, Dealt, Ready, Group.Lawful, Schnorr,
      Total, ShareFor, Context.Verifies, Passes;
    HonestAggregate(config, f, signers, message, list, list, all);
    AggregateIff(config, message, all, list, Aggregate(config, message, all, list).value);
  }

  /** The equation leaves one scalar for every first part. */
  lemma OneSignature<E(!new)>(config: Config<E>, message: string, r: E, z: Scalar, honest: Scalar)
    requires config.group.Lawful() && Schnorr(config, message, Signature(r, honest))
    ensures Schnorr(config, message, Signature(r, z)) <==> z == honest
  {
    hide Group.Lawful, Red;
    RedScalar(z);
    RedScalar(honest);
    config.group.ExpEqual(z, honest);
  }
}
