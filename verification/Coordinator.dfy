/** The sequential signing flow (cmd/coordinator/main.go, and cmd/frostlab/main.go in one process):
    every signer commits, every signer signs the collected list, the shares are aggregated. */
module Coordinator {
  import opened Wrappers
  import opened Zq
  import opened Sums
  import opened Polynomial
  import opened Wire
  import opened Group
  import opened Frost
  import opened CommitmentList
  import opened Signers
  import opened HonestSigning
  import opened SigningRuns
  import Base64Url
  import Token

  /** What becomes of a call: it does not reach the signer, or the answer does not come back. */
  datatype Delivery = Lost | AnswerLost | Delivered

  datatype CoordinatorError = CallFailed(i: nat) | NotAggregated

  // ----- one round on the states of the signers

  /** The draws of the library: for every signer a fresh commitment identifier and a pair of nonces. */
  datatype Draws = Draws(cids: seq<nat>, nonces: seq<Nonce>)

  ghost predicate Fits<E>(draws: Draws, states: seq<SignerState<E>>) {
    && |draws.cids| == |draws.nonces| == |states|
    && forall i | 0 <= i < |states| :: draws.cids[i] !in states[i].issued
  }

  function CommitmentsOf<E(!new)>(group: Group<E>, states: seq<SignerState<E>>,
                                  draws: Draws): (r: seq<NonceCommitment<E>>)
    requires |draws.cids| == |draws.nonces| == |states|
    ensures |r| == |states|
  {
    seq(|states|, i requires 0 <= i < |states| => CommitmentFor(group, states[i].id, draws.cids[i], draws.nonces[i]))
  }

  function CommittedStates<E(!new)>(group: Group<E>, states: seq<SignerState<E>>,
                                    draws: Draws): (r: seq<SignerState<E>>)
    requires |draws.cids| == |draws.nonces| == |states|
    ensures |r| == |states|
  {
    seq(|states|, i requires 0 <= i < |states| => Committed(group, states[i], draws.cids[i], draws.nonces[i]))
  }

  function SignedStates<E(==,!new)>(config: Config<E>, states: seq<SignerState<E>>, message: string,
                                    list: seq<NonceCommitment<E>>)
    : (r: seq<SignerState<E>>)
    ensures |r| == |states|
  {
    seq(|states|, i requires 0 <= i < |states| => Signed(config, states[i], message, list).0)
  }

  function SignedAnswers<E(==,!new)>(config: Config<E>, states: seq<SignerState<E>>, message: string,
                                     list: seq<NonceCommitment<E>>)
    : (r: seq<Result<SignatureShare, SignError>>)
    ensures |r| == |states|
  {
    seq(|states|, i requires 0 <= i < |states| => Signed(config, states[i], message, list).1)
  }

  /** Signers with their books in order, holding the shares of `f`, at least a threshold of them. */
  ghost predicate Dealers<E(!new)>(config: Config<E>, f: seq<Scalar>, states: seq<SignerState<E>>) {
    && config.group.Lawful() && 0 < |f| == config.threshold <= |states| <= config.maxSigners
    && config.key == config.group.Exp(Eval(f, 0))
    && (forall i, j | 0 <= i < j < |states| :: states[i].id != states[j].id)
    && forall i | 0 <= i < |states| :: DealtTo(config, f, states[i].id, states[i]) && SignerInv(config.group, states[i])
  }

  /** Every signer finds its own commitment in the list and signs, giving up exactly that nonce. */
  lemma EverySignerSigns<E(!new)>(config: Config<E>, f: seq<Scalar>, states: seq<SignerState<E>>, draws: Draws,
                                  message: string, i: nat)
    requires Dealers(config, f, states) && Fits(draws, states) && i < |states|
    ensures
      var list := CommitmentsOf(config.group, states, draws);
      var st := CommittedStates(config.group, states, draws)[i];
      var (later, r) := Signed(config, st, message, list);
      && DistinctSigners(list)
      && later.id == states[i].id && later.secret == states[i].secret
      && later.spent == states[i].spent[draws.cids[i] := draws.nonces[i]]
      && r == Ok(SignatureShare(states[i].id,
        ContextOf(config, message, list).Share(states[i].id, draws.nonces[i], states[i].secret)))
  {
    hide SortBySigner, EntryOf, ValidList, Context.Share, ContextOf, SignerInv, DealtTo, Signed, Group.Lawful;
    var list := CommitmentsOf(config.group, states, draws);
    var st := CommittedStates(config.group, states, draws)[i];
    assert DistinctSigners(list);
    CommitKeeps(config.group, states[i], draws.cids[i], draws.nonces[i]);
    SortedEntry(config, list, i);
    assert list[i].signerId == st.id && list[i].commitmentId == draws.cids[i];
    assert st.issued[draws.cids[i]] == list[i];
    SignsIff(config, st, message, list, list[i]);
    SignKeeps(config, st, message, list);
  }

  /** The signers by identifier; the later one of a repeated identifier would win. */
  ghost function ById<E>(states: seq<SignerState<E>>): map<uint16, SignerState<E>> {
    if states == [] then map[]
    else
      var n := |states| - 1;
      ById(states[..n])[states[n].id := states[n]]
  }

  lemma {:induction false} ByIdFinds<E(!new)>(states: seq<SignerState<E>>, i: nat)
    requires forall j, k | 0 <= j < k < |states| :: states[j].id != states[k].id
    requires i < |states|
    ensures states[i].id in ById(states) && ById(states)[states[i].id] == states[i]
  {
    var n := |states| - 1;
    if i < n {
      ByIdFinds(states[..n], i);
      assert states[i].id != states[n].id;
    }
  }

  lemma {:induction false} ByIdKeys<E(!new)>(states: seq<SignerState<E>>, id: uint16) returns (i: nat)
    requires id in ById(states)
    ensures i < |states| && states[i].id == id
  {
    var n := |states| - 1;
    if id == states[n].id { i := n; } else { i := ByIdKeys(states[..n], id); }
  }

  /** The signers after the round still hold the shares of the same polynomial. */
  lemma StillDealt<E(!new)>(config: Config<E>, f: seq<Scalar>, states: seq<SignerState<E>>, later: seq<SignerState<E>>)
    requires Dealers(config, f, states) && |later| == |states|
    requires forall i | 0 <= i < |states| :: later[i].id == states[i].id && later[i].secret == states[i].secret
    ensures Dealt(config, f, ById(later))
    ensures forall i | 0 <= i < |states| :: states[i].id in ById(later) && ById(later)[states[i].id] == later[i]
  {
    hide Group.Lawful, SignerInv, Eval, Red, ById;
    forall i | 0 <= i < |states| ensures states[i].id in ById(later) && ById(later)[states[i].id] == later[i] {
      ByIdFinds(later, i);
    }
    forall id | id in ById(later) ensures DealtTo(config, f, id, ById(later)[id]) {
      var i := ByIdKeys(later, id);
      assert DealtTo(config, f, states[i].id, states[i]);
    }
  }

  lemma RoundReady<E(!new)>(config: Config<E>, f: seq<Scalar>, states: seq<SignerState<E>>, draws: Draws,
                            message: string)
    requires Dealers(config, f, states) && Fits(draws, states)
    ensures
      var list := CommitmentsOf(config.group, states, draws);
      var after := ById(SignedStates(config, CommittedStates(config.group, states, draws), message, list));
      && Dealt(config, f, after) && Ready(config, after, list)
      && forall i | 0 <= i < |states| ::
           SignedAnswers(config, CommittedStates(config.group, states, draws), message, list)[i]
           == Ok(ShareFor(ContextOf(config, message, list), after, list[i]))
  {
    hide SortBySigner, Context.Share, ContextOf, SignerInv, Signed, Group.Lawful, ById, DealtTo, Dealt, CommittedStates;
    var list := CommitmentsOf(config.group, states, draws);
    var committed := CommittedStates(config.group, states, draws);
    var signed := SignedStates(config, committed, message, list);
    var after := ById(signed);
    forall i | 0 <= i < |states|
      ensures signed[i].id == states[i].id && signed[i].secret == states[i].secret
      ensures signed[i].spent == states[i].spent[draws.cids[i] := draws.nonces[i]]
      ensures SignedAnswers(config, committed, message, list)[i]
        == Ok(SignatureShare(states[i].id,
          ContextOf(config, message, list).Share(states[i].id, draws.nonces[i], states[i].secret)))
    {
      EverySignerSigns(config, f, states, draws, message, i);
    }
    StillDealt(config, f, states, signed);
    forall i | 0 <= i < |states| ensures Spent(config.group, after, list[i]) {
      assert list[i] == CommitmentFor(config.group, states[i].id, draws.cids[i], draws.nonces[i]);
    }
  }

  function Values<T, F>(answers: seq<Result<T, F>>): (r: seq<T>)
    requires forall i | 0 <= i < |answers| :: answers[i].Ok?
    ensures |r| == |answers|
  {
    seq(|answers|, i requires 0 <= i < |answers| => answers[i].value)
  }

  /** One undisturbed round of at least a threshold of dealt signers yields a signature that verifies. */
  lemma RoundVerifies<E(!new)>(config: Config<E>, f: seq<Scalar>, states: seq<SignerState<E>>, draws: Draws,
                               message: string)
    requires Dealers(config, f, states) && Fits(draws, states)
    ensures
      var list := CommitmentsOf(config.group, states, draws);
      var answers := SignedAnswers(config, CommittedStates(config.group, states, draws), message, list);
      && (forall i | 0 <= i < |answers| :: answers[i].Ok?)
      && Aggregate(config, message, Values(answers), list).Ok?
      && ContextOf(config, message, list).Verifies(Aggregate(config, message, Values(answers), list).value)
  {
    hide SortBySigner, ContextOf, Signed, Group.Lawful, Aggregate, ShareFor, Dealt, Ready, CommittedStates;
    var list := CommitmentsOf(config.group, states, draws);
    var committed := CommittedStates(config.group, states, draws);
    RoundReady(config, f, states, draws, message);
    var after := ById(SignedStates(config, committed, message, list));
    HonestAggregate(config, f, after, message, list, list, Values(SignedAnswers(config, committed, message, list)));
  }

  // ----- the flow over signers that keep their own state

  ghost function StatesOf<E(!new)>(signers: seq<Signer<E>>): (r: seq<SignerState<E>>)
    reads signers
    ensures |r| == |signers|
  {
    seq(|signers|, i requires 0 <= i < |signers| reads signers => signers[i].State())
  }

  ghost predicate Bound<E(!new)>(config: Config<E>, codec: Codec<E>, signers: seq<Signer<E>>) {
    && codec.Lawful()
    && (forall i, j | 0 <= i < j < |signers| :: signers[i] != signers[j])
    && forall i | 0 <= i < |signers| :: signers[i].config == config && signers[i].codec == codec
  }

  /** collectCommitments: one signer after the other, stopping at the first call that fails. */
  method CollectCommitments<E(==,!new)>(config: Config<E>, codec: Codec<E>, signers: seq<Signer<E>>, draws: Draws,
                                        net: seq<Delivery>)
    returns (r: Result<seq<string>, CoordinatorError>)
    requires Bound(config, codec, signers) && Fits(draws, StatesOf(signers)) && |net| == |signers|
    modifies signers
    ensures r.Ok? <==> forall i | 0 <= i < |net| :: net[i].Delivered?
    ensures r.Ok? ==>
      && StatesOf(signers) == CommittedStates(config.group, old(StatesOf(signers)), draws)
      && r.value == Map(codec.encode, CommitmentsOf(config.group, old(StatesOf(signers)), draws))
    ensures r.Err? ==>
      && r.error.CallFailed? && r.error.i < |net| && !net[r.error.i].Delivered?
      && (forall k | 0 <= k < r.error.i :: net[k].Delivered?)
      && var handled := r.error.i + if net[r.error.i].AnswerLost? then 1 else 0;
         StatesOf(signers)
         == CommittedStates(config.group, old(StatesOf(signers)), draws)[..handled] + old(StatesOf(signers))[handled..]
  {
    hide CommitmentFor, Map, Codec.Lawful;
    ghost var before := StatesOf(signers);
    ghost var all := CommitmentsOf(config.group, before, draws);
    var items: seq<string> := [];
    for i := 0 to |signers|
      invariant forall k | 0 <= k < i ::
        net[k].Delivered? && signers[k].State() == CommittedStates(config.group, before, draws)[k]
      invariant forall k | i <= k < |signers| :: signers[k].State() == before[k]
      invariant |items| == i && forall k | 0 <= k < i :: items[k] == codec.encode(all[k])
    {
      if net[i].Lost? {
        return Err(CallFailed(i));
      }
      assert signers[i].State() == before[i];
      var c := signers[i].Commit(draws.cids[i], draws.nonces[i]);
      if net[i].AnswerLost? {
        return Err(CallFailed(i));
      }
      items := items + [codec.encode(c)];
    }
    assert items == Map(codec.encode, all);
    return Ok(items);
  }

  function HandledStates<E(==,!new)>(config: Config<E>, codec: Codec<E>, states: seq<SignerState<E>>, message: string,
                                     items: seq<string>)
    : (r: seq<SignerState<E>>)
    ensures |r| == |states|
  {
    seq(|states|, i requires 0 <= i < |states| => Handled(config, codec, states[i], message, items).0)
  }

  function HandledAnswers<E(==,!new)>(config: Config<E>, codec: Codec<E>, states: seq<SignerState<E>>,
                                      message: string, items: seq<string>)
    : (r: seq<Result<SignatureShare, SignError>>)
    ensures |r| == |states|
  {
    seq(|states|, i requires 0 <= i < |states| => Handled(config, codec, states[i], message, items).1)
  }

  /** collectSignaturesWithCommitments: likewise, and a signer's refusal is a failed call too. */
  method CollectSignatures<E(==,!new)>(config: Config<E>, codec: Codec<E>, signers: seq<Signer<E>>, message: string,
                                       items: seq<string>, net: seq<Delivery>)
    returns (r: Result<seq<string>, CoordinatorError>)
    requires Bound(config, codec, signers) && |net| == |signers|
    modifies signers
    ensures r.Ok? <==> forall i | 0 <= i < |net| ::
      net[i].Delivered? && HandledAnswers(config, codec, old(StatesOf(signers)), message, items)[i].Ok?
    ensures r.Ok? ==>
      && StatesOf(signers) == HandledStates(config, codec, old(StatesOf(signers)), message, items)
      && r.value == Map(codec.encodeShare,
        Values(HandledAnswers(config, codec, old(StatesOf(signers)), message, items)))
    ensures r.Err? ==>
      && r.error.CallFailed? && r.error.i < |net|
      && (net[r.error.i].Delivered?
        ==> HandledAnswers(config, codec, old(StatesOf(signers)), message, items)[r.error.i].Err?)
      && signers[r.error.i].State()
         == (if net[r.error.i].Lost? then old(StatesOf(signers))
             else HandledStates(config, codec, old(StatesOf(signers)), message, items))[r.error.i]
      && (forall k | 0 <= k < r.error.i ::
            net[k].Delivered?
              && signers[k].State() == HandledStates(config, codec, old(StatesOf(signers)), message, items)[k])
      && (forall k | r.error.i < k < |signers| :: signers[k].State() == old(signers[k].State()))
  {
    hide Map, Handled, Codec.Lawful;
    ghost var before := StatesOf(signers);
    ghost var after := HandledStates(config, codec, before, message, items);
    ghost var answers := HandledAnswers(config, codec, before, message, items);
    var shares: seq<string> := [];
    for i := 0 to |signers|
      invariant forall k | 0 <= k < i :: net[k].Delivered? && answers[k].Ok? && signers[k].State() == after[k]
      invariant forall k | i <= k < |signers| :: signers[k].State() == before[k]
      invariant |shares| == i && forall k | 0 <= k < i :: shares[k] == codec.encodeShare(answers[k].value)
    {
      if net[i].Lost? {
        return Err(CallFailed(i));
      }
      assert signers[i].State() == before[i];
      var s := signers[i].Sign(message, items);
      assert s == answers[i];
      if net[i].AnswerLost? || s.Err? {
        return Err(CallFailed(i));
      }
      shares := shares + [codec.encodeShare(s.value)];
    }
    assert shares == Map(codec.encodeShare, Values(answers));
    return Ok(shares);
  }

  /** With readable texts the handler works on the list itself; otherwise it refuses. */
  lemma HandledList<E(!new)>(config: Config<E>, codec: Codec<E>, states: seq<SignerState<E>>, message: string,
                             list: seq<NonceCommitment<E>>)
    requires codec.Lawful()
    ensures codec.Readable(list) ==>
      HandledAnswers(config, codec, states, message, Map(codec.encode, list))
        == SignedAnswers(config, states, message, list)
    ensures !codec.Readable(list) ==>
      forall r <- HandledAnswers(config, codec, states, message, Map(codec.encode, list)) :: r == Err(Malformed)
  {
    hide Signed, Map, DecodeAll, Codec.Lawful;
    ItemsDecode(codec, list);
  }

  lemma VerifiesFor<E(!new)>(config: Config<E>, message: string, list: seq<NonceCommitment<E>>, sig: Signature<E>)
    requires ContextOf(config, message, list).Verifies(sig)
    ensures config.group.mul(sig.z, config.group.base)
            == config.group.add(sig.r,
              config.group.mul(config.hashes.challenge(sig.r, config.key, message), config.key))
  {
    hide SortBySigner;
  }

  lemma TokenText(header: seq<byte>, payload: seq<byte>, signature: seq<byte>, signingInput: string)
    requires signingInput == Base64Url.Encode(header) + "." + Base64Url.Encode(payload)
    ensures
      var token := signingInput + "." + Base64Url.Encode(signature);
      && token == Base64Url.Encode(header) + "." + Base64Url.Encode(payload) + "." + Base64Url.Encode(signature)
      && Token.Parse(token) == Some((header, payload, signature))
  {
    hide Base64Url.Encode, Token.Parse;
    Token.TokenRoundTrip(header, payload, signature);
  }

  /** The round in terms of the texts that are sent around. */
  lemma RoundTexts<E(!new)>(config: Config<E>, codec: Codec<E>, f: seq<Scalar>, states: seq<SignerState<E>>,
                            draws: Draws, message: string)
    requires codec.Lawful() && Dealers(config, f, states) && Fits(draws, states)
    ensures
      var list := CommitmentsOf(config.group, states, draws);
      var items := Map(codec.encode, list);
      var answers := HandledAnswers(config, codec, CommittedStates(config.group, states, draws), message, items);
      && (codec.Readable(list) ==>
            && (forall i | 0 <= i < |answers| :: answers[i].Ok?)
            && DecodeAll(codec.decode, items) == Some(list)
            && DecodeAll(codec.decodeShare, Map(codec.encodeShare, Values(answers))) == Some(Values(answers))
            && Aggregate(config, message, Values(answers), list).Ok?
            && var sig := Aggregate(config, message, Values(answers), list).value;
            config.group.mul(sig.z, config.group.base)
            == config.group.add(sig.r,
              config.group.mul(config.hashes.challenge(sig.r, config.key, message), config.key)))
      && (!codec.Readable(list) ==> forall i | 0 <= i < |answers| :: answers[i].Err?)
  {
    hide Map, Codec.Lawful, Codec.Readable, Dealers, Aggregate, CommittedStates, HandledAnswers, SignedAnswers,
      ContextOf, Context.Verifies, DecodeAll, CommitmentsOf;
    var list := CommitmentsOf(config.group, states, draws);
    var committed := CommittedStates(config.group, states, draws);
    HandledList(config, codec, committed, message, list);
    if codec.Readable(list) {
      RoundVerifies(config, f, states, draws, message);
      var answers := SignedAnswers(config, committed, message, list);
      ItemsDecode(codec, list);
      SharesDecode(codec, Values(answers));
      VerifiesFor(config, message, list, Aggregate(config, message, Values(answers), list).value);
    } else {
      var answers := HandledAnswers(config, codec, committed, message, Map(codec.encode, list));
      forall i | 0 <= i < |answers| ensures answers[i].Err? { assert answers[i] in answers; }
    }
  }

  /** The handler of /threshold-sign, for any message: every signer commits, every signer signs, and the
      shares are aggregated. */
  method ThresholdSign<E(==,!new)>(config: Config<E>, codec: Codec<E>, ghost f: seq<Scalar>, signers: seq<Signer<E>>,
                                   draws: Draws, commits: seq<Delivery>, signs: seq<Delivery>, message: string)
    returns (r: Result<Signature<E>, CoordinatorError>)
    requires Bound(config, codec, signers) && Dealers(config, f, StatesOf(signers)) && Fits(draws, StatesOf(signers))
    requires |commits| == |signs| == |signers|
    modifies signers
    ensures r.Ok? <==>
      && (forall i | 0 <= i < |signers| :: commits[i].Delivered? && signs[i].Delivered?)
      && codec.Readable(CommitmentsOf(config.group, old(StatesOf(signers)), draws))
    ensures r.Ok? ==>
      config.group.mul(r.value.z, config.group.base)
      == config.group.add(r.value.r,
        config.group.mul(config.hashes.challenge(r.value.r, config.key, message), config.key))
    ensures r.Err? ==>
      && r.error.CallFailed? && r.error.i < |signers|
      && (!commits[r.error.i].Delivered? || !signs[r.error.i].Delivered?
          || !codec.Readable(CommitmentsOf(config.group, old(StatesOf(signers)), draws)))
  {
    assert |signers| > 0;
    hide Map, Codec.Lawful, Codec.Readable, Dealers, Aggregate, CommitmentsOf, CommittedStates, HandledStates,
      HandledAnswers, DecodeAll;
    RoundTexts(config, codec, f, StatesOf(signers), draws, message);
    var items := CollectCommitments(config, codec, signers, draws, commits);
    if items.Err? {
      return Err(items.error);
    }
    var shares := CollectSignatures(config, codec, signers, message, items.value, signs);
    if shares.Err? {
      return Err(shares.error);
    }
    var signature := AggregateSignature(config, codec, message, items.value, shares.value);
    if signature.Err? {
      return Err(NotAggregated);
    }
    return Ok(signature.value);
  }

  /** generateThresholdJWT; `signatureText` is the library's text of a signature, as bytes. */
  method GenerateToken<E(==,!new)>(config: Config<E>, codec: Codec<E>, ghost f: seq<Scalar>, signers: seq<Signer<E>>,
                                   draws: Draws, commits: seq<Delivery>, signs: seq<Delivery>, header: seq<byte>,
                                   payload: seq<byte>, signatureText: Signature<E> -> seq<byte>)
    returns (r: Result<string, CoordinatorError>, ghost sig: Option<Signature<E>>)
    requires Bound(config, codec, signers) && Dealers(config, f, StatesOf(signers)) && Fits(draws, StatesOf(signers))
    requires |commits| == |signs| == |signers|
    modifies signers
    ensures r.Ok? <==>
      && (forall i | 0 <= i < |signers| :: commits[i].Delivered? && signs[i].Delivered?)
      && codec.Readable(CommitmentsOf(config.group, old(StatesOf(signers)), draws))
    ensures r.Ok? ==>
      && sig.Some? && r.value == Base64Url.Encode(header) + "." + Base64Url.Encode(payload) + "."
        + Base64Url.Encode(signatureText(sig.value))
      && Token.Parse(r.value) == Some((header, payload, signatureText(sig.value)))
      && config.group.mul(sig.value.z, config.group.base)
         == config.group.add(sig.value.r, config.group.mul(
              config.hashes.challenge(sig.value.r, config.key,
                Base64Url.Encode(header) + "." + Base64Url.Encode(payload)), config.key))
  {
    hide Codec.Readable, Bound, Dealers, Fits, Token.Parse, Base64Url.Encode, CommitmentsOf;
    var signingInput := Base64Url.Encode(header) + "." + Base64Url.Encode(payload);
    var signature := ThresholdSign(config, codec, f, signers, draws, commits, signs, signingInput);
    if signature.Err? {
      return Err(signature.error), None;
    }
    TokenText(header, payload, signatureText(signature.value), signingInput);
    var text := Base64Url.Encode(signatureText(signature.value));
    return Ok(signingInput + "." + text), Some(signature.value);
  }
}
