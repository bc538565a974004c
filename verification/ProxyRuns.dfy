/** The proxy's signing function as a session of the signing system: when it returns a token. */
module ProxyRuns {
  import opened Wrappers
  import opened Zq
  import opened Sums
  import opened Group
  import opened Frost
  import opened Signers
  import opened Gather
  import opened HonestSigning
  import opened SigningSystem
  import opened SigningRuns
  import opened Proxy

  /** The results of a collection as texts. */
  function Texts<T>(encode: T -> string, arrivals: seq<Arrival<T>>): (r: seq<Arrival<string>>)
    ensures |r| == |arrivals|
  {
    seq(|arrivals|, k requires 0 <= k < |arrivals| => Text(encode, arrivals[k]))
  }

  function Text<T>(encode: T -> string, a: Arrival<T>): Arrival<string> {
    Arrival(a.addr, match a.answer case Some(v) => Some(encode(v)) case None => None)
  }

  lemma {:induction false} SuccessesTexts<T>(encode: T -> string, arrivals: seq<Arrival<T>>)
    ensures Successes(Texts(encode, arrivals)) == Texts(encode, Successes(arrivals))
  {
    if arrivals != [] {
      var n := |arrivals| - 1;
      SuccessesTexts(encode, arrivals[..n]);
      assert Texts(encode, arrivals)[..n] == Texts(encode, arrivals[..n]);
    }
  }

  lemma SelectedTexts<T>(encode: T -> string, arrivals: seq<Arrival<T>>, threshold: nat)
    ensures Selected(Texts(encode, arrivals), threshold)
            == match Selected(arrivals, threshold)
               case Ok(g) => Ok(Gathered(Map(encode, g.commitments), g.activeSigners))
               case Err(e) => Err(e)
  {
    hide Successes, Map;
    SuccessesTexts(encode, arrivals);
    var ok := Successes(arrivals);
    if |ok| >= threshold {
      assert Answers(Texts(encode, ok)[..threshold]) == Map(encode, Answers(ok[..threshold]));
      assert Addresses(Texts(encode, ok)[..threshold]) == Addresses(ok[..threshold]);
    }
  }

  lemma {:induction false} SharesTexts<T>(encode: T -> string, arrivals: seq<Arrival<T>>)
    ensures Shares(Texts(encode, arrivals))
            == match Shares(arrivals) case Ok(shares) => Ok(Map(encode, shares)) case Err(addr) => Err(addr)
  {
    if arrivals != [] {
      var n := |arrivals| - 1;
      SharesTexts(encode, arrivals[..n]);
      assert Texts(encode, arrivals)[..n] == Texts(encode, arrivals[..n]);
      if Shares(arrivals[..n]).Ok? && arrivals[n].answer.Some? {
        MapSnoc(encode, Shares(arrivals[..n]).value, arrivals[n].answer.value);
      }
    }
  }

  /** Why a session is over: exactly when it has a signature, and what it reports otherwise.  The senders
      of the shares are then the active signers, each once. */
  lemma OutcomeIff<E(!new)>(config: Config<E>, f: seq<Scalar>, worlds: seq<World<E>>, events: seq<Event<E>>, i: nat,
                            p: nat)
    requires Sound(config) && Behaviour(config, f, worlds, events) && i < |worlds|
    requires p < |worlds[i].sessions| && !worlds[i].sessions[p].outcome.Pending?
    ensures
      var s := worlds[i].sessions[p];
      && (s.outcome.Aggregated?
          <==> |Successes(s.arrivals)| >= config.threshold && forall a <- s.answers :: a.answer.Some?)
      && (s.outcome.TooFewSigners? ==> s.outcome.error == NotEnough(|Successes(s.arrivals)|, config.threshold))
      && (s.outcome.ShareMissing? ==> Arrival(s.outcome.addr, None) in s.answers)
      && (s.outcome.Aggregated? ==>
            && s.chosen.Some? && |s.answers| == |s.chosen.value.activeSigners|
            && (forall a <- s.answers :: a.addr in s.chosen.value.activeSigners)
            && DistinctAddresses(s.answers))
  {
    hide BooksInv, Behaviour, Next, Dealt, Group.Lawful, Aggregate, Context.Verifies, ContextOf, Answered, Issued;
    RunGood(config, f, worlds, events, i);
    var s := worlds[i].sessions[p];
    assert SessionInv(config, worlds[i].signers, s);
    SharesOkIff(s.answers);
    SharesErrorIn(s.answers);
  }

  lemma {:induction false} SharesErrorIn<T>(arrivals: seq<Arrival<T>>)
    ensures Shares(arrivals).Err? ==> Arrival(Shares(arrivals).error, None) in arrivals
  {
    if arrivals != [] { SharesErrorIn(arrivals[..|arrivals| - 1]); }
  }

  /** In every run, for a session that is over: given what it received, as texts, the signing function
      returns a header and a signature exactly when enough signers committed and all of the chosen ones
      signed, the texts of their commitments can be read, and the ECDSA key signs. */
  lemma TokenIff<E(!new)>(config: Config<E>, codec: Codec<E>, f: seq<Scalar>, worlds: seq<World<E>>,
                          events: seq<Event<E>>, i: nat, p: nat, header: string, claims: string, signCalls: SignCalls,
                          ecdsa: string -> Option<(nat, nat)>)
    requires Sound(config) && Behaviour(config, f, worlds, events) && i < |worlds| && codec.Lawful()
    requires p < |worlds[i].sessions| && !worlds[i].sessions[p].outcome.Pending?
    requires worlds[i].sessions[p].message == header + "." + claims
    requires worlds[i].sessions[p].chosen.Some? ==>
      var g := worlds[i].sessions[p].chosen.value;
      signCalls(header + "." + claims, Map(codec.encode, g.commitments), g.activeSigners)
      == Texts(codec.encodeShare, worlds[i].sessions[p].answers)
    ensures
      var s := worlds[i].sessions[p];
      var r := Answer(config, codec, header, claims, Texts(codec.encode, s.arrivals), signCalls, ecdsa);
      r.Ok? <==>
        && |Successes(s.arrivals)| >= config.threshold && (forall a <- s.answers :: a.answer.Some?)
        && s.chosen.Some? && codec.Readable(s.chosen.value.commitments)
        && ecdsa(header + "." + claims).Some?
  {
    hide BooksInv, AnswerInv, Behaviour, Next, Dealt, Group.Lawful, Aggregate, Context.Verifies, ContextOf, Issued,
      Selected, Shares, DecodeAll, Codec.Lawful, Codec.Readable, Successes, Map, Texts;
    var s := worlds[i].sessions[p];
    OutcomeIff(config, f, worlds, events, i, p);
    RunGood(config, f, worlds, events, i);
    assert SessionInv(config, worlds[i].signers, s);
    SelectedTexts(codec.encode, s.arrivals, config.threshold);
    if s.chosen.Some? {
      SharesTexts(codec.encodeShare, s.answers);
      ItemsDecode(codec, s.chosen.value.commitments);
      if s.outcome.Aggregated? {
        SharesDecode(codec, Shares(s.answers).value);
      }
    }
  }
}
