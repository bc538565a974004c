/** The proxy's signing function (cmd/grpc-proxy/main.go, makeSignFn): a token leaves it only after a
    threshold of signers has signed exactly the header and claims it is returned for. */
module Proxy {
  import opened Wrappers
  import opened Wire
  import opened Frost
  import opened Signers
  import opened Gather
  import Base64Url
  import CommitmentList
  import P1363
  import Token

  datatype ProxyError =
    | TooFew(error: NotEnough)
    | ShareFailed(addr: nat)
    | NotAggregated(reason: AggregateError)
    | EcdsaFailed

  /** What the channel of the /sign calls delivers, given the message, the commitments sent along and the
      addresses asked. */
  type SignCalls = (string, seq<string>, seq<nat>) -> seq<Arrival<string>>

  function AggregateTexts<E(==,!new)>(config: Config<E>, codec: Codec<E>, message: string, items: seq<string>,
                                      shares: seq<string>)
    : Result<Signature<E>, AggregateError>
  {
    match (DecodeAll(codec.decode, items), DecodeAll(codec.decodeShare, shares))
    case (Some(list), Some(sigShares)) => Aggregate(config, message, sigShares, list)
    case _ => Err(MalformedText)
  }

  /** What the function answers: header and signature, or the first step that failed. */
  function Answer<E(==,!new)>(config: Config<E>, codec: Codec<E>, header: string, claims: string,
                              commitments: seq<Arrival<string>>, signCalls: SignCalls,
                              ecdsa: string -> Option<(nat, nat)>): Result<(string, string), ProxyError>
  {
    var signingInput := header + "." + claims;
    match Selected(commitments, config.threshold)
    case Err(e) => Err(TooFew(e))
    case Ok(g) =>
      match Shares(signCalls(signingInput, g.commitments, g.activeSigners))
      case Err(addr) => Err(ShareFailed(addr))
      case Ok(shares) =>
        match AggregateTexts(config, codec, signingInput, g.commitments, shares)
        case Err(e) => Err(NotAggregated(e))
        case Ok(_) =>
          match ecdsa(signingInput)
          case None => Err(EcdsaFailed)
          case Some((r, s)) => Ok((header, Base64Url.Encode(P1363.SignatureBytes(r, s))))
  }

  /** `commitments` is what the channel of the /commit calls delivers; `ecdsa` signs a text with the key
      of the JWT, or fails. */
  method SignToken<E(==,!new)>(config: Config<E>, codec: Codec<E>, headerJson: seq<byte>, claims: string,
                               commitments: seq<Arrival<string>>, signCalls: SignCalls,
                               ecdsa: string -> Option<(nat, nat)>)
    returns (r: Result<(string, string), ProxyError>)
    ensures r == Answer(config, codec, Base64Url.Encode(headerJson), claims, commitments, signCalls, ecdsa)
  {
    var header := Base64Url.Encode(headerJson);
    var signingInput := header + "." + claims;
    var gathered := CollectCommitments(commitments, config.threshold);
    if gathered.Err? {
      return Err(TooFew(gathered.error));
    }
    var answers := signCalls(signingInput, gathered.value.commitments, gathered.value.activeSigners);
    var shares, _ := CollectShares(answers);
    if shares.Err? {
      return Err(ShareFailed(shares.error));
    }
    var sig := AggregateSignature(config, codec, signingInput, gathered.value.commitments, shares.value);
    if sig.Err? {
      return Err(NotAggregated(sig.error));
    }
    var rs := ecdsa(signingInput);
    if rs.None? {
      return Err(EcdsaFailed);
    }
    var signature := P1363.EncodeSignature(rs.value.0, rs.value.1);
    return Ok((header, signature));
  }

  /** `values` are what the texts stand for. */
  ghost predicate Decoded<T>(decode: string -> Option<T>, texts: seq<string>, values: seq<T>) {
    |values| == |texts| && forall k | 0 <= k < |texts| :: decode(texts[k]) == Some(values[k])
  }

  lemma DecodedIs<T>(decode: string -> Option<T>, texts: seq<string>, values: seq<T>)
    requires Decoded(decode, texts, values)
    ensures DecodeAll(decode, texts) == Some(values)
  {
    hide DecodeAll;
    forall t | t in texts ensures decode(t).Some? {
      var k :| 0 <= k < |texts| && texts[k] == t;
    }
    assert DecodeAll(decode, texts).value == values;
  }

  /** Exactly what is answered, the first step that fails deciding: too few commitments, with the number
      of those that came, ... */
  lemma AnswerTooFew<E(!new)>(config: Config<E>, codec: Codec<E>, header: string, claims: string,
                              commitments: seq<Arrival<string>>, signCalls: SignCalls,
                              ecdsa: string -> Option<(nat, nat)>, got: nat)
    ensures Answer(config, codec, header, claims, commitments, signCalls, ecdsa)
            == Err(TooFew(NotEnough(got, config.threshold)))
            <==> got == |Answering(commitments)| < config.threshold
  {
    hide Selected, Answering, Shares, AggregateTexts;
    SelectedCount(commitments, config.threshold);
  }

  /** ... the first /sign call that failed, ... */
  lemma AnswerShareFailed<E(!new)>(config: Config<E>, codec: Codec<E>, header: string, claims: string,
                                   commitments: seq<Arrival<string>>, signCalls: SignCalls,
                                   ecdsa: string -> Option<(nat, nat)>, k: nat)
    requires |Answering(commitments)| >= config.threshold
    ensures Selected(commitments, config.threshold).Ok?
    ensures
      var g := Selected(commitments, config.threshold).value;
      var answers := signCalls(header + "." + claims, g.commitments, g.activeSigners);
      k < |answers| && answers[k].answer.None? && (forall a <- answers[..k] :: a.answer.Some?) ==>
        Answer(config, codec, header, claims, commitments, signCalls, ecdsa) == Err(ShareFailed(answers[k].addr))
  {
    hide Selected, Answering, Shares, AggregateTexts;
    SelectedCount(commitments, config.threshold);
    var g := Selected(commitments, config.threshold).value;
    var answers := signCalls(header + "." + claims, g.commitments, g.activeSigners);
    if k < |answers| && answers[k].answer.None? && (forall a <- answers[..k] :: a.answer.Some?) {
      SharesFirstFailure(answers, k);
    }
  }

  /** ... a text that cannot be read, ... */
  lemma AnswerMalformed<E(!new)>(config: Config<E>, codec: Codec<E>, header: string, claims: string,
                                 commitments: seq<Arrival<string>>, signCalls: SignCalls,
                                 ecdsa: string -> Option<(nat, nat)>)
    requires |Answering(commitments)| >= config.threshold
    ensures Selected(commitments, config.threshold).Ok?
    ensures
      var g := Selected(commitments, config.threshold).value;
      var answers := signCalls(header + "." + claims, g.commitments, g.activeSigners);
      && (forall a <- answers :: a.answer.Some?)
      && ((exists t <- g.commitments :: codec.decode(t).None?)
          || exists a <- answers :: codec.decodeShare(a.answer.value).None?) ==>
        Answer(config, codec, header, claims, commitments, signCalls, ecdsa) == Err(NotAggregated(MalformedText))
  {
    hide Selected, Answering, Shares, DecodeAll;
    SelectedCount(commitments, config.threshold);
    var g := Selected(commitments, config.threshold).value;
    var answers := signCalls(header + "." + claims, g.commitments, g.activeSigners);
    SharesOkIff(answers);
    if forall a <- answers :: a.answer.Some? {
      var texts := Answers(answers);
      forall a | a in answers && codec.decodeShare(a.answer.value).None?
        ensures exists t <- texts :: codec.decodeShare(t).None?
      {
        var k :| 0 <= k < |answers| && answers[k] == a;
        assert texts[k] in texts;
      }
    }
  }

  /** ... shares that do not aggregate, an ECDSA key that does not sign, and otherwise the header and
      the padded ECDSA signature of header "." claims. */
  lemma AnswerAggregated<E(!new)>(config: Config<E>, codec: Codec<E>, header: string, claims: string,
                                  commitments: seq<Arrival<string>>, signCalls: SignCalls,
                                  ecdsa: string -> Option<(nat, nat)>, list: seq<NonceCommitment<E>>,
                                  shares: seq<SignatureShare>)
    requires |Answering(commitments)| >= config.threshold
    ensures Selected(commitments, config.threshold).Ok?
    ensures
      var g := Selected(commitments, config.threshold).value;
      var text := header + "." + claims;
      var answers := signCalls(text, g.commitments, g.activeSigners);
      (forall a <- answers :: a.answer.Some?)
      && Decoded(codec.decode, g.commitments, list) && Decoded(codec.decodeShare, Answers(answers), shares) ==>
        Answer(config, codec, header, claims, commitments, signCalls, ecdsa)
        == (match Aggregate(config, text, shares, list)
            case Err(e) => Err(NotAggregated(e))
            case Ok(_) =>
              if ecdsa(text).None? then Err(EcdsaFailed)
              else Ok((header, Base64Url.Encode(P1363.Padded(P1363.MinimalBytes(ecdsa(text).value.0), 32)
                + P1363.Padded(P1363.MinimalBytes(ecdsa(text).value.1), 32)))))
  {
    hide Selected, Answering, Shares, DecodeAll, Aggregate, Decoded;
    SelectedCount(commitments, config.threshold);
    var g := Selected(commitments, config.threshold).value;
    var answers := signCalls(header + "." + claims, g.commitments, g.activeSigners);
    SharesOkIff(answers);
    if (forall a <- answers :: a.answer.Some?)
      && Decoded(codec.decode, g.commitments, list) && Decoded(codec.decodeShare, Answers(answers), shares) {
      DecodedIs(codec.decode, g.commitments, list);
      DecodedIs(codec.decodeShare, Answers(answers), shares);
    }
  }

  /** Whatever arrives on the channels and whatever the claims are: a returned header and signature are
      for the text header "." claims, which both a threshold of signers and the ECDSA key have signed.
      The message the signers were asked to sign is that text, and `list` and `shares` are what the
      commitments sent to them and their answers decode to. */
  lemma AnswerBacked<E(!new)>(config: Config<E>, codec: Codec<E>, header: string, claims: string,
                              commitments: seq<Arrival<string>>, signCalls: SignCalls,
                              ecdsa: string -> Option<(nat, nat)>)
    requires Answer(config, codec, header, claims, commitments, signCalls, ecdsa).Ok?
    ensures Selected(commitments, config.threshold).Ok?
    ensures
      var g := Selected(commitments, config.threshold).value;
      var answers := signCalls(header + "." + claims, g.commitments, g.activeSigners);
      && DecodeAll(codec.decode, g.commitments).Some?
      && Shares(answers).Ok? && DecodeAll(codec.decodeShare, Shares(answers).value).Some?
      && var list, shares := DecodeAll(codec.decode, g.commitments).value,
        DecodeAll(codec.decodeShare, Shares(answers).value).value;
      && |list| >= config.threshold
      && Aggregate(config, header + "." + claims, shares, list).Ok?
      && var text := header + "." + claims;
      ContextOf(config, text, list).Verifies(Aggregate(config, text, shares, list).value)
    ensures
      var (returned, signature) := Answer(config, codec, header, claims, commitments, signCalls, ecdsa).value;
      && returned == header && ecdsa(header + "." + claims).Some?
      && var (r, s) := ecdsa(header + "." + claims).value;
      && (r < Pow256(P1363.CURVE_SIZE) && s < Pow256(P1363.CURVE_SIZE) ==>
            && |signature| == 86 && Base64Url.Decode(signature).Some?
            && P1363.ParseSignature(Base64Url.Decode(signature).value) == Some((r, s)))
  {
    hide Base64Url.Encode, Base64Url.Decode, P1363.SignatureBytes, P1363.ParseSignature, Pow256, Selected, Shares,
      Aggregate, Context.Verifies, ContextOf, DecodeAll;
    var text := header + "." + claims;
    var (r, s) := ecdsa(text).value;
    if r < Pow256(P1363.CURVE_SIZE) && s < Pow256(P1363.CURVE_SIZE) {
      P1363.SignatureRoundTrip(r, s);
      P1363.SignatureText(r, s);
    }
    var g := Selected(commitments, config.threshold).value;
    var answers := signCalls(text, g.commitments, g.activeSigners);
    AggregatedEnough(config, text, DecodeAll(codec.decodeShare, Shares(answers).value).value,
      DecodeAll(codec.decode, g.commitments).value);
  }

  /** For claims that encode a payload, the token made of the returned parts parses back to the header,
      the payload and the ECDSA signature of its own first two parts. */
  lemma TokenBacked<E(!new)>(config: Config<E>, codec: Codec<E>, headerJson: seq<byte>, payload: seq<byte>,
                             commitments: seq<Arrival<string>>, signCalls: SignCalls,
                             ecdsa: string -> Option<(nat, nat)>)
    requires forall t :: ecdsa(t).Some? ==>
      ecdsa(t).value.0 < Pow256(P1363.CURVE_SIZE) && ecdsa(t).value.1 < Pow256(P1363.CURVE_SIZE)
    requires Answer(config, codec, Base64Url.Encode(headerJson), Base64Url.Encode(payload), commitments, signCalls,
      ecdsa).Ok?
    ensures
      var (header, signature) := Answer(config, codec, Base64Url.Encode(headerJson), Base64Url.Encode(payload),
        commitments, signCalls, ecdsa).value;
      var text := header + "." + Base64Url.Encode(payload);
      && text == Token.SigningInput(headerJson, payload)
      && Token.Parse(text + "." + signature).Some?
      && Token.Parse(text + "." + signature).value.0 == headerJson
      && Token.Parse(text + "." + signature).value.1 == payload
      && P1363.ParseSignature(Token.Parse(text + "." + signature).value.2) == ecdsa(text)
  {
    hide Base64Url.Encode, P1363.SignatureBytes, P1363.ParseSignature, Pow256, Selected, Shares, FirstBadShare,
      Context.Verifies, Token.Parse, Token.SplitDots, ContextOf, DecodeAll;
    var (r, s) := ecdsa(Token.SigningInput(headerJson, payload)).value;
    P1363.SignatureRoundTrip(r, s);
    Token.TokenRoundTrip(headerJson, payload, P1363.SignatureBytes(r, s));
  }

  lemma AggregatedEnough<E(!new)>(config: Config<E>, message: string, shares: seq<SignatureShare>,
                                  list: seq<NonceCommitment<E>>)
    requires Aggregate(config, message, shares, list).Ok?
    ensures |list| >= config.threshold
    ensures ContextOf(config, message, list).Verifies(Aggregate(config, message, shares, list).value)
  {
    hide FirstBadShare, Context.Verifies;
    CommitmentList.SortSorts(list);
    CommitmentList.SameLength(list, CommitmentList.SortBySigner(list));
  }
}
