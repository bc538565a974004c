/** A signer's /commit and /sign handlers (cmd/signer/main.go) and the aggregation of the shares
    (cmd/grpc-proxy/main.go, cmd/coordinator/main.go). */
module Signers {
  import opened Wrappers
  import opened Zq
  import opened Sums
  import opened Wire
  import opened Group
  import opened Frost
  import opened CommitmentList

  datatype Config<!E(!new)> = Config(
    group: Group<E>,
    hashes: Hashes<E>,
    threshold: nat,
    maxSigners: nat,
    key: E,
    publicShares: map<uint16, E>)

  /** The library's texts of commitments and signature shares.  Decoding inverts encoding, except that
      the text of a commitment may be rejected (as when an element in it is the identity). */
  datatype Codec<!E(!new)> = Codec(
    encode: NonceCommitment<E> -> string,
    decode: string -> Option<NonceCommitment<E>>,
    encodeShare: SignatureShare -> string,
    decodeShare: string -> Option<SignatureShare>)
  {
    ghost predicate Lawful() {
      && (forall c :: decode(encode(c)).Some? ==> decode(encode(c)).value == c)
      && (forall s :: decodeShare(encodeShare(s)) == Some(s))
    }

    ghost predicate Readable(list: seq<NonceCommitment<E>>) {
      forall c <- list :: decode(encode(c)) == Some(c)
    }
  }

  datatype SignError = Malformed | InvalidList | NotListed | UnknownCommitment

  /** A signer: its key share, the nonces waiting to be used, the commitments it has handed out
      (froststate.Commitments), and, as history only, the nonces that were used. */
  datatype SignerState<E> = SignerState(
    id: uint16,
    secret: Scalar,
    outstanding: map<nat, Nonce>,
    spent: map<nat, Nonce>,
    issued: map<nat, NonceCommitment<E>>)

  function ContextOf<E(==,!new)>(config: Config<E>, message: string, list: seq<NonceCommitment<E>>): Context<E> {
    Context(config.group, config.hashes, config.key, message, SortBySigner(list))
  }

  // ----- committing

  function CommitmentFor<E(!new)>(group: Group<E>, id: uint16, cid: nat, nonce: Nonce): NonceCommitment<E> {
    NonceCommitment(id, cid, group.mul(nonce.hiding, group.base), group.mul(nonce.binding, group.base))
  }

  function Committed<E(!new)>(group: Group<E>, st: SignerState<E>, cid: nat, nonce: Nonce): SignerState<E> {
    st.(outstanding := st.outstanding[cid := nonce],
        issued := st.issued[cid := CommitmentFor(group, st.id, cid, nonce)])
  }

  // ----- signing

  /** The list's entry of the signer `id`. */
  function EntryOf<E>(list: seq<NonceCommitment<E>>, id: uint16): (r: Option<NonceCommitment<E>>)
    ensures r.Some? ==> r.value in list && r.value.signerId == id
    ensures r.None? ==> forall c <- list :: c.signerId != id
  {
    if list == [] then None else if list[0].signerId == id then Some(list[0]) else EntryOf(list[1..], id)
  }

  predicate ValidList<E(!new)>(config: Config<E>, list: seq<NonceCommitment<E>>) {
    config.threshold <= |list| <= config.maxSigners && DistinctSigners(list)
  }

  /** Why a signer does not sign with this list: section 5.2 has it look for its own commitment. */
  function Refusal<E(==,!new)>(config: Config<E>, st: SignerState<E>,
                               list: seq<NonceCommitment<E>>): Option<SignError> {
    if !ValidList(config, list) then Some(InvalidList)
    else if EntryOf(list, st.id).None? then Some(NotListed)
    else
      var c := EntryOf(list, st.id).value;
      if c.commitmentId !in st.outstanding || c.commitmentId !in st.issued || st.issued[c.commitmentId] != c
      then Some(UnknownCommitment)
      else None
  }

  /** The new state and the answer: a share, for which the nonce is given up, or an error, for which
      nothing changes. */
  function Signed<E(==,!new)>(config: Config<E>, st: SignerState<E>, message: string, list: seq<NonceCommitment<E>>)
    : (SignerState<E>, Result<SignatureShare, SignError>)
  {
    var ctx := ContextOf(config, message, list);
    match Refusal(config, st, ctx.list)
    case Some(e) => (st, Err(e))
    case None =>
      var cid := EntryOf(ctx.list, st.id).value.commitmentId;
      if cid in st.outstanding then
        var nonce := st.outstanding[cid];
        (st.(outstanding := st.outstanding - {cid}, spent := st.spent[cid := nonce]),
         Ok(SignatureShare(st.id, ctx.Share(st.id, nonce, st.secret))))
      else (st, Err(UnknownCommitment))
  }

  /** All texts decoded in order, unless one is malformed. */
  function DecodeAll<T>(decode: string -> Option<T>, items: seq<string>): (r: Option<seq<T>>)
    ensures r.Some? <==> forall t <- items :: decode(t).Some?
    ensures r.Some? ==> |r.value| == |items| && forall k | 0 <= k < |items| :: decode(items[k]) == Some(r.value[k])
  {
    if items == [] then Some([])
    else
      var n := |items| - 1;
      match DecodeAll(decode, items[..n])
      case None => None
      case Some(rest) => if decode(items[n]).None? then None else Some(rest + [decode(items[n]).value])
  }

  lemma DecodeAllEncoded<T>(encode: T -> string, decode: string -> Option<T>, values: seq<T>)
    requires forall v <- values :: decode(encode(v)) == Some(v)
    ensures DecodeAll(decode, Map(encode, values)) == Some(values)
  {
    hide DecodeAll, Map;
    var items := Map(encode, values);
    forall k | 0 <= k < |values| ensures decode(items[k]) == Some(values[k]) {
      assert values[k] in values;
    }
    forall t | t in items ensures decode(t).Some? {
      var k :| 0 <= k < |items| && items[k] == t;
    }
    assert DecodeAll(decode, items).value == values;
  }

  lemma ItemsDecode<E(!new)>(codec: Codec<E>, list: seq<NonceCommitment<E>>)
    requires codec.Lawful()
    ensures DecodeAll(codec.decode, Map(codec.encode, list)) == if codec.Readable(list) then Some(list) else None
  {
    hide DecodeAll;
    if codec.Readable(list) {
      DecodeAllEncoded(codec.encode, codec.decode, list);
    } else {
      var c :| c in list && codec.decode(codec.encode(c)) != Some(c);
      var i :| 0 <= i < |list| && list[i] == c;
      assert codec.decode(Map(codec.encode, list)[i]).None?;
    }
  }

  lemma SharesDecode<E(!new)>(codec: Codec<E>, shares: seq<SignatureShare>)
    requires codec.Lawful()
    ensures DecodeAll(codec.decodeShare, Map(codec.encodeShare, shares)) == Some(shares)
  {
    DecodeAllEncoded(codec.encodeShare, codec.decodeShare, shares);
  }

  method DecodeList<T>(decode: string -> Option<T>, items: seq<string>) returns (r: Option<seq<T>>)
    ensures r == DecodeAll(decode, items)
  {
    var list: seq<T> := [];
    for i := 0 to |items|
      invariant DecodeAll(decode, items[..i]) == Some(list)
    {
      assert items[..i + 1][..i] == items[..i];
      var c := decode(items[i]);
      if c.None? {
        assert items[i] in items;
        return None;
      }
      list := list + [c.value];
    }
    assert items[..|items|] == items;
    return Some(list);
  }

  /** Signing on the texts of a request; a malformed one changes nothing. */
  function Handled<E(==,!new)>(config: Config<E>, codec: Codec<E>, st: SignerState<E>, message: string,
                               items: seq<string>)
    : (SignerState<E>, Result<SignatureShare, SignError>)
  {
    match DecodeAll(codec.decode, items)
    case None => (st, Err(Malformed))
    case Some(list) => Signed(config, st, message, list)
  }

  class Signer<E(==,!new)> {
    const config: Config<E>
    const codec: Codec<E>
    const id: uint16
    const secret: Scalar
    var nonces: map<nat, Nonce>
    var commitments: map<nat, NonceCommitment<E>>
    ghost var spent: map<nat, Nonce>

    ghost function State(): SignerState<E>
      reads this
    {
      SignerState(id, secret, nonces, spent, commitments)
    }

    constructor (config: Config<E>, codec: Codec<E>, id: uint16, secret: Scalar)
      ensures this.config == config && this.codec == codec
      ensures State() == SignerState(id, secret, map[], map[], map[])
    {
      this.config, this.codec, this.id, this.secret := config, codec, id, secret;
      this.nonces, this.commitments, this.spent := map[], map[], map[];
    }

    /** The /commit handler.  The library draws the nonces and an identifier that was never used. */
    method Commit(cid: nat, nonce: Nonce) returns (c: NonceCommitment<E>)
      requires cid !in commitments
      modifies this
      ensures State() == Committed(config.group, old(State()), cid, nonce)
      ensures c == CommitmentFor(config.group, id, cid, nonce)
      ensures c == NonceCommitment(id, cid, config.group.mul(nonce.hiding, config.group.base),
        config.group.mul(nonce.binding, config.group.base))
      ensures nonces == old(nonces)[cid := nonce] && commitments == old(commitments)[cid := c] && spent == old(spent)
    {
      c := CommitmentFor(config.group, id, cid, nonce);
      nonces := nonces[cid := nonce];
      commitments := commitments[c.commitmentId := c];
    }

    /** The /sign handler on the texts of a request. */
    method Sign(message: string, items: seq<string>) returns (r: Result<SignatureShare, SignError>)
      modifies this
      ensures (State(), r) == Handled(config, codec, old(State()), message, items)
    {
      var decoded := DecodeList(codec.decode, items);
      if decoded.None? {
        return Err(Malformed);
      }
      var ctx := ContextOf(config, message, decoded.value);
      if !ValidList(config, ctx.list) {
        return Err(InvalidList);
      }
      var own := EntryOf(ctx.list, id);
      if own.None? {
        return Err(NotListed);
      }
      var cid := own.value.commitmentId;
      if cid !in nonces || cid !in commitments || commitments[cid] != own.value {
        return Err(UnknownCommitment);
      }
      r := Ok(SignatureShare(id, ctx.Share(id, nonces[cid], secret)));
      spent := spent[cid := nonces[cid]];
      nonces := nonces - {cid};
    }
  }

  // ----- what every step keeps

  /** The commitments handed out are those to the outstanding and the used nonces, each in one place. */
  ghost predicate SignerInv<E(!new)>(group: Group<E>, st: SignerState<E>) {
    && st.outstanding.Keys !! st.spent.Keys
    && st.issued.Keys == st.outstanding.Keys + st.spent.Keys
    && (forall cid <- st.outstanding :: st.issued[cid] == CommitmentFor(group, st.id, cid, st.outstanding[cid]))
    && (forall cid <- st.spent :: st.issued[cid] == CommitmentFor(group, st.id, cid, st.spent[cid]))
  }

  /** Nothing handed out is forgotten, and a used nonce stays used. */
  ghost predicate Extends<E>(st: SignerState<E>, later: SignerState<E>) {
    && later.id == st.id && later.secret == st.secret
    && (forall cid <- st.issued :: cid in later.issued && later.issued[cid] == st.issued[cid])
    && (forall cid <- st.spent :: cid in later.spent && later.spent[cid] == st.spent[cid])
  }

  lemma CommitKeeps<E(!new)>(group: Group<E>, st: SignerState<E>, cid: nat, nonce: Nonce)
    requires SignerInv(group, st) && cid !in st.issued
    ensures SignerInv(group, Committed(group, st, cid, nonce)) && Extends(st, Committed(group, st, cid, nonce))
  {
    hide CommitmentFor;
    var later := Committed(group, st, cid, nonce);
    assert later.issued.Keys == st.issued.Keys + {cid};
    assert later.outstanding.Keys == st.outstanding.Keys + {cid};
    assert cid !in st.spent.Keys;
  }

  /** Whatever message and list a client sends: signing keeps the books, and a share costs one
      outstanding nonce, whose commitment is in the list and which no later request can use. */
  lemma SignKeeps<E(!new)>(config: Config<E>, st: SignerState<E>, message: string, list: seq<NonceCommitment<E>>)
    requires SignerInv(config.group, st)
    ensures
      var (later, r) := Signed(config, st, message, list);
      && SignerInv(config.group, later) && Extends(st, later) && later.issued == st.issued
      && (r.Err? ==> later == st)
      && (r.Ok? ==>
            && EntryOf(SortBySigner(list), st.id).Some?
            && var cid := EntryOf(SortBySigner(list), st.id).value.commitmentId;
            && cid in st.outstanding && cid !in later.outstanding && cid !in st.spent
            && later.spent == st.spent[cid := st.outstanding[cid]]
            && EntryOf(SortBySigner(list), st.id).value == st.issued[cid]
            && r.value == SignatureShare(st.id,
              ContextOf(config, message, list).Share(st.id, st.outstanding[cid], st.secret)))
  {
    hide SortBySigner, ValidList, CommitmentFor, EntryOf, Context.Share, Context.Rho, Context.Factor;
    var later := Signed(config, st, message, list).0;
    if Signed(config, st, message, list).1.Ok? {
      var cid := EntryOf(SortBySigner(list), st.id).value.commitmentId;
      assert later.spent.Keys == st.spent.Keys + {cid};
      assert later.outstanding.Keys == st.outstanding.Keys - {cid};
    }
  }

  // ----- aggregation

  datatype AggregateError =
    | MalformedText
    | BadCommitments
    | UnknownSigner(id: uint16)
    | BadShare(id: uint16)
    | BadSignature

  /** The first share that does not verify against its signer's commitment and public key share. */
  function FirstBadShare<E(==,!new)>(config: Config<E>, ctx: Context<E>,
                                     shares: seq<SignatureShare>): Option<AggregateError> {
    if shares == [] then None
    else
      var s := shares[0];
      var entry := EntryOf(ctx.list, s.signerId);
      if entry.None? || s.signerId !in config.publicShares then Some(UnknownSigner(s.signerId))
      else if !ctx.ShareVerifies(entry.value, config.publicShares[s.signerId], s.share) then Some(BadShare(s.signerId))
      else FirstBadShare(config, ctx, shares[1..])
  }

  function ShareValues(shares: seq<SignatureShare>): (r: seq<Scalar>)
    ensures |r| == |shares|
  {
    seq(|shares|, k requires 0 <= k < |shares| => shares[k].share)
  }

  /** AggregateSignatures with verification switched on, as every caller has it. */
  function Aggregate<E(==,!new)>(config: Config<E>, message: string, shares: seq<SignatureShare>,
                                 list: seq<NonceCommitment<E>>)
    : Result<Signature<E>, AggregateError>
  {
    var ctx := ContextOf(config, message, list);
    var sig := ctx.Aggregated(ShareValues(shares));
    if !ValidList(config, ctx.list) then Err(BadCommitments)
    else if FirstBadShare(config, ctx, shares).Some? then Err(FirstBadShare(config, ctx, shares).value)
    else if !ctx.Verifies(sig) then Err(BadSignature)
    else Ok(sig)
  }

  method AggregateSignature<E(==,!new)>(config: Config<E>, codec: Codec<E>, message: string, items: seq<string>,
                                        shares: seq<string>)
    returns (r: Result<Signature<E>, AggregateError>)
    ensures DecodeAll(codec.decode, items).None? || DecodeAll(codec.decodeShare, shares).None?
      ==> r == Err(MalformedText)
    ensures DecodeAll(codec.decode, items).Some? && DecodeAll(codec.decodeShare, shares).Some? ==>
      r == Aggregate(config, message, DecodeAll(codec.decodeShare, shares).value, DecodeAll(codec.decode, items).value)
  {
    var list := DecodeList(codec.decode, items);
    if list.None? {
      return Err(MalformedText);
    }
    var sigShares := DecodeList(codec.decodeShare, shares);
    if sigShares.None? {
      return Err(MalformedText);
    }
    return Aggregate(config, message, sigShares.value, list.value);
  }
}
