/** Any number of proxies running signing sessions against the same signers, their requests handled
    in any order, some of them failing, with other clients calling the handlers as they like. */
module SigningSystem {
  import opened Wrappers
  import opened Wire
  import opened Frost
  import opened CommitmentList
  import opened Signers
  import opened Gather
  import opened HonestSigning

  datatype Outcome<E> =
    | Pending
    | TooFewSigners(error: NotEnough)
    | ShareMissing(addr: nat)
    | Aggregated(result: Result<Signature<E>, AggregateError>)

  /** One call of the proxy's signing function.  `sent` are the results of its /commit calls in the order
      in which the signers handled them, `arrivals` those its collector has received, in the order
      received; `answered` and `answers` likewise for /sign.  A signer's address is its identifier. */
  datatype Session<E> = Session(
    message: string,
    sent: seq<Arrival<NonceCommitment<E>>>,
    arrivals: seq<Arrival<NonceCommitment<E>>>,
    chosen: Option<Gathered<NonceCommitment<E>>>,
    answered: seq<Arrival<SignatureShare>>,
    answers: seq<Arrival<SignatureShare>>,
    outcome: Outcome<E>)

  /** `uses` is history: which signer used which commitment, in the order of signing. */
  datatype World<E> = World(
    signers: map<uint16, SignerState<E>>,
    sessions: seq<Session<E>>,
    uses: seq<(uint16, nat)>)

  datatype Event<E> =
    | Open(message: string)
    | Commit(p: nat, id: uint16, cid: nat, nonce: Nonce, delivered: bool)
    | CommitFails(p: nat, id: uint16)
    | Receive(p: nat, k: nat)
    | Choose(p: nat)
    | Sign(p: nat, id: uint16, delivered: bool)
    | SignFails(p: nat, id: uint16)
    | ReceiveShare(p: nat, k: nat)
    | Finish(p: nat)
    | OtherCommit(id: uint16, cid: nat, nonce: Nonce)
    | OtherSign(id: uint16, message: string, list: seq<NonceCommitment<E>>)

  predicate Heard<T>(arrivals: seq<Arrival<T>>, id: nat) {
    exists k | 0 <= k < |arrivals| :: arrivals[k].addr == id
  }

  /** The session's request for a commitment is on its way to signer `id`. */
  predicate AwaitsCommitment<E>(w: World<E>, p: nat, id: uint16) {
    && p < |w.sessions| && id in w.signers
    && w.sessions[p].chosen.None? && w.sessions[p].outcome.Pending?
    && !Heard(w.sessions[p].sent, id)
  }

  /** A request for a share is on its way to signer `id`; the collector may have returned already. */
  predicate AwaitsShare<E>(w: World<E>, p: nat, id: uint16) {
    && p < |w.sessions| && id in w.signers
    && w.sessions[p].chosen.Some? && id in w.sessions[p].chosen.value.activeSigners
    && !Heard(w.sessions[p].answered, id)
  }

  predicate Enabled<E>(w: World<E>, e: Event<E>) {
    match e
    case Open(_) => true
    case Commit(p, id, cid, _, _) => AwaitsCommitment(w, p, id) && cid !in w.signers[id].issued
    case CommitFails(p, id) => AwaitsCommitment(w, p, id)
    case Receive(p, k) =>
      && p < |w.sessions| && w.sessions[p].chosen.None? && w.sessions[p].outcome.Pending?
      && k < |w.sessions[p].sent| && !Heard(w.sessions[p].arrivals, w.sessions[p].sent[k].addr)
    case Choose(p) =>
      && p < |w.sessions| && w.sessions[p].chosen.None? && w.sessions[p].outcome.Pending?
      && |w.sessions[p].arrivals| == |w.signers|
    case Sign(p, id, _) => AwaitsShare(w, p, id)
    case SignFails(p, id) => AwaitsShare(w, p, id)
    case ReceiveShare(p, k) =>
      && p < |w.sessions| && w.sessions[p].chosen.Some? && w.sessions[p].outcome.Pending?
        && Shares(w.sessions[p].answers).Ok?
      && k < |w.sessions[p].answered| && !Heard(w.sessions[p].answers, w.sessions[p].answered[k].addr)
    case Finish(p) =>
      && p < |w.sessions| && w.sessions[p].chosen.Some? && w.sessions[p].outcome.Pending?
      && (Shares(w.sessions[p].answers).Err? || |w.sessions[p].answers| == |w.sessions[p].chosen.value.activeSigners|)
    case OtherCommit(id, cid, _) => id in w.signers && cid !in w.signers[id].issued
    case OtherSign(id, _, _) => id in w.signers
  }

  /** A signer handles /commit. */
  function AfterCommit<E(!new)>(config: Config<E>, w: World<E>, id: uint16, cid: nat, nonce: Nonce): World<E>
    requires id in w.signers
  {
    w.(signers := w.signers[id := Committed(config.group, w.signers[id], cid, nonce)])
  }

  /** A signer handles /sign. */
  function AfterSign<E(==,!new)>(config: Config<E>, w: World<E>, id: uint16, message: string,
                                 list: seq<NonceCommitment<E>>): World<E>
    requires id in w.signers
  {
    var (st, r) := Signed(config, w.signers[id], message, list);
    w.(signers := w.signers[id := st],
       uses := match EntryOf(SortBySigner(list), id)
               case Some(c) => if r.Ok? then w.uses + [(id, c.commitmentId)] else w.uses
               case None => w.uses)
  }

  function Deliver<T>(delivered: bool, addr: nat, answer: Option<T>): Arrival<T> {
    Arrival(addr, if delivered then answer else None)
  }

  function WithSession<E>(w: World<E>, p: nat, s: Session<E>): World<E>
    requires p < |w.sessions|
  {
    w.(sessions := w.sessions[p := s])
  }

  function OkOption<T, F>(r: Result<T, F>): Option<T> {
    match r case Ok(v) => Some(v) case Err(_) => None
  }

  /** The collector and the aggregation after it. */
  function Finished<E(==,!new)>(config: Config<E>, s: Session<E>): Outcome<E>
    requires s.chosen.Some?
  {
    match Shares(s.answers)
    case Err(addr) => ShareMissing(addr)
    case Ok(shares) => Aggregated(Aggregate(config, s.message, shares, s.chosen.value.commitments))
  }

  function Next<E(==,!new)>(config: Config<E>, w: World<E>, e: Event<E>): World<E>
    requires Enabled(w, e)
  {
    match e
    case Open(message) => w.(sessions := w.sessions + [Session(message, [], [], None, [], [], Pending)])
    case Commit(p, id, cid, nonce, delivered) =>
      var s := w.sessions[p];
      var c := CommitmentFor(config.group, w.signers[id].id, cid, nonce);
      WithSession(AfterCommit(config, w, id, cid, nonce), p,
        s.(sent := s.sent + [Deliver(delivered, id, Some(c))]))
    case CommitFails(p, id) =>
      var s := w.sessions[p];
      WithSession(w, p, s.(sent := s.sent + [Arrival(id, None)]))
    case Receive(p, k) =>
      var s := w.sessions[p];
      WithSession(w, p, s.(arrivals := s.arrivals + [s.sent[k]]))
    case Choose(p) =>
      var s := w.sessions[p];
      WithSession(w, p,
        match Selected(s.arrivals, config.threshold)
        case Ok(g) => s.(chosen := Some(g))
        case Err(n) => s.(outcome := TooFewSigners(n)))
    case Sign(p, id, delivered) =>
      var s := w.sessions[p];
      var r := Signed(config, w.signers[id], s.message, s.chosen.value.commitments).1;
      WithSession(AfterSign(config, w, id, s.message, s.chosen.value.commitments), p,
        s.(answered := s.answered + [Deliver(delivered, id, OkOption(r))]))
    case SignFails(p, id) =>
      var s := w.sessions[p];
      WithSession(w, p, s.(answered := s.answered + [Arrival(id, None)]))
    case ReceiveShare(p, k) =>
      var s := w.sessions[p];
      WithSession(w, p, s.(answers := s.answers + [s.answered[k]]))
    case Finish(p) => WithSession(w, p, w.sessions[p].(outcome := Finished(config, w.sessions[p])))
    case OtherCommit(id, cid, nonce) => AfterCommit(config, w, id, cid, nonce)
    case OtherSign(id, message, list) => AfterSign(config, w, id, message, list)
  }

  // ----- invariants

  /** Every signer's books are in order and the history of uses lists every used nonce once. */
  ghost predicate BooksInv<E(!new)>(config: Config<E>, w: World<E>) {
    && (forall id <- w.signers :: w.signers[id].id == id && SignerInv(config.group, w.signers[id]))
    && (forall i, j | 0 <= i < j < |w.uses| :: w.uses[i] != w.uses[j])
    && (forall id, cid :: (id, cid) in w.uses <==> id in w.signers && cid in w.signers[id].spent)
  }

  /** The commitment came from its signer. */
  ghost predicate Issued<E>(signers: map<uint16, SignerState<E>>, addr: nat, c: NonceCommitment<E>) {
    && c.signerId == addr && c.signerId in signers
    && c.commitmentId in signers[c.signerId].issued
    && signers[c.signerId].issued[c.commitmentId] == c
  }

  /** The share is the one its signer makes for this session with the nonce of its commitment. */
  ghost predicate Answered<E(!new)>(config: Config<E>, signers: map<uint16, SignerState<E>>, message: string,
                                    list: seq<NonceCommitment<E>>, addr: nat, share: SignatureShare) {
    exists c <- list ::
      && c.signerId == addr && Spent(config.group, signers, c)
      && share == ShareFor(ContextOf(config, message, list), signers, c)
  }

  ghost predicate GatherInv<E(!new)>(config: Config<E>, signers: map<uint16, SignerState<E>>, s: Session<E>) {
    && DistinctAddresses(s.sent) && DistinctAddresses(s.arrivals)
    && (forall a <- s.sent :: a.answer.Some? ==> Issued(signers, a.addr, a.answer.value))
    && (forall a <- s.arrivals :: a in s.sent)
    && (s.chosen.Some? ==> Selected(s.arrivals, config.threshold) == Ok(s.chosen.value))
  }

  ghost predicate AnswerInv<E(!new)>(config: Config<E>, signers: map<uint16, SignerState<E>>, s: Session<E>) {
    && DistinctAddresses(s.answered) && DistinctAddresses(s.answers)
    && (s.answered != [] ==> s.chosen.Some?)
    && (forall a <- s.answered :: a.addr in s.chosen.value.activeSigners)
    && (forall a <- s.answered :: a.answer.Some? ==>
          Answered(config, signers, s.message, s.chosen.value.commitments, a.addr, a.answer.value))
    && (forall a <- s.answers :: a in s.answered)
  }

  /** The outcome is that of what was received, and a session that got as far as aggregating has a
      signature that verifies for its message. */
  ghost predicate OutcomeInv<E(!new)>(config: Config<E>, s: Session<E>) {
    match s.outcome
    case Pending => true
    case TooFewSigners(n) => s.chosen.None? && Selected(s.arrivals, config.threshold) == Err(n)
    case ShareMissing(addr) => s.chosen.Some? && Shares(s.answers) == Err(addr)
    case Aggregated(r) =>
      && s.chosen.Some? && Shares(s.answers).Ok? && |s.answers| == |s.chosen.value.activeSigners|
      && r == Aggregate(config, s.message, Shares(s.answers).value, s.chosen.value.commitments)
      && r.Ok? && ContextOf(config, s.message, s.chosen.value.commitments).Verifies(r.value)
  }

  ghost predicate SessionInv<E(!new)>(config: Config<E>, signers: map<uint16, SignerState<E>>, s: Session<E>) {
    GatherInv(config, signers, s) && AnswerInv(config, signers, s) && OutcomeInv(config, s)
  }

  ghost predicate WorldInv<E(!new)>(config: Config<E>, w: World<E>) {
    && BooksInv(config, w)
    && forall p | 0 <= p < |w.sessions| :: SessionInv(config, w.signers, w.sessions[p])
  }

  /** The signers of a later moment. */
  ghost predicate Later<E>(signers: map<uint16, SignerState<E>>, later: map<uint16, SignerState<E>>) {
    && later.Keys == signers.Keys
    && forall id <- signers :: Extends(signers[id], later[id])
  }
}
