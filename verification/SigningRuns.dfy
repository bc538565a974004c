/** The guarantees of the signing system over whole runs. */
module SigningRuns {
  import opened Wrappers
  import opened Zq
  import opened Wire
  import opened Group
  import opened Frost
  import opened CommitmentList
  import opened Signers
  import opened Gather
  import opened HonestSigning
  import opened SigningSystem
  import opened SigningSafety

  ghost predicate Sound<E(!new)>(config: Config<E>) {
    config.group.Lawful() && config.threshold <= config.maxSigners
  }

  /** Freshly dealt signers, no sessions yet. */
  ghost predicate Initial<E(!new)>(config: Config<E>, f: seq<Scalar>, w: World<E>) {
    && Dealt(config, f, w.signers) && w.sessions == [] && w.uses == []
    && forall id <- w.signers ::
         w.signers[id].outstanding == map[] && w.signers[id].spent == map[] && w.signers[id].issued == map[]
  }

  /** `worlds` are the states that the `events` lead through, whatever their interleaving. */
  ghost predicate Behaviour<E(!new)>(config: Config<E>, f: seq<Scalar>, worlds: seq<World<E>>, events: seq<Event<E>>) {
    && |worlds| == |events| + 1 && Initial(config, f, worlds[0])
    && forall i | 0 <= i < |events| ::
      Enabled(worlds[i], events[i]) && worlds[i + 1] == Next(config, worlds[i], events[i])
  }

  ghost predicate Good<E(!new)>(config: Config<E>, f: seq<Scalar>, w: World<E>) {
    WorldInv(config, w) && Dealt(config, f, w.signers)
  }

  /** Every session is kept as it was, but for session `p`. */
  lemma OneSession<E(!new)>(config: Config<E>, f: seq<Scalar>, w: World<E>, v: World<E>, p: nat)
    requires Good(config, f, w) && BooksInv(config, v) && Later(w.signers, v.signers)
    requires |v.sessions| == |w.sessions| && forall q | 0 <= q < |w.sessions| && q != p ::
      v.sessions[q] == w.sessions[q]
    requires p < |v.sessions| ==> SessionInv(config, v.signers, v.sessions[p])
    ensures Good(config, f, v)
  {
    hide BooksInv, SessionInv, Dealt, Later;
    DealtLater(config, f, w.signers, v.signers);
    forall q | 0 <= q < |v.sessions| ensures SessionInv(config, v.signers, v.sessions[q]) {
      if q != p { SessionLater(config, w.signers, v.signers, w.sessions[q]); }
    }
  }

  /** The books are about signers and uses only. */
  lemma BooksFrame<E(!new)>(config: Config<E>, w: World<E>, v: World<E>)
    requires BooksInv(config, w) && v.signers == w.signers && v.uses == w.uses
    ensures BooksInv(config, v)
  {}

  lemma LaterSelf<E>(signers: map<uint16, SignerState<E>>)
    ensures Later(signers, signers)
  {
    hide Extends;
    forall id | id in signers ensures Extends(signers[id], signers[id]) { ExtendsSelf(signers[id]); }
  }

  lemma CommitStep<E(!new)>(config: Config<E>, f: seq<Scalar>, w: World<E>, e: Event<E>)
    requires Good(config, f, w) && e.Commit? && Enabled(w, e)
    ensures Good(config, f, Next(config, w, e))
  {
    hide BooksInv, SessionInv, Dealt, Later, Issued, CommitmentFor, Heard, Committed;
    var Commit(p, id, cid, nonce, delivered) := e;
    assert w.signers[id].id == id by { BooksAt(config, w, id); }
    AfterCommitKeeps(config, w, id, cid, nonce);
    var v := AfterCommit(config, w, id, cid, nonce);
    SessionLater(config, w.signers, v.signers, w.sessions[p]);
    var c := CommitmentFor(config.group, id, cid, nonce);
    ArrivalKeeps(config, v.signers, w.sessions[p], id, if delivered then Some(c) else None);
    BooksFrame(config, v, Next(config, w, e));
    OneSession(config, f, w, Next(config, w, e), p);
  }

  lemma SignStep<E(!new)>(config: Config<E>, f: seq<Scalar>, w: World<E>, e: Event<E>)
    requires Good(config, f, w) && e.Sign? && Enabled(w, e)
    ensures Good(config, f, Next(config, w, e))
  {
    hide BooksInv, SessionInv, Dealt, Later, Signed, AfterSign, Heard, Answered;
    var Sign(p, id, delivered) := e;
    var s := w.sessions[p];
    var list := s.chosen.value.commitments;
    AfterSignKeeps(config, w, id, s.message, list);
    var v := AfterSign(config, w, id, s.message, list);
    SessionLater(config, w.signers, v.signers, s);
    var r := Signed(config, w.signers[id], s.message, list).1;
    if r.Ok? {
      AnsweredBy(config, w, id, s.message, list);
    }
    AnswerKeeps(config, v.signers, s, id, if delivered then OkOption(r) else None);
    BooksFrame(config, v, Next(config, w, e));
    OneSession(config, f, w, Next(config, w, e), p);
  }

  lemma SessionStep<E(!new)>(config: Config<E>, f: seq<Scalar>, w: World<E>, e: Event<E>)
    requires Sound(config) && Good(config, f, w) && Enabled(w, e)
    requires e.CommitFails? || e.Receive? || e.Choose? || e.SignFails? || e.ReceiveShare? || e.Finish?
    ensures Good(config, f, Next(config, w, e))
  {
    hide BooksInv, SessionInv, Dealt, Later, Heard, Answered, Finished, Selected, Group.Lawful, Shares;
    var s := w.sessions[e.p];
    LaterSelf(w.signers);
    match e {
      case CommitFails(p, id) => ArrivalKeeps(config, w.signers, s, id, None);
      case Receive(p, k) => ReceiveKeeps(config, w.signers, s, k);
      case Choose(p) => ChooseKeeps(config, w.signers, s);
      case SignFails(p, id) => AnswerKeeps(config, w.signers, s, id, None);
      case ReceiveShare(p, k) => ReceiveShareKeeps(config, w.signers, s, k);
      case Finish(p) => FinishKeeps(config, f, w.signers, s);
    }
    BooksFrame(config, w, Next(config, w, e));
    OneSession(config, f, w, Next(config, w, e), e.p);
  }

  lemma OtherStep<E(!new)>(config: Config<E>, f: seq<Scalar>, w: World<E>, e: Event<E>)
    requires Good(config, f, w) && Enabled(w, e) && (e.Open? || e.OtherCommit? || e.OtherSign?)
    ensures Good(config, f, Next(config, w, e))
  {
    hide BooksInv, Dealt, Later, AfterSign, AfterCommit, SessionInv, CommitmentFor;
    match e {
      case Open(message) =>
        NewSession(config, w.signers, message);
        BooksFrame(config, w, Next(config, w, e));
      case OtherCommit(id, cid, nonce) =>
        AfterCommitKeeps(config, w, id, cid, nonce);
        OneSession(config, f, w, Next(config, w, e), |w.sessions|);
      case OtherSign(id, message, list) =>
        AfterSignKeeps(config, w, id, message, list);
        OneSession(config, f, w, Next(config, w, e), |w.sessions|);
    }
  }

  lemma NewSession<E(!new)>(config: Config<E>, signers: map<uint16, SignerState<E>>, message: string)
    ensures SessionInv(config, signers, Session(message, [], [], None, [], [], Pending))
  {}

  /** Every event keeps the invariant. */
  lemma StepKeeps<E(!new)>(config: Config<E>, f: seq<Scalar>, w: World<E>, e: Event<E>)
    requires Sound(config) && Good(config, f, w) && Enabled(w, e)
    ensures Good(config, f, Next(config, w, e))
  {
    hide Good, Next, Sound, Enabled;
    match e {
      case Open(_) => OtherStep(config, f, w, e);
      case Commit(_, _, _, _, _) => CommitStep(config, f, w, e);
      case CommitFails(_, _) => SessionStep(config, f, w, e);
      case Receive(_, _) => SessionStep(config, f, w, e);
      case Choose(_) => SessionStep(config, f, w, e);
      case Sign(_, _, _) => SignStep(config, f, w, e);
      case SignFails(_, _) => SessionStep(config, f, w, e);
      case ReceiveShare(_, _) => SessionStep(config, f, w, e);
      case Finish(_) => SessionStep(config, f, w, e);
      case OtherCommit(_, _, _) => OtherStep(config, f, w, e);
      case OtherSign(_, _, _) => OtherStep(config, f, w, e);
    }
  }

  lemma InitialGood<E(!new)>(config: Config<E>, f: seq<Scalar>, w: World<E>)
    requires Initial(config, f, w)
    ensures Good(config, f, w)
  {
    forall id | id in w.signers ensures w.signers[id].id == id {
      assert DealtTo(config, f, id, w.signers[id]);
    }
  }

  lemma {:induction false} RunGood<E(!new)>(config: Config<E>, f: seq<Scalar>, worlds: seq<World<E>>,
                                            events: seq<Event<E>>, i: nat)
    requires Sound(config) && Behaviour(config, f, worlds, events) && i < |worlds|
    ensures Good(config, f, worlds[i])
  {
    hide Good, Next, Initial, Enabled, Sound;
    if i == 0 {
      InitialGood(config, f, worlds[0]);
    } else {
      RunGood(config, f, worlds, events, i - 1);
      assert Enabled(worlds[i - 1], events[i - 1]) && worlds[i] == Next(config, worlds[i - 1], events[i - 1]);
      StepKeeps(config, f, worlds[i - 1], events[i - 1]);
    }
  }

  // ----- what this means for a run

  /** In every state of every run, a session that aggregated has a signature, and it satisfies the
      Schnorr equation for the session's message under the group key. */
  lemma FinishedSessionsVerify<E(!new)>(config: Config<E>, f: seq<Scalar>, worlds: seq<World<E>>,
                                        events: seq<Event<E>>, i: nat, p: nat)
    requires Sound(config) && Behaviour(config, f, worlds, events) && i < |worlds|
    requires p < |worlds[i].sessions| && worlds[i].sessions[p].outcome.Aggregated?
    ensures worlds[i].sessions[p].outcome.result.Ok?
    ensures
      var sig, g := worlds[i].sessions[p].outcome.result.value, config.group;
      g.mul(sig.z, g.base)
      == g.add(sig.r, g.mul(config.hashes.challenge(sig.r, config.key, worlds[i].sessions[p].message), config.key))
  {
    hide BooksInv, GatherInv, AnswerInv, Behaviour, Next, Dealt, Group.Lawful;
    RunGood(config, f, worlds, events, i);
    assert SessionInv(config, worlds[i].signers, worlds[i].sessions[p]);
    assert OutcomeInv(config, worlds[i].sessions[p]);
  }

  /** In every state of every run, the k-th commitment of a session came from its k-th active signer,
      no signer is active twice, and the signer still has the commitment on its books. */
  lemma ActiveSignersCommitted<E(!new)>(config: Config<E>, f: seq<Scalar>, worlds: seq<World<E>>,
                                        events: seq<Event<E>>, i: nat, p: nat)
    requires Sound(config) && Behaviour(config, f, worlds, events) && i < |worlds|
    requires p < |worlds[i].sessions| && worlds[i].sessions[p].chosen.Some?
    ensures
      var g := worlds[i].sessions[p].chosen.value;
      && |g.commitments| == |g.activeSigners| == config.threshold
      && DistinctSigners(g.commitments)
      && forall k | 0 <= k < |g.commitments| ::
           g.commitments[k].signerId == g.activeSigners[k]
             && Issued(worlds[i].signers, g.activeSigners[k], g.commitments[k])
  {
    hide BooksInv, AnswerInv, OutcomeInv, Behaviour, Next, Dealt, Group.Lawful, Issued, DistinctSigners;
    RunGood(config, f, worlds, events, i);
    assert SessionInv(config, worlds[i].signers, worlds[i].sessions[p]);
    ChosenDistinct(config, worlds[i].signers, worlds[i].sessions[p]);
  }

  /** In every state of every run: what a signer has handed out is what waits to be used plus what has
      been used, nothing is both, and no commitment was used twice. */
  lemma NoncesUsedOnce<E(!new)>(config: Config<E>, f: seq<Scalar>, worlds: seq<World<E>>, events: seq<Event<E>>, i: nat)
    requires Sound(config) && Behaviour(config, f, worlds, events) && i < |worlds|
    ensures forall id <- worlds[i].signers ::
      var st := worlds[i].signers[id];
      st.issued.Keys == st.outstanding.Keys + st.spent.Keys && st.outstanding.Keys !! st.spent.Keys
    ensures forall k, l | 0 <= k < l < |worlds[i].uses| :: worlds[i].uses[k] != worlds[i].uses[l]
    ensures forall id, cid ::
      (id, cid) in worlds[i].uses <==> id in worlds[i].signers && cid in worlds[i].signers[id].spent
  {
    hide SessionInv, Behaviour, Next, Dealt, Group.Lawful;
    RunGood(config, f, worlds, events, i);
    forall id | id in worlds[i].signers ensures SignerInv(config.group, worlds[i].signers[id]) {}
  }

  ghost predicate Grows<E>(w: World<E>, v: World<E>) {
    Later(w.signers, v.signers) && w.uses <= v.uses
  }

  lemma StepGrows<E(!new)>(config: Config<E>, w: World<E>, e: Event<E>)
    requires BooksInv(config, w) && Enabled(w, e)
    ensures Grows(w, Next(config, w, e))
  {
    hide BooksInv, Later, AfterSign, AfterCommit, CommitmentFor, Selected, Finished, Signed, Heard;
    LaterSelf(w.signers);
    match e {
      case Commit(p, id, cid, nonce, delivered) => AfterCommitKeeps(config, w, id, cid, nonce); CommitUses(config, w,
        id, cid, nonce);
      case Sign(p, id, delivered) =>
        AfterSignKeeps(config, w, id, w.sessions[p].message, w.sessions[p].chosen.value.commitments);
        SignUses(config, w, id, w.sessions[p].message, w.sessions[p].chosen.value.commitments);
      case OtherCommit(id, cid, nonce) => AfterCommitKeeps(config, w, id, cid, nonce); CommitUses(config, w, id, cid,
        nonce);
      case OtherSign(id, message, list) => AfterSignKeeps(config, w, id, message, list); SignUses(config, w, id,
        message, list);
      case _ =>
    }
  }

  lemma CommitUses<E(!new)>(config: Config<E>, w: World<E>, id: uint16, cid: nat, nonce: Nonce)
    requires id in w.signers
    ensures AfterCommit(config, w, id, cid, nonce).uses == w.uses
  {}

  lemma SignUses<E(!new)>(config: Config<E>, w: World<E>, id: uint16, message: string, list: seq<NonceCommitment<E>>)
    requires id in w.signers
    ensures w.uses <= AfterSign(config, w, id, message, list).uses
  {
    hide Signed, SortBySigner, EntryOf;
  }

  lemma LaterTransitive<E>(a: map<uint16, SignerState<E>>, b: map<uint16, SignerState<E>>,
                           c: map<uint16, SignerState<E>>)
    requires Later(a, b) && Later(b, c)
    ensures Later(a, c)
  {
    forall id | id in a ensures Extends(a[id], c[id]) {
      assert Extends(a[id], b[id]) && Extends(b[id], c[id]);
    }
  }

  /** Along every run the signers' records of commitments and of used nonces only grow. */
  lemma {:induction false} RecordsGrow<E(!new)>(config: Config<E>, f: seq<Scalar>, worlds: seq<World<E>>,
                                                events: seq<Event<E>>, i: nat, j: nat)
    requires Sound(config) && Behaviour(config, f, worlds, events) && i <= j < |worlds|
    ensures Grows(worlds[i], worlds[j])
    decreases j
  {
    hide BooksInv, SessionInv, Dealt, Next, Enabled, Later, Initial, Group.Lawful;
    if i == j {
      LaterSelf(worlds[i].signers);
    } else {
      RecordsGrow(config, f, worlds, events, i, j - 1);
      RunGood(config, f, worlds, events, j - 1);
      assert Enabled(worlds[j - 1], events[j - 1]) && worlds[j] == Next(config, worlds[j - 1], events[j - 1]);
      StepGrows(config, worlds[j - 1], events[j - 1]);
      LaterTransitive(worlds[i].signers, worlds[j - 1].signers, worlds[j].signers);
    }
  }

  /** A signer answers a session's request for a share exactly when the session's commitment has not
      been used yet, by whomever. */
  lemma RefusedOnlyIfUsed<E(!new)>(config: Config<E>, f: seq<Scalar>, worlds: seq<World<E>>, events: seq<Event<E>>,
                                   i: nat, p: nat, k: nat)
    requires Sound(config) && Behaviour(config, f, worlds, events) && i < |worlds|
    requires p < |worlds[i].sessions| && worlds[i].sessions[p].chosen.Some?
    requires k < |worlds[i].sessions[p].chosen.value.commitments|
    ensures
      var s, w := worlds[i].sessions[p], worlds[i];
      var c := s.chosen.value.commitments[k];
      && c.signerId in w.signers
      && (Signed(config, w.signers[c.signerId], s.message, s.chosen.value.commitments).1.Ok?
          <==> (c.signerId, c.commitmentId) !in w.uses)
  {
    hide SessionInv, Behaviour, Next, Dealt, Group.Lawful, SortBySigner, DistinctSigners, Signed, EntryOf, ValidList;
    var s, w := worlds[i].sessions[p], worlds[i];
    var list := s.chosen.value.commitments;
    var c := list[k];
    ActiveSignersCommitted(config, f, worlds, events, i, p);
    assert Issued(w.signers, s.chosen.value.activeSigners[k], c);
    RunGood(config, f, worlds, events, i);
    assert SignerInv(config.group, w.signers[c.signerId]);
    SortedEntry(config, list, k);
    SignsIff(config, w.signers[c.signerId], s.message, list, c);
  }

  /** ... so another client can make a signer refuse: its /sign request is accepted in every state, and
      whatever it asks for, if it names the session's own list, the signer then has no nonce left for
      the session. */
  lemma OthersCanCauseRefusal<E(!new)>(config: Config<E>, f: seq<Scalar>, worlds: seq<World<E>>,
                                       events: seq<Event<E>>, i: nat, p: nat, k: nat, message: string)
    requires Sound(config) && Behaviour(config, f, worlds, events) && i < |worlds|
    requires p < |worlds[i].sessions| && worlds[i].sessions[p].chosen.Some?
    requires k < |worlds[i].sessions[p].chosen.value.commitments|
    ensures
      var s, w := worlds[i].sessions[p], worlds[i];
      var list := s.chosen.value.commitments;
      var e := OtherSign(list[k].signerId, message, list);
      && Enabled(w, e) && list[k].signerId in Next(config, w, e).signers
      && Signed(config, Next(config, w, e).signers[list[k].signerId], s.message, list).1.Err?
  {
    hide SessionInv, Behaviour, Dealt, Group.Lawful, SortBySigner, DistinctSigners, Signed, EntryOf, ValidList,
      SignerInv;
    var s, w := worlds[i].sessions[p], worlds[i];
    var list := s.chosen.value.commitments;
    var id := list[k].signerId;
    ActiveSignersCommitted(config, f, worlds, events, i, p);
    assert Issued(w.signers, s.chosen.value.activeSigners[k], list[k]);
    RunGood(config, f, worlds, events, i);
    assert SignerInv(config.group, w.signers[id]) && w.signers[id].id == id;
    SortedEntry(config, list, k);
    SecondRefused(config, w.signers[id], message, s.message, list, list[k]);
  }

  /** After one request with a list, whatever became of it, a signer refuses another one with it. */
  lemma SecondRefused<E(!new)>(config: Config<E>, st: SignerState<E>, message: string, second: string,
                               list: seq<NonceCommitment<E>>, c: NonceCommitment<E>)
    requires SignerInv(config.group, st)
    requires ValidList(config, SortBySigner(list)) && EntryOf(SortBySigner(list), st.id) == Some(c)
    requires c.commitmentId in st.issued && st.issued[c.commitmentId] == c
    ensures Signed(config, Signed(config, st, message, list).0, second, list).1.Err?
  {
    hide SortBySigner, Signed, EntryOf, ValidList;
    SignsIff(config, st, message, list, c);
    SignKeeps(config, st, message, list);
    SignsIff(config, Signed(config, st, message, list).0, second, list, c);
  }

  lemma SignsIff<E(!new)>(config: Config<E>, st: SignerState<E>, message: string, list: seq<NonceCommitment<E>>,
                          c: NonceCommitment<E>)
    requires ValidList(config, SortBySigner(list)) && EntryOf(SortBySigner(list), st.id) == Some(c)
    requires c.commitmentId in st.issued && st.issued[c.commitmentId] == c
    ensures Signed(config, st, message, list).1.Ok? <==> c.commitmentId in st.outstanding
  {
    hide SortBySigner, EntryOf, ValidList, Context.Share;
  }

  lemma SortedEntry<E(!new)>(config: Config<E>, list: seq<NonceCommitment<E>>, k: nat)
    requires DistinctSigners(list) && k < |list|
    ensures EntryOf(SortBySigner(list), list[k].signerId) == Some(list[k])
    ensures config.threshold <= |list| <= config.maxSigners ==> ValidList(config, SortBySigner(list))
  {
    hide SortBySigner, EntryOf;
    var sorted := SortBySigner(list);
    SortSorts(list);
    SameLength(list, sorted);
    DistinctPermuted(list, sorted);
    assert list[k] in multiset(sorted);
    var l :| 0 <= l < |sorted| && sorted[l] == list[k];
    EntryFound(sorted, l);
  }
}
