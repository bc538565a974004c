/** Concurrent sessions do not get in each other's way: as long as no other client sends /sign
    requests, no signer refuses a session's request. */
module Isolation {
  import opened Wrappers
  import opened Zq
  import opened Wire
  import opened Frost
  import opened CommitmentList
  import opened Signers
  import opened Gather
  import opened HonestSigning
  import opened SigningSystem
  import opened SigningRuns

  /** Session `p` received the commitment `cid` of signer `id`. */
  ghost predicate Holds<E>(w: World<E>, p: nat, id: uint16, cid: nat) {
    p < |w.sessions| && exists a <- w.sessions[p].sent ::
      a.answer.Some? && a.answer.value.signerId == id && a.answer.value.commitmentId == cid
  }

  /** No commitment went to two sessions. */
  ghost predicate Separate<E>(w: World<E>) {
    forall p, q, id, cid :: Holds(w, p, id, cid) && Holds(w, q, id, cid) ==> p == q
  }

  /** Session `p` holds the commitment and its request for a share was handled. */
  ghost predicate UsedBy<E>(w: World<E>, p: nat, id: uint16, cid: nat) {
    Holds(w, p, id, cid) && w.sessions[p].chosen.Some? && Heard(w.sessions[p].answered, id)
  }

  ghost predicate Accounted<E>(w: World<E>) {
    forall id, cid :: (id, cid) in w.uses ==> exists p :: UsedBy(w, p, id, cid)
  }

  ghost predicate Isolated<E>(w: World<E>) {
    Separate(w) && Accounted(w)
  }

  /** What a session has received it keeps, and answers only add up. */
  ghost predicate SessionsGrow<E>(w: World<E>, v: World<E>) {
    && |w.sessions| <= |v.sessions|
    && forall p | 0 <= p < |w.sessions| ::
         && w.sessions[p].sent <= v.sessions[p].sent
         && w.sessions[p].answered <= v.sessions[p].answered
         && (w.sessions[p].chosen.Some? ==> v.sessions[p].chosen.Some?)
  }

  lemma StepSessionsGrow<E(!new)>(config: Config<E>, w: World<E>, e: Event<E>)
    requires Enabled(w, e)
    ensures SessionsGrow(w, Next(config, w, e))
  {
    hide Signed, AfterSign, Committed, CommitmentFor, Selected, Finished, Heard, Shares;
    match e {
      case Sign(p, id, _) => SignSessions(config, w, id, w.sessions[p].message, w.sessions[p].chosen.value.commitments);
      case OtherSign(id, message, list) => SignSessions(config, w, id, message, list);
      case _ =>
    }
  }

  lemma SignSessions<E(!new)>(config: Config<E>, w: World<E>, id: uint16, message: string,
                              list: seq<NonceCommitment<E>>)
    requires id in w.signers
    ensures AfterSign(config, w, id, message, list).sessions == w.sessions
  {}

  lemma PrefixMember<T>(a: seq<T>, b: seq<T>, x: T)
    requires a <= b && x in a
    ensures x in b
  {
    var k :| 0 <= k < |a| && a[k] == x;
    assert b[k] == x;
  }

  lemma UsedByLater<E>(w: World<E>, v: World<E>, p: nat, id: uint16, cid: nat)
    requires SessionsGrow(w, v) && UsedBy(w, p, id, cid)
    ensures UsedBy(v, p, id, cid)
  {
    var a :| a in w.sessions[p].sent && a.answer.Some? && a.answer.value.signerId == id
      && a.answer.value.commitmentId == cid;
    PrefixMember(w.sessions[p].sent, v.sessions[p].sent, a);
    var k :| 0 <= k < |w.sessions[p].answered| && w.sessions[p].answered[k].addr == id;
    assert v.sessions[p].answered[k].addr == id;
  }

  /** Sessions whose arrivals do not change hold what they held. */
  lemma SeparateKept<E>(w: World<E>, v: World<E>)
    requires Separate(w) && |w.sessions| <= |v.sessions|
    requires forall p | 0 <= p < |v.sessions| ::
      forall a <- v.sessions[p].sent :: a.answer.Some? ==> p < |w.sessions| && a in w.sessions[p].sent
    ensures Separate(v)
  {
    forall p, q, id, cid | Holds(v, p, id, cid) && Holds(v, q, id, cid) ensures p == q {
      assert Holds(w, p, id, cid) && Holds(w, q, id, cid);
    }
  }

  lemma HeldIsIssued<E(!new)>(config: Config<E>, w: World<E>, p: nat, id: uint16, cid: nat)
    requires WorldInv(config, w) && Holds(w, p, id, cid)
    ensures id in w.signers && cid in w.signers[id].issued
  {
    hide BooksInv, AnswerInv, OutcomeInv;
    assert SessionInv(config, w.signers, w.sessions[p]);
  }

  /** A commitment delivered to session `p` is new to every session. */
  lemma SeparateAfterCommit<E(!new)>(config: Config<E>, w: World<E>, e: Event<E>)
    requires WorldInv(config, w) && Separate(w) && e.Commit? && Enabled(w, e)
    ensures Separate(Next(config, w, e))
  {
    hide WorldInv, Committed, Heard, Separate;
    var v := Next(config, w, e);
    assert w.signers[e.id].id == e.id by { BooksOf(config, w, e.id); }
    forall q: nat, id: uint16, cid: nat | Holds(v, q, id, cid)
      ensures Holds(w, q, id, cid) || (q, id, cid) == (e.p, e.id, e.cid)
    {
      NewlyHeld(config, w, e, q, id, cid);
    }
    forall q | Holds(w, q, e.id, e.cid) ensures false {
      HeldIsIssued(config, w, q, e.id, e.cid);
    }
    SeparateByCases(w, v, e.p, e.id, e.cid);
  }

  lemma BooksOf<E(!new)>(config: Config<E>, w: World<E>, id: uint16)
    requires WorldInv(config, w) && id in w.signers
    ensures w.signers[id].id == id
  {}

  lemma NewlyHeld<E(!new)>(config: Config<E>, w: World<E>, e: Event<E>, q: nat, id: uint16, cid: nat)
    requires e.Commit? && Enabled(w, e) && w.signers[e.id].id == e.id
    requires Holds(Next(config, w, e), q, id, cid)
    ensures Holds(w, q, id, cid) || (q, id, cid) == (e.p, e.id, e.cid)
  {
    hide Committed, Heard;
    var v := Next(config, w, e);
    var a :| a in v.sessions[q].sent && a.answer.Some? && a.answer.value.signerId == id
      && a.answer.value.commitmentId == cid;
    if q == e.p && a !in w.sessions[q].sent {
      assert a == v.sessions[q].sent[|w.sessions[q].sent|];
    } else {
      assert a in w.sessions[q].sent;
    }
  }

  lemma SeparateByCases<E>(w: World<E>, v: World<E>, p: nat, id: uint16, cid: nat)
    requires Separate(w) && forall q :: !Holds(w, q, id, cid)
    requires forall q: nat, i: uint16, c: nat :: Holds(v, q, i, c) ==> Holds(w, q, i, c) || (q, i, c) == (p, id, cid)
    ensures Separate(v)
  {
    hide Holds;
    forall q, r, i, c | Holds(v, q, i, c) && Holds(v, r, i, c) ensures q == r {}
  }

  lemma SeparateStep<E(!new)>(config: Config<E>, w: World<E>, e: Event<E>)
    requires WorldInv(config, w) && Separate(w) && Enabled(w, e)
    ensures Separate(Next(config, w, e))
  {
    hide WorldInv, Separate, AfterSign, AfterCommit, Signed, CommitmentFor, Selected, Finished, Heard;
    match e {
      case Commit(_, _, _, _, _) => SeparateAfterCommit(config, w, e);
      case Sign(p, id, _) =>
        SignSessions(config, w, id, w.sessions[p].message, w.sessions[p].chosen.value.commitments);
        SeparateKept(w, Next(config, w, e));
      case OtherSign(id, message, list) =>
        SignSessions(config, w, id, message, list);
        SeparateKept(w, Next(config, w, e));
      case OtherCommit(id, cid, nonce) =>
        CommitSessions(config, w, id, cid, nonce);
        SeparateKept(w, Next(config, w, e));
      case _ => SeparateKept(w, Next(config, w, e));
    }
  }

  lemma CommitSessions<E(!new)>(config: Config<E>, w: World<E>, id: uint16, cid: nat, nonce: Nonce)
    requires id in w.signers
    ensures AfterCommit(config, w, id, cid, nonce).sessions == w.sessions
  {}

  // ----- every use belongs to a session that was answered

  lemma AccountedKept<E>(w: World<E>, v: World<E>)
    requires Accounted(w) && SessionsGrow(w, v) && v.uses == w.uses
    ensures Accounted(v)
  {
    hide UsedBy, SessionsGrow;
    forall id, cid | (id, cid) in v.uses ensures exists p :: UsedBy(v, p, id, cid) {
      var p :| UsedBy(w, p, id, cid);
      UsedByLater(w, v, p, id, cid);
    }
  }

  lemma AccountedGrows<E>(w: World<E>, v: World<E>, p: nat, id: uint16, cid: nat)
    requires Accounted(w) && SessionsGrow(w, v) && v.uses == w.uses + [(id, cid)] && UsedBy(v, p, id, cid)
    ensures Accounted(v)
  {
    hide UsedBy, SessionsGrow;
    forall i, c | (i, c) in v.uses ensures exists q :: UsedBy(v, q, i, c) {
      if (i, c) in w.uses {
        var q :| UsedBy(w, q, i, c);
        UsedByLater(w, v, q, i, c);
      }
    }
  }

  /** A chosen commitment is one the session holds. */
  lemma ChosenHeld<E(!new)>(config: Config<E>, w: World<E>, p: nat, c: NonceCommitment<E>)
    requires WorldInv(config, w) && p < |w.sessions| && w.sessions[p].chosen.Some?
    requires c in w.sessions[p].chosen.value.commitments
    ensures Holds(w, p, c.signerId, c.commitmentId)
  {
    hide BooksInv, AnswerInv, OutcomeInv, Issued, Selected;
    var s := w.sessions[p];
    assert SessionInv(config, w.signers, s);
    SelectedPairs(s.arrivals, config.threshold);
    var k :| 0 <= k < |s.chosen.value.commitments| && s.chosen.value.commitments[k] == c;
    var a := Arrival(s.chosen.value.activeSigners[k], Some(s.chosen.value.commitments[k]));
    assert a in s.arrivals;
  }

  lemma AccountedAfterSign<E(!new)>(config: Config<E>, w: World<E>, e: Event<E>)
    requires WorldInv(config, w) && Accounted(w) && e.Sign? && Enabled(w, e)
    ensures Accounted(Next(config, w, e))
  {
    hide WorldInv, Accounted, Signed, SortBySigner, Holds;
    var v := Next(config, w, e);
    var s := w.sessions[e.p];
    var list := s.chosen.value.commitments;
    StepSessionsGrow(config, w, e);
    var r, entry := Signed(config, w.signers[e.id], s.message, list).1, EntryOf(SortBySigner(list), e.id);
    if r.Ok? && entry.Some? {
      SortSorts(list);
      assert entry.value in multiset(SortBySigner(list));
      ChosenHeld(config, w, e.p, entry.value);
      assert Holds(v, e.p, e.id, entry.value.commitmentId) by { HoldsFrame(w, v, e.p, e.id, entry.value.commitmentId); }
      assert v.sessions[e.p].answered[|s.answered|].addr == e.id;
      assert UsedBy(v, e.p, e.id, entry.value.commitmentId);
      AccountedGrows(w, v, e.p, e.id, entry.value.commitmentId);
    } else {
      AccountedKept(w, v);
    }
  }

  lemma HoldsFrame<E>(w: World<E>, v: World<E>, p: nat, id: uint16, cid: nat)
    requires Holds(w, p, id, cid) && p < |v.sessions| && v.sessions[p].sent == w.sessions[p].sent
    ensures Holds(v, p, id, cid)
  {}

  lemma AccountedStep<E(!new)>(config: Config<E>, w: World<E>, e: Event<E>)
    requires WorldInv(config, w) && Accounted(w) && Enabled(w, e) && !e.OtherSign?
    ensures Accounted(Next(config, w, e))
  {
    hide WorldInv, Accounted, AfterCommit, Signed, CommitmentFor, Selected, Finished, Heard, SessionsGrow;
    StepSessionsGrow(config, w, e);
    if e.Sign? {
      AccountedAfterSign(config, w, e);
    } else {
      if e.Commit? || e.OtherCommit? { CommitUses(config, w, e.id, e.cid, e.nonce); }
      AccountedKept(w, Next(config, w, e));
    }
  }

  lemma {:induction false} RunIsolated<E(!new)>(config: Config<E>, f: seq<Scalar>, worlds: seq<World<E>>,
                                                events: seq<Event<E>>, i: nat)
    requires Sound(config) && Behaviour(config, f, worlds, events) && i < |worlds|
    requires forall k | 0 <= k < |events| :: !events[k].OtherSign?
    ensures Isolated(worlds[i])
  {
    hide WorldInv, Separate, Accounted, Next, Enabled, Sound, Initial;
    if i == 0 {
      InitialIsolated(config, f, worlds[0]);
    } else {
      RunIsolated(config, f, worlds, events, i - 1);
      RunGood(config, f, worlds, events, i - 1);
      assert Enabled(worlds[i - 1], events[i - 1]) && worlds[i] == Next(config, worlds[i - 1], events[i - 1]);
      SeparateStep(config, worlds[i - 1], events[i - 1]);
      AccountedStep(config, worlds[i - 1], events[i - 1]);
    }
  }

  lemma InitialIsolated<E(!new)>(config: Config<E>, f: seq<Scalar>, w: World<E>)
    requires Initial(config, f, w)
    ensures Isolated(w)
  {
    hide Dealt;
  }

  /** In a run in which only sessions send /sign requests, however many there are and however they
      interleave, a signer that a session still waits for makes its share. */
  lemma NoRequestRefused<E(!new)>(config: Config<E>, f: seq<Scalar>, worlds: seq<World<E>>, events: seq<Event<E>>,
                                  i: nat, p: nat, k: nat)
    requires Sound(config) && Behaviour(config, f, worlds, events) && i < |worlds|
    requires forall j | 0 <= j < |events| :: !events[j].OtherSign?
    requires p < |worlds[i].sessions| && worlds[i].sessions[p].chosen.Some?
    requires k < |worlds[i].sessions[p].chosen.value.commitments|
    requires AwaitsShare(worlds[i], p, worlds[i].sessions[p].chosen.value.commitments[k].signerId)
    ensures
      var s, w := worlds[i].sessions[p], worlds[i];
      var id := s.chosen.value.commitments[k].signerId;
      Signed(config, w.signers[id], s.message, s.chosen.value.commitments).1.Ok?
  {
    hide WorldInv, Signed, Behaviour, Sound, Holds, Heard, Separate, Accounted;
    var w := worlds[i];
    var c := w.sessions[p].chosen.value.commitments[k];
    RefusedOnlyIfUsed(config, f, worlds, events, i, p, k);
    RunIsolated(config, f, worlds, events, i);
    RunGood(config, f, worlds, events, i);
    ChosenHeld(config, w, p, c);
    NotUsedByOthers(w, p, c.signerId, c.commitmentId);
  }

  lemma NotUsedByOthers<E>(w: World<E>, p: nat, id: uint16, cid: nat)
    requires Isolated(w) && Holds(w, p, id, cid) && !Heard(w.sessions[p].answered, id)
    ensures (id, cid) !in w.uses
  {
    hide Holds, Heard;
    assert forall q :: UsedBy(w, q, id, cid) ==> q == p;
    assert !UsedBy(w, p, id, cid);
  }
}
