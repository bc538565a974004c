/** What holds in every state of every run of the signing system. */
module SigningSafety {
  import opened Wrappers
  import opened Zq
  import opened Sums
  import opened Polynomial
  import opened Wire
  import opened Group
  import opened Frost
  import opened CommitmentList
  import opened Signers
  import opened Gather
  import opened HonestSigning
  import opened SigningSystem

  // ----- facts about signers survive every later step

  lemma SpentLater<E(!new)>(group: Group<E>, signers: map<uint16, SignerState<E>>, later: map<uint16, SignerState<E>>,
                            c: NonceCommitment<E>)
    requires Later(signers, later) && Spent(group, signers, c)
    ensures Spent(group, later, c) && NonceOf(later, c) == NonceOf(signers, c)
      && SecretOf(later, c) == SecretOf(signers, c)
  {
    hide CommitmentFor;
    assert Extends(signers[c.signerId], later[c.signerId]);
  }

  lemma AnsweredLater<E(!new)>(config: Config<E>, signers: map<uint16, SignerState<E>>,
                               later: map<uint16, SignerState<E>>, message: string, list: seq<NonceCommitment<E>>,
                               addr: nat, share: SignatureShare)
    requires Later(signers, later) && Answered(config, signers, message, list, addr, share)
    ensures Answered(config, later, message, list, addr, share)
  {
    hide Spent, Later, Context.Share, ContextOf, NonceOf, SecretOf;
    var c :| c in list && c.signerId == addr && Spent(config.group, signers, c)
      && share == ShareFor(ContextOf(config, message, list), signers, c);
    SpentLater(config.group, signers, later, c);
  }

  lemma SessionLater<E(!new)>(config: Config<E>, signers: map<uint16, SignerState<E>>,
                              later: map<uint16, SignerState<E>>, s: Session<E>)
    requires Later(signers, later) && SessionInv(config, signers, s)
    ensures SessionInv(config, later, s)
  {
    hide Answered, Selected, OutcomeInv;
    forall a | a in s.sent && a.answer.Some? ensures Issued(later, a.addr, a.answer.value) {
      var c := a.answer.value;
      assert Issued(signers, a.addr, c);
      assert Extends(signers[c.signerId], later[c.signerId]);
    }
    forall a | a in s.answered && a.answer.Some?
      ensures Answered(config, later, s.message, s.chosen.value.commitments, a.addr, a.answer.value)
    {
      AnsweredLater(config, signers, later, s.message, s.chosen.value.commitments, a.addr, a.answer.value);
    }
  }

  lemma DealtLater<E(!new)>(config: Config<E>, f: seq<Scalar>, signers: map<uint16, SignerState<E>>,
                            later: map<uint16, SignerState<E>>)
    requires Later(signers, later) && Dealt(config, f, signers)
    ensures Dealt(config, f, later)
  {
    hide Eval, Red;
    forall id | id in later ensures DealtTo(config, f, id, later[id]) {
      assert DealtTo(config, f, id, signers[id]) && Extends(signers[id], later[id]);
    }
  }

  // ----- the two handlers keep the books

  lemma ExtendsSelf<E>(st: SignerState<E>)
    ensures Extends(st, st)
  {}

  lemma LaterAt<E>(signers: map<uint16, SignerState<E>>, id: uint16, st: SignerState<E>)
    requires id in signers && Extends(signers[id], st)
    ensures Later(signers, signers[id := st])
  {
    hide Extends;
    forall i | i in signers ensures Extends(signers[i], signers[id := st][i]) {
      ExtendsSelf(signers[i]);
    }
  }

  /** A signer's state changes without using a nonce. */
  lemma BooksUnspent<E(!new)>(config: Config<E>, w: World<E>, id: uint16, st: SignerState<E>)
    requires BooksInv(config, w) && id in w.signers
    requires st.id == id && st.spent == w.signers[id].spent && SignerInv(config.group, st)
    ensures BooksInv(config, w.(signers := w.signers[id := st]))
  {
    hide SignerInv;
  }

  lemma AfterCommitKeeps<E(!new)>(config: Config<E>, w: World<E>, id: uint16, cid: nat, nonce: Nonce)
    requires BooksInv(config, w) && id in w.signers && cid !in w.signers[id].issued
    ensures var v := AfterCommit(config, w, id, cid, nonce);
      && BooksInv(config, v) && Later(w.signers, v.signers) && v.sessions == w.sessions
      && Issued(v.signers, id, CommitmentFor(config.group, id, cid, nonce))
  {
    hide SignerInv, Extends, Later;
    var st := w.signers[id];
    assert st.id == id && SignerInv(config.group, st);
    CommitKeeps(config.group, st, cid, nonce);
    BooksUnspent(config, w, id, Committed(config.group, st, cid, nonce));
    LaterAt(w.signers, id, Committed(config.group, st, cid, nonce));
  }

  /** The use of a nonce is new. */
  lemma UsesGrow<E(!new)>(config: Config<E>, w: World<E>, id: uint16, cid: nat, st: SignerState<E>, nonce: Nonce)
    requires BooksInv(config, w) && id in w.signers && cid !in w.signers[id].spent
    requires st.id == id && st.spent == w.signers[id].spent[cid := nonce] && SignerInv(config.group, st)
    ensures BooksInv(config, w.(signers := w.signers[id := st], uses := w.uses + [(id, cid)]))
  {
    hide SignerInv;
    var v := w.(signers := w.signers[id := st], uses := w.uses + [(id, cid)]);
    assert (id, cid) !in w.uses;
    forall i, j | 0 <= i < j < |v.uses| ensures v.uses[i] != v.uses[j] {
      if j == |w.uses| { assert v.uses[i] in w.uses; }
    }
    forall i, c ensures (i, c) in v.uses <==> i in v.signers && c in v.signers[i].spent {
      assert (i, c) in v.uses <==> (i, c) in w.uses || (i, c) == (id, cid);
    }
  }

  lemma AfterSignKeeps<E(!new)>(config: Config<E>, w: World<E>, id: uint16, message: string,
                                list: seq<NonceCommitment<E>>)
    requires BooksInv(config, w) && id in w.signers
    ensures var v := AfterSign(config, w, id, message, list);
      && BooksInv(config, v) && Later(w.signers, v.signers) && v.sessions == w.sessions
  {
    hide SignerInv, Signed, SortBySigner, ContextOf, Context.Share, Extends, Later, BooksInv;
    var st := w.signers[id];
    assert st.id == id && SignerInv(config.group, st) by { BooksAt(config, w, id); }
    SignKeeps(config, st, message, list);
    var (later, r) := Signed(config, st, message, list);
    SignedId(config, st, message, list);
    LaterAt(w.signers, id, later);
    if r.Ok? {
      var cid := EntryOf(SortBySigner(list), id).value.commitmentId;
      UsesGrow(config, w, id, cid, later, st.outstanding[cid]);
    } else {
      BooksUnspent(config, w, id, later);
    }
  }

  lemma BooksAt<E(!new)>(config: Config<E>, w: World<E>, id: uint16)
    requires BooksInv(config, w) && id in w.signers
    ensures w.signers[id].id == id && SignerInv(config.group, w.signers[id])
  {}

  lemma SignedId<E(!new)>(config: Config<E>, st: SignerState<E>, message: string, list: seq<NonceCommitment<E>>)
    ensures Signed(config, st, message, list).0.id == st.id
  {
    hide ContextOf, Refusal, EntryOf, Context.Share;
  }

  /** The answer to a session's own request. */
  lemma AnsweredBy<E(!new)>(config: Config<E>, w: World<E>, id: uint16, message: string, list: seq<NonceCommitment<E>>)
    requires BooksInv(config, w) && id in w.signers
    requires Signed(config, w.signers[id], message, list).1.Ok?
    ensures Answered(config, AfterSign(config, w, id, message, list).signers, message, list, id,
                     Signed(config, w.signers[id], message, list).1.value)
  {
    hide Signed, SortBySigner, ContextOf, Context.Share;
    var st, v := w.signers[id], AfterSign(config, w, id, message, list);
    SignKeeps(config, st, message, list);
    var c := EntryOf(SortBySigner(list), id).value;
    SortSorts(list);
    assert c in multiset(SortBySigner(list));
    assert c in list;
    assert SignerInv(config.group, st);
    assert Spent(config.group, v.signers, c);
  }

  // ----- what each event does to its session

  lemma DistinctGrows<T>(arrivals: seq<Arrival<T>>, a: Arrival<T>)
    requires DistinctAddresses(arrivals) && forall k | 0 <= k < |arrivals| :: arrivals[k].addr != a.addr
    ensures DistinctAddresses(arrivals + [a])
  {}

  lemma ArrivalKeeps<E(!new)>(config: Config<E>, signers: map<uint16, SignerState<E>>, s: Session<E>, id: uint16,
                              answer: Option<NonceCommitment<E>>)
    requires SessionInv(config, signers, s) && s.chosen.None? && s.outcome.Pending? && !Heard(s.sent, id)
    requires answer.Some? ==> Issued(signers, id, answer.value)
    ensures SessionInv(config, signers, s.(sent := s.sent + [Arrival(id, answer)]))
  {
    hide Issued;
    DistinctGrows(s.sent, Arrival(id, answer));
  }

  lemma ReceiveKeeps<E(!new)>(config: Config<E>, signers: map<uint16, SignerState<E>>, s: Session<E>, k: nat)
    requires SessionInv(config, signers, s) && s.chosen.None? && s.outcome.Pending?
    requires k < |s.sent| && !Heard(s.arrivals, s.sent[k].addr)
    ensures SessionInv(config, signers, s.(arrivals := s.arrivals + [s.sent[k]]))
  {
    hide Issued;
    DistinctGrows(s.arrivals, s.sent[k]);
  }

  lemma ChooseKeeps<E(!new)>(config: Config<E>, signers: map<uint16, SignerState<E>>, s: Session<E>)
    requires SessionInv(config, signers, s) && s.chosen.None? && s.outcome.Pending?
    ensures Selected(s.arrivals, config.threshold).Ok? ==>
      SessionInv(config, signers, s.(chosen := Some(Selected(s.arrivals, config.threshold).value)))
    ensures Selected(s.arrivals, config.threshold).Err? ==>
      SessionInv(config, signers, s.(outcome := TooFewSigners(Selected(s.arrivals, config.threshold).error)))
  {
    hide Issued, Selected, Answered;
  }

  lemma AnswerKeeps<E(!new)>(config: Config<E>, signers: map<uint16, SignerState<E>>, s: Session<E>, id: uint16,
                             answer: Option<SignatureShare>)
    requires SessionInv(config, signers, s) && s.chosen.Some? && id in s.chosen.value.activeSigners
      && !Heard(s.answered, id)
    requires answer.Some? ==> Answered(config, signers, s.message, s.chosen.value.commitments, id, answer.value)
    ensures SessionInv(config, signers, s.(answered := s.answered + [Arrival(id, answer)]))
  {
    hide Answered, Selected, Issued, Context.Verifies;
    DistinctGrows(s.answered, Arrival(id, answer));
  }

  lemma ReceiveShareKeeps<E(!new)>(config: Config<E>, signers: map<uint16, SignerState<E>>, s: Session<E>, k: nat)
    requires SessionInv(config, signers, s) && s.outcome.Pending?
    requires k < |s.answered| && !Heard(s.answers, s.answered[k].addr)
    ensures SessionInv(config, signers, s.(answers := s.answers + [s.answered[k]]))
  {
    hide Answered, Selected, Issued, Context.Verifies;
    DistinctGrows(s.answers, s.answered[k]);
  }

  // ----- finishing

  lemma StillThere<E>(order: seq<NonceCommitment<E>>, list: seq<NonceCommitment<E>>, i: nat, k: nat)
    requires DistinctSigners(order) && (forall c <- order :: c in list)
    requires i < |list| && 1 <= k < |order| && list[i] == order[0]
    ensures order[k] in Without(list, i)
  {
    assert order[k] in list && order[0].signerId != order[k].signerId;
    var l :| 0 <= l < |list| && list[l] == order[k];
    assert Without(list, i)[if l < i then l else l - 1] == order[k];
  }

  lemma WithoutDistinct<E>(list: seq<NonceCommitment<E>>, i: nat)
    requires DistinctSigners(list) && i < |list|
    ensures DistinctSigners(Without(list, i))
  {}

  lemma {:induction false} SameSigners<E>(order: seq<NonceCommitment<E>>, list: seq<NonceCommitment<E>>)
    requires DistinctSigners(order) && DistinctSigners(list) && |order| == |list|
    requires forall c <- order :: c in list
    ensures multiset(order) == multiset(list)
    decreases |order|
  {
    hide Without;
    if order != [] {
      assert order[0] in list;
      var i :| 0 <= i < |list| && list[i] == order[0];
      forall c | c in order[1..] ensures c in Without(list, i) {
        var k :| 0 <= k < |order| - 1 && order[1..][k] == c;
        StillThere(order, list, i, k + 1);
      }
      WithoutDistinct(list, i);
      SameSigners(order[1..], Without(list, i));
      MultisetSplit(list, i);
      assert order == [order[0]] + order[1..];
    }
  }

  /** The chosen commitments belong to different signers, the active ones, in the same order. */
  lemma ChosenDistinct<E(!new)>(config: Config<E>, signers: map<uint16, SignerState<E>>, s: Session<E>)
    requires GatherInv(config, signers, s) && s.chosen.Some?
    ensures var g := s.chosen.value;
      && |g.commitments| == |g.activeSigners| == config.threshold
      && DistinctSigners(g.commitments)
      && (forall k | 0 <= k < |g.commitments| :: g.commitments[k].signerId == g.activeSigners[k])
      && (forall k | 0 <= k < |g.commitments| :: Issued(signers, g.activeSigners[k], g.commitments[k]))
  {
    hide Selected;
    SelectedPairs(s.arrivals, config.threshold);
    var g := s.chosen.value;
    forall k | 0 <= k < |g.commitments| ensures Issued(signers, g.activeSigners[k], g.commitments[k]) {
      assert Arrival(g.activeSigners[k], Some(g.commitments[k])) in s.arrivals;
    }
  }

  /** The chosen commitments in the order in which their signers answered. */
  function AnswerOrder<E>(list: seq<NonceCommitment<E>>,
                          answers: seq<Arrival<SignatureShare>>): (r: seq<NonceCommitment<E>>)
    requires forall k | 0 <= k < |answers| :: 0 <= answers[k].addr < 0x1_0000 && EntryOf(list, answers[k].addr).Some?
    ensures |r| == |answers|
  {
    seq(|answers|, k requires 0 <= k < |answers| => EntryOf(list, answers[k].addr).value)
  }

  lemma AnswerOf<E(!new)>(config: Config<E>, signers: map<uint16, SignerState<E>>, s: Session<E>, k: nat)
    requires SessionInv(config, signers, s) && s.chosen.Some? && k < |s.answers| && s.answers[k].answer.Some?
    ensures
      var list := s.chosen.value.commitments;
      && s.answers[k].addr < 0x1_0000 && EntryOf(list, s.answers[k].addr).Some?
      && Spent(config.group, signers, EntryOf(list, s.answers[k].addr).value)
      && s.answers[k].answer.value
         == ShareFor(ContextOf(config, s.message, list), signers, EntryOf(list, s.answers[k].addr).value)
  {
    hide Spent, ShareFor, ContextOf, OutcomeInv, Selected, Issued, EntryOf;
    var list := s.chosen.value.commitments;
    assert Answered(config, signers, s.message, list, s.answers[k].addr, s.answers[k].answer.value);
    var c :| c in list && c.signerId == s.answers[k].addr && Spent(config.group, signers, c)
      && s.answers[k].answer.value == ShareFor(ContextOf(config, s.message, list), signers, c);
    ChosenDistinct(config, signers, s);
    var i :| 0 <= i < |list| && list[i] == c;
    EntryFound(list, i);
  }

  lemma OrderPermutes<E(!new)>(config: Config<E>, signers: map<uint16, SignerState<E>>, s: Session<E>)
    requires SessionInv(config, signers, s) && s.chosen.Some?
    requires |s.answers| == |s.chosen.value.activeSigners| && forall a <- s.answers :: a.answer.Some?
    ensures forall k | 0 <= k < |s.answers| ::
      s.answers[k].addr < 0x1_0000 && EntryOf(s.chosen.value.commitments, s.answers[k].addr).Some?
    ensures multiset(AnswerOrder(s.chosen.value.commitments, s.answers)) == multiset(s.chosen.value.commitments)
  {
    hide Spent, ShareFor, ContextOf, Selected, Issued, Answered, OutcomeInv;
    var list := s.chosen.value.commitments;
    ChosenDistinct(config, signers, s);
    forall k | 0 <= k < |s.answers| ensures s.answers[k].addr < 0x1_0000 && EntryOf(list, s.answers[k].addr).Some? {
      AnswerOf(config, signers, s, k);
    }
    var order := AnswerOrder(list, s.answers);
    forall c | c in order ensures c in list {
      var k :| 0 <= k < |order| && order[k] == c;
    }
    SameSigners(order, list);
  }

  /** A session whose active signers have all answered aggregates to a verifying signature. */
  lemma FinishVerifies<E(!new)>(config: Config<E>, f: seq<Scalar>, signers: map<uint16, SignerState<E>>, s: Session<E>)
    requires config.group.Lawful() && config.threshold <= config.maxSigners && Dealt(config, f, signers)
    requires SessionInv(config, signers, s) && s.chosen.Some?
    requires |s.answers| == |s.chosen.value.activeSigners| && forall a <- s.answers :: a.answer.Some?
    ensures
      var list := s.chosen.value.commitments;
      var r := Aggregate(config, s.message, Answers(s.answers), list);
      r.Ok? && ContextOf(config, s.message, list).Verifies(r.value)
  {
    hide Spent, ShareFor, ContextOf, Selected, Issued, Answered, OutcomeInv, Group.Lawful, Dealt, SessionInv,
      Aggregate, EntryOf;
    var list := s.chosen.value.commitments;
    OrderPermutes(config, signers, s);
    ChosenOf(config, signers, s);
    var order := AnswerOrder(list, s.answers);
    forall k | 0 <= k < |order|
      ensures Spent(config.group, signers, order[k])
      ensures Answers(s.answers)[k] == ShareFor(ContextOf(config, s.message, list), signers, order[k])
    {
      assert s.answers[k] in s.answers;
      AnswerOf(config, signers, s, k);
    }
    forall c | c in list ensures Spent(config.group, signers, c) {
      assert c in multiset(order);
    }
    HonestAggregate(config, f, signers, s.message, list, order, Answers(s.answers));
  }

  lemma ChosenOf<E(!new)>(config: Config<E>, signers: map<uint16, SignerState<E>>, s: Session<E>)
    requires SessionInv(config, signers, s) && s.chosen.Some?
    ensures |s.chosen.value.commitments| == config.threshold && DistinctSigners(s.chosen.value.commitments)
  {
    hide Selected, Issued;
    ChosenDistinct(config, signers, s);
  }

  lemma FinishKeeps<E(!new)>(config: Config<E>, f: seq<Scalar>, signers: map<uint16, SignerState<E>>, s: Session<E>)
    requires config.group.Lawful() && config.threshold <= config.maxSigners && Dealt(config, f, signers)
    requires SessionInv(config, signers, s) && s.chosen.Some?
    requires Shares(s.answers).Err? || |s.answers| == |s.chosen.value.activeSigners|
    ensures SessionInv(config, signers, s.(outcome := Finished(config, s)))
  {
    hide Issued, Answered, Selected, Aggregate, Dealt, Group.Lawful, ContextOf, Context.Verifies, Shares;
    SharesOkIff(s.answers);
    if Shares(s.answers).Ok? {
      FinishVerifies(config, f, signers, s);
    }
  }
}
