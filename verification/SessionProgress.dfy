/** Progress of a signing session: it can always go on, only finitely often, and when none of its calls
    is lost it ends with a signature. */
module SessionProgress {
  import opened Wrappers
  import opened Zq
  import opened Sums
  import opened Wire
  import opened Group
  import opened Frost
  import opened CommitmentList
  import opened Signers
  import opened Gather
  import opened HonestSigning
  import opened SigningSystem
  import opened SigningSafety
  import opened SigningRuns
  import opened Isolation
  import opened ProxyRuns

  // ----- counting addresses

  function Senders<T>(arrivals: seq<Arrival<T>>): set<int> {
    set k | 0 <= k < |arrivals| :: arrivals[k].addr
  }

  lemma {:induction false} SendersCounted<T>(arrivals: seq<Arrival<T>>)
    requires DistinctAddresses(arrivals)
    ensures |Senders(arrivals)| == |arrivals|
  {
    if arrivals == [] {
      assert Senders(arrivals) == {};
    } else {
      var n := |arrivals| - 1;
      SendersCounted(arrivals[..n]);
      assert Senders(arrivals) == Senders(arrivals[..n]) + {arrivals[n].addr};
      assert arrivals[n].addr !in Senders(arrivals[..n]);
    }
  }

  lemma SubsetCounted(a: set<int>, b: set<int>)
    requires a <= b
    ensures |a| <= |b|
  {
    assert b == a + (b - a);
    assert |b| == |a| + |b - a|;
  }

  lemma OneMissing(a: set<int>, b: set<int>) returns (x: int)
    requires a <= b && |a| < |b|
    ensures x in b && x !in a
  {
    var rest := b - a;
    assert b == a + rest && |b| == |a| + |rest|;
    x := AnElement(rest);
  }

  lemma AnElement<T>(s: set<T>) returns (x: T)
    requires s != {}
    ensures x in s
  {
    x :| x in s;
  }

  /** Distinct senders out of `all` are at most so many, and if they are fewer one is missing. */
  lemma SendersOutOf<T>(arrivals: seq<Arrival<T>>, all: set<int>)
    requires DistinctAddresses(arrivals) && forall a <- arrivals :: a.addr in all
    ensures |arrivals| <= |all|
    ensures |arrivals| < |all| ==> exists id <- all :: forall k | 0 <= k < |arrivals| :: arrivals[k].addr != id
  {
    SendersCounted(arrivals);
    assert Senders(arrivals) <= all by {
      forall x | x in Senders(arrivals) ensures x in all {
        var k :| 0 <= k < |arrivals| && arrivals[k].addr == x;
        assert arrivals[k] in arrivals;
      }
    }
    SubsetCounted(Senders(arrivals), all);
    if |arrivals| < |all| {
      var id := OneMissing(Senders(arrivals), all);
      assert forall k | 0 <= k < |arrivals| :: arrivals[k].addr != id;
    }
  }

  /** What was received is at most what was sent, and if it is less something is still to be received. */
  lemma ReceivedOutOf<T>(received: seq<Arrival<T>>, sent: seq<Arrival<T>>)
    requires DistinctAddresses(received) && DistinctAddresses(sent) && forall a <- received :: a in sent
    ensures |received| <= |sent|
    ensures |received| < |sent| ==> exists k :: 0 <= k < |sent| && !Heard(received, sent[k].addr)
  {
    SendersCounted(sent);
    forall a | a in received ensures a.addr in Senders(sent) {
      var k :| 0 <= k < |sent| && sent[k] == a;
    }
    SendersOutOf(received, Senders(sent));
    if |received| < |sent| {
      var id :| id in Senders(sent) && forall k | 0 <= k < |received| :: received[k].addr != id;
      var k :| 0 <= k < |sent| && sent[k].addr == id;
      assert !Heard(received, sent[k].addr);
    }
  }

  ghost function Above(ids: set<nat>): (b: nat)
    ensures forall x <- ids :: x < b
  {
    if ids == {} then 0
    else
      var x :| x in ids;
      var b := Above(ids - {x});
      assert forall y <- ids :: y == x || y in ids - {x};
      if b <= x then x + 1 else b
  }

  // ----- what a session has heard of

  ghost predicate KnownSession<E>(signers: map<uint16, SignerState<E>>, s: Session<E>) {
    && (forall a <- s.sent :: a.addr in signers.Keys)
    && (s.chosen.Some? || !s.outcome.Pending? ==> |s.arrivals| == |signers|)
  }

  ghost predicate Known<E>(w: World<E>) {
    forall p | 0 <= p < |w.sessions| :: KnownSession(w.signers, w.sessions[p])
  }

  lemma KnownLater<E>(signers: map<uint16, SignerState<E>>, later: map<uint16, SignerState<E>>, s: Session<E>)
    requires later.Keys == signers.Keys && KnownSession(signers, s)
    ensures KnownSession(later, s)
  {
    assert |later| == |later.Keys| == |signers.Keys| == |signers|;
  }

  lemma SameKeys<E(!new)>(config: Config<E>, w: World<E>, e: Event<E>)
    requires BooksInv(config, w) && Enabled(w, e)
    ensures Next(config, w, e).signers.Keys == w.signers.Keys
  {
    hide BooksInv, Next, Enabled;
    StepGrows(config, w, e);
  }

  /** The session after an event. */
  lemma KnownAfter<E(!new)>(config: Config<E>, w: World<E>, e: Event<E>, p: nat)
    requires Enabled(w, e) && p < |Next(config, w, e).sessions|
    requires p < |w.sessions| ==> KnownSession(w.signers, w.sessions[p])
    ensures KnownSession(w.signers, Next(config, w, e).sessions[p])
  {
    hide Signed, AfterSign, Committed, CommitmentFor, Selected, Finished, Shares, Heard;
    match e {
      case Sign(q, id, _) => SignSessions(config, w, id, w.sessions[q].message, w.sessions[q].chosen.value.commitments);
      case OtherSign(id, message, list) => SignSessions(config, w, id, message, list);
      case _ =>
    }
  }

  lemma KnownStep<E(!new)>(config: Config<E>, w: World<E>, e: Event<E>)
    requires BooksInv(config, w) && Known(w) && Enabled(w, e)
    ensures Known(Next(config, w, e))
  {
    hide BooksInv, Next, Enabled, KnownSession;
    SameKeys(config, w, e);
    var v := Next(config, w, e);
    forall p | 0 <= p < |v.sessions| ensures KnownSession(v.signers, v.sessions[p]) {
      KnownAfter(config, w, e, p);
      KnownLater(w.signers, v.signers, v.sessions[p]);
    }
  }

  lemma {:induction false} RunKnown<E(!new)>(config: Config<E>, f: seq<Scalar>, worlds: seq<World<E>>,
                                             events: seq<Event<E>>, i: nat)
    requires Sound(config) && Behaviour(config, f, worlds, events) && i < |worlds|
    ensures Known(worlds[i]) && Good(config, f, worlds[i])
  {
    hide Good, Next, Enabled, Sound, Known, Dealt;
    RunGood(config, f, worlds, events, i);
    if i == 0 {
      assert Known(worlds[0]) by { NothingKnown(config, f, worlds[0]); }
    } else {
      RunKnown(config, f, worlds, events, i - 1);
      assert Enabled(worlds[i - 1], events[i - 1]) && worlds[i - 1 + 1] == Next(config, worlds[i - 1], events[i - 1]);
      assert BooksInv(config, worlds[i - 1]) by { GoodBooks(config, f, worlds[i - 1]); }
      KnownStep(config, worlds[i - 1], events[i - 1]);
    }
  }

  lemma NothingKnown<E(!new)>(config: Config<E>, f: seq<Scalar>, w: World<E>)
    requires Initial(config, f, w)
    ensures Known(w)
  {
    hide Dealt;
  }

  lemma GoodBooks<E(!new)>(config: Config<E>, f: seq<Scalar>, w: World<E>)
    requires Good(config, f, w)
    ensures BooksInv(config, w)
  {}

  // ----- a session can always go on, and only finitely often

  predicate OfSession<E>(e: Event<E>, p: nat) {
    match e
    case Commit(q, _, _, _, _) => q == p
    case CommitFails(q, _) => q == p
    case Receive(q, _) => q == p
    case Choose(q) => q == p
    case Sign(q, _, _) => q == p
    case SignFails(q, _) => q == p
    case ReceiveShare(q, _) => q == p
    case Finish(q) => q == p
    case _ => false
  }

  /** The event is no lost call. */
  predicate Delivers<E>(e: Event<E>) {
    match e
    case Commit(_, _, _, _, delivered) => delivered
    case CommitFails(_, _) => false
    case Sign(_, _, delivered) => delivered
    case SignFails(_, _) => false
    case _ => true
  }

  /** How many more events a pending session can have. */
  ghost function Budget<E>(threshold: nat, n: nat, s: Session<E>): int {
    if !s.outcome.Pending? then 0
    else if s.chosen.None? then 2 * n - |s.sent| - |s.arrivals| + 2 * threshold + 2
    else 2 * threshold - |s.answered| - |s.answers| + 1
  }

  ghost predicate Bounded<E>(threshold: nat, n: nat, s: Session<E>) {
    && |s.arrivals| <= |s.sent| <= n
    && |s.answers| <= |s.answered|
    && (s.chosen.Some? ==> |s.answered| <= |s.chosen.value.activeSigners| == threshold)
    && (s.chosen.None? ==> s.answered == [] && s.answers == [])
  }

  function AsSet(ids: seq<nat>): set<int> {
    set k | 0 <= k < |ids| :: ids[k]
  }

  lemma {:induction false} AsSetCounted(ids: seq<nat>)
    ensures |AsSet(ids)| <= |ids|
    ensures (forall k, l | 0 <= k < l < |ids| :: ids[k] != ids[l]) ==> |AsSet(ids)| == |ids|
  {
    if ids == [] {
      assert AsSet(ids) == {};
    } else {
      var n := |ids| - 1;
      AsSetCounted(ids[..n]);
      assert AsSet(ids) == AsSet(ids[..n]) + {ids[n]};
    }
  }

  lemma SessionBounded<E(!new)>(config: Config<E>, signers: map<uint16, SignerState<E>>, s: Session<E>)
    requires SessionInv(config, signers, s) && KnownSession(signers, s)
    ensures Bounded(config.threshold, |signers|, s)
  {
    hide Selected, Issued, Answered, OutcomeInv;
    var keys: set<int> := signers.Keys;
    assert |keys| == |signers|;
    SendersOutOf(s.sent, keys);
    ReceivedOutOf(s.arrivals, s.sent);
    ReceivedOutOf(s.answers, s.answered);
    if s.chosen.Some? {
      ChosenDistinct(config, signers, s);
      var active := s.chosen.value.activeSigners;
      AsSetCounted(active);
      forall a | a in s.answered ensures a.addr in AsSet(active) {
        var k :| 0 <= k < |active| && active[k] == a.addr;
      }
      SendersOutOf(s.answered, AsSet(active));
    }
  }

  lemma FinishedNotPending<E(!new)>(config: Config<E>, s: Session<E>)
    requires s.chosen.Some?
    ensures !Finished(config, s).Pending?
  {
    hide Shares, Aggregate;
  }

  /** An event of another session or of another client leaves the session as it is, and an event of its
      own, while it is pending, uses up its budget. */
  lemma BudgetFalls<E(!new)>(config: Config<E>, w: World<E>, e: Event<E>, p: nat)
    requires Enabled(w, e) && p < |w.sessions| && Bounded(config.threshold, |w.signers|, w.sessions[p])
    ensures p < |Next(config, w, e).sessions|
    ensures !OfSession(e, p) ==> Next(config, w, e).sessions[p] == w.sessions[p]
    ensures OfSession(e, p) && w.sessions[p].outcome.Pending? ==>
      Budget(config.threshold, |w.signers|, Next(config, w, e).sessions[p])
      < Budget(config.threshold, |w.signers|, w.sessions[p])
  {
    hide Signed, AfterSign, Committed, CommitmentFor, Selected, Finished, Shares, Heard;
    match e {
      case Finish(q) => FinishedNotPending(config, w.sessions[q]);
      case Sign(q, id, _) => SignSessions(config, w, id, w.sessions[q].message, w.sessions[q].chosen.value.commitments);
      case OtherSign(id, message, list) => SignSessions(config, w, id, message, list);
      case _ =>
    }
  }

  /** Some event of the session is possible in which nothing is lost. */
  ghost predicate CanGoOn<E(!new)>(w: World<E>, p: nat) {
    exists e: Event<E> :: OfSession(e, p) && Delivers(e) && Enabled(w, e)
  }

  lemma CanCommit<E(!new)>(w: World<E>, p: nat, id: uint16)
    requires AwaitsCommitment(w, p, id)
    ensures CanGoOn(w, p)
  {
    var cid := Above(w.signers[id].issued.Keys);
    assert cid !in w.signers[id].issued;
    var e: Event<E> := Commit(p, id, cid, Nonce(0, 0), true);
    assert OfSession(e, p) && Delivers(e) && Enabled(w, e);
  }

  lemma GatheringGoesOn<E(!new)>(config: Config<E>, w: World<E>, p: nat)
    requires p < |w.sessions| && w.sessions[p].chosen.None? && w.sessions[p].outcome.Pending?
    requires SessionInv(config, w.signers, w.sessions[p]) && KnownSession(w.signers, w.sessions[p])
    ensures CanGoOn(w, p)
  {
    hide Selected, Issued, Answered, OutcomeInv, AnswerInv;
    var s := w.sessions[p];
    var keys: set<int> := w.signers.Keys;
    SendersOutOf(s.sent, keys);
    ReceivedOutOf(s.arrivals, s.sent);
    if |s.sent| < |w.signers| {
      assert |keys| == |w.signers|;
      var id :| id in keys && forall k | 0 <= k < |s.sent| :: s.sent[k].addr != id;
      assert !Heard(s.sent, id);
      CanCommit(w, p, id);
    } else if |s.arrivals| < |s.sent| {
      var k :| 0 <= k < |s.sent| && !Heard(s.arrivals, s.sent[k].addr);
      var e: Event<E> := Receive(p, k);
      assert OfSession(e, p) && Delivers(e) && Enabled(w, e);
    } else {
      var e: Event<E> := Choose(p);
      assert OfSession(e, p) && Delivers(e) && Enabled(w, e);
    }
  }

  lemma ActiveKnown<E(!new)>(config: Config<E>, w: World<E>, p: nat, id: int)
    requires p < |w.sessions| && w.sessions[p].chosen.Some? && id in AsSet(w.sessions[p].chosen.value.activeSigners)
    requires SessionInv(config, w.signers, w.sessions[p])
    ensures 0 <= id < 0x1_0000 && id in w.signers && id in w.sessions[p].chosen.value.activeSigners
  {
    hide Selected, Answered, OutcomeInv, AnswerInv;
    var s := w.sessions[p];
    ChosenDistinct(config, w.signers, s);
    var active := s.chosen.value.activeSigners;
    var k :| 0 <= k < |active| && active[k] == id;
    assert Issued(w.signers, active[k], s.chosen.value.commitments[k]);
  }

  lemma SigningGoesOn<E(!new)>(config: Config<E>, w: World<E>, p: nat)
    requires p < |w.sessions| && w.sessions[p].chosen.Some? && w.sessions[p].outcome.Pending?
    requires SessionInv(config, w.signers, w.sessions[p]) && KnownSession(w.signers, w.sessions[p])
    ensures CanGoOn(w, p)
  {
    hide Selected, Issued, Answered, OutcomeInv, GatherInv, Shares;
    var s := w.sessions[p];
    var active := s.chosen.value.activeSigners;
    SessionBounded(config, w.signers, s);
    ReceivedOutOf(s.answers, s.answered);
    if Shares(s.answers).Err? || |s.answers| == |active| {
      var e: Event<E> := Finish(p);
      assert OfSession(e, p) && Delivers(e) && Enabled(w, e);
    } else if |s.answers| < |s.answered| {
      var k :| 0 <= k < |s.answered| && !Heard(s.answers, s.answered[k].addr);
      var e: Event<E> := ReceiveShare(p, k);
      assert OfSession(e, p) && Delivers(e) && Enabled(w, e);
    } else {
      var id := MissingShare(config, w, p);
      var e: Event<E> := Sign(p, id, true);
      assert OfSession(e, p) && Delivers(e) && Enabled(w, e);
    }
  }

  lemma MissingShare<E(!new)>(config: Config<E>, w: World<E>, p: nat) returns (id: uint16)
    requires p < |w.sessions| && w.sessions[p].chosen.Some? && SessionInv(config, w.signers, w.sessions[p])
    requires |w.sessions[p].answered| < |w.sessions[p].chosen.value.activeSigners|
    ensures AwaitsShare(w, p, id)
  {
    hide Selected, Issued, Answered, OutcomeInv;
    var s := w.sessions[p];
    var active := s.chosen.value.activeSigners;
    ActiveDistinct(config, w.signers, s);
    AsSetCounted(active);
    forall a | a in s.answered ensures a.addr in AsSet(active) {
      var k :| 0 <= k < |active| && active[k] == a.addr;
    }
    SendersOutOf(s.answered, AsSet(active));
    var x :| x in AsSet(active) && forall k | 0 <= k < |s.answered| :: s.answered[k].addr != x;
    ActiveKnown(config, w, p, x);
    id := x;
    assert !Heard(s.answered, id);
  }

  lemma ActiveDistinct<E(!new)>(config: Config<E>, signers: map<uint16, SignerState<E>>, s: Session<E>)
    requires SessionInv(config, signers, s) && s.chosen.Some?
    ensures var active := s.chosen.value.activeSigners;
      forall k, l | 0 <= k < l < |active| :: active[k] != active[l]
  {
    hide Issued, Selected;
    SelectedPairs(s.arrivals, config.threshold);
  }

  /** In every state of every run: a pending session can go on, and its budget is positive. */
  lemma SessionNotStuck<E(!new)>(config: Config<E>, f: seq<Scalar>, worlds: seq<World<E>>, events: seq<Event<E>>,
                                 i: nat, p: nat)
    requires Sound(config) && Behaviour(config, f, worlds, events) && i < |worlds|
    requires p < |worlds[i].sessions| && worlds[i].sessions[p].outcome.Pending?
    ensures CanGoOn(worlds[i], p)
    ensures 0 < Budget(config.threshold, |worlds[i].signers|, worlds[i].sessions[p])
    ensures Budget(config.threshold, |worlds[i].signers|, worlds[i].sessions[p])
            <= 2 * |worlds[i].signers| + 2 * config.threshold + 2
    ensures Bounded(config.threshold, |worlds[i].signers|, worlds[i].sessions[p])
  {
    hide Sound, Behaviour, BooksInv, SessionInv, KnownSession, CanGoOn, Dealt;
    RunKnown(config, f, worlds, events, i);
    var w := worlds[i];
    assert SessionInv(config, w.signers, w.sessions[p]) && KnownSession(w.signers, w.sessions[p]);
    SessionBounded(config, w.signers, w.sessions[p]);
    if w.sessions[p].chosen.None? { GatheringGoesOn(config, w, p); } else { SigningGoesOn(config, w, p); }
  }

  // ----- sessions none of whose calls is lost

  /** No other client sends /sign, and no /sign call of session `p` is lost. */
  ghost predicate SharesDelivered<E>(events: seq<Event<E>>, p: nat) {
    forall k | 0 <= k < |events| ::
      !events[k].OtherSign?
        && (OfSession(events[k], p) && (events[k].Sign? || events[k].SignFails?) ==> Delivers(events[k]))
  }

  /** No /commit call of session `p` is lost. */
  ghost predicate CommitsDelivered<E>(events: seq<Event<E>>, p: nat) {
    forall k | 0 <= k < |events| ::
      OfSession(events[k], p) && (events[k].Commit? || events[k].CommitFails?) ==> Delivers(events[k])
  }

  ghost predicate AllAnswered<T>(results: seq<Arrival<T>>) {
    forall a <- results :: a.answer.Some?
  }

  lemma AnsweredStep<E(!new)>(config: Config<E>, w: World<E>, e: Event<E>, p: nat)
    requires Enabled(w, e) && p < |Next(config, w, e).sessions|
    requires p < |w.sessions| ==> AllAnswered(w.sessions[p].answered)
    requires OfSession(e, p) && (e.Sign? || e.SignFails?) ==> Delivers(e)
    requires e.Sign? && e.p == p ==>
      Signed(config, w.signers[e.id], w.sessions[p].message, w.sessions[p].chosen.value.commitments).1.Ok?
    ensures AllAnswered(Next(config, w, e).sessions[p].answered)
  {
    hide Signed, AfterSign, Committed, CommitmentFor, Selected, Finished, Shares, Heard;
    match e {
      case Sign(q, id, _) => SignSessions(config, w, id, w.sessions[q].message, w.sessions[q].chosen.value.commitments);
      case OtherSign(id, message, list) => SignSessions(config, w, id, message, list);
      case _ =>
    }
  }

  lemma SentStep<E(!new)>(config: Config<E>, w: World<E>, e: Event<E>, p: nat)
    requires Enabled(w, e) && p < |Next(config, w, e).sessions|
    requires p < |w.sessions| ==> AllAnswered(w.sessions[p].sent)
    requires OfSession(e, p) && (e.Commit? || e.CommitFails?) ==> Delivers(e)
    ensures AllAnswered(Next(config, w, e).sessions[p].sent)
  {
    hide Signed, AfterSign, Committed, CommitmentFor, Selected, Finished, Shares, Heard;
    match e {
      case Sign(q, id, _) => SignSessions(config, w, id, w.sessions[q].message, w.sessions[q].chosen.value.commitments);
      case OtherSign(id, message, list) => SignSessions(config, w, id, message, list);
      case _ =>
    }
  }

  /** A request that a session of a run without foreign /sign sends is answered. */
  lemma RequestAnswered<E(!new)>(config: Config<E>, f: seq<Scalar>, worlds: seq<World<E>>, events: seq<Event<E>>,
                                 i: nat, p: nat, id: uint16)
    requires Sound(config) && Behaviour(config, f, worlds, events) && i < |worlds|
    requires forall k | 0 <= k < |events| :: !events[k].OtherSign?
    requires AwaitsShare(worlds[i], p, id)
    ensures Signed(config, worlds[i].signers[id], worlds[i].sessions[p].message,
                   worlds[i].sessions[p].chosen.value.commitments).1.Ok?
  {
    hide Sound, Behaviour, Signed, DistinctSigners, Issued;
    ActiveSignersCommitted(config, f, worlds, events, i, p);
    var g := worlds[i].sessions[p].chosen.value;
    var k :| 0 <= k < |g.activeSigners| && g.activeSigners[k] == id;
    assert g.commitments[k].signerId == id;
    NoRequestRefused(config, f, worlds, events, i, p, k);
  }

  lemma {:induction false} RunAnswered<E(!new)>(config: Config<E>, f: seq<Scalar>, worlds: seq<World<E>>,
                                                events: seq<Event<E>>, i: nat, p: nat)
    requires Sound(config) && Behaviour(config, f, worlds, events) && i < |worlds| && p < |worlds[i].sessions|
    ensures SharesDelivered(events, p) ==> AllAnswered(worlds[i].sessions[p].answered)
    ensures CommitsDelivered(events, p) ==> AllAnswered(worlds[i].sessions[p].sent)
  {
    hide Next, Enabled, Sound, Signed, AllAnswered, Dealt;
    if i > 0 {
      var w, e := worlds[i - 1], events[i - 1];
      assert Enabled(w, e) && worlds[i - 1 + 1] == Next(config, w, e);
      if p < |w.sessions| { RunAnswered(config, f, worlds, events, i - 1, p); }
      if SharesDelivered(events, p) {
        if e.Sign? && e.p == p {
          assert AwaitsShare(w, p, e.id) by { SignAwaits(w, e); }
          RequestAnswered(config, f, worlds, events, i - 1, p, e.id);
        }
        AnsweredStep(config, w, e, p);
      }
      if CommitsDelivered(events, p) { SentStep(config, w, e, p); }
    }
  }

  lemma SignAwaits<E>(w: World<E>, e: Event<E>)
    requires e.Sign? && Enabled(w, e)
    ensures AwaitsShare(w, e.p, e.id)
  {}

  /** In every run without foreign /sign requests in which no /sign call of a session is lost, the
      session never ends for want of a share, and when it is over it has a signature exactly when at
      least t signers have answered its /commit calls. */
  lemma DeliveredSessionSigns<E(!new)>(config: Config<E>, f: seq<Scalar>, worlds: seq<World<E>>,
                                       events: seq<Event<E>>, i: nat, p: nat)
    requires Sound(config) && Behaviour(config, f, worlds, events) && i < |worlds| && SharesDelivered(events, p)
    requires p < |worlds[i].sessions| && !worlds[i].sessions[p].outcome.Pending?
    ensures
      var s := worlds[i].sessions[p];
      !s.outcome.ShareMissing? && (s.outcome.Aggregated? <==> |Successes(s.arrivals)| >= config.threshold)
  {
    hide Sound, Behaviour, BooksInv, GatherInv, OutcomeInv, Dealt, Group.Lawful, Successes, SharesDelivered,
      CommitsDelivered;
    var w := worlds[i];
    RunAnswered(config, f, worlds, events, i, p);
    OutcomeIff(config, f, worlds, events, i, p);
    RunGood(config, f, worlds, events, i);
    assert SessionInv(config, w.signers, w.sessions[p]);
    assert forall a <- w.sessions[p].answers :: a.answer.Some?;
  }

  /** If none of its /commit calls is lost either, it has a signature exactly when there are t signers. */
  lemma UndisturbedSessionSigns<E(!new)>(config: Config<E>, f: seq<Scalar>, worlds: seq<World<E>>,
                                         events: seq<Event<E>>, i: nat, p: nat)
    requires Sound(config) && Behaviour(config, f, worlds, events) && i < |worlds|
    requires SharesDelivered(events, p) && CommitsDelivered(events, p)
    requires p < |worlds[i].sessions| && !worlds[i].sessions[p].outcome.Pending?
    ensures worlds[i].sessions[p].outcome.Aggregated? <==> |worlds[i].signers| >= config.threshold
  {
    hide Sound, Behaviour, BooksInv, AnswerInv, OutcomeInv, Dealt, Group.Lawful, Successes, SharesDelivered,
      CommitsDelivered, Issued, Selected;
    var w := worlds[i];
    var s := w.sessions[p];
    DeliveredSessionSigns(config, f, worlds, events, i, p);
    RunAnswered(config, f, worlds, events, i, p);
    RunKnown(config, f, worlds, events, i);
    assert SessionInv(config, w.signers, s) && KnownSession(w.signers, s);
    AllSucceed(s.arrivals);
  }

  lemma {:induction false} AllSucceed<T>(arrivals: seq<Arrival<T>>)
    requires forall a <- arrivals :: a.answer.Some?
    ensures Successes(arrivals) == arrivals
  {
    if arrivals != [] {
      var n := |arrivals| - 1;
      AllSucceed(arrivals[..n]);
      assert arrivals == arrivals[..n] + [arrivals[n]];
    }
  }

  // ----- a session's end in terms of what happened to its calls

  /** A /sign call of session `p` that does not reach the signer, or whose answer gets lost. */
  predicate LosesShare<E>(e: Event<E>, p: nat) {
    OfSession(e, p) && (e.Sign? || e.SignFails?) && !Delivers(e)
  }

  /** The /commit calls of session `p` among the first `i` events that got through both ways. */
  function DeliveredCommits<E>(events: seq<Event<E>>, i: nat, p: nat): set<nat> {
    set k: nat | k < i && k < |events| && events[k].Commit? && events[k].p == p && events[k].delivered
  }

  /** What an event adds to the results of a session's calls. */
  lemma ResultsAfter<E(!new)>(config: Config<E>, w: World<E>, e: Event<E>, p: nat)
    requires Enabled(w, e) && p < |Next(config, w, e).sessions|
    ensures OfSession(e, p) ==> p < |w.sessions|
    ensures p < |w.sessions| ==>
      var s, t := w.sessions[p], Next(config, w, e).sessions[p];
      && (|Successes(t.sent)| == |Successes(s.sent)| + if e.Commit? && e.p == p && e.delivered then 1 else 0)
      && t.answered == s.answered + (
        if e.Sign? && e.p == p then [Deliver(e.delivered, e.id,
          OkOption(Signed(config, w.signers[e.id], s.message, s.chosen.value.commitments).1))]
        else if e.SignFails? && e.p == p then [Arrival(e.id, None)] else [])
    ensures p >= |w.sessions| ==>
      Next(config, w, e).sessions[p].sent == [] && Next(config, w, e).sessions[p].answered == []
  {
    hide Signed, AfterSign, Committed, CommitmentFor, Selected, Finished, Shares, Heard, Successes;
    match e {
      case Commit(q, id, cid, nonce, delivered) =>
        SuccessesSnoc(w.sessions[q].sent,
          Deliver(delivered, id, Some(CommitmentFor(config.group, w.signers[id].id, cid, nonce))));
      case CommitFails(q, id) => SuccessesSnoc(w.sessions[q].sent, Arrival(id, None));
      case Sign(q, id, _) => SignSessions(config, w, id, w.sessions[q].message, w.sessions[q].chosen.value.commitments);
      case OtherSign(id, message, list) => SignSessions(config, w, id, message, list);
      case _ =>
    }
  }

  lemma CommitsGrow<E>(events: seq<Event<E>>, i: nat, p: nat)
    requires i < |events|
    ensures |DeliveredCommits(events, i + 1, p)| == |DeliveredCommits(events, i, p)|
      + if events[i].Commit? && events[i].p == p && events[i].delivered then 1 else 0
  {
    assert DeliveredCommits(events, i + 1, p) == DeliveredCommits(events, i, p)
      + if events[i].Commit? && events[i].p == p && events[i].delivered then {i} else {};
  }

  /** In every run a session has as many commitments as /commit calls that got through. */
  lemma {:induction false} RunSent<E(!new)>(config: Config<E>, f: seq<Scalar>, worlds: seq<World<E>>,
                                            events: seq<Event<E>>, i: nat, p: nat)
    requires Behaviour(config, f, worlds, events) && i < |worlds|
    ensures |DeliveredCommits(events, i, p)|
            == if p < |worlds[i].sessions| then |Successes(worlds[i].sessions[p].sent)| else 0
  {
    hide Next, Enabled, Successes, Dealt;
    if i == 0 {
      assert DeliveredCommits(events, 0, p) == {};
    } else {
      var w, e := worlds[i - 1], events[i - 1];
      assert Enabled(w, e) && worlds[i - 1 + 1] == Next(config, w, e);
      RunSent(config, f, worlds, events, i - 1, p);
      CommitsGrow(events, i - 1, p);
      SessionsStay(config, w, e);
      if p < |worlds[i].sessions| {
        ResultsAfter(config, w, e, p);
        assert Successes<NonceCommitment<E>>([]) == [] by { SuccessesNone<NonceCommitment<E>>(); }
      } else if OfSession(e, p) {
        OwnSession(w, e, p);
      }
    }
  }

  lemma SessionsStay<E(!new)>(config: Config<E>, w: World<E>, e: Event<E>)
    requires Enabled(w, e)
    ensures |w.sessions| <= |Next(config, w, e).sessions|
  {
    hide Next, Enabled;
    StepSessionsGrow(config, w, e);
  }

  lemma OwnSession<E>(w: World<E>, e: Event<E>, p: nat)
    requires Enabled(w, e) && OfSession(e, p)
    ensures p < |w.sessions|
  {}

  /** In every run without foreign /sign requests, a session has a share from every signer that has
      handled or missed its request exactly when none of its /sign calls was lost. */
  lemma {:induction false} RunAllAnswered<E(!new)>(config: Config<E>, f: seq<Scalar>, worlds: seq<World<E>>,
                                                   events: seq<Event<E>>, i: nat, p: nat)
    requires Sound(config) && Behaviour(config, f, worlds, events) && i < |worlds|
    requires forall k | 0 <= k < |events| :: !events[k].OtherSign?
    ensures p < |worlds[i].sessions| ==>
      (AllAnswered(worlds[i].sessions[p].answered) <==> forall k | 0 <= k < i :: !LosesShare(events[k], p))
    ensures p >= |worlds[i].sessions| ==> forall k | 0 <= k < i :: !LosesShare(events[k], p)
  {
    hide Next, Enabled, Sound, Signed, Dealt, LosesShare;
    if i > 0 {
      var w, e := worlds[i - 1], events[i - 1];
      assert Enabled(w, e) && worlds[i - 1 + 1] == Next(config, w, e);
      RunAllAnswered(config, f, worlds, events, i - 1, p);
      SessionsStay(config, w, e);
      if p < |w.sessions| {
        ResultsAfter(config, w, e, p);
        if e.Sign? && e.p == p {
          assert AwaitsShare(w, p, e.id) by { SignAwaits(w, e); }
          RequestAnswered(config, f, worlds, events, i - 1, p, e.id);
        }
        LastResult(config, w, e, p);
      } else {
        if LosesShare(e, p) { LosingOwn(e, p); OwnSession(w, e, p); }
        if p < |worlds[i].sessions| { ResultsAfter(config, w, e, p); }
      }
    }
  }

  lemma LosingOwn<E>(e: Event<E>, p: nat)
    requires LosesShare(e, p)
    ensures OfSession(e, p)
  {}

  lemma LastResult<E(!new)>(config: Config<E>, w: World<E>, e: Event<E>, p: nat)
    requires Enabled(w, e) && p < |w.sessions| && p < |Next(config, w, e).sessions|
    requires e.Sign? && e.p == p ==>
      Signed(config, w.signers[e.id], w.sessions[p].message, w.sessions[p].chosen.value.commitments).1.Ok?
    ensures AllAnswered(Next(config, w, e).sessions[p].answered)
            <==> AllAnswered(w.sessions[p].answered) && !LosesShare(e, p)
  {
    hide Next, Enabled, Signed;
    ResultsAfter(config, w, e, p);
    var s, t := w.sessions[p].answered, Next(config, w, e).sessions[p].answered;
    assert forall a <- s :: a in t;
    if |t| > |s| { assert t[|s|] in t; }
  }

  /** What has been received, when it is as much as was sent, is what was sent in some order. */
  lemma {:induction false} SubsetPermutes<T>(a: seq<T>, b: seq<T>)
    requires |a| == |b| && (forall x <- a :: x in b)
    requires forall i, j | 0 <= i < j < |a| :: a[i] != a[j]
    ensures multiset(a) == multiset(b)
    decreases |a|
  {
    hide Without;
    if a != [] {
      assert a[0] in b;
      var i :| 0 <= i < |b| && b[i] == a[0];
      forall x | x in a[1..] ensures x in Without(b, i) {
        var k :| 0 <= k < |a| - 1 && a[1..][k] == x;
        assert a[k + 1] == x && a[0] != x;
        OtherStays(b, i, x);
      }
      SubsetPermutes(a[1..], Without(b, i));
      MultisetSplit(b, i);
      assert a == [a[0]] + a[1..];
    }
  }

  lemma OtherStays<T>(b: seq<T>, i: nat, x: T)
    requires i < |b| && x in b && x != b[i]
    ensures x in Without(b, i)
  {
    var l :| 0 <= l < |b| && b[l] == x;
    assert Without(b, i)[if l < i then l else l - 1] == x;
  }

  /** In every run in which only sessions send /sign, a session that is over has a signature exactly when
      at least t of its /commit calls got through both ways and none of its /sign calls was lost. */
  lemma SessionSignsIff<E(!new)>(config: Config<E>, f: seq<Scalar>, worlds: seq<World<E>>, events: seq<Event<E>>,
                                 i: nat, p: nat)
    requires Sound(config) && Behaviour(config, f, worlds, events) && i < |worlds|
    requires forall k | 0 <= k < |events| :: !events[k].OtherSign?
    requires p < |worlds[i].sessions| && !worlds[i].sessions[p].outcome.Pending?
    ensures worlds[i].sessions[p].outcome.Aggregated? <==>
      |DeliveredCommits(events, i, p)| >= config.threshold && forall k | 0 <= k < i :: !LosesShare(events[k], p)
  {
    hide Sound, Behaviour, BooksInv, Dealt, Group.Lawful, Successes, LosesShare, Issued, Selected, Answered,
      OutcomeInv, DeliveredCommits;
    var w := worlds[i];
    var s := w.sessions[p];
    RunKnown(config, f, worlds, events, i);
    assert SessionInv(config, w.signers, s) && KnownSession(w.signers, s);
    SessionBounded(config, w.signers, s);
    RunSent(config, f, worlds, events, i, p);
    RunAllAnswered(config, f, worlds, events, i, p);
    OutcomeIff(config, f, worlds, events, i, p);
    SubsetPermutes(s.arrivals, s.sent);
    SuccessesPermuted(s.arrivals, s.sent);
    if s.outcome.Aggregated? {
      SubsetPermutes(s.answers, s.answered);
      forall a | a in s.answered ensures a.answer.Some? { assert a in multiset(s.answers); }
    }
  }

  // ----- runs that sign

  ghost predicate OnlyOf<E>(events: seq<Event<E>>, from: nat, p: nat) {
    forall k | from <= k < |events| :: OfSession(events[k], p) && Delivers(events[k])
  }

  lemma RunExtended<E(!new)>(config: Config<E>, f: seq<Scalar>, worlds: seq<World<E>>, events: seq<Event<E>>,
                             e: Event<E>)
    requires Behaviour(config, f, worlds, events) && Enabled(worlds[|events|], e)
    ensures Behaviour(config, f, worlds + [Next(config, worlds[|events|], e)], events + [e])
  {
    hide Next, Enabled, Initial;
    var longer, more := worlds + [Next(config, worlds[|events|], e)], events + [e];
    forall k | 0 <= k < |more|
      ensures Enabled(longer[k], more[k]) && longer[k + 1] == Next(config, longer[k], more[k])
    {
      if k < |events| {
        assert Enabled(worlds[k], events[k]) && worlds[k + 1] == Next(config, worlds[k], events[k]);
        assert longer[k] == worlds[k] && longer[k + 1] == worlds[k + 1] && more[k] == events[k];
      }
    }
  }

  /** All sessions but `p` are as they were, and `p` is still for the same message. */
  ghost predicate OthersKept<E>(w: World<E>, v: World<E>, p: nat) {
    && |v.sessions| == |w.sessions| && p < |w.sessions|
    && (forall q | 0 <= q < |w.sessions| && q != p :: v.sessions[q] == w.sessions[q])
    && v.sessions[p].message == w.sessions[p].message
  }

  lemma OwnEventKeeps<E(!new)>(config: Config<E>, w: World<E>, e: Event<E>, p: nat)
    requires Enabled(w, e) && OfSession(e, p)
    ensures OthersKept(w, Next(config, w, e), p)
  {
    hide Signed, AfterSign, Committed, CommitmentFor, Selected, Finished, Shares, Heard;
    if e.Sign? {
      SignSessions(config, w, e.id, w.sessions[p].message, w.sessions[p].chosen.value.commitments);
    }
  }

  lemma KeptSelf<E>(w: World<E>, p: nat)
    requires p < |w.sessions|
    ensures OthersKept(w, w, p)
  {}

  lemma KeptOn<E>(w: World<E>, v: World<E>, u: World<E>, p: nat)
    requires OthersKept(w, v, p) && OthersKept(v, u, p)
    ensures OthersKept(w, u, p)
  {}

  /** Every run can be continued, by events of one of its sessions only and without losing a call, until
      that session is over. */
  lemma {:induction false} SessionFinishes<E(!new)>(config: Config<E>, f: seq<Scalar>, worlds: seq<World<E>>,
                                                    events: seq<Event<E>>, p: nat)
    returns (longer: seq<World<E>>, more: seq<Event<E>>)
    requires Sound(config) && Behaviour(config, f, worlds, events) && p < |worlds[|events|].sessions|
    ensures Behaviour(config, f, longer, more) && worlds <= longer && events <= more
    ensures OnlyOf(more, |events|, p)
    ensures p < |longer[|more|].sessions| && !longer[|more|].sessions[p].outcome.Pending?
    ensures longer[|more|].signers.Keys == worlds[|events|].signers.Keys
    ensures OthersKept(worlds[|events|], longer[|more|], p)
    decreases Budget(config.threshold, |worlds[|events|].signers|, worlds[|events|].sessions[p])
  {
    hide Sound, Initial, Dealt, Next, Enabled, BooksInv, SessionInv, Budget, Bounded, OthersKept;
    var w := worlds[|events|];
    if !w.sessions[p].outcome.Pending? {
      longer, more := worlds, events;
      KeptSelf(w, p);
    } else {
      SessionNotStuck(config, f, worlds, events, |events|, p);
      var e: Event<E> :| OfSession(e, p) && Delivers(e) && Enabled(w, e);
      RunGood(config, f, worlds, events, |events|);
      SameKeys(config, w, e);
      KeysCounted(w.signers, Next(config, w, e).signers);
      BudgetFalls(config, w, e, p);
      RunExtended(config, f, worlds, events, e);
      longer, more := SessionFinishes(config, f, worlds + [Next(config, w, e)], events + [e], p);
      OwnEventKeeps(config, w, e, p);
      KeptOn(w, Next(config, w, e), longer[|more|], p);
    }
  }

  lemma KeysCounted<E>(a: map<uint16, SignerState<E>>, b: map<uint16, SignerState<E>>)
    requires a.Keys == b.Keys
    ensures |a| == |b|
  {
    assert |a| == |a.Keys| == |b.Keys| == |b|;
  }

  /** Nothing is lost, and no other client sends /sign. */
  ghost predicate Calm<E>(events: seq<Event<E>>) {
    forall k | 0 <= k < |events| :: Delivers(events[k]) && !events[k].OtherSign?
  }

  lemma CalmDelivers<E>(events: seq<Event<E>>, p: nat)
    requires Calm(events)
    ensures SharesDelivered(events, p) && CommitsDelivered(events, p)
  {}

  /** Sessions may be opened at any time. */
  lemma {:induction false} OpensAll<E(!new)>(config: Config<E>, f: seq<Scalar>, w: World<E>, messages: seq<string>)
    returns (worlds: seq<World<E>>, events: seq<Event<E>>)
    requires Initial(config, f, w)
    ensures Behaviour(config, f, worlds, events) && worlds[0] == w && Calm(events)
    ensures worlds[|events|].signers == w.signers && |worlds[|events|].sessions| == |messages|
    ensures forall p | 0 <= p < |messages| :: worlds[|events|].sessions[p].message == messages[p]
  {
    if messages == [] {
      worlds, events := [w], [];
    } else {
      var n := |messages| - 1;
      worlds, events := OpensAll(config, f, w, messages[..n]);
      hide Initial;
      RunExtended(config, f, worlds, events, Open(messages[n]));
      worlds, events := worlds + [Next(config, worlds[|events|], Open(messages[n]))], events + [Open(messages[n])];
    }
  }

  /** Sessions that are open at the same time can all finish. */
  lemma {:induction false} FinishesAll<E(!new)>(config: Config<E>, f: seq<Scalar>, worlds: seq<World<E>>,
                                                events: seq<Event<E>>, n: nat)
    returns (longer: seq<World<E>>, more: seq<Event<E>>)
    requires Sound(config) && Behaviour(config, f, worlds, events) && Calm(events)
    requires n <= |worlds[|events|].sessions|
    ensures Behaviour(config, f, longer, more) && longer[0] == worlds[0] && Calm(more)
    ensures longer[|more|].signers.Keys == worlds[|events|].signers.Keys
    ensures |longer[|more|].sessions| == |worlds[|events|].sessions|
    ensures forall p | 0 <= p < |longer[|more|].sessions| ::
      longer[|more|].sessions[p].message == worlds[|events|].sessions[p].message
    ensures forall p | 0 <= p < n :: !longer[|more|].sessions[p].outcome.Pending?
  {
    hide Sound, Initial, Dealt, Next, Enabled;
    if n == 0 {
      longer, more := worlds, events;
    } else {
      var halfway, some := FinishesAll(config, f, worlds, events, n - 1);
      longer, more := SessionFinishes(config, f, halfway, some, n - 1);
      StillCalm(some, more, n - 1);
    }
  }

  lemma StillCalm<E>(events: seq<Event<E>>, more: seq<Event<E>>, p: nat)
    requires Calm(events) && events <= more && OnlyOf(more, |events|, p)
    ensures Calm(more)
  {
    forall k | 0 <= k < |more| ensures Delivers(more[k]) && !more[k].OtherSign? {
      if k < |events| { assert more[k] == events[k]; }
    }
  }

  /** For every dealing to at least a threshold of signers and all messages there is a run in which the
      sessions for these messages are open at the same time and every one ends with a signature. */
  lemma SigningSucceeds<E(!new)>(config: Config<E>, f: seq<Scalar>, w: World<E>, messages: seq<string>)
    returns (worlds: seq<World<E>>, events: seq<Event<E>>)
    requires Sound(config) && Initial(config, f, w) && |w.signers| >= config.threshold
    ensures Behaviour(config, f, worlds, events) && worlds[0] == w
    ensures |worlds[|events|].sessions| == |messages|
    ensures forall p | 0 <= p < |messages| ::
      worlds[|events|].sessions[p].message == messages[p] && worlds[|events|].sessions[p].outcome.Aggregated?
  {
    var start, opens := OpensAll(config, f, w, messages);
    worlds, events := FinishesAll(config, f, start, opens, |messages|);
    hide Sound, Initial, Dealt, Next, Enabled;
    KeysCounted(w.signers, worlds[|events|].signers);
    forall p | 0 <= p < |messages| ensures worlds[|events|].sessions[p].outcome.Aggregated? {
      CalmDelivers(events, p);
      UndisturbedSessionSigns(config, f, worlds, events, |events|, p);
    }
  }
}
