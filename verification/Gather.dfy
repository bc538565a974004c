/** The proxy's two parallel collections (cmd/grpc-proxy/main.go): goroutines that each send one
    result into a buffered channel, and the loop that receives from it. */
module Gather {
  import opened Wrappers
  import opened Sums

  /** One result on the channel: which address was asked, and its answer unless the call failed. */
  datatype Arrival<+T> = Arrival(addr: nat, answer: Option<T>)

  datatype Gathered<+T> = Gathered(commitments: seq<T>, activeSigners: seq<nat>)

  datatype NotEnough = NotEnough(got: nat, need: nat)

  // ----- the collecting loops

  function Successes<T>(arrivals: seq<Arrival<T>>): (r: seq<Arrival<T>>)
    ensures forall a <- r :: a.answer.Some?
  {
    if arrivals == [] then []
    else
      var n := |arrivals| - 1;
      Successes(arrivals[..n]) + if arrivals[n].answer.Some? then [arrivals[n]] else []
  }

  function Answers<T>(arrivals: seq<Arrival<T>>): (r: seq<T>)
    requires forall a <- arrivals :: a.answer.Some?
    ensures |r| == |arrivals|
  {
    seq(|arrivals|, k requires 0 <= k < |arrivals| => arrivals[k].answer.value)
  }

  function Addresses<T>(arrivals: seq<Arrival<T>>): (r: seq<nat>)
    ensures |r| == |arrivals|
  {
    seq(|arrivals|, k requires 0 <= k < |arrivals| => arrivals[k].addr)
  }

  /** The first `threshold` successes in the order of arrival, if there are that many. */
  function Selected<T>(arrivals: seq<Arrival<T>>, threshold: nat): Result<Gathered<T>, NotEnough> {
    var ok := Successes(arrivals);
    if |ok| < threshold then Err(NotEnough(|ok|, threshold))
    else Ok(Gathered(Answers(ok[..threshold]), Addresses(ok[..threshold])))
  }

  /** The loop of collectCommitmentsParallel: it receives every result and keeps at most `threshold`. */
  method CollectCommitments<T>(arrivals: seq<Arrival<T>>, threshold: nat) returns (r: Result<Gathered<T>, NotEnough>)
    ensures r == Selected(arrivals, threshold)
  {
    var commitments: seq<T> := [];
    var activeSigners: seq<nat> := [];
    ghost var ok: seq<Arrival<T>> := [];
    for i := 0 to |arrivals|
      invariant ok == Successes(arrivals[..i])
      invariant |commitments| == |activeSigners| == if |ok| < threshold then |ok| else threshold
      invariant forall k | 0 <= k < |commitments| ::
        commitments[k] == ok[k].answer.value && activeSigners[k] == ok[k].addr
    {
      var a := arrivals[i];
      assert arrivals[..i + 1][..i] == arrivals[..i];
      if a.answer.None? {
        continue;
      }
      ok := ok + [a];
      if |commitments| < threshold {
        commitments := commitments + [a.answer.value];
        activeSigners := activeSigners + [a.addr];
      }
    }
    assert arrivals[..|arrivals|] == arrivals;
    if |commitments| < threshold {
      return Err(NotEnough(|commitments|, threshold));
    }
    assert commitments == Answers(ok[..threshold]) && activeSigners == Addresses(ok[..threshold]);
    return Ok(Gathered(commitments, activeSigners));
  }

  /** The address whose failure was received first, or all answers in the order of arrival. */
  function Shares<T>(arrivals: seq<Arrival<T>>): Result<seq<T>, nat> {
    if arrivals == [] then Ok([])
    else
      var n := |arrivals| - 1;
      match Shares(arrivals[..n])
      case Err(a) => Err(a)
      case Ok(shares) =>
        if arrivals[n].answer.None? then Err(arrivals[n].addr) else Ok(shares + [arrivals[n].answer.value])
  }

  /** The loop of collectSharesParallel: it returns at the first failure it receives.  `received`
      counts the results taken off the channel by then. */
  method CollectShares<T>(arrivals: seq<Arrival<T>>) returns (r: Result<seq<T>, nat>, received: nat)
    ensures r == Shares(arrivals) && received <= |arrivals|
    ensures r.Ok? ==> received == |arrivals| == |r.value|
    ensures r.Ok? ==> forall k | 0 <= k < |arrivals| :: arrivals[k].answer == Some(r.value[k])
    ensures r.Err? ==> received > 0 && arrivals[received - 1] == Arrival(r.error, None)
    ensures forall k | 0 <= k < received - 1 :: arrivals[k].answer.Some?
  {
    var shares: seq<T> := [];
    for i := 0 to |arrivals|
      invariant forall k | 0 <= k < i :: arrivals[k].answer.Some?
      invariant Shares(arrivals[..i]) == Ok(shares)
      invariant |shares| == i && forall k | 0 <= k < i :: arrivals[k].answer == Some(shares[k])
    {
      var a := arrivals[i];
      assert arrivals[..i + 1][..i] == arrivals[..i];
      if a.answer.None? {
        SharesErrorStays(arrivals, i + 1);
        return Err(a.addr), i + 1;
      }
      shares := shares + [a.answer.value];
    }
    assert arrivals[..|arrivals|] == arrivals;
    return Ok(shares), |arrivals|;
  }

  lemma {:induction false} SharesErrorStays<T>(arrivals: seq<Arrival<T>>, k: nat)
    requires k <= |arrivals| && Shares(arrivals[..k]).Err?
    ensures Shares(arrivals) == Shares(arrivals[..k])
  {
    var n := |arrivals| - 1;
    if k <= n {
      assert arrivals[..n][..k] == arrivals[..k];
      SharesErrorStays(arrivals[..n], k);
    } else {
      assert arrivals[..k] == arrivals;
    }
  }

  lemma {:induction false} SharesOkIff<T>(arrivals: seq<Arrival<T>>)
    ensures Shares(arrivals).Ok? <==> forall a <- arrivals :: a.answer.Some?
    ensures Shares(arrivals).Ok? ==> Shares(arrivals).value == Answers(arrivals)
  {
    if arrivals != [] {
      var n := |arrivals| - 1;
      SharesOkIff(arrivals[..n]);
      assert arrivals == arrivals[..n] + [arrivals[n]];
    }
  }

  /** The first failure decides. */
  lemma SharesFirstFailure<T>(arrivals: seq<Arrival<T>>, k: nat)
    requires k < |arrivals| && arrivals[k].answer.None? && forall a <- arrivals[..k] :: a.answer.Some?
    ensures Shares(arrivals) == Err(arrivals[k].addr)
  {
    SharesOkIff(arrivals[..k]);
    assert arrivals[..k + 1][..k] == arrivals[..k];
    SharesErrorStays(arrivals, k + 1);
  }

  // ----- which commitments are kept, by their positions among the arrivals

  function Positions<T>(arrivals: seq<Arrival<T>>): (at: seq<nat>)
    ensures forall k | 0 <= k < |at| :: at[k] < |arrivals| && arrivals[at[k]].answer.Some?
    ensures forall k, l | 0 <= k < l < |at| :: at[k] < at[l]
  {
    if arrivals == [] then []
    else
      var n := |arrivals| - 1;
      Positions(arrivals[..n]) + if arrivals[n].answer.Some? then [n] else []
  }

  lemma {:induction false} PositionsComplete<T>(arrivals: seq<Arrival<T>>, i: nat)
    requires i < |arrivals| && arrivals[i].answer.Some?
    ensures i in Positions(arrivals)
  {
    var n := |arrivals| - 1;
    if i < n { PositionsComplete(arrivals[..n], i); }
  }

  lemma {:induction false} SuccessesAt<T>(arrivals: seq<Arrival<T>>)
    ensures |Successes(arrivals)| == |Positions(arrivals)|
    ensures forall k | 0 <= k < |Positions(arrivals)| :: Successes(arrivals)[k] == arrivals[Positions(arrivals)[k]]
  {
    if arrivals != [] { SuccessesAt(arrivals[..|arrivals| - 1]); }
  }

  /** What is kept stands at increasing positions `at` of the arrivals, and no other position up to the
      last of them holds an answer. */
  lemma SelectedFirst<T>(arrivals: seq<Arrival<T>>, threshold: nat) returns (at: seq<nat>)
    requires Selected(arrivals, threshold).Ok?
    ensures
      var g := Selected(arrivals, threshold).value;
      && |at| == |g.commitments| == |g.activeSigners| == threshold
      && (forall k | 0 <= k < threshold ::
            at[k] < |arrivals| && arrivals[at[k]] == Arrival(g.activeSigners[k], Some(g.commitments[k])))
      && (forall k, l | 0 <= k < l < threshold :: at[k] < at[l])
      && forall i, k | 0 <= k < threshold && 0 <= i <= at[k] && i !in at :: arrivals[i].answer.None?
  {
    hide Successes, Positions;
    SuccessesAt(arrivals);
    var all := Positions(arrivals);
    at := all[..threshold];
    forall i, k | 0 <= k < threshold && 0 <= i <= at[k] && arrivals[i].answer.Some? ensures i in at {
      PositionsComplete(arrivals, i);
      var m :| 0 <= m < |all| && all[m] == i;
      assert m <= k;
      assert at[m] == i;
    }
  }

  /** The calls that were answered. */
  function Answering<T>(arrivals: seq<Arrival<T>>): set<nat> {
    set k: nat | k < |arrivals| && arrivals[k].answer.Some?
  }

  lemma {:induction false} SuccessesAnswering<T>(arrivals: seq<Arrival<T>>)
    ensures |Successes(arrivals)| == |Answering(arrivals)|
  {
    if arrivals == [] {
      assert Answering(arrivals) == {};
    } else {
      var n: nat := |arrivals| - 1;
      SuccessesAnswering(arrivals[..n]);
      assert Answering(arrivals) == Answering(arrivals[..n]) + if arrivals[n].answer.Some? then {n} else {};
    }
  }

  /** The error reports how many were answered and how many are needed. */
  lemma SelectedCount<T>(arrivals: seq<Arrival<T>>, threshold: nat)
    ensures Selected(arrivals, threshold).Ok? <==> |Answering(arrivals)| >= threshold
    ensures Selected(arrivals, threshold).Err? ==>
      Selected(arrivals, threshold).error == NotEnough(|Answering(arrivals)|, threshold)
  {
    hide Successes, Answering;
    SuccessesAnswering(arrivals);
  }

  lemma SuccessesSnoc<T>(s: seq<Arrival<T>>, a: Arrival<T>)
    ensures Successes(s + [a]) == Successes(s) + if a.answer.Some? then [a] else []
  {
    assert (s + [a])[..|s|] == s;
  }

  lemma SuccessesNone<T>()
    ensures Successes<T>([]) == []
  {}

  lemma {:induction false} SuccessesAppend<T>(a: seq<Arrival<T>>, b: seq<Arrival<T>>)
    ensures Successes(a + b) == Successes(a) + Successes(b)
    decreases |b|
  {
    hide Successes;
    if b == [] {
      SuccessesNone<T>();
      assert a + b == a;
    } else {
      var pre, last := b[..|b| - 1], b[|b| - 1];
      SuccessesAppend(a, pre);
      SuccessesSnoc(pre, last);
      SuccessesSnoc(a + pre, last);
      assert b == pre + [last] && a + b == (a + pre) + [last];
    }
  }

  /** Once there are enough, later arrivals change nothing. */
  lemma SelectedStays<T>(a: seq<Arrival<T>>, more: seq<Arrival<T>>, threshold: nat)
    requires Selected(a, threshold).Ok?
    ensures Selected(a + more, threshold) == Selected(a, threshold)
  {
    hide Successes;
    SuccessesAppend(a, more);
    assert Successes(a + more)[..threshold] == Successes(a)[..threshold];
  }

  // ----- successes do not depend on the order of arrival

  function Succeeded<T>(a: Arrival<T>): int {
    if a.answer.Some? then 1 else 0
  }

  lemma {:induction false} SuccessesCounted<T>(arrivals: seq<Arrival<T>>)
    ensures |Successes(arrivals)| == Total(Map(Succeeded, arrivals))
  {
    if arrivals != [] {
      hide Successes, Map, Total;
      var n := |arrivals| - 1;
      SuccessesCounted(arrivals[..n]);
      TotalMapAppend(Succeeded, arrivals[..n], arrivals[n]);
      SuccessesSnoc(arrivals[..n], arrivals[n]);
      assert arrivals == arrivals[..n] + [arrivals[n]];
    }
  }

  lemma SuccessesPermuted<T>(a: seq<Arrival<T>>, b: seq<Arrival<T>>)
    requires multiset(a) == multiset(b)
    ensures |Successes(a)| == |Successes(b)|
  {
    SuccessesCounted(a);
    SuccessesCounted(b);
    TotalMapPermuted(Succeeded, a, b);
  }

  // ----- the channel

  /** `pending` are the results not sent yet, `queue` those in the buffer, `received` those taken off
      it; `stopped` says that the collector has returned early. */
  datatype Channel<T> = Channel(pending: seq<T>, queue: seq<T>, received: seq<T>, stopped: bool)

  function Start<T>(results: seq<T>): Channel<T> {
    Channel(results, [], [], false)
  }

  /** A goroutine can send while the buffer has room. */
  predicate CanSend<T>(c: Channel<T>, k: nat, capacity: nat) {
    k < |c.pending| && |c.queue| < capacity
  }

  function Sent<T>(c: Channel<T>, k: nat): Channel<T>
    requires k < |c.pending|
  {
    c.(pending := Without(c.pending, k), queue := c.queue + [c.pending[k]])
  }

  /** The collector receives `rounds` results, unless it stops before. */
  predicate CanReceive<T>(c: Channel<T>, rounds: nat) {
    !c.stopped && |c.received| < rounds && c.queue != []
  }

  /** After receiving a result that `stops` accepts, the collector returns. */
  function Received<T>(c: Channel<T>, stops: T -> bool): Channel<T>
    requires c.queue != []
  {
    c.(queue := c.queue[1..], received := c.received + [c.queue[0]], stopped := stops(c.queue[0]))
  }

  ghost predicate Step<T>(c: Channel<T>, d: Channel<T>, n: nat, stops: T -> bool) {
    || (exists k :: CanSend(c, k, n) && d == Sent(c, k))
    || (CanReceive(c, n) && d == Received(c, stops))
  }

  /** A run of the goroutines and the collector, in any interleaving: as many senders, as much buffer
      and as many rounds of receiving as there are results. */
  ghost predicate Run<T>(trace: seq<Channel<T>>, results: seq<T>, stops: T -> bool) {
    && trace != [] && trace[0] == Start(results)
    && forall i | 0 <= i < |trace| - 1 :: Step(trace[i], trace[i + 1], |results|, stops)
  }

  /** Every goroutine has sent and the collector has returned. */
  predicate Final<T>(c: Channel<T>, n: nat) {
    c.pending == [] && (c.stopped || |c.received| == n)
  }

  function Measure<T>(c: Channel<T>): nat {
    2 * |c.pending| + |c.queue|
  }

  ghost predicate ChannelInv<T>(c: Channel<T>, results: seq<T>, stops: T -> bool) {
    && multiset(c.pending) + multiset(c.queue) + multiset(c.received) == multiset(results)
    && |c.pending| + |c.queue| + |c.received| == |results|
    && (c.stopped <==> c.received != [] && stops(c.received[|c.received| - 1]))
    && forall k | 0 <= k < |c.received| - 1 :: !stops(c.received[k])
  }

  lemma SendKeepsInv<T>(c: Channel<T>, k: nat, results: seq<T>, stops: T -> bool)
    requires ChannelInv(c, results, stops) && CanSend(c, k, |results|)
    ensures ChannelInv(Sent(c, k), results, stops) && Measure(Sent(c, k)) == Measure(c) - 1
  {
    MultisetSplit(c.pending, k);
  }

  lemma ReceiveKeepsInv<T>(c: Channel<T>, results: seq<T>, stops: T -> bool)
    requires ChannelInv(c, results, stops) && CanReceive(c, |results|)
    ensures ChannelInv(Received(c, stops), results, stops) && Measure(Received(c, stops)) == Measure(c) - 1
  {
    assert c.queue == [c.queue[0]] + c.queue[1..];
  }

  lemma StepKeepsInv<T>(c: Channel<T>, d: Channel<T>, results: seq<T>, stops: T -> bool)
    requires ChannelInv(c, results, stops) && Step(c, d, |results|, stops)
    ensures ChannelInv(d, results, stops) && Measure(d) == Measure(c) - 1
  {
    hide ChannelInv, Sent, Received, Measure;
    if CanReceive(c, |results|) && d == Received(c, stops) {
      ReceiveKeepsInv(c, results, stops);
    } else {
      var k :| CanSend(c, k, |results|) && d == Sent(c, k);
      SendKeepsInv(c, k, results, stops);
    }
  }

  lemma {:induction false} RunInv<T>(trace: seq<Channel<T>>, results: seq<T>, stops: T -> bool, i: nat)
    requires Run(trace, results, stops) && i < |trace|
    ensures ChannelInv(trace[i], results, stops)
    ensures Measure(trace[i]) == 2 * |results| - i
  {
    if i > 0 {
      hide Step, ChannelInv;
      RunInv(trace, results, stops, i - 1);
      assert Step(trace[i - 1], trace[i - 1 + 1], |results|, stops);
      StepKeepsInv(trace[i - 1], trace[i], results, stops);
    }
  }

  /** In every state of every run: the buffer holds no more than its capacity, no sender is blocked,
      whether or not the collector has returned, something can happen unless everything is over, and
      each step uses up one unit of a finite budget. */
  lemma NeverStuck<T>(trace: seq<Channel<T>>, results: seq<T>, stops: T -> bool, i: nat)
    requires Run(trace, results, stops) && i < |trace|
    ensures |trace[i].queue| <= |results|
    ensures forall k | 0 <= k < |trace[i].pending| :: CanSend(trace[i], k, |results|)
    ensures Final(trace[i], |results|) <==> !exists d :: Step(trace[i], d, |results|, stops)
    ensures i <= 2 * |results|
  {
    var c := trace[i];
    RunInv(trace, results, stops, i);
    if c.pending != [] {
      assert CanSend(c, 0, |results|);
      assert Step(c, Sent(c, 0), |results|, stops);
    } else if !Final(c, |results|) {
      assert CanReceive(c, |results|);
      assert Step(c, Received(c, stops), |results|, stops);
    }
  }

  /** Results are received in the order in which they were sent: what has been received and what waits
      in the buffer only grows at its end. */
  lemma {:induction false} FirstInFirstOut<T>(trace: seq<Channel<T>>, results: seq<T>, stops: T -> bool, i: nat, j: nat)
    requires Run(trace, results, stops) && i <= j < |trace|
    ensures trace[i].received + trace[i].queue <= trace[j].received + trace[j].queue
    ensures trace[i].received <= trace[j].received
    decreases j
  {
    if i < j {
      FirstInFirstOut(trace, results, stops, i, j - 1);
      assert Step(trace[j - 1], trace[j - 1 + 1], |results|, stops);
      StepAppends(trace[j - 1], trace[j], |results|, stops);
    }
  }

  lemma StepAppends<T>(c: Channel<T>, d: Channel<T>, n: nat, stops: T -> bool)
    requires Step(c, d, n, stops)
    ensures c.received + c.queue <= d.received + d.queue && c.received <= d.received
  {
    if CanReceive(c, n) && d == Received(c, stops) {
      assert c.queue == [c.queue[0]] + c.queue[1..];
    }
  }

  ghost predicate Steps<T>(trace: seq<Channel<T>>, n: nat, stops: T -> bool) {
    trace != [] && forall i | 0 <= i < |trace| - 1 :: Step(trace[i], trace[i + 1], n, stops)
  }

  lemma StepsPrepended<T>(c: Channel<T>, trace: seq<Channel<T>>, n: nat, stops: T -> bool)
    requires Steps(trace, n, stops) && Step(c, trace[0], n, stops)
    ensures Steps([c] + trace, n, stops)
  {
    hide Step;
    var longer := [c] + trace;
    forall i | 0 <= i < |longer| - 1 ensures Step(longer[i], longer[i + 1], n, stops) {
      if i > 0 { assert longer[i] == trace[i - 1] && longer[i + 1] == trace[i - 1 + 1]; }
    }
  }

  /** The rest can be sent and received in any order. */
  lemma {:induction false} RestInOrder<T>(c: Channel<T>, rest: seq<T>, n: nat, stops: T -> bool)
    returns (trace: seq<Channel<T>>)
    requires c.queue == [] && !c.stopped && |c.received| + |rest| == n && multiset(c.pending) == multiset(rest)
    requires forall r <- rest :: !stops(r)
    ensures Steps(trace, n, stops) && trace[0] == c
    ensures trace[|trace| - 1] == Channel([], [], c.received + rest, false)
    decreases |rest|
  {
    if rest == [] {
      assert |c.pending| == |multiset(c.pending)| == 0;
      assert c.received + rest == c.received;
      trace := [c];
    } else {
      assert rest[0] in multiset(c.pending);
      var k :| 0 <= k < |c.pending| && c.pending[k] == rest[0];
      var sent := Sent(c, k);
      var received := Received(sent, stops);
      DropCommon(rest, c.pending, k);
      assert rest[0] in rest;
      assert received == Channel(Without(c.pending, k), [], c.received + [rest[0]], false);
      assert forall r <- rest[1..] :: r in rest;
      var tail := RestInOrder(received, rest[1..], n, stops);
      assert c.received + rest == c.received + [rest[0]] + rest[1..];
      assert CanSend(c, k, n);
      StepsPrepended(sent, tail, n, stops);
      StepsPrepended(c, [sent] + tail, n, stops);
      trace := [c] + ([sent] + tail);
    }
  }

  /** Every order of arrival happens in some run. */
  lemma AnyOrder<T>(results: seq<T>, order: seq<T>, stops: T -> bool) returns (trace: seq<Channel<T>>)
    requires multiset(order) == multiset(results) && forall r <- results :: !stops(r)
    ensures Run(trace, results, stops) && Final(trace[|trace| - 1], |results|)
    ensures trace[|trace| - 1].received == order
  {
    hide Step;
    assert |multiset(order)| == |order| && |multiset(results)| == |results|;
    forall r | r in order ensures r in results { assert r in multiset(order); assert r in multiset(results); }
    trace := RestInOrder(Start(results), order, |results|, stops);
    assert [] + order == order;
  }

  // ----- what a finished gather returns

  /** The collector of commitments receives every result, so a finished run has received the
      senders' results in some order. */
  lemma AllReceived<T>(trace: seq<Channel<T>>, results: seq<T>)
    requires Run(trace, results, (t: T) => false) && Final(trace[|trace| - 1], |results|)
    ensures multiset(trace[|trace| - 1].received) == multiset(results)
    ensures |trace[|trace| - 1].received| == |results|
  {
    RunInv(trace, results, (t: T) => false, |trace| - 1);
  }

  /** In whatever order the answers come: the gather succeeds exactly when at least `threshold`
      signers answered, with the first that came, and otherwise reports how many answered. */
  lemma CommitmentGather<T>(trace: seq<Channel<Arrival<T>>>, results: seq<Arrival<T>>, threshold: nat)
    requires Run(trace, results, (t: Arrival<T>) => false) && Final(trace[|trace| - 1], |results|)
    ensures
      var arrivals := trace[|trace| - 1].received;
      && (Selected(arrivals, threshold).Ok? <==> |Answering(results)| >= threshold)
      && (Selected(arrivals, threshold).Err? ==>
            Selected(arrivals, threshold).error == NotEnough(|Answering(results)|, threshold))
      && (Selected(arrivals, threshold).Ok? ==>
            |Selected(arrivals, threshold).value.commitments| == threshold)
  {
    assert trace != [];
    hide Successes, Answering, Run;
    AllReceived(trace, results);
    SuccessesAnswering(results);
    SuccessesPermuted(trace[|trace| - 1].received, results);
  }

  lemma {:induction false} SuccessesMembers<T>(arrivals: seq<Arrival<T>>)
    ensures forall a <- Successes(arrivals) :: a in arrivals
  {
    if arrivals != [] {
      var n := |arrivals| - 1;
      SuccessesMembers(arrivals[..n]);
    }
  }

  ghost predicate DistinctAddresses<T>(arrivals: seq<Arrival<T>>) {
    forall i, j | 0 <= i < j < |arrivals| :: arrivals[i].addr != arrivals[j].addr
  }

  lemma {:induction false} SuccessesDistinct<T>(arrivals: seq<Arrival<T>>)
    requires DistinctAddresses(arrivals)
    ensures DistinctAddresses(Successes(arrivals))
  {
    if arrivals != [] {
      var n := |arrivals| - 1;
      var ok := Successes(arrivals[..n]);
      SuccessesDistinct(arrivals[..n]);
      SuccessesMembers(arrivals[..n]);
      forall k | 0 <= k < |ok| ensures ok[k].addr != arrivals[n].addr {
        assert ok[k] in arrivals[..n];
      }
    }
  }

  /** The k-th commitment kept came from the k-th active signer, and no signer is active twice. */
  lemma SelectedPairs<T>(arrivals: seq<Arrival<T>>, threshold: nat)
    requires DistinctAddresses(arrivals) && Selected(arrivals, threshold).Ok?
    ensures
      var g := Selected(arrivals, threshold).value;
      && |g.commitments| == |g.activeSigners| == threshold
      && (forall k | 0 <= k < threshold :: Arrival(g.activeSigners[k], Some(g.commitments[k])) in arrivals)
      && (forall k, l | 0 <= k < l < threshold :: g.activeSigners[k] != g.activeSigners[l])
  {
    var ok := Successes(arrivals);
    SuccessesMembers(arrivals);
    SuccessesDistinct(arrivals);
    forall k | 0 <= k < threshold ensures Arrival(ok[k].addr, Some(ok[k].answer.value)) in arrivals {
      assert ok[k] in ok;
    }
  }

  /** The collector of shares stops at a failure.  A finished run returns shares exactly when every
      signer answered, then in the order of arrival; a run that stopped has still let every sender
      finish. */
  lemma ShareGather<T>(trace: seq<Channel<Arrival<T>>>, results: seq<Arrival<T>>)
    requires Run(trace, results, (a: Arrival<T>) => a.answer.None?) && Final(trace[|trace| - 1], |results|)
    ensures
      var c := trace[|trace| - 1];
      && c.pending == []
      && (Shares(c.received).Ok? <==> forall a <- results :: a.answer.Some?)
      && (Shares(c.received).Ok? ==>
            && multiset(c.received) == multiset(results)
            && (forall a <- c.received :: a.answer.Some?)
            && Shares(c.received).value == Answers(c.received))
      && (Shares(c.received).Err? <==> c.stopped)
  {
    assert trace != [];
    hide Run, Shares, Answers, Final;
    var stops := (a: Arrival<T>) => a.answer.None?;
    var c := trace[|trace| - 1];
    assert c.pending == [] && (c.stopped || |c.received| == |results|) by { FinalParts(c, |results|); }
    RunInv(trace, results, stops, |trace| - 1);
    SharesOkIff(c.received);
    if c.stopped {
      StoppedGather(c, results);
    } else {
      WholeGather(c, results);
    }
  }

  lemma FinalParts<T>(c: Channel<T>, n: nat)
    requires Final(c, n)
    ensures c.pending == [] && (c.stopped || |c.received| == n)
  {}

  lemma StoppedGather<T>(c: Channel<Arrival<T>>, results: seq<Arrival<T>>)
    requires ChannelInv(c, results, (a: Arrival<T>) => a.answer.None?) && c.stopped
    ensures exists a <- c.received :: a.answer.None?
    ensures exists a <- results :: a.answer.None?
  {
    var last := c.received[|c.received| - 1];
    assert last.answer.None? && last in c.received;
    assert last in multiset(c.received);
    assert last in multiset(results);
  }

  lemma WholeGather<T>(c: Channel<Arrival<T>>, results: seq<Arrival<T>>)
    requires ChannelInv(c, results, (a: Arrival<T>) => a.answer.None?) && !c.stopped
    requires c.pending == [] && |c.received| == |results|
    ensures multiset(c.received) == multiset(results)
    ensures (forall a <- c.received :: a.answer.Some?) && (forall a <- results :: a.answer.Some?)
  {
    var stops := (a: Arrival<T>) => a.answer.None?;
    assert c.queue == [];
    forall k | 0 <= k < |c.received| ensures c.received[k].answer.Some? {
      if k < |c.received| - 1 { assert !stops(c.received[k]); }
    }
    forall a | a in results ensures a in c.received {
      assert a in multiset(results);
      assert a in multiset(c.received);
    }
  }
}
