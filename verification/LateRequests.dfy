/** Ceremonies in which another client sends one request after the packages have been collected: they
    exist for all polynomials, the coordinator completes them, and the keys can be wrong or missing. */
module LateRequests {
  import opened Wrappers
  import opened Zq
  import opened Polynomial
  import opened Lagrange
  import opened Wire
  import opened Group
  import opened Dkg
  import opened DkgTheorems
  import opened DkgCeremony
  import opened Reconstruction
  import opened CeremonyRuns
  import opened CeremonyOutcome
  import opened OtherRequests
  import opened DkgOutcomes

  /** The steps that other clients take. */
  function Foreign(steps: seq<Step>): seq<Step> {
    if steps == [] then []
    else
      var n := |steps| - 1;
      Foreign(steps[..n]) + if steps[n].Call? then [] else [steps[n]]
  }

  /** Some run leads to `s`, with the requests `others` of other clients. */
  ghost predicate Reaches<E(!new)>(group: Group<E>, t: nat, n: nat, s: State<E>, others: seq<Step>) {
    exists states, steps :: Run(group, t, n, states, steps) && states[|steps|] == s && Foreign(steps) == others
  }

  lemma ReachesBegin<E(!new)>(group: Group<E>, t: nat, n: nat)
    requires n < 0x1_0000
    ensures Reaches(group, t, n, Begin<E>(n), [])
  {
    var states: seq<State<E>>, steps: seq<Step> := [Begin(n)], [];
    assert Run(group, t, n, states, steps) && states[|steps|] == Begin(n) && Foreign(steps) == [];
  }

  lemma ForeignStep(steps: seq<Step>, e: Step)
    ensures Foreign(steps + [e]) == if e.Call? then Foreign(steps) else Foreign(steps) + [e]
  {
    assert (steps + [e])[..|steps|] == steps;
  }

  lemma ReachesStep<E(!new)>(group: Group<E>, t: nat, n: nat, s: State<E>, others: seq<Step>, e: Step)
    requires Reaches(group, t, n, s, others) && Possible(group, s, t, e)
    ensures e.Call? ==> Reaches(group, t, n, After(group, s, t, e), others)
    ensures !e.Call? ==> Reaches(group, t, n, After(group, s, t, e), others + [e])
  {
    hide After, Possible, Begin, Foreign;
    var states, steps :| Run(group, t, n, states, steps) && states[|steps|] == s && Foreign(steps) == others;
    RunExtended(group, t, n, states, steps, e);
    var longer, more := states + [After(group, s, t, e)], steps + [e];
    assert Run(group, t, n, longer, more) && longer[|more|] == After(group, s, t, e);
    ForeignStep(steps, e);
  }

  // ----- the coordinator's calls, one after the other, with these polynomials

  ghost predicate Choices(t: nat, polys: seq<seq<Scalar>>) {
    && 0 < |polys| < 0x1_0000 && t > 0
    && forall k | 0 <= k < |polys| :: |polys[k]| == t
  }

  function Row(k: uint16, f: seq<Scalar>, length: uint16): (r: seq<Option<SharePackage>>)
    requires k < 0xFFFF
    ensures |r| == length
  {
    seq(length, j requires 0 <= j < length => Some(PackageOf(k + 1, f, (j + 1) as uint16)))
  }

  function Copies<T>(x: T, length: nat): (r: seq<T>)
    ensures |r| == length
  {
    seq(length, _ => x)
  }

  function RoundOneState<E(!new)>(group: Group<E>, t: nat, polys: seq<seq<Scalar>>, i: nat): State<E>
    requires Choices(t, polys) && i <= |polys|
  {
    State(
      seq(|polys|, k requires 0 <= k < |polys| => DkgState(if k < i then Some(polys[k]) else None, [])),
      if i < |polys| then AtRound1(i) else AtBroadcast(0),
      CeremonyOf(t, polys).Commitments(group)[..i], [], [],
      History(polys[..i], [], []))
  }

  function BroadcastState<E(!new)>(group: Group<E>, t: nat, polys: seq<seq<Scalar>>, i: nat): State<E>
    requires Choices(t, polys) && i <= |polys|
  {
    var cs := CeremonyOf(t, polys).Commitments(group);
    State(
      seq(|polys|, k requires 0 <= k < |polys| => DkgState(Some(polys[k]), if k < i then cs else [])),
      if i < |polys| then AtBroadcast(i) else AtRound2(0, 0),
      cs, [], [],
      History(polys, [], []))
  }

  /** Every signer with its polynomial and the commitments. */
  function ReadySigners<E(!new)>(group: Group<E>, t: nat, polys: seq<seq<Scalar>>): (r: seq<DkgState>)
    requires Choices(t, polys)
    ensures |r| == |polys|
  {
    seq(|polys|, k requires 0 <= k < |polys| => DkgState(Some(polys[k]), CeremonyOf(t, polys).Commitments(group)))
  }

  function Rows(polys: seq<seq<Scalar>>, i: nat): (r: seq<seq<Option<SharePackage>>>)
    requires i <= |polys| < 0x1_0000
    ensures |r| == i && forall row <- r :: |row| == |polys|
  {
    seq(i, k requires 0 <= k < i => Row(k, polys[k], |polys|))
  }

  function Evaluated(polys: seq<seq<Scalar>>, i: nat): (r: seq<seq<seq<Scalar>>>)
    requires i <= |polys|
    ensures |r| == i && forall row <- r :: |row| == |polys|
  {
    seq(i, k requires 0 <= k < i => Copies(polys[k], |polys|))
  }

  function RowsUpTo(polys: seq<seq<Scalar>>, i: nat, j: nat): seq<seq<Option<SharePackage>>>
    requires i <= |polys| < 0x1_0000 && j < |polys| && (i == |polys| ==> j == 0)
  {
    Rows(polys, i) + if j > 0 then [Row(i, polys[i], j)] else []
  }

  function EvaluatedUpTo(polys: seq<seq<Scalar>>, i: nat, j: nat): seq<seq<seq<Scalar>>>
    requires i <= |polys| && j < |polys| && (i == |polys| ==> j == 0)
  {
    Evaluated(polys, i) + if j > 0 then [Copies(polys[i], j)] else []
  }

  /** After the packages of the first i signers and j of the next one. */
  function RoundTwoState<E(!new)>(group: Group<E>, t: nat, polys: seq<seq<Scalar>>, i: nat, j: nat): State<E>
    requires Choices(t, polys) && i <= |polys| && j < |polys| && (i == |polys| ==> j == 0)
  {
    State(
      ReadySigners(group, t, polys),
      if i < |polys| then AtRound2(i, j) else AtFinalize(0),
      CeremonyOf(t, polys).Commitments(group),
      RowsUpTo(polys, i, j), [],
      History(polys, EvaluatedUpTo(polys, i, j), []))
  }

  /** After the first i signers, which are in the states `signers`, have finalised. */
  function FinalizeState<E(!new)>(group: Group<E>, t: nat, polys: seq<seq<Scalar>>, signers: seq<DkgState>,
                                  i: nat): State<E>
    requires Choices(t, polys) && i <= |polys| == |signers|
  {
    State(
      signers, AtFinalize(i),
      CeremonyOf(t, polys).Commitments(group),
      Rows(polys, |polys|),
      seq(i, k requires 0 <= k < i => ComputedShare(group, signers[k], (k + 1) as uint16,
        Column(Rows(polys, |polys|), k))),
      History(polys, Evaluated(polys, |polys|), signers[..i]))
  }

  lemma {:induction false} RoundOneReached<E(!new)>(group: Group<E>, t: nat, polys: seq<seq<Scalar>>, i: nat)
    requires Choices(t, polys) && i <= |polys|
    ensures Reaches(group, t, |polys|, RoundOneState(group, t, polys, i), [])
  {
    hide Reaches, CommitmentOf;
    if i == 0 {
      ReachesBegin(group, t, |polys|);
      assert RoundOneState(group, t, polys, 0) == Begin(|polys|);
    } else {
      RoundOneReached(group, t, polys, i - 1);
      ReachesStep(group, t, |polys|, RoundOneState(group, t, polys, i - 1), [], Call(polys[i - 1]));
      assert After(group, RoundOneState(group, t, polys, i - 1), t, Call(polys[i - 1]))
        == RoundOneState(group, t, polys, i);
    }
  }

  lemma {:induction false} BroadcastReached<E(!new)>(group: Group<E>, t: nat, polys: seq<seq<Scalar>>, i: nat)
    requires Choices(t, polys) && i <= |polys|
    ensures Reaches(group, t, |polys|, BroadcastState(group, t, polys, i), [])
  {
    hide Reaches, CommitmentOf;
    if i == 0 {
      RoundOneReached(group, t, polys, |polys|);
      assert RoundOneState(group, t, polys, |polys|) == BroadcastState(group, t, polys, 0);
    } else {
      BroadcastReached(group, t, polys, i - 1);
      ReachesStep(group, t, |polys|, BroadcastState(group, t, polys, i - 1), [], Call(polys[0]));
      assert After(group, BroadcastState(group, t, polys, i - 1), t, Call(polys[0]))
        == BroadcastState(group, t, polys, i);
    }
  }

  lemma AddToLast<T>(rows: seq<seq<T>>, row: seq<T>, x: T, longer: seq<T>)
    requires longer == row + [x]
    ensures AddTo(rows + if row == [] then [] else [row], |rows|, x) == rows + [longer]
  {
    if row == [] {
      assert rows + [] == rows && [] + [x] == [x];
    } else {
      assert (rows + [row])[|rows| := row + [x]] == rows + [row + [x]];
    }
  }

  lemma RowsStep(polys: seq<seq<Scalar>>, i: uint16, j: uint16)
    requires i < |polys| < 0x1_0000 && j < |polys|
    ensures i <= |RowsUpTo(polys, i, j)|
    ensures AddTo(RowsUpTo(polys, i, j), i, Some(PackageOf(i + 1, polys[i], j + 1)))
            == if j + 1 < |polys| then RowsUpTo(polys, i, j + 1) else RowsUpTo(polys, i + 1, 0)
  {
    hide PackageOf, AddTo;
    RowStep(i, polys[i], j);
    AddToLast(Rows(polys, i), Row(i, polys[i], j), Some(PackageOf(i + 1, polys[i], j + 1)), Row(i, polys[i], j + 1));
    if j + 1 == |polys| {
      assert Rows(polys, i) + [Row(i, polys[i], |polys|)] == Rows(polys, i + 1);
    }
  }

  lemma EvaluatedMore(polys: seq<seq<Scalar>>, i: nat)
    requires i < |polys|
    ensures Evaluated(polys, i) + [Copies(polys[i], |polys|)] == Evaluated(polys, i + 1)
  {
    hide Copies;
  }

  lemma EvaluatedStep(polys: seq<seq<Scalar>>, i: uint16, j: uint16)
    requires i < |polys| < 0x1_0000 && j < |polys|
    ensures i <= |EvaluatedUpTo(polys, i, j)|
    ensures AddTo(EvaluatedUpTo(polys, i, j), i, polys[i])
            == if j + 1 < |polys| then EvaluatedUpTo(polys, i, j + 1) else EvaluatedUpTo(polys, i + 1, 0)
  {
    hide AddTo, Evaluated, Copies;
    RowStep(i, polys[i], j);
    AddToLast(Evaluated(polys, i), Copies(polys[i], j), polys[i], Copies(polys[i], j + 1));
    if j + 1 == |polys| {
      EvaluatedMore(polys, i);
    }
  }

  /** One more package. */
  lemma RoundTwoStep<E(!new)>(group: Group<E>, t: nat, polys: seq<seq<Scalar>>, i: nat, j: nat)
    requires Choices(t, polys) && i < |polys| && j < |polys|
    ensures Possible(group, RoundTwoState(group, t, polys, i, j), t, Call(polys[0]))
    ensures After(group, RoundTwoState(group, t, polys, i, j), t, Call(polys[0]))
            == if j + 1 < |polys|
               then RoundTwoState(group, t, polys, i, j + 1) else RoundTwoState(group, t, polys, i + 1, 0)
  {
    hide PackageOf, CommitmentOf, RowsUpTo, EvaluatedUpTo, AddTo, Ceremony.Commitments;
    RowsStep(polys, i, j);
    EvaluatedStep(polys, i, j);
    assert RoundTwoState(group, t, polys, i, j).signers[i]
      == DkgState(Some(polys[i]), CeremonyOf(t, polys).Commitments(group));
  }

  lemma RowStep(k: uint16, f: seq<Scalar>, j: uint16)
    requires k < 0xFFFF && j < 0xFFFF
    ensures Row(k, f, j) + [Some(PackageOf(k + 1, f, j + 1))] == Row(k, f, j + 1)
    ensures Copies(f, j) + [f] == Copies(f, j + 1) && (j == 0 ==> Copies(f, j) == [])
    ensures j == 0 ==> Row(k, f, j) == []
  {
    hide PackageOf;
  }

  lemma {:induction false} RoundTwoReached<E(!new)>(group: Group<E>, t: nat, polys: seq<seq<Scalar>>, i: nat, j: nat)
    requires Choices(t, polys) && i <= |polys| && j < |polys| && (i == |polys| ==> j == 0)
    ensures Reaches(group, t, |polys|, RoundTwoState(group, t, polys, i, j), [])
    decreases i, j
  {
    hide Reaches, CommitmentOf, PackageOf, After, Possible, RoundTwoState, BroadcastState;
    if i == 0 && j == 0 {
      BroadcastReached(group, t, polys, |polys|);
      BroadcastDone(group, t, polys);
    } else {
      var (a, b) := if j > 0 then (i, j - 1) else (i - 1, |polys| - 1);
      RoundTwoReached(group, t, polys, a, b);
      RoundTwoStep(group, t, polys, a, b);
      ReachesStep(group, t, |polys|, RoundTwoState(group, t, polys, a, b), [], Call(polys[0]));
    }
  }

  lemma BroadcastDone<E(!new)>(group: Group<E>, t: nat, polys: seq<seq<Scalar>>)
    requires Choices(t, polys)
    ensures BroadcastState(group, t, polys, |polys|) == RoundTwoState(group, t, polys, 0, 0)
  {
    hide CommitmentOf;
  }

  /** Signer i + 1 has a participant and its commitments do not make it panic. */
  ghost predicate Answers<E(!new)>(group: Group<E>, st: DkgState) {
    st.polynomial.Some? && !NilFirst(group, st.commitments)
  }

  lemma AnswersIff<E(!new)>(group: Group<E>, polys: seq<seq<Scalar>>, st: DkgState, i: uint16)
    requires i < |polys| < 0x1_0000 && st.polynomial.Some?
    ensures ComputedShare(group, st, i + 1, Column(Rows(polys, |polys|), i)) != Err(Panic) <==> Answers(group, st)
  {
    hide ComputedShare, NilFirst, PackageOf;
    PanicIff(group, st, i + 1, Column(Rows(polys, |polys|), i));
    NoNilPackage(Column(Rows(polys, |polys|), i), i + 1);
  }

  lemma FinalizeStep<E(!new)>(group: Group<E>, t: nat, polys: seq<seq<Scalar>>, signers: seq<DkgState>, i: nat)
    requires Choices(t, polys) && i < |polys| == |signers| && Answers(group, signers[i])
    ensures Possible(group, FinalizeState(group, t, polys, signers, i), t, Call(polys[0]))
    ensures After(group, FinalizeState(group, t, polys, signers, i), t, Call(polys[0]))
            == FinalizeState(group, t, polys, signers, i + 1)
  {
    hide PackageOf, CommitmentOf, ComputedShare, Answers;
    assert signers[i].polynomial.Some? by { AnswersHas(group, signers[i]); }
    AnswersIff(group, polys, signers[i], i);
  }

  lemma AnswersHas<E(!new)>(group: Group<E>, st: DkgState)
    requires Answers(group, st)
    ensures st.polynomial.Some?
  {}

  lemma {:induction false} FinalizeReached<E(!new)>(group: Group<E>, t: nat, polys: seq<seq<Scalar>>,
                                                    signers: seq<DkgState>, others: seq<Step>, i: nat)
    requires Choices(t, polys) && i <= |polys| == |signers| && forall k | 0 <= k < i :: Answers(group, signers[k])
    requires Reaches(group, t, |polys|, FinalizeState(group, t, polys, signers, 0), others)
    ensures Reaches(group, t, |polys|, FinalizeState(group, t, polys, signers, i), others)
  {
    hide Reaches, CommitmentOf, PackageOf, After, Possible, FinalizeState, ComputedShare, Answers;
    if i > 0 {
      FinalizeReached(group, t, polys, signers, others, i - 1);
      FinalizeStep(group, t, polys, signers, i - 1);
      ReachesStep(group, t, |polys|, FinalizeState(group, t, polys, signers, i - 1), others, Call(polys[0]));
    }
  }

  /** The state of signer d + 1 after the request. */
  function AfterRequest(st: DkgState, e: Step): DkgState {
    match e
    case OtherRound1(_, p) => AfterRound1(st, p)
    case OtherCommitments(_, cs) => AfterCommitments(st, cs)
    case Call(_) => st
  }

  function SignersAfter<E(!new)>(group: Group<E>, t: nat, polys: seq<seq<Scalar>>, e: Step): (r: seq<DkgState>)
    requires Choices(t, polys) && !e.Call? && e.i < |polys|
    ensures |r| == |polys|
  {
    ReadySigners(group, t, polys)[e.i := AfterRequest(ReadySigners(group, t, polys)[e.i], e)]
  }

  /** The request makes the signer panic later: commitments with a nil entry before every other one
      without a readable point. */
  ghost predicate Aborts<E(!new)>(group: Group<E>, e: Step) {
    e.OtherCommitments? && NilFirst(group, e.commitments)
  }

  /** A request of another client, well-formed in the number of coefficients it makes a signer draw. */
  ghost predicate Request(t: nat, n: nat, e: Step) {
    !e.Call? && e.i < n && (e.OtherRound1? ==> |e.polynomial| == t)
  }

  lemma LateReaches<E(!new)>(group: Group<E>, t: nat, polys: seq<seq<Scalar>>, e: Step, i: nat)
    requires Choices(t, polys) && Request(t, |polys|, e) && i <= |polys| && (Aborts(group, e) ==> i <= e.i)
    ensures Reaches(group, t, |polys|, FinalizeState(group, t, polys, SignersAfter(group, t, polys, e), i), [e])
  {
    hide Reaches, CommitmentOf, PackageOf, ComputedShare, ConstantPoint;
    var n := |polys|;
    RoundTwoReached(group, t, polys, n, 0);
    ReachesStep(group, t, n, RoundTwoState(group, t, polys, n, 0), [], e);
    assert [] + [e] == [e];
    assert After(group, RoundTwoState(group, t, polys, n, 0), t, e)
      == FinalizeState(group, t, polys, SignersAfter(group, t, polys, e), 0);
    forall k | 0 <= k < i ensures Answers(group, SignersAfter(group, t, polys, e)[k]) {
      LateAnswers(group, t, polys, e, k);
    }
    FinalizeReached(group, t, polys, SignersAfter(group, t, polys, e), [e], i);
  }

  lemma LateAnswers<E(!new)>(group: Group<E>, t: nat, polys: seq<seq<Scalar>>, e: Step, k: nat)
    requires Choices(t, polys) && Request(t, |polys|, e) && k < |polys|
    ensures SignersAfter(group, t, polys, e)[k].polynomial.Some?
    ensures Answers(group, SignersAfter(group, t, polys, e)[k]) <==> !(Aborts(group, e) && k == e.i)
  {
    hide CommitmentOf, ConstantPoint;
    var all := CeremonyOf(t, polys).Commitments(group);
    assert !NilFirst(group, all);
  }

  /** The completed state after the request `e`. */
  function Outcome<E(!new)>(group: Group<E>, t: nat, polys: seq<seq<Scalar>>, e: Step): State<E>
    requires Choices(t, polys) && !e.Call? && e.i < |polys|
  {
    FinalizeState(group, t, polys, SignersAfter(group, t, polys, e), |polys|)
  }

  /** For all polynomials and any one request, the coordinator completes the ceremony exactly when the
      request does not abort it. */
  lemma LateRequestCompletes<E(!new)>(group: Group<E>, t: nat, polys: seq<seq<Scalar>>, e: Step)
    requires Choices(t, polys) && Request(t, |polys|, e)
    ensures Reaches(group, t, |polys|, Outcome(group, t, polys, e), [e]) <==> !Aborts(group, e)
  {
    hide Reaches, Aborts, ComputedShare, FinalizeState, Answers, CeremonyRuns.Inv;
    if !Aborts(group, e) {
      LateReaches(group, t, polys, e, |polys|);
    } else if Reaches(group, t, |polys|, Outcome(group, t, polys, e), [e]) {
      ReachesInv(group, t, |polys|, Outcome(group, t, polys, e), [e]);
      OutcomeNoPanic(group, t, polys, e);
      LateAnswers(group, t, polys, e, e.i);
      AnswersIff(group, polys, SignersAfter(group, t, polys, e)[e.i], e.i);
    }
  }

  lemma OutcomeNoPanic<E(!new)>(group: Group<E>, t: nat, polys: seq<seq<Scalar>>, e: Step)
    requires Choices(t, polys) && Request(t, |polys|, e)
    requires CeremonyRuns.Inv(group, Outcome(group, t, polys, e), t, |polys|)
    ensures
      var st := SignersAfter(group, t, polys, e)[e.i];
      ComputedShare(group, st, e.i + 1, Column(Rows(polys, |polys|), e.i)) != Err(Panic)
  {
    hide ComputedShare, CommitmentOf, PackageOf, SignersAfter;
    var i: uint16 := e.i;
    assert Outcome(group, t, polys, e).shares[i] != Err(Panic);
  }

  /** Otherwise the signer panics when the coordinator delivers its packages: the ceremony cannot go on,
      with key shares at the signers before this one only. */
  lemma LateNilAborts<E(!new)>(group: Group<E>, t: nat, polys: seq<seq<Scalar>>, e: Step)
    requires Choices(t, polys) && Request(t, |polys|, e) && Aborts(group, e)
    ensures
      var s := FinalizeState(group, t, polys, SignersAfter(group, t, polys, e), e.i);
      && Reaches(group, t, |polys|, s, [e]) && s.position == AtFinalize(e.i) && |s.shares| == e.i
      && forall p: seq<Scalar> :: !Possible(group, s, t, Call(p))
  {
    hide Reaches, Aborts, ComputedShare, Answers, PackageOf, CommitmentOf, SignersAfter;
    LateReaches(group, t, polys, e, e.i);
    LateAnswers(group, t, polys, e, e.i);
    AnswersIff(group, polys, SignersAfter(group, t, polys, e)[e.i], e.i);
  }

  /** The body `[null]` is such a request. */
  lemma NullBodyAborts<E(!new)>(group: Group<E>, d: nat)
    ensures Aborts(group, OtherCommitments(d, [None]))
  {
    hide ConstantPoint;
    var cs: seq<Option<Commitment>> := [None];
    assert cs[0].None?;
  }

  // ----- what a completed ceremony leaves

  lemma OutcomeCompleted<E(!new)>(group: Group<E>, t: nat, polys: seq<seq<Scalar>>, e: Step)
    requires Choices(t, polys) && |polys| < Q && Request(t, |polys|, e) && !Aborts(group, e)
    ensures Reaches(group, t, |polys|, Outcome(group, t, polys, e), [e])
    ensures Completed(group, t, |polys|, Outcome(group, t, polys, e))
  {
    hide Reaches, CeremonyRuns.Inv, FinalizeState, Aborts;
    LateRequestCompletes(group, t, polys, e);
    ReachesInv(group, t, |polys|, Outcome(group, t, polys, e), [e]);
    OutcomePosition(group, t, polys, e);
  }

  lemma ReachesInv<E(!new)>(group: Group<E>, t: nat, n: nat, s: State<E>, others: seq<Step>)
    requires Reaches(group, t, n, s, others)
    ensures CeremonyRuns.Inv(group, s, t, n)
  {
    hide CeremonyRuns.Inv, After, Possible, Foreign, Begin;
    var states, steps :| Run(group, t, n, states, steps) && states[|steps|] == s && Foreign(steps) == others;
    RunInv(group, t, n, states, steps, |steps|);
  }

  lemma OutcomePosition<E(!new)>(group: Group<E>, t: nat, polys: seq<seq<Scalar>>, e: Step)
    requires Choices(t, polys) && !e.Call? && e.i < |polys|
    ensures Outcome(group, t, polys, e).position == AtFinalize(|polys|)
  {}

  lemma OutcomeReceived<E(!new)>(group: Group<E>, t: nat, polys: seq<seq<Scalar>>, e: Step, i: nat)
    requires Choices(t, polys) && !e.Call? && e.i < |polys| && i < |polys|
    ensures forall row <- Outcome(group, t, polys, e).history.evaluated :: i < |row|
    ensures ReceivedPolynomials(Outcome(group, t, polys, e), i) == polys
  {
    hide CommitmentOf, PackageOf, ComputedShare;
  }

  lemma OutcomeShape<E(!new)>(group: Group<E>, t: nat, polys: seq<seq<Scalar>>, e: Step)
    requires Choices(t, polys) && !e.Call? && e.i < |polys|
    ensures
      var s := Outcome(group, t, polys, e);
      && s.history.drawn == polys && |s.signers| == |s.history.finalised| == |s.shares| == |polys|
      && (e.OtherRound1? ==> CommitmentsIntact(s))
      && forall i | 0 <= i < |polys| ::
           OwnPolynomial(s, i) == if e.OtherRound1? && i == e.i then e.polynomial else polys[i]
  {
    hide CommitmentOf, PackageOf, ComputedShare, Ceremony.Commitments;
  }

  lemma OutcomeDriftValue<E(!new)>(group: Group<E>, t: nat, polys: seq<seq<Scalar>>, e: Step, i: nat)
    requires Choices(t, polys) && e.OtherRound1? && e.i < |polys| && i < |polys|
    ensures
      var s := Outcome(group, t, polys, e);
      && i < |s.history.finalised| && i < |s.history.drawn| && (forall row <- s.history.evaluated :: i < |row|)
      && DriftValue(s, i) == if i == e.i then Eval(e.polynomial, i + 1) - Eval(polys[i], i + 1) else 0
  {
    hide Eval, SumOf, Outcome, ReceivedPolynomials, OwnPolynomial;
    OutcomeShape(group, t, polys, e);
    OutcomeReceived(group, t, polys, e, i);
  }

  /** What the request adds to the committee's values. */
  lemma OutcomeDrift<E(!new)>(group: Group<E>, t: nat, polys: seq<seq<Scalar>>, who: seq<nat>, k: nat, g: seq<Scalar>)
    requires Choices(t, polys) && |polys| < Q && |g| == t && Committee(t, |polys|, who) && k < |who|
    ensures
      var s := Outcome(group, t, polys, OtherRound1(who[k], g));
      var xs := Identifiers(SignerIds(|polys|), who);
      && Members(s, who) && |s.signers| == |polys|
      && Drift(s, who) == Lambda(xs, xs[k]) * (Eval(g, who[k] + 1) - Eval(polys[who[k]], who[k] + 1))
  {
    hide Eval, SumOf, LagrangeSum, Lambda, Completed, Outcome, DriftValue, Reaches;
    var e := OtherRound1(who[k], g);
    var s, xs := Outcome(group, t, polys, e), Identifiers(SignerIds(|polys|), who);
    OutcomeCompleted(group, t, polys, e);
    CompletedMembers(group, t, |polys|, s, who);
    var d := Eval(g, who[k] + 1) - Eval(polys[who[k]], who[k] + 1);
    forall l | 0 <= l < |who| ensures DriftValues(s, who)[l] == if l == k then d else 0 {
      OutcomeDriftValue(group, t, polys, e, who[l]);
      assert who[l] == who[k] ==> l == k by {
        if l > k { assert who[k] != who[l]; } else if l < k { assert who[l] != who[k]; }
      }
    }
    var zeros: seq<int> := seq(|who|, _ => 0);
    assert DriftValues(s, who) == zeros[k := zeros[k] + d];
    LagrangeSumZeros(xs, xs, zeros);
    LagrangeSumMoves(xs, xs, zeros, k, d);
  }

  /** A late Round1 with the polynomial `g` at a member of a committee: for all polynomials there is a
      run with this one request; every signer computes a key share, and the committee's secret fits
      the group key exactly when the correction and the changed own value cancel. */
  lemma LateRound1Fits<E(!new)>(group: Group<E>, t: nat, polys: seq<seq<Scalar>>, who: seq<nat>, k: nat, g: seq<Scalar>)
    requires Choices(t, polys) && |polys| < Q && |g| == t && Committee(t, |polys|, who) && k < |who|
    requires group.Lawful() && CeremonyOf(t, polys).Published(group)
    ensures
      var e := OtherRound1(who[k], g);
      var s, c := Outcome(group, t, polys, e), CeremonyOf(t, polys);
      var xs := Identifiers(c.ids, who);
      && Reaches(group, t, |polys|, s, [e]) && AllOk(s.shares) && |s.shares| == |polys|
      && forall i | 0 <= i < |polys| ::
           s.shares[i].value.verificationKey == group.mul(Recovered(xs, Secrets(s.shares, who)), group.base)
           <==> Zero(Correction(c, who) + Lambda(xs, xs[k]) * (Eval(g, who[k] + 1) - Eval(polys[who[k]], who[k] + 1)))
  {
    hide Eval, SumOf, LagrangeSum, Lambda, Outcome, Completed, Reaches, Red, Zero, Correction, Drift, Group.Lawful,
      Ceremony.Published, Recovered, CommitmentsIntact, Secrets, Members;
    var e := OtherRound1(who[k], g);
    OutcomeCompleted(group, t, polys, e);
    OutcomeShape(group, t, polys, e);
    OutcomeDrift(group, t, polys, who, k, g);
    CommitteeFitsIff(group, t, |polys|, Outcome(group, t, polys, e), who);
  }

  /** Where the ceremony left alone hands out keys that fit, one late Round1 with another value makes
      the committee's keys unfit, though the ceremony completes and every signer has computed a share. */
  lemma LateRound1Breaks<E(!new)>(group: Group<E>, t: nat, polys: seq<seq<Scalar>>, who: seq<nat>, k: nat,
                                  g: seq<Scalar>)
    requires Choices(t, polys) && |polys| < Q && |g| == t && Committee(t, |polys|, who) && k < |who|
    requires group.Lawful() && CeremonyOf(t, polys).Published(group) && Zero(Correction(CeremonyOf(t, polys), who))
    requires Share(g, who[k] + 1) != Share(polys[who[k]], who[k] + 1)
    ensures
      var e := OtherRound1(who[k], g);
      var s := Outcome(group, t, polys, e);
      && Reaches(group, t, |polys|, s, [e]) && AllOk(s.shares) && |s.shares| == |polys|
      && forall i | 0 <= i < |polys| :: s.shares[i].value.verificationKey
           != group.mul(Recovered(Identifiers(CeremonyOf(t, polys).ids, who), Secrets(s.shares, who)), group.base)
  {
    hide Eval, SumOf, LagrangeSum, Lambda, Outcome, Reaches, Red, Zero, Correction, Group.Lawful, Ceremony.Published,
      Recovered;
    LateRound1Fits(group, t, polys, who, k, g);
    var c := CeremonyOf(t, polys);
    SignerIdsValid(|polys|);
    IdentifiersDistinct(c.ids, t, who);
    var xs := Identifiers(c.ids, who);
    RedScalar(who[k] + 1);
    LambdaNonzero(xs, xs[k]);
    NotCancelled(Correction(c, who), Lambda(xs, xs[k]), Eval(g, who[k] + 1), Eval(polys[who[k]], who[k] + 1));
  }

  lemma NotCancelled(c: int, l: Scalar, a: int, b: int)
    requires Zero(c) && !Zero(l) && Red(a) != Red(b)
    ensures !Zero(c + l * (a - b))
  {
    hide *;
    RedEqual(a, b);
    if Zero(c + l * (a - b)) {
      ZeroSub(c + l * (a - b), c);
      ZeroProduct(l, a - b);
    }
  }

  /** There are such ceremonies, for every threshold and committee: in every lawful group when the
      committee has two members or more, and for one member, whose constant term must be zero, where
      the group reads its identity. */
  lemma LateRound1Example<E(!new)>(group: Group<E>, t: nat, n: nat, who: seq<nat>)
    returns (polys: seq<seq<Scalar>>, g: seq<Scalar>)
    requires 0 < t && 0 < n < 0x1_0000 && n < Q && Committee(t, n, who) && group.Lawful()
    requires |who| >= 2 || group.Readable(group.identity)
    ensures Choices(t, polys) && |polys| == n && |g| == t
    ensures CeremonyOf(t, polys).Published(group) && Zero(Correction(CeremonyOf(t, polys), who))
    ensures Share(g, who[0] + 1) != Share(polys[who[0]], who[0] + 1)
  {
    hide Red, LagrangeSum, Correction, Zero, Share, RightConstant, WithConstant;
    SignerIdsValid(n);
    if |who| >= 2 {
      var c := NonzeroFitting(t, n, who);
      polys := c.polys;
      assert c == CeremonyOf(t, polys);
    } else {
      var zero: seq<Scalar> := Copies(0, t);
      polys := seq(n, _ => zero);
      assert CeremonyOf(t, polys).Valid();
      SameCorrection(CeremonyOf(t, polys), who, zero);
    }
    g := OtherValue(polys[who[0]], who[0] + 1);
  }

  /** A polynomial with another value. */
  lemma OtherValue(p: seq<Scalar>, id: int) returns (g: seq<Scalar>)
    requires p != []
    ensures |g| == |p| && Share(g, id) != Share(p, id)
  {
    hide Red;
    var a: int := p[0];
    var b := Red(a + 1);
    g := [b] + p[1..];
    var x := Red(id);
    assert g[1..] == p[1..];
    RedRed(a + 1);
    RedAdd(b, a + 1, x * Eval(p[1..], x), x * Eval(p[1..], x));
    OneMore(Eval(p, x));
  }

  lemma OneMore(a: int)
    ensures Red(a + 1) != Red(a)
  {
    RedEqual(a + 1, a);
    if Zero(1) { SmallZero(1); }
  }

  /** A committee's correction is zero for some polynomials without a zero constant term: when equal
      polynomials need the constant 0 of the first member, they no longer do once the second member's
      constant is another one. */
  lemma NonzeroFitting(t: nat, n: nat, who: seq<nat>) returns (c: Ceremony)
    requires 0 < t && 0 < n < 0x1_0000 && n < Q && Committee(t, n, who) && |who| >= 2
    ensures c.Valid() && c.threshold == t && c.ids == SignerIds(n) && |c.polys| == n
    ensures Zero(Correction(c, who)) && forall i | 0 <= i < n :: c.polys[i][0] != 0
  {
    hide Red, LagrangeSum, Correction, Zero, RightConstant;
    SignerIdsValid(n);
    assert who[0] != who[1] && Q > 2 by { TwoMembers(n, who); }
    var ones: seq<Scalar> := [1] + Copies(0, t - 1);
    var equal := CeremonyOf(t, seq(n, _ => ones));
    assert equal.Valid();
    var r := RightConstant(equal, who, 0);
    if r != 0 {
      OneConstantInQ(equal, who, 0, r);
      c := WithConstant(equal, who[0], r);
    } else {
      var other := WithConstant(equal, who[1], 2);
      assert other.Valid();
      var q := RightConstant(other, who, 0);
      SecondMoves(equal, who, 2);
      OneConstantInQ(other, who, 0, q);
      c := WithConstant(other, who[0], q);
    }
  }

  lemma TwoMembers(n: nat, who: seq<nat>)
    requires Committee(1, n, who) && |who| >= 2
    ensures who[0] != who[1] && n >= 2
  {}

  /** Another constant of the second member means another right constant of the first. */
  lemma SecondMoves(c: Ceremony, who: seq<nat>, b: Scalar)
    requires c.Valid() && Committee(c.threshold, |c.ids|, who) && |who| >= 2 && who[0] != who[1]
    requires RightConstant(c, who, 0) == 0 && b != c.polys[who[1]][0] && WithConstant(c, who[1], b).Valid()
    ensures RightConstant(WithConstant(c, who[1], b), who, 0) != 0
  {
    hide Red, LagrangeSum, Correction, Zero, RightConstant, Lambda;
    var other, base := WithConstant(c, who[1], b), WithConstant(c, who[0], 0);
    OneConstantInQ(c, who, 0, 0);
    OneConstantInQ(other, who, 0, 0);
    assert base.Valid();
    assert WithConstant(other, who[0], 0) == WithConstant(base, who[1], b);
    CorrectionMoves(base, who, 1, b);
    var xs := Identifiers(c.ids, who);
    IdentifiersDistinct(c.ids, c.threshold, who);
    LambdaNonzero(xs, xs[1]);
    Shifted(Correction(base, who), Lambda(xs, xs[1]), b, c.polys[who[1]][0]);
  }

  lemma Shifted(c: int, l: Scalar, a: Scalar, b: Scalar)
    requires Zero(c) && !Zero(l) && a != b
    ensures !Zero(c + l * (a - b))
  {
    RedScalar(a);
    RedScalar(b);
    NotCancelled(c, l, a, b);
  }

  /** A late post of commitments, one of which does not start with a readable point, with no nil entry
      before: the ceremony completes all the same, without a key share at that signer and with one at every other. */
  lemma LateCommitmentsBreak<E(!new)>(group: Group<E>, t: nat, polys: seq<seq<Scalar>>, d: nat,
                                      cs: seq<Option<Commitment>>)
    requires Choices(t, polys) && |polys| < Q && d < |polys| && group.Lawful() && CeremonyOf(t, polys).Published(group)
    requires (exists c <- cs :: !Starts(group, c)) && !NilFirst(group, cs)
    ensures
      var e := OtherCommitments(d, cs);
      var s := Outcome(group, t, polys, e);
      && Reaches(group, t, |polys|, s, [e]) && s.position == AtFinalize(|polys|) && |s.shares| == |polys|
      && forall i | 0 <= i < |polys| :: s.shares[i].Ok? <==> i != d
  {
    hide Reaches, CommitmentOf, PackageOf, ComputedShare, Completed, Starts, Ceremony.Published, Group.Lawful,
      Ceremony.Commitments, NilFirst;
    var e := OtherCommitments(d, cs);
    var s, all := Outcome(group, t, polys, e), CeremonyOf(t, polys).Commitments(group);
    OutcomeCompleted(group, t, polys, e);
    SignerIdsValid(|polys|);
    assert CeremonyOf(t, polys).Valid();
    GroupKeyIsJoint(CeremonyOf(t, polys), group);
    GroupKeyIff(group, all);
    forall i: uint16 | i < |polys| ensures s.shares[i].Ok? <==> i != d {
      FinalShare(group, t, |polys|, s, i);
    }
    forall i | 0 <= i < |polys| ensures s.shares[i].Ok? <==> i != d { var j: uint16 := i; }
  }
}
