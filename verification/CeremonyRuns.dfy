/** The ceremony when other clients may call a signer's /dkg/round1 and /dkg/commitments at any time.
    A Round1 replaces the participant, so that what the coordinator has already collected from it need
    not fit any more. */
module CeremonyRuns {
  import opened Wrappers
  import opened Zq
  import opened Wire
  import opened Group
  import opened Dkg
  import opened DkgCeremony

  /** History: the polynomials drawn in the coordinator's calls of Round1; for every package collected,
      the polynomial its signer had installed then; and the states in which the signers finalised. */
  datatype History = History(
    drawn: seq<seq<Scalar>>,
    evaluated: seq<seq<seq<Scalar>>>,
    finalised: seq<DkgState>)

  /** The signers' states; the coordinator's position and what it has collected, `packages[i][j]` being
      signer i + 1's package for signer j + 1; and the key shares the signers have computed for it. */
  datatype State<E> = State(
    signers: seq<DkgState>,
    position: Position,
    collected: seq<Option<Commitment>>,
    packages: seq<seq<Option<SharePackage>>>,
    shares: seq<Result<KeyShare<E>, HandlerError>>,
    history: History)

  /** A call of the coordinator, with the polynomial drawn if it is Round1, or of another client. */
  datatype Step =
    | Call(polynomial: seq<Scalar>)
    | OtherRound1(i: nat, polynomial: seq<Scalar>)
    | OtherCommitments(i: nat, commitments: seq<Option<Commitment>>)

  function Begin<E>(n: nat): State<E> {
    State(seq(n, _ => DkgState(None, [])), if n > 0 then AtRound1(0) else AtFinalize(0), [], [], [],
      History([], [], []))
  }

  /** The packages for signer j + 1. */
  function Column(packages: seq<seq<Option<SharePackage>>>, j: nat): (r: seq<Option<SharePackage>>)
    requires forall row <- packages :: j < |row|
    ensures |r| == |packages|
  {
    seq(|packages|, k requires 0 <= k < |packages| => packages[k][j])
  }

  /** A step can happen; a call that panics breaks the connection and ends the ceremony. */
  ghost predicate Possible<E(!new)>(group: Group<E>, s: State<E>, t: nat, e: Step) {
    var n := |s.signers|;
    match e
    case Call(p) =>
      && |p| == t
      && (match s.position
          case AtRound1(i) => i < n < 0x1_0000
          case AtBroadcast(i) => i < n
          case AtRound2(i, j) =>
            && i < n && j < n < 0x1_0000 && s.signers[i].polynomial.Some?
            && i <= |s.packages| && i <= |s.history.evaluated|
          case AtFinalize(i) =>
            && i < n < 0x1_0000 && (forall row <- s.packages :: i < |row|)
            && ComputedShare(group, s.signers[i], i + 1, Column(s.packages, i)) != Err(Panic))
    case OtherRound1(i, p) => i < n && |p| == t
    case OtherCommitments(i, _) => i < n
  }

  /** `rows` with `x` added to its row i, which is new if there are only i rows. */
  function AddTo<T>(rows: seq<seq<T>>, i: nat, x: T): seq<seq<T>>
    requires i <= |rows|
  {
    if i == |rows| then rows + [[x]] else rows[i := rows[i] + [x]]
  }

  /** What a call does, and where the coordinator goes on. */
  function After<E(!new)>(group: Group<E>, s: State<E>, t: nat, e: Step): State<E>
    requires Possible(group, s, t, e)
  {
    var n := |s.signers|;
    match e
    case OtherRound1(i, p) => s.(signers := s.signers[i := AfterRound1(s.signers[i], p)])
    case OtherCommitments(i, cs) => s.(signers := s.signers[i := AfterCommitments(s.signers[i], cs)])
    case Call(p) =>
      match s.position
      case AtRound1(i) =>
        s.(signers := s.signers[i := AfterRound1(s.signers[i], p)],
           position := if i + 1 < n then AtRound1(i + 1) else AtBroadcast(0),
           collected := s.collected + [Some(CommitmentOf(group, i + 1, p))],
           history := s.history.(drawn := s.history.drawn + [p]))
      case AtBroadcast(i) =>
        s.(signers := s.signers[i := AfterCommitments(s.signers[i], s.collected)],
           position := if i + 1 < n then AtBroadcast(i + 1) else AtRound2(0, 0))
      case AtRound2(i, j) =>
        s.(packages := AddTo(s.packages, i, Some(Round2Answer(s.signers[i], i + 1, j + 1).value)),
           position :=
             if j + 1 < n then AtRound2(i, j + 1) else if i + 1 < n then AtRound2(i + 1, 0) else AtFinalize(0),
           history := s.history.(evaluated := AddTo(s.history.evaluated, i, s.signers[i].polynomial.value)))
      case AtFinalize(i) =>
        s.(position := AtFinalize(i + 1),
           shares := s.shares + [ComputedShare(group, s.signers[i], i + 1, Column(s.packages, i))],
           history := s.history.(finalised := s.history.finalised + [s.signers[i]]))
  }

  ghost predicate Run<E(!new)>(group: Group<E>, t: nat, n: nat, states: seq<State<E>>, steps: seq<Step>) {
    && |states| == |steps| + 1 && states[0] == Begin(n) && n < 0x1_0000
    && forall k | 0 <= k < |steps| ::
      Possible(group, states[k], t, steps[k]) && states[k + 1] == After(group, states[k], t, steps[k])
  }

  // ----- how far the coordinator has got

  function RowsDone(p: Position, n: nat): nat {
    match p
    case AtRound2(i, j) => if j > 0 then i + 1 else i
    case AtFinalize(_) => n
    case _ => 0
  }

  /** How many packages of signer `k` the coordinator has. */
  function PackagesDone(p: Position, n: nat, k: nat): nat {
    match p
    case AtRound2(i, j) => if k < i then n else if k == i then j else 0
    case AtFinalize(_) => n
    case _ => 0
  }

  function FinalizesDone(p: Position): nat {
    match p case AtFinalize(i) => i case _ => 0
  }

  // ----- what every step keeps

  ghost predicate InRange(p: Position, n: nat) {
    match p
    case AtRound1(i) => i < n
    case AtBroadcast(i) => i < n
    case AtRound2(i, j) => i < n && j < n
    case AtFinalize(i) => i <= n
  }

  ghost predicate Drawn(st: DkgState, t: nat) {
    st.polynomial.Some? && |st.polynomial.value| == t
  }

  /** Signer k + 1's packages so far. */
  ghost predicate RowRight(k: nat, row: seq<Option<SharePackage>>, polys: seq<seq<Scalar>>, t: nat, length: nat) {
    && |row| == |polys| == length < 0x1_0000 && k < 0xFFFF
    && forall j: uint16 | j < length :: |polys[j]| == t && row[j] == Some(PackageOf(k + 1, polys[j], j + 1))
  }

  ghost predicate SignersInv<E(!new)>(group: Group<E>, s: State<E>, t: nat, n: nat)
    requires n < 0x1_0000
  {
    var done := CommitmentsDone(s.position, n);
    && |s.signers| == n && |s.collected| == |s.history.drawn| == done <= n
    && (forall k | 0 <= k < n :: s.signers[k].polynomial.Some? ==> Drawn(s.signers[k], t))
    && (forall k: uint16 | k < done ::
          Drawn(s.signers[k], t) && |s.history.drawn[k]| == t
            && s.collected[k] == Some(CommitmentOf(group, k + 1, s.history.drawn[k])))
  }

  ghost predicate PackagesInv<E>(s: State<E>, t: nat, n: nat) {
    && |s.packages| == |s.history.evaluated| == RowsDone(s.position, n) <= n
    && forall k | 0 <= k < |s.packages| ::
         RowRight(k, s.packages[k], s.history.evaluated[k], t, PackagesDone(s.position, n, k))
  }

  ghost predicate SharesInv<E(!new)>(group: Group<E>, s: State<E>, t: nat, n: nat)
    requires n < 0x1_0000
  {
    && |s.shares| == |s.history.finalised| == FinalizesDone(s.position) <= n
    && (s.shares != [] ==> forall row <- s.packages :: |row| == n)
    && forall k: uint16 | k < |s.shares| ::
         Drawn(s.history.finalised[k], t)
         && s.shares[k] == ComputedShare(group, s.history.finalised[k], k + 1, Column(s.packages, k))
         && s.shares[k] != Err(Panic)
  }

  ghost predicate Inv<E(!new)>(group: Group<E>, s: State<E>, t: nat, n: nat) {
    && n < 0x1_0000 && InRange(s.position, n)
    && SignersInv(group, s, t, n) && PackagesInv(s, t, n) && SharesInv(group, s, t, n)
  }

  lemma OtherKeepsInv<E(!new)>(group: Group<E>, s: State<E>, t: nat, n: nat, e: Step)
    requires Inv(group, s, t, n) && Possible(group, s, t, e) && !e.Call?
    ensures Inv(group, After(group, s, t, e), t, n)
  {
    hide CommitmentOf, ComputedShare, RowRight;
  }

  lemma Round1KeepsInv<E(!new)>(group: Group<E>, s: State<E>, t: nat, n: nat, e: Step)
    requires Inv(group, s, t, n) && Possible(group, s, t, e) && e.Call? && s.position.AtRound1?
    ensures Inv(group, After(group, s, t, e), t, n)
  {
    hide CommitmentOf, ComputedShare, RowRight;
  }

  lemma BroadcastKeepsInv<E(!new)>(group: Group<E>, s: State<E>, t: nat, n: nat, e: Step)
    requires Inv(group, s, t, n) && Possible(group, s, t, e) && e.Call? && s.position.AtBroadcast?
    ensures Inv(group, After(group, s, t, e), t, n)
  {
    hide CommitmentOf, ComputedShare, RowRight;
  }

  lemma RowGrows(k: nat, row: seq<Option<SharePackage>>, polys: seq<seq<Scalar>>, t: nat, j: nat, f: seq<Scalar>)
    requires RowRight(k, row, polys, t, j) && j < 0xFFFF && |f| == t
    ensures RowRight(k, row + [Some(PackageOf(k + 1, f, j + 1))], polys + [f], t, j + 1)
  {
    hide PackageOf;
  }

  lemma Round2KeepsInv<E(!new)>(group: Group<E>, s: State<E>, t: nat, n: nat, e: Step)
    requires Inv(group, s, t, n) && Possible(group, s, t, e) && e.Call? && s.position.AtRound2?
    ensures Inv(group, After(group, s, t, e), t, n)
  {
    hide CommitmentOf, ComputedShare, RowRight, PackageOf;
    var (i, j, v) := (s.position.i, s.position.j, After(group, s, t, e));
    var f := s.signers[i].polynomial.value;
    assert Drawn(s.signers[i], t);
    var row, polys := if j == 0 then [] else s.packages[i], if j == 0 then [] else s.history.evaluated[i];
    assert RowRight(i, row, polys, t, j) by { if j == 0 { EmptyRow(i, t); } }
    RowGrows(i, row, polys, t, j, f);
    assert v.packages[i] == row + [Some(PackageOf(i + 1, f, j + 1))] && v.history.evaluated[i] == polys + [f];
    forall k | 0 <= k < |v.packages|
      ensures RowRight(k, v.packages[k], v.history.evaluated[k], t, PackagesDone(v.position, n, k))
    {
      if k < i { assert RowRight(k, s.packages[k], s.history.evaluated[k], t, PackagesDone(s.position, n, k)); }
    }
  }

  lemma EmptyRow(k: nat, t: nat)
    requires k < 0xFFFF
    ensures RowRight(k, [], [], t, 0)
  {}

  lemma FinalizeKeepsInv<E(!new)>(group: Group<E>, s: State<E>, t: nat, n: nat, e: Step)
    requires Inv(group, s, t, n) && Possible(group, s, t, e) && e.Call? && s.position.AtFinalize?
    ensures Inv(group, After(group, s, t, e), t, n)
  {
    hide CommitmentOf, ComputedShare, PackageOf;
    forall row | row in s.packages ensures |row| == n {
      var k :| 0 <= k < |s.packages| && s.packages[k] == row;
      assert RowRight(k, s.packages[k], s.history.evaluated[k], t, PackagesDone(s.position, n, k));
    }
  }

  lemma StepKeepsInv<E(!new)>(group: Group<E>, s: State<E>, t: nat, n: nat, e: Step)
    requires Inv(group, s, t, n) && Possible(group, s, t, e)
    ensures Inv(group, After(group, s, t, e), t, n)
  {
    hide After, Inv, Possible;
    if !e.Call? {
      OtherKeepsInv(group, s, t, n, e);
    } else {
      match s.position {
        case AtRound1(_) => Round1KeepsInv(group, s, t, n, e);
        case AtBroadcast(_) => BroadcastKeepsInv(group, s, t, n, e);
        case AtRound2(_, _) => Round2KeepsInv(group, s, t, n, e);
        case AtFinalize(_) => FinalizeKeepsInv(group, s, t, n, e);
      }
    }
  }

  lemma BeginInv<E(!new)>(group: Group<E>, t: nat, n: nat)
    requires n < 0x1_0000
    ensures Inv(group, Begin<E>(n), t, n)
  {
    hide CommitmentOf, ComputedShare, PackageOf;
  }

  lemma {:induction false} RunInv<E(!new)>(group: Group<E>, t: nat, n: nat, states: seq<State<E>>, steps: seq<Step>,
                                           k: nat)
    requires Run(group, t, n, states, steps) && k < |states|
    ensures Inv(group, states[k], t, n)
  {
    hide After, Possible, Inv, Begin;
    if k > 0 {
      RunInv(group, t, n, states, steps, k - 1);
      assert Possible(group, states[k - 1], t, steps[k - 1])
        && states[k - 1 + 1] == After(group, states[k - 1], t, steps[k - 1]);
      StepKeepsInv(group, states[k - 1], t, n, steps[k - 1]);
    } else {
      BeginInv(group, t, n);
    }
  }

  /** Exactly when the coordinator's next call panics, in any run: it delivers packages to a signer that
      holds a nil commitment before every other unreadable one. */
  lemma CallPanicsIff<E(!new)>(group: Group<E>, t: nat, n: nat, states: seq<State<E>>, steps: seq<Step>, k: nat,
                               p: seq<Scalar>)
    requires Run(group, t, n, states, steps) && k < |states| && states[k].position != AtFinalize(n) && |p| == t
    ensures states[k].position.AtFinalize? ==> states[k].position.i < |states[k].signers|
    ensures Possible(group, states[k], t, Call(p)) <==>
      !(states[k].position.AtFinalize? && NilFirst(group, states[k].signers[states[k].position.i].commitments))
  {
    hide Run, CommitmentOf, ComputedShare, PackageOf, NilFirst;
    RunInv(group, t, n, states, steps, k);
    var s := states[k];
    if s.position.AtFinalize? {
      RowsComplete(group, s, t, n);
      ColumnNotNil(s.packages, s.history.evaluated, t, n, s.position.i);
      assert Drawn(s.signers[s.position.i], t);
      PanicIff(group, s.signers[s.position.i], s.position.i + 1, Column(s.packages, s.position.i));
      NoNilPackage(Column(s.packages, s.position.i), s.position.i + 1);
    }
  }

  lemma RowsComplete<E(!new)>(group: Group<E>, s: State<E>, t: nat, n: nat)
    requires Inv(group, s, t, n) && s.position.AtFinalize?
    ensures |s.packages| == |s.history.evaluated| == n
    ensures forall k | 0 <= k < n :: RowRight(k, s.packages[k], s.history.evaluated[k], t, n)
    ensures forall row <- s.packages :: |row| == n
  {
    hide CommitmentOf, ComputedShare, PackageOf;
    forall k | 0 <= k < n ensures RowRight(k, s.packages[k], s.history.evaluated[k], t, n) {
      assert RowRight(k, s.packages[k], s.history.evaluated[k], t, PackagesDone(s.position, n, k));
    }
    forall row | row in s.packages ensures |row| == n {
      var k :| 0 <= k < |s.packages| && s.packages[k] == row;
      assert RowRight(k, s.packages[k], s.history.evaluated[k], t, n);
    }
  }

  lemma ColumnNotNil(packages: seq<seq<Option<SharePackage>>>, evaluated: seq<seq<seq<Scalar>>>, t: nat, n: nat,
                     i: uint16)
    requires |packages| == |evaluated| == n && i < n && (forall row <- packages :: i < |row|)
    requires forall k | 0 <= k < n :: RowRight(k, packages[k], evaluated[k], t, n)
    ensures forall k | 0 <= k < n :: Column(packages, i)[k].Some?
  {
    hide PackageOf;
    forall k | 0 <= k < n ensures Column(packages, i)[k].Some? {
      assert RowRight(k, packages[k], evaluated[k], t, n);
    }
  }

  lemma NoNilPackage(packages: seq<Option<SharePackage>>, id: uint16)
    requires forall k | 0 <= k < |packages| :: packages[k].Some?
    ensures !NilPackageFirst(packages, id)
  {}

  // ----- signers that other clients leave alone

  /** Between the coordinator's Round1 at signer `i` and the k-th state, another client called it. */
  ghost predicate Disturbed<E>(states: seq<State<E>>, steps: seq<Step>, k: nat, i: nat)
    requires k <= |steps| < |states|
  {
    exists m | 0 <= m < k :: steps[m].OtherRound1? && steps[m].i == i && i < |states[m].collected|
  }

  /** Between the coordinator's broadcast to signer `i` and the k-th state, another client posted
      commitments to it. */
  ghost predicate Overwritten<E>(states: seq<State<E>>, steps: seq<Step>, n: nat, k: nat, i: nat)
    requires k <= |steps| < |states|
  {
    exists m | 0 <= m < k :: steps[m].OtherCommitments? && steps[m].i == i && i < BroadcastsDone(states[m].position, n)
  }

  /** Everything that came from signer `i` comes from the polynomial of the coordinator's Round1. */
  ghost predicate PolynomialKept<E>(s: State<E>, i: nat) {
    i < |s.history.drawn| ==>
      && i < |s.signers| && s.signers[i].polynomial == Some(s.history.drawn[i])
      && (i < |s.history.evaluated| ==>
            forall j | 0 <= j < |s.history.evaluated[i]| :: s.history.evaluated[i][j] == s.history.drawn[i])
      && (i < |s.history.finalised| ==> s.history.finalised[i].polynomial == Some(s.history.drawn[i]))
  }

  ghost predicate CommitmentsKept<E>(s: State<E>, n: nat, i: nat) {
    i < BroadcastsDone(s.position, n) ==>
      && i < |s.signers| && s.signers[i].commitments == s.collected
      && (i < |s.history.finalised| ==> s.history.finalised[i].commitments == s.collected)
  }

  lemma PolynomialKeptStep<E(!new)>(group: Group<E>, s: State<E>, t: nat, n: nat, e: Step, i: nat)
    requires Inv(group, s, t, n) && Possible(group, s, t, e) && PolynomialKept(s, i)
    requires !(e.OtherRound1? && e.i == i && i < |s.collected|)
    ensures PolynomialKept(After(group, s, t, e), i)
  {
    hide CommitmentOf, ComputedShare, PackageOf, RowRight;
  }

  lemma CommitmentsKeptStep<E(!new)>(group: Group<E>, s: State<E>, t: nat, n: nat, e: Step, i: nat)
    requires Inv(group, s, t, n) && Possible(group, s, t, e) && CommitmentsKept(s, n, i)
    requires !(e.OtherCommitments? && e.i == i && i < BroadcastsDone(s.position, n))
    ensures CommitmentsKept(After(group, s, t, e), n, i)
  {
    hide CommitmentOf, ComputedShare, PackageOf, RowRight;
  }

  lemma {:induction false} UndisturbedKept<E(!new)>(group: Group<E>, t: nat, n: nat, states: seq<State<E>>,
                                                    steps: seq<Step>, k: nat, i: nat)
    requires Run(group, t, n, states, steps) && k < |states| && !Disturbed(states, steps, k, i)
    ensures PolynomialKept(states[k], i)
  {
    hide After, Possible, Inv, PolynomialKept;
    if k > 0 {
      UndisturbedKept(group, t, n, states, steps, k - 1, i);
      assert Possible(group, states[k - 1], t, steps[k - 1])
        && states[k - 1 + 1] == After(group, states[k - 1], t, steps[k - 1]);
      RunInv(group, t, n, states, steps, k - 1);
      PolynomialKeptStep(group, states[k - 1], t, n, steps[k - 1], i);
    } else {
      NothingDrawn<E>(n, i);
    }
  }

  lemma NothingDrawn<E>(n: nat, i: nat)
    ensures PolynomialKept(Begin<E>(n), i) && CommitmentsKept(Begin<E>(n), n, i)
  {}

  lemma {:induction false} NotOverwrittenKept<E(!new)>(group: Group<E>, t: nat, n: nat, states: seq<State<E>>,
                                                       steps: seq<Step>, k: nat, i: nat)
    requires Run(group, t, n, states, steps) && k < |states| && !Overwritten(states, steps, n, k, i)
    ensures CommitmentsKept(states[k], n, i)
  {
    hide After, Possible, Inv, CommitmentsKept;
    if k > 0 {
      NotOverwrittenKept(group, t, n, states, steps, k - 1, i);
      assert Possible(group, states[k - 1], t, steps[k - 1])
        && states[k - 1 + 1] == After(group, states[k - 1], t, steps[k - 1]);
      RunInv(group, t, n, states, steps, k - 1);
      CommitmentsKeptStep(group, states[k - 1], t, n, steps[k - 1], i);
    } else {
      NothingDrawn<E>(n, i);
    }
  }

  /** So no call panics at a signer that nobody else has given commitments since the broadcast. */
  lemma NeverPanics<E(!new)>(group: Group<E>, t: nat, n: nat, states: seq<State<E>>, steps: seq<Step>, k: nat,
                             p: seq<Scalar>)
    requires Run(group, t, n, states, steps) && k < |states| && states[k].position != AtFinalize(n) && |p| == t
    requires states[k].position.AtFinalize? ==> !Overwritten(states, steps, n, k, states[k].position.i)
    ensures Possible(group, states[k], t, Call(p))
  {
    hide Run, CommitmentOf, ComputedShare, Overwritten;
    CallPanicsIff(group, t, n, states, steps, k, p);
    RunInv(group, t, n, states, steps, k);
    var s := states[k];
    if s.position.AtFinalize? {
      NotOverwrittenKept(group, t, n, states, steps, k, s.position.i);
      CollectedNotNil(group, s, t, n);
    }
  }

  lemma CollectedNotNil<E(!new)>(group: Group<E>, s: State<E>, t: nat, n: nat)
    requires Inv(group, s, t, n)
    ensures !NilFirst(group, s.collected)
  {
    hide CommitmentOf, ComputedShare, ConstantPoint;
    forall k | 0 <= k < |s.collected| ensures s.collected[k].Some? { var j: uint16 := k; }
  }

  // ----- whether a signer's messages fit the polynomial it has installed

  /** The commitment the coordinator has of signer i + 1, and all packages from it, are those of the
      polynomial the signer has installed now. */
  ghost predicate Current<E(!new)>(group: Group<E>, s: State<E>, i: nat)
    requires i < |s.signers| && i < |s.collected| && i < 0xFFFF && s.signers[i].polynomial.Some?
  {
    && s.collected[i] == Some(CommitmentOf(group, i + 1, s.signers[i].polynomial.value))
    && (i < |s.packages| ==> forall j: uint16 | j < |s.packages[i]| && j < 0xFFFF ::
          s.packages[i][j] == Some(PackageOf(i + 1, s.signers[i].polynomial.value, j + 1)))
  }

  /** The installed polynomial is the one of the coordinator's Round1, and the ones evaluated for the
      packages had the same values there. */
  ghost predicate SameValues<E>(s: State<E>, i: nat)
    requires i < |s.signers| && i < |s.history.drawn| && s.signers[i].polynomial.Some?
  {
    && s.signers[i].polynomial.value == s.history.drawn[i]
    && (i < |s.history.evaluated| ==> forall j: uint16 | j < |s.history.evaluated[i]| && j < 0xFFFF ::
          Share(s.history.evaluated[i][j], j + 1) == Share(s.history.drawn[i], j + 1))
  }

  lemma TextInjective<E(!new)>(group: Group<E>, a: E, b: E)
    requires group.Lawful() && PointText(group, a) == PointText(group, b)
    ensures a == b
  {
    hide Group.Lawful;
    PointRoundTrip(group, a);
    PointRoundTrip(group, b);
  }

  /** Different polynomials have different commitments. */
  lemma CommitmentInjective<E(!new)>(group: Group<E>, id: uint16, f: seq<Scalar>, g: seq<Scalar>)
    requires group.Lawful() && |f| == |g| && CommitmentOf(group, id, f) == CommitmentOf(group, id, g)
    ensures f == g
  {
    hide Group.Lawful, PointText;
    forall k | 0 <= k < |f| ensures f[k] == g[k] {
      assert CommitmentOf(group, id, f).commitments[k] == CommitmentOf(group, id, g).commitments[k];
      TextInjective(group, group.mul(f[k], group.base), group.mul(g[k], group.base));
      RedScalar(f[k]);
      RedScalar(g[k]);
      group.ExpEqual(f[k], g[k]);
    }
  }

  lemma PackageInjective(from: uint16, f: seq<Scalar>, g: seq<Scalar>, to: uint16)
    ensures PackageOf(from, f, to) == PackageOf(from, g, to) <==> Share(f, to) == Share(g, to)
  {
    hide Share, ShareText, ParseShare;
    ShareRoundTrip(Share(f, to));
    ShareRoundTrip(Share(g, to));
  }

  /** In every state of every run a signer's messages fit its installed polynomial exactly when this
      has the coefficients of the coordinator's Round1 and the packages are its values. */
  lemma CurrentIffSameValues<E(!new)>(group: Group<E>, t: nat, n: nat, states: seq<State<E>>, steps: seq<Step>,
                                      k: nat, i: nat)
    requires Run(group, t, n, states, steps) && k < |states| && i < |states[k].collected| && group.Lawful()
    ensures i < |states[k].signers| && i < 0xFFFF && i < |states[k].history.drawn|
      && states[k].signers[i].polynomial.Some?
    ensures Current(group, states[k], i) <==> SameValues(states[k], i)
  {
    hide Run, Group.Lawful, CommitmentOf, PackageOf, Share, ComputedShare;
    RunInv(group, t, n, states, steps, k);
    var s := states[k];
    assert Drawn(s.signers[i], t);
    var p := s.signers[i].polynomial.value;
    if s.collected[i] == Some(CommitmentOf(group, i + 1, p)) {
      CommitmentInjective(group, i + 1, p, s.history.drawn[i]);
    }
    if i < |s.packages| {
      assert RowRight(i, s.packages[i], s.history.evaluated[i], t, PackagesDone(s.position, n, i));
      forall j: uint16 | j < |s.packages[i]| && j < 0xFFFF
        ensures s.packages[i][j] == Some(PackageOf(i + 1, p, j + 1))
                <==> Share(s.history.evaluated[i][j], j + 1) == Share(p, j + 1)
      {
        PackageInjective(i + 1, s.history.evaluated[i][j], p, j + 1);
      }
    }
  }

  /** So they fit whenever nobody but the coordinator has called the signer's Round1 since. */
  lemma CurrentIfUndisturbed<E(!new)>(group: Group<E>, t: nat, n: nat, states: seq<State<E>>, steps: seq<Step>,
                                      k: nat, i: nat)
    requires Run(group, t, n, states, steps) && k < |states| && i < |states[k].collected| && group.Lawful()
    requires !Disturbed(states, steps, k, i)
    ensures i < |states[k].signers| && i < 0xFFFF && states[k].signers[i].polynomial.Some?
    ensures Current(group, states[k], i)
  {
    hide Run, Disturbed, Group.Lawful, Current, Share, Inv;
    CurrentIffSameValues(group, t, n, states, steps, k, i);
    UndisturbedKept(group, t, n, states, steps, k, i);
  }
}
