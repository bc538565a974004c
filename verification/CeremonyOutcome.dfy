/** What a completed ceremony leaves, in every run: which signers have computed a key share, what its
    secret is, and when the secret of a committee belongs to the group key. */
module CeremonyOutcome {
  import opened Wrappers
  import opened Zq
  import opened Polynomial
  import opened Lagrange
  import opened Wire
  import opened Group
  import opened Dkg
  import opened DkgTheorems
  import opened DkgOutcomes
  import opened DkgCeremony
  import opened Reconstruction
  import opened CeremonyRuns

  /** The coordinator has made all its calls. */
  ghost predicate Completed<E(!new)>(group: Group<E>, t: nat, n: nat, s: State<E>) {
    CeremonyRuns.Inv(group, s, t, n) && s.position == AtFinalize(n) && t > 0 && n < Q
  }

  lemma RunCompletes<E(!new)>(group: Group<E>, t: nat, n: nat, states: seq<State<E>>, steps: seq<Step>, k: nat)
    requires Run(group, t, n, states, steps) && k < |states| && states[k].position == AtFinalize(n) && t > 0 && n < Q
    ensures Completed(group, t, n, states[k])
  {
    hide CeremonyRuns.Inv, Run;
    RunInv(group, t, n, states, steps, k);
  }

  /** The ceremony of the polynomials drawn in the coordinator's calls. */
  function DrawnCeremony<E>(t: nat, s: State<E>): (c: Ceremony)
    requires |s.history.drawn| < 0x1_0000
  {
    CeremonyOf(t, s.history.drawn)
  }

  /** The polynomials behind the packages that signer i + 1 received. */
  function ReceivedPolynomials<E>(s: State<E>, i: nat): (r: seq<seq<Scalar>>)
    requires forall row <- s.history.evaluated :: i < |row|
    ensures |r| == |s.history.evaluated|
  {
    seq(|s.history.evaluated|, k requires 0 <= k < |s.history.evaluated| => s.history.evaluated[k][i])
  }

  function OwnPolynomial<E>(s: State<E>, i: nat): seq<Scalar>
    requires i < |s.history.finalised|
  {
    match s.history.finalised[i].polynomial
    case Some(f) => f
    case None => []
  }

  /** Signer i + 1's own share, of the polynomial it finalised with, plus everything it received. */
  function SecretValue<E>(s: State<E>, i: nat): int
    requires i < |s.history.finalised| && forall row <- s.history.evaluated :: i < |row|
  {
    Eval(OwnPolynomial(s, i), i + 1) + Eval(SumOf(ReceivedPolynomials(s, i)), i + 1)
  }

  lemma CompletedShape<E(!new)>(group: Group<E>, t: nat, n: nat, s: State<E>)
    requires Completed(group, t, n, s)
    ensures t > 0 && n < Q
    ensures |s.signers| == |s.collected| == |s.packages| == |s.shares| == n < 0x1_0000
    ensures |s.history.drawn| == |s.history.evaluated| == |s.history.finalised| == n
    ensures forall k: uint16 | k < n ::
      && RowRight(k, s.packages[k], s.history.evaluated[k], t, n) && Drawn(s.history.finalised[k], t)
        && |s.history.drawn[k]| == t
    ensures forall row <- s.packages :: |row| == n
    ensures forall row <- s.history.evaluated :: |row| == n
    ensures forall k: uint16 | k < n :: s.collected[k] == Some(CommitmentOf(group, k + 1, s.history.drawn[k]))
    ensures forall k: uint16 | k < n ::
      s.shares[k] == ComputedShare(group, s.history.finalised[k], k + 1, Column(s.packages, k))
  {
    hide CommitmentOf, ComputedShare, PackageOf;
    forall k: uint16 | k < n ensures RowRight(k, s.packages[k], s.history.evaluated[k], t, n) {
      assert RowRight(k, s.packages[k], s.history.evaluated[k], t, PackagesDone(s.position, n, k));
    }
    forall row | row in s.packages ensures |row| == n {
      var k :| 0 <= k < n && s.packages[k] == row;
      assert RowRight(k, s.packages[k], s.history.evaluated[k], t, n);
    }
    forall row | row in s.history.evaluated ensures |row| == n {
      var k :| 0 <= k < n && s.history.evaluated[k] == row;
      assert RowRight(k, s.packages[k], s.history.evaluated[k], t, n);
    }
  }

  lemma CompletedSizes<E(!new)>(group: Group<E>, t: nat, n: nat, s: State<E>)
    requires Completed(group, t, n, s)
    ensures |s.signers| == |s.packages| == |s.shares| == |s.history.drawn| == |s.history.finalised| == n < 0x1_0000
    ensures forall row <- s.packages :: |row| == n
    ensures s.collected == DrawnCeremony(t, s).Commitments(group)
  {
    hide Completed, CommitmentOf, ComputedShare, RowRight, Drawn;
    CompletedShape(group, t, n, s);
  }

  lemma CompletedAt<E(!new)>(group: Group<E>, t: nat, n: nat, s: State<E>, i: uint16)
    requires Completed(group, t, n, s) && i < n
    ensures t > 0 && i + 1 < Q && |s.shares| == |s.history.finalised| == n && Drawn(s.history.finalised[i], t)
    ensures forall row <- s.packages :: i < |row|
    ensures s.shares[i] == ComputedShare(group, s.history.finalised[i], i + 1, Column(s.packages, i))
  {
    hide Completed, CommitmentOf, ComputedShare, RowRight, Drawn;
    CompletedShape(group, t, n, s);
  }

  /** The packages a signer received are those of the ceremony of the polynomials behind them. */
  lemma ColumnIsPackages<E(!new)>(group: Group<E>, t: nat, n: nat, s: State<E>, i: uint16)
    requires Completed(group, t, n, s) && i < n
    ensures |s.packages| == |s.history.evaluated| == n < 0x1_0000
    ensures (forall row <- s.packages :: i < |row|) && (forall row <- s.history.evaluated :: i < |row|)
    ensures Column(s.packages, i) == CeremonyOf(t, ReceivedPolynomials(s, i)).PackagesFor(i + 1)
  {
    hide PackageOf, Completed, ComputedShare, CommitmentOf, Drawn;
    CompletedShape(group, t, n, s);
    forall k: uint16 | k < n
      ensures Column(s.packages, i)[k] == Some(PackageOf(k + 1, s.history.evaluated[k][i], i + 1))
    {
      assert RowRight(k, s.packages[k], s.history.evaluated[k], t, n);
    }
  }

  /** In every run, whatever other clients do: a signer has computed a key share exactly when every
      commitment it held starts with a readable point.  Its secret is its own value plus the values
      behind the packages, and its verification key the sum of those points. */
  lemma FinalShare<E(!new)>(group: Group<E>, t: nat, n: nat, s: State<E>, i: uint16)
    requires Completed(group, t, n, s) && i < n
    ensures i < |s.shares| && i < |s.history.finalised| && forall row <- s.history.evaluated :: i < |row|
    ensures s.shares[i].Ok? <==> forall c <- s.history.finalised[i].commitments :: Starts(group, c)
    ensures s.shares[i].Ok? ==>
      && GroupKey(group, s.history.finalised[i].commitments) == Ok(s.shares[i].value.verificationKey)
      && s.shares[i].value
         == KeyShareOf(group, i + 1, Red(SecretValue(s, i)), s.shares[i].value.verificationKey)
  {
    hide Red, Eval, SumOf, Starts, ConstantPoints, ComputedShare, Column, PackageOf, Completed,
      Ceremony.PackagesFor;
    CompletedAt(group, t, n, s, i);
    ColumnIsPackages(group, t, n, s, i);
    ComputedFromEverybody(group, s.history.finalised[i], CeremonyOf(t, ReceivedPolynomials(s, i)), i + 1);
  }

  // ----- the group key

  /** Nobody but the coordinator has given the signers commitments. */
  ghost predicate CommitmentsIntact<E>(s: State<E>) {
    forall i | 0 <= i < |s.history.finalised| :: s.history.finalised[i].commitments == s.collected
  }

  /** Then the verification key of every key share is that of the polynomials drawn, and there are key
      shares exactly when their constant terms can be read. */
  lemma FinalKey<E(!new)>(group: Group<E>, t: nat, n: nat, s: State<E>, i: uint16)
    requires Completed(group, t, n, s) && i < n && CommitmentsIntact(s) && group.Lawful()
    ensures |s.history.drawn| == |s.shares| == n
    ensures DrawnCeremony(t, s).Valid()
    ensures s.shares[i].Ok? <==> DrawnCeremony(t, s).Published(group)
    ensures s.shares[i].Ok? ==> s.shares[i].value.verificationKey == group.Exp(Eval(DrawnCeremony(t, s).Joint(), 0))
  {
    hide Red, Eval, SumOf, Starts, Group.Lawful, Column, Completed, Ceremony.Published, CommitmentOf,
      ComputedShare;
    CompletedShape(group, t, n, s);
    var c := DrawnCeremony(t, s);
    assert s.collected == c.Commitments(group);
    SignerIdsValid(n);
    assert c.Valid() by {
      forall k | 0 <= k < |c.polys| ensures |c.polys[k]| == t { var j: uint16 := k; assert |s.history.drawn[j]| == t; }
    }
    FinalShare(group, t, n, s, i);
    GroupKeyIsJoint(c, group);
    assert s.history.finalised[i].commitments == s.collected;
    GroupKeyIff(group, s.collected);
  }

  // ----- when a committee's secret belongs to the group key

  /** By how much the value of signer i + 1 is off the one it has when everything comes from the
      polynomials drawn. */
  function DriftValue<E>(s: State<E>, i: nat): int
    requires i < |s.history.finalised| && i < |s.history.drawn| && forall row <- s.history.evaluated :: i < |row|
  {
    (Eval(OwnPolynomial(s, i), i + 1) - Eval(s.history.drawn[i], i + 1))
    + (Eval(SumOf(ReceivedPolynomials(s, i)), i + 1) - Eval(SumOf(s.history.drawn), i + 1))
  }

  ghost predicate Members<E>(s: State<E>, who: seq<nat>) {
    forall k | 0 <= k < |who| ::
      who[k] < |s.history.finalised| && who[k] < |s.history.drawn| && who[k] < 0xFFFF
      && forall row <- s.history.evaluated :: who[k] < |row|
  }

  ghost function DriftValues<E>(s: State<E>, who: seq<nat>): (r: seq<int>)
    requires Members(s, who)
    ensures |r| == |who|
  {
    seq(|who|, k requires 0 <= k < |who| => DriftValue(s, who[k]))
  }

  /** What other clients' calls of Round1 add to the secret a committee recovers. */
  ghost function Drift<E>(s: State<E>, who: seq<nat>): int
    requires Members(s, who) && |s.signers| < 0x1_0000 && forall k | 0 <= k < |who| :: who[k] < |s.signers|
  {
    LagrangeSum(Identifiers(SignerIds(|s.signers|), who), Identifiers(SignerIds(|s.signers|), who), DriftValues(s, who))
  }

  lemma CompletedMembers<E(!new)>(group: Group<E>, t: nat, n: nat, s: State<E>, who: seq<nat>)
    requires Completed(group, t, n, s) && Committee(t, n, who)
    ensures Members(s, who) && |s.signers| == |s.shares| == |s.history.drawn| == n < 0x1_0000 && 0 < t <= |who| && n > 0
  {
    hide Completed, CommitmentOf, ComputedShare, RowRight;
    CompletedShape(group, t, n, s);
    assert who[0] < n;
  }

  lemma KeysAgree<E(!new)>(group: Group<E>, t: nat, n: nat, s: State<E>)
    requires Completed(group, t, n, s) && CommitmentsIntact(s) && group.Lawful() && n > 0
    ensures |s.history.drawn| == |s.shares| == n < 0x1_0000 && DrawnCeremony(t, s).Valid()
      && |DrawnCeremony(t, s).ids| == n
    ensures AllOk(s.shares) <==> DrawnCeremony(t, s).Published(group)
    ensures AllOk(s.shares) ==> forall i | 0 <= i < n ::
      s.shares[i].value.verificationKey == group.Exp(Eval(DrawnCeremony(t, s).Joint(), 0))
  {
    hide Red, Eval, SumOf, Group.Lawful, Completed, Ceremony.Published, CommitmentsIntact, Ceremony.Valid;
    assert n < 0x1_0000 by { CompletedShape(group, t, n, s); }
    forall i | 0 <= i < n
      ensures i < |s.shares| == n == |s.history.drawn|
      ensures s.shares[i].Ok? <==> DrawnCeremony(t, s).Published(group)
      ensures s.shares[i].Ok? ==> s.shares[i].value.verificationKey == group.Exp(Eval(DrawnCeremony(t, s).Joint(), 0))
    {
      FinalKey(group, t, n, s, i);
    }
    FinalKey(group, t, n, s, 0);
  }

  /** In every completed run in which all signers hold the coordinator's commitments: a committee
      recovers the secret of the polynomials drawn plus the correction for the own shares counted
      twice plus the drift, and that fits the group key exactly when the latter two cancel. */
  lemma CommitteeFitsIff<E(!new)>(group: Group<E>, t: nat, n: nat, s: State<E>, who: seq<nat>)
    requires Completed(group, t, n, s) && CommitmentsIntact(s) && group.Lawful() && Committee(t, n, who)
    ensures Members(s, who) && |s.signers| == |s.shares| == |s.history.drawn| == n < 0x1_0000
    ensures DrawnCeremony(t, s).Valid() && (AllOk(s.shares) <==> DrawnCeremony(t, s).Published(group))
    ensures AllOk(s.shares) ==>
      var c := DrawnCeremony(t, s);
      var recovered := Recovered(Identifiers(c.ids, who), Secrets(s.shares, who));
      && recovered == Red(Eval(c.Joint(), 0) + (Correction(c, who) + Drift(s, who)))
      && forall i | 0 <= i < n ::
           s.shares[i].value.verificationKey == group.mul(recovered, group.base)
           <==> Zero(Correction(c, who) + Drift(s, who))
  {
    hide Red, Zero, Eval, SumOf, LagrangeSum, Group.Lawful, Completed, Ceremony.Published, CommitmentsIntact,
      Correction, Drift, Ceremony.Valid, Recovered, Identifiers, Secrets;
    CompletedMembers(group, t, n, s, who);
    KeysAgree(group, t, n, s);
    if AllOk(s.shares) {
      RecoveredWithDrift(group, t, n, s, who);
      KeyMatchesIff(group, Eval(DrawnCeremony(t, s).Joint(), 0), Correction(DrawnCeremony(t, s), who) + Drift(s, who));
    }
  }

  lemma SecretSplits<E>(t: nat, s: State<E>, i: uint16)
    requires |s.history.drawn| == |s.history.finalised| < 0x1_0000 && i < |s.history.drawn| && i < 0xFFFF
    requires forall row <- s.history.evaluated :: i < |row|
    ensures
      var c := DrawnCeremony(t, s);
      SecretValue(s, i) == Eval(c.Joint(), c.ids[i]) + (Eval(c.polys[i], c.ids[i]) + DriftValue(s, i))
  {
    hide Eval, SumOf, ReceivedPolynomials, OwnPolynomial;
  }

  lemma MemberSecret<E(!new)>(group: Group<E>, t: nat, n: nat, s: State<E>, i: uint16)
    requires Completed(group, t, n, s) && i < n && i < |s.shares| && s.shares[i].Ok?
    ensures |s.history.drawn| == |s.history.finalised| == n < 0x1_0000 && forall row <- s.history.evaluated :: i < |row|
    ensures
      var c := DrawnCeremony(t, s);
      Red(s.shares[i].value.secret) == Red(Eval(c.Joint(), c.ids[i]) + (Eval(c.polys[i], c.ids[i]) + DriftValue(s, i)))
  {
    hide Red, Eval, SumOf, Completed, DriftValue, SecretValue, ConstantPoint, GroupKey, CommitmentOf, ComputedShare,
      RowRight;
    CompletedShape(group, t, n, s);
    FinalShare(group, t, n, s, i);
    RedRed(SecretValue(s, i));
    SecretSplits(t, s, i);
  }

  lemma RecoveredWithDrift<E(!new)>(group: Group<E>, t: nat, n: nat, s: State<E>, who: seq<nat>)
    requires Completed(group, t, n, s) && Committee(t, n, who) && AllOk(s.shares)
      && |s.shares| == |s.history.drawn| == n < 0x1_0000
    requires DrawnCeremony(t, s).Valid() && Members(s, who) && |s.signers| == n
    ensures
      var c := DrawnCeremony(t, s);
      Recovered(Identifiers(c.ids, who), Secrets(s.shares, who))
      == Red(Eval(c.Joint(), 0) + (Correction(c, who) + Drift(s, who)))
  {
    hide Red, Eval, SumOf, LagrangeSum, Completed, Lambda, DriftValue, Ceremony.Valid;
    var c := DrawnCeremony(t, s);
    var xs, ys := Identifiers(c.ids, who), Secrets(s.shares, who);
    var own, drift := OwnValues(c, who), DriftValues(s, who);
    var joint := seq(|who|, k requires 0 <= k < |who| => Eval(c.Joint(), c.ids[who[k]]));
    JointRecovered(c, who, joint);
    forall k | 0 <= k < |who| ensures Red(ys[k]) == Red(Added(joint, Added(own, drift))[k]) {
      MemberSecret(group, t, n, s, who[k]);
    }
    LagrangeSumCongruent(xs, xs, ys, Added(joint, Added(own, drift)));
    LagrangeSumAdded(xs, xs, joint, Added(own, drift));
    LagrangeSumAdded(xs, xs, own, drift);
    RedAdd(LagrangeSum(xs, xs, joint), Eval(c.Joint(), 0), Correction(c, who) + Drift(s, who),
      Correction(c, who) + Drift(s, who));
  }

  // ----- ceremonies that other clients leave alone

  /** No other client has interfered with signer `i` up to the k-th state. */
  ghost predicate Untouched<E>(states: seq<State<E>>, steps: seq<Step>, n: nat, k: nat, i: nat)
    requires k <= |steps| < |states|
  {
    !Disturbed(states, steps, k, i) && !Overwritten(states, steps, n, k, i)
  }

  /** The messages the signers finalise with are then those of the ceremony of the polynomials drawn,
      which are still installed; there is no drift, and every signer has computed what it computes in
      a ceremony without other clients. */
  lemma UndisturbedCeremony<E(!new)>(group: Group<E>, t: nat, n: nat, states: seq<State<E>>, steps: seq<Step>, k: nat)
    requires Run(group, t, n, states, steps) && k < |states| && Completed(group, t, n, states[k])
    requires forall i | 0 <= i < n :: Untouched(states, steps, n, k, i)
    ensures
      var s := states[k];
      && |s.signers| == |s.shares| == |s.packages| == |s.history.drawn| == |s.history.finalised| == n < 0x1_0000
      && CommitmentsIntact(s) && s.collected == DrawnCeremony(t, s).Commitments(group)
      && (forall row <- s.packages :: |row| == n)
      && forall i: uint16 | i < n ::
           && s.signers[i] == s.history.finalised[i] == DkgState(Some(s.history.drawn[i]), s.collected)
           && Column(s.packages, i) == DrawnCeremony(t, s).PackagesFor(i + 1)
           && s.shares[i] == ExpectedKey(group, t, s.history.drawn, i)
  {
    assert |states| == |steps| + 1;
    hide Completed, ComputedShare, Run, Untouched, Ceremony.PackagesFor, Ceremony.Commitments, Drawn;
    var s := states[k];
    CompletedSizes(group, t, n, s);
    forall i: uint16 | i < n
      ensures s.signers[i] == s.history.finalised[i] == DkgState(Some(s.history.drawn[i]), s.collected)
      ensures Column(s.packages, i) == DrawnCeremony(t, s).PackagesFor(i + 1)
      ensures s.shares[i] == ComputedShare(group, s.history.finalised[i], i + 1, Column(s.packages, i))
    {
      UndisturbedAt(group, t, n, states, steps, k, i);
      UndisturbedColumn(group, t, n, states, steps, k, i);
      CompletedAt(group, t, n, s, i);
    }
    forall i | 0 <= i < n ensures s.history.finalised[i].commitments == s.collected { var j: uint16 := i; }
  }

  lemma UndisturbedAt<E(!new)>(group: Group<E>, t: nat, n: nat, states: seq<State<E>>, steps: seq<Step>, k: nat,
                               i: uint16)
    requires Run(group, t, n, states, steps) && k < |states| && Completed(group, t, n, states[k]) && i < n
    requires |states| == |steps| + 1 && Untouched(states, steps, n, k, i)
    ensures
      var s := states[k];
      && |s.signers| == |s.history.drawn| == |s.history.finalised| == |s.history.evaluated| == n
        && |s.history.evaluated[i]| == n
      && s.signers[i] == s.history.finalised[i] == DkgState(Some(s.history.drawn[i]), s.collected)
      && forall j | 0 <= j < n :: s.history.evaluated[i][j] == s.history.drawn[i]
  {
    hide Completed, CommitmentOf, ComputedShare, PackageOf, Run, Disturbed, Overwritten, RowRight;
    CompletedShape(group, t, n, states[k]);
    CompletedPosition(group, t, n, states[k]);
    UndisturbedKept(group, t, n, states, steps, k, i);
    NotOverwrittenKept(group, t, n, states, steps, k, i);
    assert states[k].history.evaluated[i] in states[k].history.evaluated;
  }

  lemma UndisturbedReceived<E(!new)>(group: Group<E>, t: nat, n: nat, states: seq<State<E>>, steps: seq<Step>, k: nat,
                                     i: uint16)
    requires Run(group, t, n, states, steps) && k < |states| && Completed(group, t, n, states[k]) && i < n
    requires |states| == |steps| + 1 && forall l | 0 <= l < n :: Untouched(states, steps, n, k, l)
    ensures (forall row <- states[k].history.evaluated :: i < |row|) && |states[k].history.drawn| == n
    ensures ReceivedPolynomials(states[k], i) == states[k].history.drawn
  {
    hide Completed, Run, Untouched, PackageOf, CommitmentOf, ComputedShare, RowRight;
    var s := states[k];
    CompletedShape(group, t, n, s);
    forall l | 0 <= l < n ensures ReceivedPolynomials(s, i)[l] == s.history.drawn[l] {
      UndisturbedAt(group, t, n, states, steps, k, l);
    }
  }

  lemma UndisturbedColumn<E(!new)>(group: Group<E>, t: nat, n: nat, states: seq<State<E>>, steps: seq<Step>, k: nat,
                                   i: uint16)
    requires Run(group, t, n, states, steps) && k < |states| && Completed(group, t, n, states[k]) && i < n
    requires |states| == |steps| + 1 && forall l | 0 <= l < n :: Untouched(states, steps, n, k, l)
    ensures (forall row <- states[k].packages :: i < |row|) && |states[k].history.drawn| == n < 0x1_0000
    ensures Column(states[k].packages, i) == DrawnCeremony(t, states[k]).PackagesFor(i + 1)
  {
    hide Completed, Run, Untouched, Column, Ceremony.PackagesFor;
    ColumnIsPackages(group, t, n, states[k], i);
    UndisturbedReceived(group, t, n, states, steps, k, i);
  }

  lemma CompletedPosition<E(!new)>(group: Group<E>, t: nat, n: nat, s: State<E>)
    requires Completed(group, t, n, s)
    ensures BroadcastsDone(s.position, n) == n
  {}

  /** ... so that there is no drift. */
  lemma UndisturbedDrift<E(!new)>(group: Group<E>, t: nat, n: nat, states: seq<State<E>>, steps: seq<Step>, k: nat,
                                  who: seq<nat>)
    requires Run(group, t, n, states, steps) && k < |states| && Completed(group, t, n, states[k])
      && Committee(t, n, who)
    requires forall i | 0 <= i < n :: Untouched(states, steps, n, k, i)
    ensures Members(states[k], who) && |states[k].signers| == n < 0x1_0000 && Drift(states[k], who) == 0
  {
    assert |states| == |steps| + 1;
    hide Completed, CommitmentOf, ComputedShare, PackageOf, Run, Untouched, Eval, SumOf, LagrangeSum,
      ReceivedPolynomials;
    var s := states[k];
    CompletedMembers(group, t, n, s, who);
    forall l | 0 <= l < |who| ensures DriftValues(s, who)[l] == 0 {
      UndisturbedReceived(group, t, n, states, steps, k, who[l]);
      UndisturbedAt(group, t, n, states, steps, k, who[l]);
    }
    LagrangeSumZeros(Identifiers(SignerIds(n), who), Identifiers(SignerIds(n), who), DriftValues(s, who));
  }
}
