/** The /dkg handlers of a signer (cmd/signer/main.go) and the coordinator that drives the ceremony
    (cmd/dkg-coordinator/main.go). */
module DkgCeremony {
  import opened Wrappers
  import opened Zq
  import opened Polynomial
  import opened Wire
  import opened Group
  import opened Dkg
  import opened DkgTheorems
  import opened DkgOutcomes
  import opened Reconstruction

  /** What the handlers keep: the polynomial of the current participant and the commitments received. */
  datatype DkgState = DkgState(polynomial: Option<seq<Scalar>>, commitments: seq<Option<Commitment>>)

  /** A request that fails, or that makes the handler panic: because no participant exists yet, or at a
      nil entry of a list.  A panic breaks the connection; the lock is released and nothing changes. */
  datatype HandlerError = BadRequest | Panic | Failed(error: DkgError)

  function ErrorAnswer(e: DkgError): HandlerError {
    if e.NilEntry? then Panic else Failed(e)
  }

  function AfterRound1(st: DkgState, random: seq<Scalar>): DkgState {
    st.(polynomial := Some(random))
  }

  function AfterCommitments(st: DkgState, cs: seq<Option<Commitment>>): DkgState {
    st.(commitments := cs)
  }

  function Round2Answer(st: DkgState, id: uint16, toId: int): Result<SharePackage, HandlerError> {
    if !(0 <= toId < 0x1_0000) then Err(BadRequest)
    else match st.polynomial
      case None => Err(Panic)
      case Some(f) => Ok(PackageOf(id, f, toId))
  }

  /** What /dkg/finalize computes.  The handler logs the beginning of the share, answers only whether
      there is one, and keeps nothing.  The group key comes first, so its error wins over a missing
      participant. */
  function ComputedShare<E(!new)>(group: Group<E>, st: DkgState, id: uint16, shares: seq<Option<SharePackage>>)
    : Result<KeyShare<E>, HandlerError>
  {
    match GroupKey(group, st.commitments)
    case Err(e) => Err(ErrorAnswer(e))
    case Ok(key) =>
      match st.polynomial
      case None => Err(Panic)
      case Some(f) =>
        match Finalized(group, id, f, shares, key)
        case Err(e) => Err(ErrorAnswer(e))
        case Ok(share) => Ok(share)
  }

  /** A nil commitment comes before every other entry without a readable point. */
  ghost predicate NilFirst<E(!new)>(group: Group<E>, cs: seq<Option<Commitment>>) {
    exists k :: 0 <= k < |cs| && cs[k].None? && forall j | 0 <= j < k :: Starts(group, cs[j])
  }

  /** A nil package comes before every package for `id` that does not hold a scalar. */
  ghost predicate NilPackageFirst(packages: seq<Option<SharePackage>>, id: uint16) {
    exists k :: 0 <= k < |packages| && packages[k].None?
      && forall j | 0 <= j < k :: Harmless(packages[j], id)
  }

  lemma NilPointIff<E(!new)>(group: Group<E>, c: Option<Commitment>)
    ensures ConstantPoint(group, c) == Err(NilEntry) <==> c.None?
  {}

  lemma PointsIff<E(!new)>(group: Group<E>, cs: seq<Option<Commitment>>)
    ensures ConstantPoints(group, cs).Ok? <==> forall k | 0 <= k < |cs| :: Starts(group, cs[k])
  {
    hide ConstantPoint, Starts;
    GroupKeyIff(group, cs);
  }

  lemma NilFirstStep<E(!new)>(group: Group<E>, cs: seq<Option<Commitment>>)
    requires cs != []
    ensures
      var n := |cs| - 1;
      NilFirst(group, cs) <==>
        NilFirst(group, cs[..n]) || (cs[n].None? && forall k | 0 <= k < n :: Starts(group, cs[..n][k]))
  {
    hide Starts;
    var n := |cs| - 1;
    if NilFirst(group, cs) {
      var k :| 0 <= k < |cs| && cs[k].None? && forall j | 0 <= j < k :: Starts(group, cs[j]);
      if k < n { assert cs[..n][k].None? && forall j | 0 <= j < k :: Starts(group, cs[..n][j]); }
    }
    if NilFirst(group, cs[..n]) {
      var k :| 0 <= k < n && cs[..n][k].None? && forall j | 0 <= j < k :: Starts(group, cs[..n][j]);
      assert cs[k].None? && forall j | 0 <= j < k :: Starts(group, cs[j]) by {
        forall j | 0 <= j < k ensures Starts(group, cs[j]) { assert cs[..n][j] == cs[j]; }
      }
    } else if cs[n].None? && forall k | 0 <= k < n :: Starts(group, cs[..n][k]) {
      forall j | 0 <= j < n ensures Starts(group, cs[j]) { assert cs[..n][j] == cs[j]; }
    }
  }

  lemma {:induction false} NilKeyIff<E(!new)>(group: Group<E>, cs: seq<Option<Commitment>>)
    ensures ConstantPoints(group, cs) == Err(NilEntry) <==> NilFirst(group, cs)
  {
    hide ConstantPoint, Starts;
    if cs != [] {
      var n := |cs| - 1;
      NilKeyIff(group, cs[..n]);
      NilFirstStep(group, cs);
      PointsIff(group, cs[..n]);
      NilPointIff(group, cs[n]);
      hide NilFirst;
    }
  }

  lemma EntryCases(p: Option<SharePackage>, id: uint16)
    ensures EntryError(p) == NilEntry <==> p.None?
    ensures p.None? ==> Concerns(p, id) && !Holds(p)
  {}

  lemma {:induction false} NilPackageIff(packages: seq<Option<SharePackage>>, id: uint16)
    ensures FirstError(packages, id) == Some(NilEntry) <==> NilPackageFirst(packages, id)
    ensures FirstError(packages, id).None? <==> forall k | 0 <= k < |packages| :: Harmless(packages[k], id)
  {
    hide Concerns, Holds, EntryError, Harmless;
    if packages != [] {
      var n := |packages| - 1;
      EntryCases(packages[n], id);
      OneHarmless(packages[n], id);
      NilPackageIff(packages[..n], id);
      if NilPackageFirst(packages, id) {
        var k :| 0 <= k < |packages| && packages[k].None?
          && forall j | 0 <= j < k :: Harmless(packages[j], id);
        if k < n {
          assert packages[..n][k].None? && forall j | 0 <= j < k :: Harmless(packages[..n][j], id);
        }
      }
    }
  }

  /** Exactly when a signer computes a key share: every commitment it holds starts with a readable
      point, it has a participant, and the packages that concern it hold scalars. */
  lemma ComputedShareIff<E(!new)>(group: Group<E>, st: DkgState, id: uint16, shares: seq<Option<SharePackage>>)
    ensures ComputedShare(group, st, id, shares).Ok? <==>
      && (forall c <- st.commitments :: Starts(group, c))
      && st.polynomial.Some?
      && (forall p <- shares :: Harmless(p, id))
  {
    hide Starts, Harmless, GroupKey, FirstError, SecretAfter;
    GroupKeyIff(group, st.commitments);
    HarmlessIff(shares, id);
  }

  /** Exactly when its handler panics: at a nil commitment, or, with all commitments readable, for want
      of a participant or at a nil package. */
  lemma PanicIff<E(!new)>(group: Group<E>, st: DkgState, id: uint16, shares: seq<Option<SharePackage>>)
    ensures ComputedShare(group, st, id, shares) == Err(Panic) <==>
      || NilFirst(group, st.commitments)
      || ((forall c <- st.commitments :: Starts(group, c))
          && (st.polynomial.None? || NilPackageFirst(shares, id)))
  {
    hide ConstantPoint, Starts, NilFirst, NilPackageFirst, FirstError, SecretAfter;
    GroupKeyIff(group, st.commitments);
    NilKeyIff(group, st.commitments);
    NilPackageIff(shares, id);
    NilExcludes(group, st.commitments);
  }

  lemma NilExcludes<E(!new)>(group: Group<E>, cs: seq<Option<Commitment>>)
    ensures NilFirst(group, cs) ==> exists c <- cs :: !Starts(group, c)
  {
    if NilFirst(group, cs) {
      var k :| 0 <= k < |cs| && cs[k].None?;
      assert cs[k] in cs;
    }
  }

  /** With a commitment list that has no key, the first entry without a readable point decides what
      the handler does, whatever else it holds. */
  lemma KeyErrorAnswered<E(!new)>(group: Group<E>, st: DkgState, id: uint16, shares: seq<Option<SharePackage>>, k: nat)
    requires k < |st.commitments| && !Starts(group, st.commitments[k])
    requires forall c <- st.commitments[..k] :: Starts(group, c)
    ensures
      var c := st.commitments[k];
      ComputedShare(group, st, id, shares) == Err(
        if c.None? then Panic
        else if c.value.commitments == [] then Failed(EmptyCommitments(c.value.participantId))
        else if DecodeHex(c.value.commitments[0]).None? then Failed(InvalidHex)
        else Failed(InvalidPoint))
  {
    hide Starts, GroupKey;
    GroupKeyError(group, st.commitments, k);
  }

  /** Otherwise a missing participant does, and then the first entry that keeps it from finalising. */
  lemma PackageErrorAnswered<E(!new)>(group: Group<E>, st: DkgState, id: uint16, shares: seq<Option<SharePackage>>,
                                      k: nat)
    requires forall c <- st.commitments :: Starts(group, c)
    requires k < |shares| && !Harmless(shares[k], id) && forall p <- shares[..k] :: Harmless(p, id)
    ensures ComputedShare(group, st, id, shares) == Err(
      if st.polynomial.None? || shares[k].None? then Panic
      else if DecodeHex(shares[k].value.share).None? then Failed(InvalidHex)
      else Failed(InvalidScalar))
  {
    hide Starts, Harmless, GroupKey, Finalized;
    GroupKeyIff(group, st.commitments);
    if st.polynomial.Some? {
      FinalizedError(group, id, st.polynomial.value, shares, GroupKey(group, st.commitments).value, k);
    }
  }

  lemma PackagesHarmless(c: Ceremony, id: uint16)
    requires |c.ids| == |c.polys|
    ensures forall p <- c.PackagesFor(id) :: Harmless(p, id)
  {
    hide ParseShare;
    PackagesHonest(c, id);
  }

  /** What a signer computes from everybody's packages, its own included. */
  lemma ComputedFromEverybody<E(!new)>(group: Group<E>, st: DkgState, c: Ceremony, id: uint16)
    requires |c.ids| == |c.polys| && 0 < id < Q && st.polynomial.Some?
    ensures
      var r := ComputedShare(group, st, id, c.PackagesFor(id));
      && (r.Ok? <==> forall cs <- st.commitments :: Starts(group, cs))
      && (r.Ok? ==>
            && GroupKey(group, st.commitments).Ok?
            && r.value == KeyShareOf(group, id, Red(Eval(st.polynomial.value, id) + Eval(c.Joint(), id)),
              GroupKey(group, st.commitments).value))
  {
    hide Red, Eval, Starts, ConstantPoints, Finalized, Holds, PackageOf, Addressed, Ceremony.Joint, KeyShareOf;
    AllAddressed(c, id);
    PackagesHonest(c, id);
    PackagesHarmless(c, id);
    ComputedShareIff(group, st, id, c.PackagesFor(id));
    GroupKeyIff(group, st.commitments);
    if GroupKey(group, st.commitments).Ok? {
      EverybodysShare(c, group, st.polynomial.value, id, c.PackagesFor(id), GroupKey(group, st.commitments).value);
    }
  }

  class DkgSigner<E(!new)> {
    const group: Group<E>
    const signerId: uint16
    const threshold: nat
    const maxSigners: nat
    var participant: Participant?<E>
    var allCommitments: seq<Option<Commitment>>

    ghost predicate Valid()
      reads this, participant
    {
      && threshold > 0
      && (participant != null ==>
            && participant.Valid() && participant.polynomial.Some?
            && participant.group == group && participant.id == signerId && participant.threshold == threshold)
    }

    ghost function State(): DkgState
      reads this, participant
    {
      DkgState(if participant == null then None else participant.polynomial, allCommitments)
    }

    constructor (group: Group<E>, signerId: uint16, threshold: nat, maxSigners: nat)
      requires threshold > 0
      ensures Valid() && State() == DkgState(None, [])
      ensures this.group == group && this.signerId == signerId && this.threshold == threshold
    {
      this.group, this.signerId, this.threshold, this.maxSigners := group, signerId, threshold, maxSigners;
      this.participant, this.allCommitments := null, [];
    }

    /** A new participant replaces the current one, whatever it has already sent. */
    method Round1(random: seq<Scalar>) returns (c: Commitment)
      requires Valid() && |random| == threshold
      modifies this
      ensures Valid() && participant != null && fresh(participant)
      ensures State() == AfterRound1(old(State()), random)
      ensures State() == DkgState(Some(random), old(allCommitments))
      ensures c == CommitmentOf(group, signerId, random)
    {
      participant := new Participant(group, signerId, threshold, maxSigners);
      c := participant.Round1(random);
    }

    method Commitments(cs: seq<Option<Commitment>>)
      requires Valid()
      modifies this`allCommitments
      ensures Valid() && State() == AfterCommitments(old(State()), cs)
      ensures State() == DkgState(old(State().polynomial), cs)
    {
      allCommitments := cs;
    }

    method Round2(toId: int) returns (r: Result<SharePackage, HandlerError>)
      requires Valid()
      ensures r == Round2Answer(State(), signerId, toId)
      ensures !(0 <= toId < 0x1_0000) ==> r == Err(BadRequest)
      ensures 0 <= toId < 0x1_0000 && participant == null ==> r == Err(Panic)
      ensures 0 <= toId < 0x1_0000 && participant != null ==>
        && r.Ok? && r.value.fromId == signerId && r.value.toId == toId
        && ParseShare(r.value.share) == Some(Red(PowerSum(participant.polynomial.value, Red(toId), 0)))
    {
      if !(0 <= toId < 0x1_0000) {
        return Err(BadRequest);
      }
      if participant == null {
        return Err(Panic);
      }
      var pkg := participant.Round2(toId);
      return Ok(pkg.value);
    }

    /** Returns what the handler computes; the handler itself answers only whether there is a share. */
    method Finalize(shares: seq<Option<SharePackage>>) returns (r: Result<KeyShare<E>, HandlerError>)
      requires Valid()
      ensures r == ComputedShare(group, State(), signerId, shares)
    {
      var groupPubKey := ComputeGroupPublicKey(group, allCommitments);
      if groupPubKey.Err? {
        return Err(ErrorAnswer(groupPubKey.error));
      }
      if participant == null {
        return Err(Panic);
      }
      var keyShare := participant.Finalize(shares, allCommitments, groupPubKey.value);
      if keyShare.Err? {
        return Err(ErrorAnswer(keyShare.error));
      }
      return Ok(keyShare.value);
    }
  }

  // ----- the coordinator

  /** The coordinator's next call. */
  datatype Position = AtRound1(i: nat) | AtBroadcast(i: nat) | AtRound2(i: nat, j: nat) | AtFinalize(i: nat)

  // How far each phase has got.

  function CommitmentsDone(p: Position, n: nat): nat {
    match p case AtRound1(i) => i case _ => n
  }

  function BroadcastsDone(p: Position, n: nat): nat {
    match p
    case AtRound1(_) => 0
    case AtBroadcast(i) => i
    case _ => n
  }

  /** Which of the coordinator's calls get through. */
  datatype Network = Network(round1: seq<bool>, broadcast: seq<bool>, round2: seq<seq<bool>>, finalize: seq<bool>) {
    ghost predicate Sized(n: nat) {
      && |round1| == |broadcast| == |round2| == |finalize| == n
      && forall i | 0 <= i < n :: |round2[i]| == n
    }

    ghost predicate Up(n: nat)
      requires Sized(n)
    {
      && (forall i | 0 <= i < n :: round1[i] && broadcast[i] && finalize[i])
      && forall i, j | 0 <= i < n && 0 <= j < n :: round2[i][j]
    }

    /** The packages of the first i signers get through, and the first j of the next one. */
    ghost predicate Rows(n: nat, i: nat, j: nat)
      requires Sized(n) && i <= n && j <= n && (i == n ==> j == 0)
    {
      && (forall k, l | 0 <= k < i && 0 <= l < n :: round2[k][l])
      && forall l | 0 <= l < j :: round2[i][l]
    }

    lemma RowsStep(n: nat, i: nat, j: nat)
      requires Sized(n) && i < n && j < n && Rows(n, i, j) && round2[i][j]
      ensures Rows(n, i, j + 1)
      ensures j + 1 == n ==> Rows(n, i + 1, 0)
    {}

    lemma NoRows(n: nat)
      requires Sized(n)
      ensures Rows(n, 0, 0)
    {}

    /** Of the calls before `p`, in the order of the ceremony, all get through. */
    ghost predicate UpTo(n: nat, p: Position)
      requires Sized(n)
    {
      match p
      case AtRound1(i) => i <= n && forall k | 0 <= k < i :: round1[k]
      case AtBroadcast(i) =>
        i <= n && (forall k | 0 <= k < n :: round1[k]) && forall k | 0 <= k < i :: broadcast[k]
      case AtRound2(i, j) =>
        && i < n && j <= n
        && (forall k | 0 <= k < n :: round1[k] && broadcast[k])
        && Rows(n, i, j)
      case AtFinalize(i) =>
        && i <= n
        && (forall k | 0 <= k < n :: round1[k] && broadcast[k])
        && Rows(n, n, 0)
        && forall k | 0 <= k < i :: finalize[k]
    }

    /** The call at `p` does not get through. */
    ghost predicate FailsAt(n: nat, p: Position)
      requires Sized(n)
    {
      match p
      case AtRound1(i) => i < n && !round1[i]
      case AtBroadcast(i) => i < n && !broadcast[i]
      case AtRound2(i, j) => i < n && j < n && !round2[i][j]
      case AtFinalize(i) => i < n && !finalize[i]
    }
  }

  /** The identifiers 1 to n of the configured signers. */
  function SignerIds(n: nat): (ids: seq<uint16>)
    requires n < 0x1_0000
    ensures |ids| == n && forall i | 0 <= i < n :: ids[i] == i + 1
  {
    seq(n, i requires 0 <= i < n => (i + 1) as uint16)
  }

  /** The ceremony of n signers with these polynomials. */
  function CeremonyOf(threshold: nat, random: seq<seq<Scalar>>): (c: Ceremony)
    requires |random| < 0x1_0000
    ensures |c.ids| == |c.polys| == |random|
  {
    Ceremony(threshold, SignerIds(|random|), random)
  }

  /** What signer i + 1 answers in the end. */
  function ExpectedKey<E(!new)>(group: Group<E>, threshold: nat, random: seq<seq<Scalar>>,
                                i: nat): Result<KeyShare<E>, HandlerError>
    requires i < |random| < 0x1_0000
  {
    var c := CeremonyOf(threshold, random);
    ComputedShare(group, DkgState(Some(random[i]), c.Commitments(group)), i + 1, c.PackagesFor(i + 1))
  }

  function Lookup(m: map<uint16, seq<Option<SharePackage>>>, id: uint16): seq<Option<SharePackage>> {
    if id in m then m[id] else []
  }

  ghost predicate Configured<E(!new)>(group: Group<E>, threshold: nat, signers: seq<DkgSigner<E>>)
    reads signers, set i | 0 <= i < |signers| && signers[i].participant != null :: signers[i].participant
  {
    && threshold > 0 && |signers| < 0x1_0000
    && (forall i, j | 0 <= i < j < |signers| :: signers[i] != signers[j])
    && forall i | 0 <= i < |signers| ::
         && signers[i].Valid() && signers[i].signerId == i + 1
         && signers[i].group == group && signers[i].threshold == threshold
  }

  ghost function StatesOf<E(!new)>(signers: seq<DkgSigner<E>>): (r: seq<DkgState>)
    reads signers, set i | 0 <= i < |signers| && signers[i].participant != null :: signers[i].participant
    ensures |r| == |signers|
  {
    seq(|signers|, i requires 0 <= i < |signers|
      reads signers, set i | 0 <= i < |signers| && signers[i].participant != null :: signers[i].participant
      => signers[i].State())
  }

  /** What the signers hold once the coordinator has got to `p`: the first ones have their new polynomial,
      and the first ones the broadcast commitments. */
  function StatesAt(before: seq<DkgState>, random: seq<seq<Scalar>>, cs: seq<Option<Commitment>>, p: Position)
    : (r: seq<DkgState>)
    requires |before| == |random|
    ensures |r| == |before|
  {
    seq(|before|, k requires 0 <= k < |before| => DkgState(
      if k < CommitmentsDone(p, |before|) then Some(random[k]) else before[k].polynomial,
      if k < BroadcastsDone(p, |before|) then cs else before[k].commitments))
  }

  /** The first `done` of them have received the commitments. */
  function Informed(before: seq<DkgState>, cs: seq<Option<Commitment>>, done: nat): (r: seq<DkgState>)
    ensures |r| == |before|
  {
    seq(|before|, k requires 0 <= k < |before| => if k < done then AfterCommitments(before[k], cs) else before[k])
  }

  lemma StatesInPhases(before: seq<DkgState>, random: seq<seq<Scalar>>, cs: seq<Option<Commitment>>, i: nat)
    requires |before| == |random|
    ensures StatesAt(before, random, [], AtRound1(i)) == StatesAt(before, random, cs, AtRound1(i))
    ensures Informed(StatesAt(before, random, cs, AtRound1(|before|)), cs, i)
      == StatesAt(before, random, cs, AtBroadcast(i))
  {
    var a, b := StatesAt(before, random, [], AtRound1(i)), StatesAt(before, random, cs, AtRound1(i));
    assert BroadcastsDone(AtRound1(i), |before|) == 0;
    forall k | 0 <= k < |before| ensures a[k] == b[k] {
      assert b[k].commitments == before[k].commitments;
    }
  }

  lemma StatesAfterBroadcast(before: seq<DkgState>, random: seq<seq<Scalar>>, cs: seq<Option<Commitment>>, p: Position)
    requires |before| == |random| && (p.AtRound2? || p.AtFinalize?)
    ensures StatesAt(before, random, cs, p) == StatesAt(before, random, cs, AtBroadcast(|before|))
    ensures forall k | 0 <= k < |before| :: StatesAt(before, random, cs, p)[k] == DkgState(Some(random[k]), cs)
  {}

  lemma StatesEach<E(!new)>(signers: seq<DkgSigner<E>>)
    ensures forall k | 0 <= k < |signers| :: StatesOf(signers)[k] == signers[k].State()
  {}

  // The grouping after the packages of the first i signers and the first j of the next one.

  ghost predicate Regrouped(m: map<uint16, seq<Option<SharePackage>>>, c: Ceremony, i: nat, j: nat)
    requires |c.ids| == |c.polys| && i <= |c.ids| && (j > 0 ==> i < |c.ids|)
  {
    forall t: uint16 | 1 <= t <= |c.ids| :: Lookup(m, t) == c.PackagesFor(t)[..if t <= j then i + 1 else i]
  }

  lemma RegroupStep(m: map<uint16, seq<Option<SharePackage>>>, c: Ceremony, i: nat, j: uint16)
    requires |c.ids| == |c.polys| < 0x1_0000 && i < |c.ids| && j < |c.ids| && Regrouped(m, c, i, j)
    ensures Regrouped(m[j + 1 := Lookup(m, j + 1) + [c.PackagesFor(j + 1)[i]]], c, i, j + 1)
  {
    hide PackageOf;
    var t: uint16 := j + 1;
    assert c.PackagesFor(t)[..i + 1] == c.PackagesFor(t)[..i] + [c.PackagesFor(t)[i]];
  }

  lemma RegroupRow(m: map<uint16, seq<Option<SharePackage>>>, c: Ceremony, i: nat)
    requires |c.ids| == |c.polys| && i < |c.ids| && Regrouped(m, c, i, |c.ids|)
    ensures Regrouped(m, c, i + 1, 0)
  {
    hide PackageOf;
  }

  lemma RegroupNothing(c: Ceremony)
    requires |c.ids| == |c.polys|
    ensures Regrouped(map[], c, 0, 0)
  {
    hide PackageOf;
  }

  lemma RegroupAll(m: map<uint16, seq<Option<SharePackage>>>, c: Ceremony)
    requires |c.ids| == |c.polys| && Regrouped(m, c, |c.ids|, 0)
    ensures forall t: uint16 | 1 <= t <= |c.ids| :: Lookup(m, t) == c.PackagesFor(t)
  {
    hide PackageOf;
    assert forall t: uint16 :: c.PackagesFor(t)[..|c.ids|] == c.PackagesFor(t);
  }

  /** Round 1 at one signer. */
  method CallRound1<E(!new)>(group: Group<E>, threshold: nat, signers: seq<DkgSigner<E>>, random: seq<Scalar>,
                             i: uint16)
    returns (c: Commitment)
    requires Configured(group, threshold, signers) && i < |signers| && |random| == threshold
    modifies signers[i]
    ensures Configured(group, threshold, signers)
    ensures StatesOf(signers)
            == old(StatesOf(signers))[i := DkgState(Some(random), old(StatesOf(signers))[i].commitments)]
    ensures i < 0xFFFF && c == CommitmentOf(group, i + 1, random)
  {
    hide CommitmentOf, Participant.Valid;
    c := signers[i].Round1(random);
  }

  /** Round 1 for every signer in turn, up to the first call that fails. */
  method CollectCommitments<E(!new)>(group: Group<E>, threshold: nat, signers: seq<DkgSigner<E>>,
                                     random: seq<seq<Scalar>>, net: Network)
    returns (done: nat, cs: seq<Option<Commitment>>)
    requires Configured(group, threshold, signers) && net.Sized(|signers|)
    requires |random| == |signers| && forall i | 0 <= i < |random| :: |random[i]| == threshold
    modifies signers
    ensures net.UpTo(|signers|, AtRound1(done)) && (done == |signers| || net.FailsAt(|signers|, AtRound1(done)))
    ensures Configured(group, threshold, signers)
    ensures StatesOf(signers) == StatesAt(old(StatesOf(signers)), random, [], AtRound1(done))
    ensures |random| < 0x1_0000 && cs == CeremonyOf(threshold, random).Commitments(group)[..done]
  {
    assert |signers| < 0x1_0000;
    hide Configured, StatesOf, CommitmentOf;
    cs, done := [], 0;
    ghost var all := CeremonyOf(threshold, random).Commitments(group);
    while done < |signers|
      invariant done <= |signers| && Configured(group, threshold, signers)
      invariant StatesOf(signers) == StatesAt(old(StatesOf(signers)), random, [], AtRound1(done))
      invariant forall k | 0 <= k < done :: net.round1[k]
      invariant cs == all[..done]
    {
      if !net.round1[done] {
        return;
      }
      var c := CallRound1(group, threshold, signers, random[done], done);
      assert all[done] == Some(c);
      cs := cs + [Some(c)];
      done := done + 1;
    }
  }

  /** The post of commitments to one signer. */
  method CallCommitments<E(!new)>(group: Group<E>, threshold: nat, signers: seq<DkgSigner<E>>,
                                  cs: seq<Option<Commitment>>, i: nat)
    requires Configured(group, threshold, signers) && i < |signers|
    modifies signers[i]
    ensures Configured(group, threshold, signers)
    ensures StatesOf(signers)
            == old(StatesOf(signers))[i := DkgState(old(StatesOf(signers))[i].polynomial, cs)]
  {
    hide Participant.Valid;
    signers[i].Commitments(cs);
  }

  /** The broadcast of all commitments, up to the first call that fails. */
  method Broadcast<E(!new)>(group: Group<E>, threshold: nat, signers: seq<DkgSigner<E>>, cs: seq<Option<Commitment>>,
                            net: Network)
    returns (done: nat)
    requires Configured(group, threshold, signers) && net.Sized(|signers|)
    modifies signers
    ensures done <= |signers| && (forall k | 0 <= k < done :: net.broadcast[k])
    ensures done == |signers| || net.FailsAt(|signers|, AtBroadcast(done))
    ensures Configured(group, threshold, signers)
    ensures StatesOf(signers) == Informed(old(StatesOf(signers)), cs, done)
  {
    hide Configured, StatesOf;
    ghost var before := StatesOf(signers);
    done := 0;
    while done < |signers|
      invariant done <= |signers| && Configured(group, threshold, signers)
      invariant StatesOf(signers) == Informed(before, cs, done)
      invariant forall k | 0 <= k < done :: net.broadcast[k]
    {
      if !net.broadcast[done] {
        return;
      }
      CallCommitments(group, threshold, signers, cs, done);
      done := done + 1;
    }
  }

  /** Round 2 at one signer. */
  method CallRound2<E(!new)>(group: Group<E>, threshold: nat, signers: seq<DkgSigner<E>>,
                             ghost random: seq<seq<Scalar>>, i: nat, toId: uint16)
    returns (pkg: SharePackage)
    requires Configured(group, threshold, signers) && |random| == |signers| < 0x1_0000 && i < |signers|
    requires signers[i].State().polynomial == Some(random[i])
    ensures Some(pkg) == CeremonyOf(threshold, random).PackagesFor(toId)[i]
  {
    hide PackageOf, Red, PowerSum;
    var r := signers[i].Round2(toId);
    pkg := r.value;
  }

  /** The inner loop of round 2: one signer's packages, each added to those for its target. */
  method CollectRow<E(!new)>(group: Group<E>, threshold: nat, signers: seq<DkgSigner<E>>,
                             ghost random: seq<seq<Scalar>>, net: Network, i: nat,
                             grouped: map<uint16, seq<Option<SharePackage>>>)
    returns (j: nat, sharesByTarget: map<uint16, seq<Option<SharePackage>>>)
    requires Configured(group, threshold, signers) && net.Sized(|signers|) && |random| == |signers| < 0x1_0000
    requires i < |signers| && signers[i].State().polynomial == Some(random[i])
    requires net.Rows(|signers|, i, 0) && Regrouped(grouped, CeremonyOf(threshold, random), i, 0)
    ensures j == |signers| ==>
      net.Rows(|signers|, i + 1, 0) && Regrouped(sharesByTarget, CeremonyOf(threshold, random), i + 1, 0)
    ensures j != |signers| ==>
      j < |signers| && net.Rows(|signers|, i, j) && net.FailsAt(|signers|, AtRound2(i, j))
  {
    hide Configured, Regrouped, Ceremony.PackagesFor, Network.Rows, CeremonyOf;
    sharesByTarget, j := grouped, 0;
    ghost var c := CeremonyOf(threshold, random);
    while j < |signers|
      invariant j <= |signers|
      invariant if j < |signers| then net.Rows(|signers|, i, j) else net.Rows(|signers|, i + 1, 0)
      invariant Regrouped(sharesByTarget, c, i, j)
    {
      var toId := j + 1;
      if !net.round2[i][j] {
        return;
      }
      var pkg := CallRound2(group, threshold, signers, random, i, toId);
      net.RowsStep(|signers|, i, j);
      RegroupStep(sharesByTarget, c, i, j);
      sharesByTarget := sharesByTarget[toId := Lookup(sharesByTarget, toId) + [Some(pkg)]];
      j := j + 1;
    }
    RegroupRow(sharesByTarget, c, i);
  }

  /** The outer loop: the packages are collected signer by signer and regrouped by target.  Every target
      ends up with one package from every signer, in the order of the signers, each addressed to it. */
  method CollectShares<E(!new)>(group: Group<E>, threshold: nat, signers: seq<DkgSigner<E>>,
                                ghost random: seq<seq<Scalar>>, net: Network)
    returns (ok: bool, i: nat, j: nat, sharesByTarget: map<uint16, seq<Option<SharePackage>>>)
    requires Configured(group, threshold, signers) && net.Sized(|signers|)
    requires |random| == |signers| && forall k | 0 <= k < |signers| :: signers[k].State().polynomial == Some(random[k])
    ensures ok ==> net.Rows(|signers|, |signers|, 0)
    ensures !ok ==>
      i < |signers| && j < |signers| && net.Rows(|signers|, i, j) && net.FailsAt(|signers|, AtRound2(i, j))
    ensures ok ==> forall t: uint16 | 1 <= t <= |signers| ::
      Lookup(sharesByTarget, t) == CeremonyOf(threshold, random).PackagesFor(t)
  {
    assert |signers| < 0x1_0000;
    sharesByTarget := map[];
    ghost var c := CeremonyOf(threshold, random);
    RegroupNothing(c);
    net.NoRows(|signers|);
    hide Configured, Regrouped, Ceremony.PackagesFor, Network.Rows;
    i, j := 0, 0;
    while i < |signers|
      invariant i <= |signers| && net.Rows(|signers|, i, 0)
      invariant Regrouped(sharesByTarget, c, i, 0)
    {
      j, sharesByTarget := CollectRow(group, threshold, signers, random, net, i, sharesByTarget);
      if j < |signers| {
        return false, i, j, map[];
      }
      i := i + 1;
    }
    RegroupAll(sharesByTarget, c);
    ok := true;
  }

  /** Every signer's answer to the packages it was sent. */
  ghost predicate Delivered<E(!new)>(group: Group<E>, signers: seq<DkgSigner<E>>,
                                     m: map<uint16, seq<Option<SharePackage>>>,
                                     keys: seq<Result<KeyShare<E>, HandlerError>>)
    reads signers, set i | 0 <= i < |signers| && signers[i].participant != null :: signers[i].participant
    requires |keys| <= |signers| < 0x1_0000
  {
    forall i | 0 <= i < |keys| :: keys[i] == ComputedShare(group, signers[i].State(), i + 1, Lookup(m, i + 1))
  }

  /** The delivery of the packages, whatever the signers and the lists: every signer finalises with
      what it holds.  An error of one does not stop the delivery, because the coordinator does not look
      at the status of its posts; a lost call or a panic, which breaks the connection, does. */
  method DistributeShares<E(!new)>(group: Group<E>, ghost threshold: nat, signers: seq<DkgSigner<E>>,
                                   sharesByTarget: map<uint16, seq<Option<SharePackage>>>, net: Network)
    returns (keys: seq<Result<KeyShare<E>, HandlerError>>)
    requires Configured(group, threshold, signers) && net.Sized(|signers|)
    ensures |keys| <= |signers| < 0x1_0000 && Delivered(group, signers, sharesByTarget, keys)
    ensures forall i | 0 <= i < |keys| :: net.finalize[i] && keys[i] != Err(Panic)
    ensures |keys| < |signers| ==>
      var i := |keys|;
      !net.finalize[i] || ComputedShare(group, signers[i].State(), i + 1, Lookup(sharesByTarget, i + 1)) == Err(Panic)
  {
    hide PackageOf, Red, GroupKey, Finalized, CommitmentOf;
    keys := [];
    while |keys| < |signers|
      invariant |keys| <= |signers|
      invariant forall k | 0 <= k < |keys| :: net.finalize[k] && keys[k] != Err(Panic)
      invariant Delivered(group, signers, sharesByTarget, keys)
    {
      var i := |keys|;
      if !net.finalize[i] {
        return;
      }
      var toId := i + 1;
      var key := signers[i].Finalize(Lookup(sharesByTarget, toId));
      if key == Err(Panic) {
        return;
      }
      keys := keys + [key];
    }
  }

  /** Signers that hold everything answer with the expected key shares, and none panics. */
  lemma DeliveredExpected<E(!new)>(group: Group<E>, threshold: nat, signers: seq<DkgSigner<E>>,
                                   random: seq<seq<Scalar>>, m: map<uint16, seq<Option<SharePackage>>>)
    requires |random| == |signers| < 0x1_0000
    requires forall i | 0 <= i < |signers| ::
      signers[i].State() == DkgState(Some(random[i]), CeremonyOf(threshold, random).Commitments(group))
    requires forall t: uint16 | 1 <= t <= |signers| :: Lookup(m, t) == CeremonyOf(threshold, random).PackagesFor(t)
    ensures forall i | 0 <= i < |signers| ::
      ComputedShare(group, signers[i].State(), i + 1, Lookup(m, i + 1)) == ExpectedKey(group, threshold, random, i)
    ensures forall i | 0 <= i < |signers| :: ExpectedKey(group, threshold, random, i) != Err(Panic)
  {
    hide GroupKey, Finalized, PackageOf, CommitmentOf, ComputedShare;
    forall i | 0 <= i < |signers|
      ensures ComputedShare(group, signers[i].State(), i + 1, Lookup(m, i + 1))
              == ExpectedKey(group, threshold, random, i) != Err(Panic)
    {
      HonestNoPanic(group, CeremonyOf(threshold, random), signers[i].State(), i + 1);
    }
  }

  /** Nothing in the ceremony's own messages makes a signer with a participant panic. */
  lemma HonestNoPanic<E(!new)>(group: Group<E>, c: Ceremony, st: DkgState, id: uint16)
    requires |c.ids| == |c.polys| && st.polynomial.Some? && st.commitments == c.Commitments(group)
    ensures ComputedShare(group, st, id, c.PackagesFor(id)) != Err(Panic)
  {
    hide ConstantPoint, Holds, ComputedShare, PackageOf, CommitmentOf;
    PanicIff(group, st, id, c.PackagesFor(id));
  }

  /** The second half, from signers that hold their polynomials and all commitments. */
  method ShareAndFinalize<E(!new)>(group: Group<E>, threshold: nat, signers: seq<DkgSigner<E>>,
                                   ghost random: seq<seq<Scalar>>, net: Network)
    returns (stopped: Position, keys: seq<Result<KeyShare<E>, HandlerError>>)
    requires Configured(group, threshold, signers) && net.Sized(|signers|) && |random| == |signers| < 0x1_0000
    requires forall k | 0 <= k < |signers| ::
      signers[k].State() == DkgState(Some(random[k]), CeremonyOf(threshold, random).Commitments(group))
    requires forall k | 0 <= k < |signers| :: net.round1[k] && net.broadcast[k]
    ensures (stopped.AtRound2? || stopped.AtFinalize?) && net.UpTo(|signers|, stopped)
    ensures stopped == AtFinalize(|signers|) || net.FailsAt(|signers|, stopped)
    ensures |keys| == if stopped.AtFinalize? then stopped.i else 0
    ensures forall i | 0 <= i < |keys| :: keys[i] == ExpectedKey(group, threshold, random, i)
  {
    hide Configured, ExpectedKey, Lookup, ComputedShare, CeremonyOf, Ceremony.Commitments, Ceremony.PackagesFor;
    var ok, i, j, sharesByTarget := CollectShares(group, threshold, signers, random, net);
    if !ok {
      return AtRound2(i, j), [];
    }
    DeliveredExpected(group, threshold, signers, random, sharesByTarget);
    keys := DistributeShares(group, threshold, signers, sharesByTarget, net);
    stopped := AtFinalize(|keys|);
  }

  /** The whole ceremony.  It stops at the first call that does not get through, in the order of its
      phases, leaving exactly what was done before; only if there is none it is complete. */
  method RunCeremony<E(!new)>(group: Group<E>, threshold: nat, signers: seq<DkgSigner<E>>, random: seq<seq<Scalar>>,
                              net: Network)
    returns (stopped: Position, keys: seq<Result<KeyShare<E>, HandlerError>>)
    requires Configured(group, threshold, signers) && net.Sized(|signers|)
    requires |random| == |signers| && forall i | 0 <= i < |random| :: |random[i]| == threshold
    modifies signers
    ensures |random| < 0x1_0000 && net.UpTo(|signers|, stopped)
    ensures stopped == AtFinalize(|signers|) || net.FailsAt(|signers|, stopped)
    ensures StatesOf(signers)
            == StatesAt(old(StatesOf(signers)), random, CeremonyOf(threshold, random).Commitments(group), stopped)
    ensures |keys| == if stopped.AtFinalize? then stopped.i else 0
    ensures forall i | 0 <= i < |keys| :: keys[i] == ExpectedKey(group, threshold, random, i)
  {
    assert |signers| < 0x1_0000;
    hide Configured, StatesOf, StatesAt, Informed, ExpectedKey, Lookup, ComputedShare, CeremonyOf, Ceremony.Commitments,
      Ceremony.PackagesFor;
    ghost var before, all := StatesOf(signers), CeremonyOf(threshold, random).Commitments(group);
    keys := [];
    var done, cs := CollectCommitments(group, threshold, signers, random, net);
    StatesInPhases(before, random, all, done);
    if done < |signers| {
      return AtRound1(done), [];
    }
    assert cs == all;
    done := Broadcast(group, threshold, signers, cs, net);
    StatesInPhases(before, random, all, done);
    if done < |signers| {
      return AtBroadcast(done), [];
    }
    StatesAfterBroadcast(before, random, all, AtFinalize(0));
    StatesEach(signers);
    stopped, keys := ShareAndFinalize(group, threshold, signers, random, net);
    StatesAfterBroadcast(before, random, all, stopped);
  }

  // ----- what a completed ceremony leaves

  lemma SignerIdsValid(n: nat)
    requires n < 0x1_0000 && n < Q
    ensures ValidIds(SignerIds(n))
  {}

  /** With fewer signers than the group has elements, the signers finalise exactly when the broadcast
      constant terms can be read, and then the answers are those of the ceremony in which everybody
      receives everybody's package. */
  lemma CompletedCeremony<E(!new)>(group: Group<E>, threshold: nat, n: nat, random: seq<seq<Scalar>>, i: nat)
    requires group.Lawful() && threshold > 0 && n < 0x1_0000 && n < Q && i < n == |random|
    requires forall k | 0 <= k < n :: |random[k]| == threshold
    ensures
      var c := CeremonyOf(threshold, random);
      && c.Valid() && (ExpectedKey(group, threshold, random, i).Ok? <==> c.Published(group))
      && (c.Published(group) ==>
            Outcomes(c, group, EverybodysPackages(c))[i] == Ok(ExpectedKey(group, threshold, random, i).value))
  {
    hide Red, GroupKey, Finalized, Group.Lawful, PackageOf;
    var c := CeremonyOf(threshold, random);
    SignerIdsValid(n);
    SentToEverybody(c);
    DrivenOk(c, group, i);
    AnswerIsOutcome(c, group, i);
  }

  lemma AnswerIsOutcome<E(!new)>(c: Ceremony, group: Group<E>, i: nat)
    requires |c.ids| == |c.polys| && i < |c.ids|
    ensures var a := ComputedShare(group, DkgState(Some(c.polys[i]), c.Commitments(group)), c.ids[i],
      c.PackagesFor(c.ids[i]));
      var o := Outcomes(c, group, EverybodysPackages(c))[i];
      (a.Ok? <==> o.Ok?) && (a.Ok? ==> a.value == o.value)
  {
    hide Red, GroupKey, Finalized, PackageOf, CommitmentOf;
  }

  lemma DrivenOk<E(!new)>(c: Ceremony, group: Group<E>, i: nat)
    requires c.Valid() && group.Lawful() && i < |c.ids| && FromEverybody(c, i, EverybodysPackages(c)[i])
    ensures Outcomes(c, group, EverybodysPackages(c))[i].Ok? <==> c.Published(group)
  {
    hide Red, GroupKey, Finalized, Group.Lawful;
    GroupKeyIsJoint(c, group);
    if c.Published(group) {
      DrivenShare(c, group, i, EverybodysPackages(c)[i], GroupKey(group, c.Commitments(group)).value);
    }
  }
}
