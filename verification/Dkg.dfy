/** One participant of the distributed key generation (internal/dkg/dkg.go). */
module Dkg {
  import opened Wrappers
  import opened Zq
  import opened Sums
  import opened Polynomial
  import opened Wire
  import opened Group

  datatype Commitment = Commitment(participantId: uint16, commitments: seq<string>)

  datatype SharePackage = SharePackage(fromId: uint16, toId: uint16, share: string)

  datatype KeyShare<E> = KeyShare(secret: Scalar, verificationKey: E, publicKey: E, id: uint16)

  /** `NilEntry` stands for the panic of dereferencing a nil pointer: the lists of packages and of
      commitments are lists of pointers, and a null in a JSON list is decoded to nil. */
  datatype DkgError =
    | NilEntry
    | Round1NotCompleted
    | InvalidHex
    | InvalidScalar
    | InvalidPoint
    | EmptyCommitments(participantId: uint16)

  // ----- points on the wire

  function PointText<E(!new)>(group: Group<E>, p: E): string {
    EncodeHex(group.encode(p))
  }

  function ParsePoint<E(!new)>(group: Group<E>, text: string): Result<E, DkgError> {
    match DecodeHex(text)
    case None => Err(InvalidHex)
    case Some(bytes) =>
      match group.decode(bytes)
      case None => Err(InvalidPoint)
      case Some(p) => Ok(p)
  }

  lemma PointRoundTrip<E(!new)>(group: Group<E>, p: E)
    requires group.Lawful()
    ensures ParsePoint(group, PointText(group, p)) == if group.Readable(p) then Ok(p) else Err(InvalidPoint)
    ensures p != group.identity ==> group.Readable(p)
  {
    HexRoundTrip(group.encode(p));
    assert group.Decodable(p);
  }

  // ----- what the rounds compute

  /** The commitments to the coefficients of `f`. */
  function CommitmentPoints<E(!new)>(group: Group<E>, f: seq<Scalar>): seq<E> {
    seq(|f|, i requires 0 <= i < |f| => group.mul(f[i], group.base))
  }

  function CommitmentOf<E(!new)>(group: Group<E>, id: uint16, f: seq<Scalar>): Commitment {
    Commitment(id, seq(|f|, i requires 0 <= i < |f| => PointText(group, group.mul(f[i], group.base))))
  }

  /** The share of `f` for the participant `id`. */
  function Share(f: seq<Scalar>, id: int): Scalar {
    Red(Eval(f, Red(id)))
  }

  function PackageOf(from: uint16, f: seq<Scalar>, to: uint16): SharePackage {
    SharePackage(from, to, ShareText(Share(f, to)))
  }

  // ----- what finalisation computes

  /** The entry matters to the participant `id`: it is addressed to it, or nil. */
  predicate Concerns(p: Option<SharePackage>, id: uint16) {
    p.None? || p.value.toId == id
  }

  /** The entries that concern `id`, in order. */
  function Addressed(packages: seq<Option<SharePackage>>, id: uint16): seq<Option<SharePackage>>
  {
    if packages == [] then []
    else
      var n := |packages| - 1;
      Addressed(packages[..n], id) + if Concerns(packages[n], id) then [packages[n]] else []
  }

  function ShareError(text: string): DkgError {
    if DecodeHex(text).None? then InvalidHex else InvalidScalar
  }

  predicate Holds(p: Option<SharePackage>) {
    p.Some? && ParseShare(p.value.share).Some?
  }

  function EntryError(p: Option<SharePackage>): DkgError {
    match p
    case None => NilEntry
    case Some(q) => ShareError(q.share)
  }

  /** The error of the first entry that concerns `id` and does not hold a scalar. */
  function FirstError(packages: seq<Option<SharePackage>>, id: uint16): Option<DkgError> {
    if packages == [] then None
    else
      var n := |packages| - 1;
      var e := FirstError(packages[..n], id);
      if e.Some? then e
      else if Concerns(packages[n], id) && !Holds(packages[n]) then Some(EntryError(packages[n]))
      else None
  }

  function PackageValue(p: Option<SharePackage>): int {
    if Holds(p) then ParseShare(p.value.share).value else 0
  }

  function ReceivedSum(packages: seq<Option<SharePackage>>, id: uint16): int {
    Total(Map(PackageValue, Addressed(packages, id)))
  }

  /** The secret of a participant with own share `own` after adding the packages addressed to it. */
  function SecretAfter(own: Scalar, packages: seq<Option<SharePackage>>, id: uint16): Scalar {
    Red(own + ReceivedSum(packages, id))
  }

  function KeyShareOf<E(!new)>(group: Group<E>, id: uint16, secret: Scalar, verificationKey: E): KeyShare<E> {
    KeyShare(secret, verificationKey, group.mul(secret, group.base), id)
  }

  function Finalized<E(!new)>(group: Group<E>, id: uint16, f: seq<Scalar>, received: seq<Option<SharePackage>>,
                              verificationKey: E)
    : Result<KeyShare<E>, DkgError>
  {
    match FirstError(received, id)
    case Some(e) => Err(e)
    case None => Ok(KeyShareOf(group, id, SecretAfter(Share(f, id), received, id), verificationKey))
  }

  class Participant<E(!new)> {
    const id: uint16
    const threshold: nat
    const maxSigners: nat
    const group: Group<E>
    var polynomial: Option<seq<Scalar>>

    /** A polynomial, once chosen, has one coefficient for each signer needed. */
    ghost predicate Valid()
      reads this
    {
      polynomial.Some? ==> |polynomial.value| == threshold
    }

    constructor (group: Group<E>, id: uint16, threshold: nat, maxSigners: nat)
      ensures Valid() && polynomial == None
      ensures this.group == group && this.id == id && this.threshold == threshold && this.maxSigners == maxSigners
    {
      this.group := group;
      this.id := id;
      this.threshold := threshold;
      this.maxSigners := maxSigners;
      this.polynomial := None;
    }

    /** `random` is what the random number generator yields, one scalar a call. */
    method Round1(random: seq<Scalar>) returns (c: Commitment)
      requires |random| == threshold
      modifies this
      ensures Valid() && polynomial == Some(random)
      ensures c == CommitmentOf(group, id, random)
      ensures c.participantId == id && |c.commitments| == threshold
      ensures forall k | 0 <= k < threshold ::
        c.commitments[k] == EncodeHex(group.encode(group.mul(random[k], group.base)))
    {
      var coeffs := new Scalar[threshold];
      for i := 0 to threshold
        invariant coeffs[..i] == random[..i]
      {
        coeffs[i] := random[i];
      }
      assert coeffs[..] == random;
      polynomial := Some(coeffs[..]);

      var commitments := new string[threshold];
      for i := 0 to threshold
        invariant forall k | 0 <= k < i :: commitments[k] == PointText(group, group.mul(random[k], group.base))
        invariant coeffs[..] == random && polynomial == Some(random)
      {
        var point := group.mul(coeffs[i], group.base);
        commitments[i] := PointText(group, point);
      }
      c := Commitment(id, commitments[..]);
    }

    /** Evaluating a polynomial without coefficients panics, here and in Finalize. */
    method Round2(toId: uint16) returns (r: Result<SharePackage, DkgError>)
      requires Valid() && (polynomial.Some? ==> threshold > 0)
      ensures r == if polynomial.Some? then Ok(PackageOf(id, polynomial.value, toId)) else Err(Round1NotCompleted)
      ensures polynomial.Some? ==>
        && r.value.fromId == id && r.value.toId == toId
        && ParseShare(r.value.share) == Some(Red(PowerSum(polynomial.value, Red(toId), 0)))
    {
      if polynomial.None? {
        return Err(Round1NotCompleted);
      }
      var share := Evaluate(polynomial.value, Red(toId));
      ShareRoundTrip(share);
      return Ok(SharePackage(id, toId, ShareText(share)));
    }

    /** So does evaluating a polynomial that was never chosen.  The commitments are a parameter of the
        source as well, and are not read there either. */
    method Finalize(receivedShares: seq<Option<SharePackage>>, allCommitments: seq<Option<Commitment>>,
                    verificationKey: E)
      returns (r: Result<KeyShare<E>, DkgError>)
      requires Valid() && polynomial.Some? && threshold > 0
      ensures r == Finalized(group, id, polynomial.value, receivedShares, verificationKey)
    {
      var finalSecret: Scalar := 0;
      var ownShare := Evaluate(polynomial.value, Red(id));
      finalSecret := Red(finalSecret + ownShare);
      for k := 0 to |receivedShares|
        invariant FirstError(receivedShares[..k], id).None?
        invariant finalSecret == SecretAfter(ownShare, receivedShares[..k], id)
      {
        FinalizeStep(receivedShares, k, id, ownShare);
        if receivedShares[k].None? {
          return Err(NilEntry);
        }
        var pkg := receivedShares[k].value;
        if pkg.toId != id {
          continue;
        }
        var bytes := DecodeHex(pkg.share);
        if bytes.None? {
          return Err(InvalidHex);
        }
        var s := DecodeScalar(bytes.value);
        if s.None? {
          return Err(InvalidScalar);
        }
        finalSecret := Red(finalSecret + s.value);
      }
      assert receivedShares[..|receivedShares|] == receivedShares;
      return Ok(KeyShare(finalSecret, verificationKey, group.mul(finalSecret, group.base), id));
    }
  }

  /** What one iteration of the loop over the packages finds and adds. */
  lemma FinalizeStep(packages: seq<Option<SharePackage>>, k: nat, id: uint16, own: Scalar)
    requires k < |packages| && FirstError(packages[..k], id).None?
    ensures !Concerns(packages[k], id) ==>
      && FirstError(packages[..k + 1], id).None?
      && SecretAfter(own, packages[..k + 1], id) == SecretAfter(own, packages[..k], id)
    ensures Concerns(packages[k], id) && !Holds(packages[k]) ==>
      FirstError(packages, id) == Some(EntryError(packages[k]))
    ensures Concerns(packages[k], id) && Holds(packages[k]) ==>
      && FirstError(packages[..k + 1], id).None?
      && SecretAfter(own, packages[..k + 1], id)
         == Red(SecretAfter(own, packages[..k], id) + ParseShare(packages[k].value.share).value)
  {
    hide Red, ReceivedSum;
    PrefixStep(packages, k, id);
    if Concerns(packages[k], id) {
      if !Holds(packages[k]) {
        FirstErrorFound(packages, k, id);
      } else {
        SecretStep(packages, k, id, own, ParseShare(packages[k].value.share).value);
      }
    }
  }

  lemma SecretStep(packages: seq<Option<SharePackage>>, k: nat, id: uint16, own: Scalar, s: Scalar)
    requires k < |packages|
    requires ReceivedSum(packages[..k + 1], id) == ReceivedSum(packages[..k], id) + s
    ensures SecretAfter(own, packages[..k + 1], id) == Red(SecretAfter(own, packages[..k], id) + s)
  {
    AccumulateRed(SecretAfter(own, packages[..k], id), own + ReceivedSum(packages[..k], id), s);
  }

  lemma AccumulateRed(acc: Scalar, sum: int, s: int)
    requires acc == Red(sum)
    ensures Red(acc + s) == Red(sum + s)
  {
    RedRed(sum);
    RedAdd(acc, sum, s, s);
  }

  lemma AddressedStep(packages: seq<Option<SharePackage>>, k: nat, id: uint16)
    requires k < |packages|
    ensures Addressed(packages[..k + 1], id)
            == Addressed(packages[..k], id) + if Concerns(packages[k], id) then [packages[k]] else []
  {
    assert packages[..k + 1][..k] == packages[..k];
  }

  lemma ErrorStep(packages: seq<Option<SharePackage>>, k: nat, id: uint16)
    requires k < |packages| && FirstError(packages[..k], id).None?
    ensures FirstError(packages[..k + 1], id)
            == if Concerns(packages[k], id) && !Holds(packages[k]) then Some(EntryError(packages[k])) else None
  {
    assert packages[..k + 1][..k] == packages[..k];
  }

  lemma PrefixStep(packages: seq<Option<SharePackage>>, k: nat, id: uint16)
    requires k < |packages| && FirstError(packages[..k], id).None?
    ensures ReceivedSum(packages[..k + 1], id)
            == ReceivedSum(packages[..k], id) + if Concerns(packages[k], id) then PackageValue(packages[k]) else 0
    ensures FirstError(packages[..k + 1], id).None?
            <==> !Concerns(packages[k], id) || Holds(packages[k])
  {
    AddressedStep(packages, k, id);
    ErrorStep(packages, k, id);
    if Concerns(packages[k], id) {
      TotalMapAppend(PackageValue, Addressed(packages[..k], id), packages[k]);
    } else {
      assert Addressed(packages[..k + 1], id) == Addressed(packages[..k], id);
    }
  }

  lemma FirstErrorFound(packages: seq<Option<SharePackage>>, k: nat, id: uint16)
    requires k < |packages| && FirstError(packages[..k], id).None?
    requires Concerns(packages[k], id) && !Holds(packages[k])
    ensures FirstError(packages, id) == Some(EntryError(packages[k]))
  {
    ErrorStep(packages, k, id);
    FirstErrorStays(packages, k + 1, id);
  }

  lemma {:induction false} FirstErrorStays(packages: seq<Option<SharePackage>>, k: nat, id: uint16)
    requires k <= |packages| && FirstError(packages[..k], id).Some?
    ensures FirstError(packages, id) == FirstError(packages[..k], id)
  {
    hide Holds, EntryError;
    var n := |packages| - 1;
    if k <= n {
      assert packages[..n][..k] == packages[..k];
      FirstErrorStays(packages[..n], k, id);
    } else {
      assert packages[..k] == packages;
    }
  }

  // ----- the group public key

  /** The first commitment of a participant: the constant term times the base. */
  function ConstantPoint<E(!new)>(group: Group<E>, entry: Option<Commitment>): Result<E, DkgError> {
    match entry
    case None => Err(NilEntry)
    case Some(c) =>
      if c.commitments == [] then Err(EmptyCommitments(c.participantId)) else ParsePoint(group, c.commitments[0])
  }

  /** The constant points in order, or the error of the first that has none. */
  function ConstantPoints<E(!new)>(group: Group<E>, cs: seq<Option<Commitment>>): (r: Result<seq<E>, DkgError>)
    ensures r.Ok? ==> |r.value| == |cs| && forall i | 0 <= i < |cs| :: ConstantPoint(group, cs[i]) == Ok(r.value[i])
    ensures r.Err? ==> exists c <- cs :: ConstantPoint(group, c) == Err(r.error)
  {
    if cs == [] then Ok([])
    else
      var n := |cs| - 1;
      var r := ConstantPoints(group, cs[..n]);
      if r.Err? then r
      else
        var p := ConstantPoint(group, cs[n]);
        if p.Err? then
          assert cs[n] in cs;
          Err(p.error)
        else Ok(r.value + [p.value])
  }

  function GroupKey<E(!new)>(group: Group<E>, cs: seq<Option<Commitment>>): Result<E, DkgError> {
    match ConstantPoints(group, cs)
    case Ok(points) => Ok(group.Sum(points))
    case Err(e) => Err(e)
  }

  method ComputeGroupPublicKey<E(!new)>(group: Group<E>, allCommitments: seq<Option<Commitment>>)
    returns (r: Result<E, DkgError>)
    ensures r == GroupKey(group, allCommitments)
  {
    var groupKey := group.identity;
    ghost var points: seq<E> := [];
    for k := 0 to |allCommitments|
      invariant ConstantPoints(group, allCommitments[..k]) == Ok(points)
      invariant groupKey == group.Sum(points)
    {
      assert allCommitments[..k + 1][..k] == allCommitments[..k];
      if allCommitments[k].None? {
        KeyErrorStays(group, allCommitments, k + 1);
        return Err(NilEntry);
      }
      var c := allCommitments[k].value;
      if |c.commitments| == 0 {
        KeyErrorStays(group, allCommitments, k + 1);
        return Err(EmptyCommitments(c.participantId));
      }
      var bytes := DecodeHex(c.commitments[0]);
      if bytes.None? {
        KeyErrorStays(group, allCommitments, k + 1);
        return Err(InvalidHex);
      }
      var point := group.decode(bytes.value);
      if point.None? {
        KeyErrorStays(group, allCommitments, k + 1);
        return Err(InvalidPoint);
      }
      groupKey := group.add(groupKey, point.value);
      assert (points + [point.value])[..|points|] == points;
      points := points + [point.value];
    }
    assert allCommitments[..|allCommitments|] == allCommitments;
    return Ok(groupKey);
  }

  lemma {:induction false} KeyErrorStays<E(!new)>(group: Group<E>, cs: seq<Option<Commitment>>, k: nat)
    requires k <= |cs| && ConstantPoints(group, cs[..k]).Err?
    ensures ConstantPoints(group, cs) == ConstantPoints(group, cs[..k])
  {
    hide ConstantPoint;
    var n := |cs| - 1;
    if k <= n {
      assert cs[..n][..k] == cs[..k];
      KeyErrorStays(group, cs[..n], k);
    } else {
      assert cs[..k] == cs;
    }
  }

  /** What the finalisation handler computes: the group key of the commitments it holds and, with it,
      the key share. */
  function Outcome<E(!new)>(group: Group<E>, id: uint16, f: seq<Scalar>, cs: seq<Option<Commitment>>,
                            received: seq<Option<SharePackage>>)
    : Result<KeyShare<E>, DkgError>
  {
    match GroupKey(group, cs)
    case Err(e) => Err(e)
    case Ok(key) => Finalized(group, id, f, received, key)
  }
}
