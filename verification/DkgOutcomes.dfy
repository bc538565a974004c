/** Exactly what finalisation and the group key come to for any input, in terms of the fields of the
    packages and commitments received. */
module DkgOutcomes {
  import opened Wrappers
  import opened Zq
  import opened Sums
  import opened Polynomial
  import opened Wire
  import opened Group
  import opened Dkg
  import opened DkgTheorems

  lemma {:induction false} FirstErrorAppend(a: seq<Option<SharePackage>>, b: seq<Option<SharePackage>>, id: uint16)
    ensures FirstError(a + b, id) == if FirstError(a, id).Some? then FirstError(a, id) else FirstError(b, id)
    decreases |b|
  {
    hide Concerns, Holds, EntryError;
    if b == [] {
      assert a + b == a;
    } else {
      var n := |b| - 1;
      FirstErrorAppend(a, b[..n], id);
      assert (a + b)[..|a| + n] == a + b[..n];
    }
  }

  lemma NoForeignError(p: SharePackage, id: uint16)
    requires p.toId != id
    ensures FirstError([Some(p)], id).None?
  {
    assert [Some(p)][..0] == [];
  }

  /** Whatever it holds, it changes neither the share nor the error. */
  lemma ForeignIgnored<E(!new)>(group: Group<E>, id: uint16, f: seq<Scalar>, a: seq<Option<SharePackage>>,
                                p: SharePackage, b: seq<Option<SharePackage>>, key: E)
    requires p.toId != id
    ensures Finalized(group, id, f, a + [Some(p)] + b, key) == Finalized(group, id, f, a + b, key)
  {
    hide Addressed, FirstError;
    InsertForeign(a, p, b, id);
    FirstErrorAppend(a + [Some(p)], b, id);
    FirstErrorAppend(a, [Some(p)], id);
    FirstErrorAppend(a, b, id);
    NoForeignError(p, id);
  }

  // ----- finalisation in terms of the packages' fields

  /** The scalar of a package addressed to `id`, and 0 for anything else. */
  function Contribution(p: Option<SharePackage>, id: uint16): int {
    if p.Some? && p.value.toId == id && ParseShare(p.value.share).Some? then ParseShare(p.value.share).value else 0
  }

  function Contributions(received: seq<Option<SharePackage>>, id: uint16): (r: seq<int>)
    ensures |r| == |received| && forall k | 0 <= k < |received| :: r[k] == Contribution(received[k], id)
  {
    seq(|received|, k requires 0 <= k < |received| => Contribution(received[k], id))
  }

  /** The entry does not keep `id` from finalising. */
  predicate Harmless(p: Option<SharePackage>, id: uint16) {
    p.Some? && (p.value.toId == id ==> ParseShare(p.value.share).Some?)
  }

  lemma {:induction false} ReceivedContributions(received: seq<Option<SharePackage>>, id: uint16)
    ensures ReceivedSum(received, id) == Total(Contributions(received, id))
  {
    if received != [] {
      hide Contribution, PackageValue, Total, Map;
      var n := |received| - 1;
      ReceivedContributions(received[..n], id);
      assert Contributions(received, id) == Contributions(received[..n], id) + [Contribution(received[n], id)];
      TotalAppend(Contributions(received[..n], id), [Contribution(received[n], id)]);
      TotalOne(Contribution(received[n], id));
      OneContribution(received[n], id);
      if Concerns(received[n], id) {
        TotalMapAppend(PackageValue, Addressed(received[..n], id), received[n]);
      } else {
        assert Addressed(received, id) == Addressed(received[..n], id);
      }
    }
  }

  lemma TotalOne(x: int)
    ensures Total([x]) == x
  {
    assert [x][1..] == [];
  }

  lemma OneContribution(p: Option<SharePackage>, id: uint16)
    ensures Contribution(p, id) == if Concerns(p, id) then PackageValue(p) else 0
  {}

  lemma {:induction false} HarmlessIff(received: seq<Option<SharePackage>>, id: uint16)
    ensures FirstError(received, id).None? <==> forall p <- received :: Harmless(p, id)
  {
    if received != [] {
      var n := |received| - 1;
      HarmlessIff(received[..n], id);
      assert received == received[..n] + [received[n]];
      OneHarmless(received[n], id);
      hide Harmless, Concerns, Holds;
      assert received[n] in received;
    }
  }

  lemma OneHarmless(p: Option<SharePackage>, id: uint16)
    ensures Harmless(p, id) <==> !Concerns(p, id) || Holds(p)
  {}

  /** Exactly when a participant finalises, and with what: the power sum of its polynomial at its own
      identifier plus the scalars of the packages addressed to it, wherever they stand in the list. */
  lemma FinalizedSum<E(!new)>(group: Group<E>, id: uint16, f: seq<Scalar>, received: seq<Option<SharePackage>>, key: E)
    ensures Finalized(group, id, f, received, key).Ok? <==> forall p <- received :: Harmless(p, id)
    ensures (forall p <- received :: Harmless(p, id)) ==>
      var secret := Red(PowerSum(f, Red(id), 0) + Total(Contributions(received, id)));
      Finalized(group, id, f, received, key) == Ok(KeyShare(secret, key, group.mul(secret, group.base), id))
  {
    hide Red, FirstError, ReceivedSum, Eval, PowerSum, Total, Map, Contribution, Harmless;
    HarmlessIff(received, id);
    ReceivedContributions(received, id);
    PowerSumFromZero(f, Red(id));
    var v := Eval(f, Red(id));
    RedRed(v);
    RedAdd(Share(f, id), v, ReceivedSum(received, id), ReceivedSum(received, id));
  }

  /** Why it does not finalise: the first entry that is nil, or addressed to it without a scalar. */
  lemma FinalizedError<E(!new)>(group: Group<E>, id: uint16, f: seq<Scalar>, received: seq<Option<SharePackage>>,
                                key: E, k: nat)
    requires k < |received| && !Harmless(received[k], id) && forall p <- received[..k] :: Harmless(p, id)
    ensures Finalized(group, id, f, received, key) == Err(
      if received[k].None? then NilEntry
      else if DecodeHex(received[k].value.share).None? then InvalidHex
      else InvalidScalar)
  {
    HarmlessIff(received[..k], id);
    FirstErrorFound(received, k, id);
  }

  // ----- the group public key in terms of the entries' fields

  /** The entry starts with a text of `p`. */
  ghost predicate StartsWith<E(!new)>(group: Group<E>, entry: Option<Commitment>, p: E) {
    && entry.Some? && entry.value.commitments != []
    && DecodeHex(entry.value.commitments[0]).Some?
    && group.decode(DecodeHex(entry.value.commitments[0]).value) == Some(p)
  }

  /** The entry starts with a readable point. */
  ghost predicate Starts<E(!new)>(group: Group<E>, entry: Option<Commitment>) {
    exists p :: StartsWith(group, entry, p)
  }

  lemma StartsIff<E(!new)>(group: Group<E>, entry: Option<Commitment>)
    ensures Starts(group, entry) <==> ConstantPoint(group, entry).Ok?
    ensures Starts(group, entry) ==> StartsWith(group, entry, ConstantPoint(group, entry).value)
  {
    if ConstantPoint(group, entry).Ok? { assert StartsWith(group, entry, ConstantPoint(group, entry).value); }
  }

  /** There is a key exactly when every entry starts with a readable point. */
  lemma GroupKeyIff<E(!new)>(group: Group<E>, cs: seq<Option<Commitment>>)
    ensures GroupKey(group, cs).Ok? <==> forall c <- cs :: Starts(group, c)
  {
    hide ConstantPoint, Starts;
    forall k | 0 <= k < |cs| ensures Starts(group, cs[k]) <==> ConstantPoint(group, cs[k]).Ok? {
      StartsIff(group, cs[k]);
    }
  }

  /** It is the sum of these points. */
  lemma GroupKeySum<E(!new)>(group: Group<E>, cs: seq<Option<Commitment>>, points: seq<E>)
    requires |cs| == |points| && forall k | 0 <= k < |cs| :: StartsWith(group, cs[k], points[k])
    ensures GroupKey(group, cs) == Ok(group.Sum(points))
  {
    hide ConstantPoint;
    forall k | 0 <= k < |cs| ensures ConstantPoint(group, cs[k]) == Ok(points[k]) {
      StartsIff(group, cs[k]);
      assert Starts(group, cs[k]);
    }
    assert ConstantPoints(group, cs).Ok? ==> ConstantPoints(group, cs).value == points;
  }

  /** Otherwise the first entry without one decides: a nil entry panics, one without commitments is an
      error with the participant's identifier, and so is a text that is not hexadecimal or no point. */
  lemma GroupKeyError<E(!new)>(group: Group<E>, cs: seq<Option<Commitment>>, k: nat)
    requires k < |cs| && !Starts(group, cs[k]) && forall c <- cs[..k] :: Starts(group, c)
    ensures GroupKey(group, cs) == Err(
      if cs[k].None? then NilEntry
      else if cs[k].value.commitments == [] then EmptyCommitments(cs[k].value.participantId)
      else if DecodeHex(cs[k].value.commitments[0]).None? then InvalidHex
      else InvalidPoint)
  {
    StartsIff(group, cs[k]);
    GroupKeyIff(group, cs[..k]);
    hide Starts;
    assert cs[..k + 1][..k] == cs[..k];
    KeyErrorStays(group, cs, k + 1);
  }

  /** The key does not depend on the order of the commitments, and exists exactly when every
      participant's first commitment decodes. */
  lemma GroupKeyOrder<E(!new)>(group: Group<E>, cs: seq<Option<Commitment>>, ds: seq<Option<Commitment>>)
    requires group.Lawful() && multiset(cs) == multiset(ds)
    ensures GroupKey(group, cs).Ok? <==> forall c <- cs :: Starts(group, c)
    ensures GroupKey(group, cs).Ok? <==> GroupKey(group, ds).Ok?
    ensures GroupKey(group, cs).Ok? ==> GroupKey(group, cs) == GroupKey(group, ds)
  {
    hide Starts;
    GroupKeyIff(group, cs);
    assert forall c :: c in cs <==> c in multiset(cs);
    assert forall c :: c in ds <==> c in multiset(ds);
    if GroupKey(group, cs).Ok? && GroupKey(group, ds).Ok? {
      var point := c => match ConstantPoint(group, c) case Ok(p) => p case Err(_) => group.identity;
      assert ConstantPoints(group, cs).value == Map(point, cs);
      assert ConstantPoints(group, ds).value == Map(point, ds);
      MapPermuted(point, cs, ds);
      group.SumPermuted(Map(point, cs), Map(point, ds));
    }
  }
}
