/** The commitments of the first round against the shares of the second (appendix C.2 of RFC 9591).
    The source never runs this check; these are facts about what honest participants send. */
module Feldman {
  import opened Wrappers
  import opened Zq
  import opened Polynomial
  import opened Wire
  import opened Group
  import opened Dkg
  import opened DkgTheorems

  /** The sum of `x^(k+i)` times the i-th point. */
  function PointSum<E(!new)>(group: Group<E>, points: seq<E>, x: Scalar, k: nat): E {
    if points == [] then group.identity
    else group.add(group.mul(Red(Pow(x, k)), points[0]), PointSum(group, points[1..], x, k + 1))
  }

  /** The check of appendix C.2: the share times the base is the commitment evaluated at the identifier. */
  ghost predicate Consistent<E(!new)>(group: Group<E>, points: seq<E>, id: uint16, share: Scalar) {
    group.mul(share, group.base) == PointSum(group, points, Red(id), 0)
  }

  lemma {:induction false} PointSumIsExp<E(!new)>(group: Group<E>, f: seq<Scalar>, x: Scalar, k: nat)
    requires group.Lawful()
    ensures PointSum(group, CommitmentPoints(group, f), x, k) == group.Exp(PowerSum(f, x, k))
  {
    hide Red, Pow;
    if f == [] {
      group.ExpZero();
    } else {
      assert CommitmentPoints(group, f)[1..] == CommitmentPoints(group, f[1..]);
      PointSumIsExp(group, f[1..], x, k + 1);
      group.TermIsExp(Pow(x, k), f[0]);
      group.ExpAdd(f[0] * Pow(x, k), PowerSum(f[1..], x, k + 1));
    }
  }

  lemma PointSumAtZeroPower<E(!new)>(group: Group<E>, f: seq<Scalar>, x: Scalar)
    requires group.Lawful()
    ensures PointSum(group, CommitmentPoints(group, f), x, 0) == group.Exp(Eval(f, x))
  {
    PointSumIsExp(group, f, x, 0);
    EvalIsPowerSum(f, x, 0);
  }

  /** Against honest commitments the check accepts the honest share and nothing else. */
  lemma OnlyHonestShareConsistent<E(!new)>(group: Group<E>, f: seq<Scalar>, id: uint16, share: Scalar)
    requires group.Lawful()
    ensures Consistent(group, CommitmentPoints(group, f), id, share) <==> share == Share(f, id)
  {
    hide Red, Eval, PointSum;
    var v := Eval(f, Red(id));
    PointSumAtZeroPower(group, f, Red(id));
    RedScalar(share);
    group.ExpEqual(share, v);
  }

  /** The texts a participant broadcasts decode to its commitments, one a coefficient; only that of a
      zero coefficient may be rejected. */
  lemma CommitmentTexts<E(!new)>(group: Group<E>, id: uint16, f: seq<Scalar>)
    requires group.Lawful()
    ensures |CommitmentOf(group, id, f).commitments| == |f|
    ensures forall k | 0 <= k < |f| ::
      ParsePoint(group, CommitmentOf(group, id, f).commitments[k])
      == if group.Readable(group.identity) || f[k] != 0 then Ok(CommitmentPoints(group, f)[k]) else Err(InvalidPoint)
  {
    hide Group.Lawful, ParsePoint, PointText;
    forall k | 0 <= k < |f|
      ensures ParsePoint(group, CommitmentOf(group, id, f).commitments[k])
              == if group.Readable(group.identity) || f[k] != 0
                 then Ok(CommitmentPoints(group, f)[k]) else Err(InvalidPoint)
    {
      RedScalar(f[k]);
      PointRoundTrip(group, group.Exp(f[k]));
      group.ReadableExp(f[k]);
    }
  }

  /** Every participant's commitment evaluated at `id`. */
  function CommitmentsAt<E(!new)>(c: Ceremony, group: Group<E>, id: uint16): (r: seq<E>)
    ensures |r| == |c.polys|
  {
    seq(|c.polys|, j requires 0 <= j < |c.polys| =>
      PointSum(group, CommitmentPoints(group, c.polys[j]), Red(id), 0))
  }

  /** With one package from every other participant, the public key in the final key share is the sum
      of all commitments evaluated at the participant's identifier, which anybody can compute. */
  lemma PublicKeyFromCommitments<E(!new)>(c: Ceremony, group: Group<E>, i: nat, received: seq<Option<SharePackage>>,
                                          key: E)
    requires c.Valid() && group.Lawful() && i < |c.ids| && FromEveryPeer(c, i, received)
    ensures Finalized(group, c.ids[i], c.polys[i], received, key).Ok?
    ensures Finalized(group, c.ids[i], c.polys[i], received, key).value.publicKey
            == group.Sum(CommitmentsAt(c, group, c.ids[i]))
  {
    hide Red, Eval, PointSum, SumOf;
    var id := c.ids[i];
    RedScalar(id);
    PeerShare(c, group, i, received, key);
    var values := ValuesAt(c.polys, id);
    forall j | 0 <= j < |c.polys| ensures CommitmentsAt(c, group, id)[j] == group.Exp(values[j]) {
      PointSumAtZeroPower(group, c.polys[j], id);
    }
    group.SumIsExp(CommitmentsAt(c, group, id), values);
    EvalSumOf(c.polys, id);
  }
}
