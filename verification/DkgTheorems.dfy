/** What the key generation guarantees: the group key belongs to the secret that any t of the final
    shares recover, when every participant adds each other participant's share once, and by how
    much the recovered secret is off in the ceremony as the coordinator drives it. */
module DkgTheorems {
  import opened Wrappers
  import opened Zq
  import opened Sums
  import opened Polynomial
  import opened Lagrange
  import opened Wire
  import opened Group
  import opened Dkg

  /** Identifiers that are distinct and non-zero scalars. */
  ghost predicate ValidIds(ids: seq<uint16>) {
    && (forall i | 0 <= i < |ids| :: 0 < ids[i] < Q)
    && (forall i, j | 0 <= i < j < |ids| :: ids[i] != ids[j])
  }

  /** The participants' identifiers and the polynomials they chose. */
  datatype Ceremony = Ceremony(threshold: nat, ids: seq<uint16>, polys: seq<seq<Scalar>>) {

    ghost predicate Valid() {
      && threshold > 0 && |ids| == |polys|
      && (forall i | 0 <= i < |polys| :: |polys[i]| == threshold)
      && ValidIds(ids)
    }

    /** Every broadcast constant term can be read: none is zero, or the identity is readable. */
    ghost predicate Published<E(!new)>(group: Group<E>) {
      group.Readable(group.identity) || forall i | 0 <= i < |polys| :: polys[i] != [] && polys[i][0] != 0
    }

    /** The sum of all polynomials: its constant term is the group secret. */
    function Joint(): (f: seq<int>)
    {
      SumOf(polys)
    }

    /** Everybody's package for the participant `id`, in the order of the participants. */
    function PackagesFor(id: uint16): (r: seq<Option<SharePackage>>)
      requires |ids| == |polys|
      ensures |r| == |ids|
    {
      seq(|ids|, j requires 0 <= j < |ids| => Some(PackageOf(ids[j], polys[j], id)))
    }

    /** The broadcast commitments. */
    function Commitments<E(!new)>(group: Group<E>): (r: seq<Option<Commitment>>)
      requires |ids| == |polys|
      ensures |r| == |ids|
    {
      seq(|ids|, j requires 0 <= j < |ids| => Some(CommitmentOf(group, ids[j], polys[j])))
    }
  }

  function SumOf(polys: seq<seq<Scalar>>): seq<int> {
    if polys == [] then [] else Plus(polys[0], SumOf(polys[1..]))
  }

  function ValuesAt(polys: seq<seq<Scalar>>, x: int): (r: seq<int>)
    ensures |r| == |polys| && forall j | 0 <= j < |polys| :: r[j] == Eval(polys[j], x)
  {
    seq(|polys|, j requires 0 <= j < |polys| => Eval(polys[j], x))
  }

  lemma {:induction false} EvalSumOf(polys: seq<seq<Scalar>>, x: int)
    ensures Eval(SumOf(polys), x) == Total(ValuesAt(polys, x))
  {
    if polys != [] {
      EvalSumOf(polys[1..], x);
      EvalPlus(polys[0], SumOf(polys[1..]), x);
      assert ValuesAt(polys, x)[1..] == ValuesAt(polys[1..], x);
    }
  }

  lemma {:induction false} SumOfLength(polys: seq<seq<Scalar>>, t: nat)
    requires forall i | 0 <= i < |polys| :: |polys[i]| == t
    ensures |SumOf(polys)| <= t
  {
    if polys != [] {
      forall i | 0 <= i < |polys[1..]| ensures |polys[1..][i]| == t { assert polys[1..][i] == polys[i + 1]; }
      SumOfLength(polys[1..], t);
    }
  }

  lemma {:induction false} TotalCongruent(xs: seq<int>, ys: seq<int>)
    requires |xs| == |ys| && forall i | 0 <= i < |xs| :: Red(xs[i]) == Red(ys[i])
    ensures Red(Total(xs)) == Red(Total(ys))
  {
    if xs != [] {
      forall i | 0 <= i < |xs[1..]| ensures Red(xs[1..][i]) == Red(ys[1..][i]) {
        assert xs[1..][i] == xs[i + 1] && ys[1..][i] == ys[i + 1];
      }
      TotalCongruent(xs[1..], ys[1..]);
      RedAdd(xs[0], ys[0], Total(xs[1..]), Total(ys[1..]));
    }
  }

  // ----- what a participant holds after finalising

  /** The packages addressed to participant `i` are one from every other participant, in any order. */
  ghost predicate FromEveryPeer(c: Ceremony, i: nat, received: seq<Option<SharePackage>>)
    requires |c.ids| == |c.polys| && i < |c.ids|
  {
    multiset(Addressed(received, c.ids[i])) == multiset(Without(c.PackagesFor(c.ids[i]), i))
  }

  /** The packages addressed to participant `i` are one from every participant, itself included. */
  ghost predicate FromEverybody(c: Ceremony, i: nat, received: seq<Option<SharePackage>>)
    requires |c.ids| == |c.polys| && i < |c.ids|
  {
    multiset(Addressed(received, c.ids[i])) == multiset(c.PackagesFor(c.ids[i]))
  }

  lemma {:induction false} AddressedAll(packages: seq<Option<SharePackage>>, id: uint16)
    requires forall k | 0 <= k < |packages| :: Concerns(packages[k], id)
    ensures Addressed(packages, id) == packages
  {
    if packages != [] { AddressedAll(packages[..|packages| - 1], id); }
  }

  lemma {:induction false} FirstErrorIff(packages: seq<Option<SharePackage>>, id: uint16)
    ensures FirstError(packages, id).None? <==> forall p <- Addressed(packages, id) :: Holds(p)
  {
    if packages != [] {
      var n := |packages| - 1;
      FirstErrorIff(packages[..n], id);
      if Concerns(packages[n], id) {
        assert Addressed(packages, id) == Addressed(packages[..n], id) + [packages[n]];
        assert packages[n] in Addressed(packages, id);
      } else {
        assert Addressed(packages, id) == Addressed(packages[..n], id);
      }
    }
  }

  lemma AddressedDetermines(a: seq<Option<SharePackage>>, b: seq<Option<SharePackage>>, id: uint16)
    requires multiset(Addressed(a, id)) == multiset(Addressed(b, id))
    ensures FirstError(a, id).None? <==> FirstError(b, id).None?
    ensures ReceivedSum(a, id) == ReceivedSum(b, id)
  {
    hide Holds, PackageValue, FirstError;
    var x, y := Addressed(a, id), Addressed(b, id);
    FirstErrorIff(a, id);
    FirstErrorIff(b, id);
    assert forall p :: p in x <==> p in multiset(x);
    assert forall p :: p in y <==> p in multiset(y);
    TotalMapPermuted(PackageValue, x, y);
  }

  /** Only which packages are addressed to a participant matters to it, not their order and not what
      else is in the list. */
  lemma FinalizeOrder<E(!new)>(group: Group<E>, id: uint16, f: seq<Scalar>, a: seq<Option<SharePackage>>,
                               b: seq<Option<SharePackage>>, key: E)
    requires multiset(Addressed(a, id)) == multiset(Addressed(b, id))
    ensures Finalized(group, id, f, a, key).Ok? <==> forall p <- Addressed(a, id) :: Holds(p)
    ensures Finalized(group, id, f, a, key).Ok? <==> Finalized(group, id, f, b, key).Ok?
    ensures Finalized(group, id, f, a, key).Ok? ==> Finalized(group, id, f, a, key) == Finalized(group, id, f, b, key)
  {
    hide Red, ReceivedSum, FirstError, Share, Holds;
    AddressedDetermines(a, b, id);
    FirstErrorIff(a, id);
  }

  lemma AddressedSnoc(s: seq<Option<SharePackage>>, p: Option<SharePackage>, id: uint16)
    ensures Addressed(s + [p], id) == Addressed(s, id) + if Concerns(p, id) then [p] else []
  {
    assert (s + [p])[..|s|] == s;
  }

  lemma AddressedNone(id: uint16)
    ensures Addressed([], id) == []
  {}

  lemma {:induction false} AddressedAppend(a: seq<Option<SharePackage>>, b: seq<Option<SharePackage>>, id: uint16)
    ensures Addressed(a + b, id) == Addressed(a, id) + Addressed(b, id)
    decreases |b|
  {
    hide Addressed;
    if b == [] {
      assert a + b == a;
      AddressedNone(id);
    } else {
      var pre, p := b[..|b| - 1], b[|b| - 1];
      AddressedAppend(a, pre, id);
      assert b == pre + [p];
      AddressedSnoc(pre, p, id);
      assert a + b == (a + pre) + [p];
      AddressedSnoc(a + pre, p, id);
    }
  }

  lemma AddressedOne(p: Option<SharePackage>, id: uint16)
    ensures Addressed([p], id) == if Concerns(p, id) then [p] else []
  {
    AddressedSnoc([], p, id);
    assert [] + [p] == [p];
  }

  /** A package for somebody else may be inserted anywhere. */
  lemma InsertForeign(a: seq<Option<SharePackage>>, p: SharePackage, b: seq<Option<SharePackage>>, id: uint16)
    requires p.toId != id
    ensures Addressed(a + [Some(p)] + b, id) == Addressed(a + b, id)
  {
    hide Addressed;
    AddressedAppend(a + [Some(p)], b, id);
    AddressedAppend(a, [Some(p)], id);
    AddressedOne(Some(p), id);
    AddressedAppend(a, b, id);
  }

  lemma AddressedSplit(a: seq<Option<SharePackage>>, i: nat, id: uint16)
    requires i < |a|
    ensures multiset(Addressed(a, id)) == multiset(Addressed(Without(a, i), id)) + multiset(Addressed([a[i]], id))
  {
    hide Addressed;
    var pre, post := a[..i], a[i + 1..];
    assert a == pre + ([a[i]] + post);
    AddressedAppend(pre, [a[i]] + post, id);
    AddressedAppend([a[i]], post, id);
    AddressedAppend(pre, post, id);
  }

  lemma {:induction false} AddressedPermuted(a: seq<Option<SharePackage>>, b: seq<Option<SharePackage>>, id: uint16)
    requires multiset(a) == multiset(b)
    ensures multiset(Addressed(a, id)) == multiset(Addressed(b, id))
    decreases |a|
  {
    if a == [] {
      assert |b| == |multiset(b)| == 0;
    } else {
      assert a[0] in multiset(b);
      var i :| 0 <= i < |b| && b[i] == a[0];
      DropCommon(a, b, i);
      AddressedPermuted(a[1..], Without(b, i), id);
      AddressedSplit(a, 0, id);
      AddressedSplit(b, i, id);
      assert Without(a, 0) == a[1..];
    }
  }

  /** What adding up an honest list of packages yields. */
  lemma HonestSum(received: seq<Option<SharePackage>>, id: uint16, expected: seq<Option<SharePackage>>)
    requires multiset(Addressed(received, id)) == multiset(expected)
    requires forall p <- expected :: Holds(p)
    ensures FirstError(received, id).None?
    ensures ReceivedSum(received, id) == Total(Map(PackageValue, expected))
  {
    var a := Addressed(received, id);
    FirstErrorIff(received, id);
    assert forall p :: p in a <==> p in multiset(a);
    assert forall p :: p in expected <==> p in multiset(expected);
    TotalMapPermuted(PackageValue, a, expected);
  }

  function SharesFor(c: Ceremony, id: uint16): (r: seq<int>)
    requires |c.ids| == |c.polys|
    ensures |r| == |c.ids| && forall j | 0 <= j < |c.ids| :: r[j] == Share(c.polys[j], id)
  {
    seq(|c.ids|, j requires 0 <= j < |c.ids| => Share(c.polys[j], id))
  }

  lemma PackagesHonest(c: Ceremony, id: uint16)
    requires |c.ids| == |c.polys|
    ensures forall p <- c.PackagesFor(id) :: Holds(p)
    ensures Map(PackageValue, c.PackagesFor(id)) == SharesFor(c, id)
  {
    forall j | 0 <= j < |c.ids| ensures PackageValue(c.PackagesFor(id)[j]) == Share(c.polys[j], id)
      ensures Holds(c.PackagesFor(id)[j])
    {
      ShareRoundTrip(Share(c.polys[j], id));
    }
  }

  lemma SharesTotal(c: Ceremony, id: uint16)
    requires |c.ids| == |c.polys| && 0 < id < Q
    ensures Red(Total(SharesFor(c, id))) == Red(Eval(c.Joint(), id))
  {
    forall j | 0 <= j < |c.ids| ensures Red(SharesFor(c, id)[j]) == Red(ValuesAt(c.polys, id)[j]) {
      RedRed(Eval(c.polys[j], id));
    }
    TotalCongruent(SharesFor(c, id), ValuesAt(c.polys, id));
    EvalSumOf(c.polys, id);
  }

  /** With one package from every other participant, participant i holds F(i) for the joint polynomial F. */
  lemma PeerShare<E(!new)>(c: Ceremony, group: Group<E>, i: nat, received: seq<Option<SharePackage>>, key: E)
    requires c.Valid() && i < |c.ids| && FromEveryPeer(c, i, received)
    ensures Finalized(group, c.ids[i], c.polys[i], received, key)
            == Ok(KeyShareOf(group, c.ids[i], Red(Eval(c.Joint(), c.ids[i])), key))
  {
    hide Red, Eval, ReceivedSum, Holds, PackageOf, PackageValue, FirstError, Share, Total, SumOf, Map, KeyShareOf,
      SharesFor;
    var id := c.ids[i];
    var all := c.PackagesFor(id);
    PackagesHonest(c, id);
    forall p | p in Without(all, i) ensures Holds(p) { assert p in all; }
    hide Without;
    HonestSum(received, id, Without(all, i));
    MapWithout(PackageValue, all, i);
    PeerTotal(c, i);
  }

  lemma PeerTotal(c: Ceremony, i: nat)
    requires c.Valid() && i < |c.ids|
    ensures Red(Share(c.polys[i], c.ids[i]) + Total(Without(SharesFor(c, c.ids[i]), i)))
            == Red(Eval(c.Joint(), c.ids[i]))
  {
    hide Red, Eval, Share;
    TotalSplit(SharesFor(c, c.ids[i]), i);
    SharesTotal(c, c.ids[i]);
  }

  lemma AllAddressed(c: Ceremony, id: uint16)
    requires |c.ids| == |c.polys|
    ensures Addressed(c.PackagesFor(id), id) == c.PackagesFor(id)
  {
    AddressedAll(c.PackagesFor(id), id);
  }

  /** A participant with polynomial `f` that receives everybody's package adds its own share to the sum
      of the packages, whether or not one of them is its own. */
  lemma EverybodysShare<E(!new)>(c: Ceremony, group: Group<E>, f: seq<Scalar>, id: uint16,
                                 received: seq<Option<SharePackage>>, key: E)
    requires |c.ids| == |c.polys| && 0 < id < Q
    requires multiset(Addressed(received, id)) == multiset(c.PackagesFor(id))
    ensures Finalized(group, id, f, received, key)
      == Ok(KeyShareOf(group, id, Red(Eval(f, id) + Eval(c.Joint(), id)), key))
  {
    hide Red, Eval, ReceivedSum, Holds, PackageOf, PackageValue, FirstError, SumOf, Total, KeyShareOf, Map, SharesFor,
      Addressed;
    PackagesHonest(c, id);
    HonestSum(received, id, c.PackagesFor(id));
    SharesTotal(c, id);
    RedScalar(id);
    RedRed(Eval(f, id));
    RedAdd(Share(f, id), Eval(f, id), Total(SharesFor(c, id)), Eval(c.Joint(), id));
  }

  /** With its own package among them, as the coordinator sends them, it holds F(i) + f_i(i). */
  lemma DrivenShare<E(!new)>(c: Ceremony, group: Group<E>, i: nat, received: seq<Option<SharePackage>>, key: E)
    requires c.Valid() && i < |c.ids| && FromEverybody(c, i, received)
    ensures Finalized(group, c.ids[i], c.polys[i], received, key)
            == Ok(KeyShareOf(group, c.ids[i], Red(Eval(c.Joint(), c.ids[i]) + Eval(c.polys[i], c.ids[i])), key))
  {
    hide Red, Eval, SumOf, Finalized;
    EverybodysShare(c, group, c.polys[i], c.ids[i], received, key);
    assert Eval(c.polys[i], c.ids[i]) + Eval(c.Joint(), c.ids[i])
      == Eval(c.Joint(), c.ids[i]) + Eval(c.polys[i], c.ids[i]);
  }

  // ----- the group public key

  lemma ConstantPointOf<E(!new)>(group: Group<E>, id: uint16, f: seq<Scalar>)
    requires group.Lawful() && f != []
    ensures ConstantPoint(group, Some(CommitmentOf(group, id, f)))
            == if group.Readable(group.identity) || f[0] != 0 then Ok(group.Exp(Eval(f, 0))) else Err(InvalidPoint)
  {
    hide Group.Lawful, ParsePoint, PointText;
    EvalAtZero(f);
    RedScalar(f[0]);
    PointRoundTrip(group, group.Exp(f[0]));
    group.ReadableExp(f[0]);
  }

  /** The broadcast constant terms add up to the joint constant term times the base. */
  lemma GroupKeyIsJoint<E(!new)>(c: Ceremony, group: Group<E>)
    requires c.Valid() && group.Lawful()
    ensures GroupKey(group, c.Commitments(group))
            == if c.Published(group) then Ok(group.Exp(Eval(c.Joint(), 0))) else Err(InvalidPoint)
  {
    hide CommitmentOf, ConstantPoint, Red, Eval, Group.Lawful, SumOf;
    var cs := c.Commitments(group);
    forall j | 0 <= j < |cs|
      ensures ConstantPoint(group, cs[j])
              == if group.Readable(group.identity) || c.polys[j][0] != 0
                 then Ok(group.Exp(Eval(c.polys[j], 0))) else Err(InvalidPoint)
    {
      ConstantPointOf(group, c.ids[j], c.polys[j]);
    }
    var points := ConstantPoints(group, cs);
    if points.Ok? {
      group.SumIsExp(points.value, ValuesAt(c.polys, 0));
      EvalSumOf(c.polys, 0);
    }
  }
}
