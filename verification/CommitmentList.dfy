/** Sorting a list of commitments by signer, as every signer and the aggregator do independently. */
module CommitmentList {
  import opened Sums
  import opened Frost

  ghost predicate Ascending<E>(list: seq<NonceCommitment<E>>) {
    forall i, j | 0 <= i < j < |list| :: list[i].signerId <= list[j].signerId
  }

  predicate DistinctSigners<E>(list: seq<NonceCommitment<E>>) {
    forall i, j | 0 <= i < j < |list| :: list[i].signerId != list[j].signerId
  }

  /** `c` inserted before the first commitment of a later signer. */
  function Inserted<E>(c: NonceCommitment<E>, list: seq<NonceCommitment<E>>): seq<NonceCommitment<E>> {
    if list == [] then [c]
    else if c.signerId <= list[0].signerId then [c] + list
    else [list[0]] + Inserted(c, list[1..])
  }

  function SortBySigner<E>(list: seq<NonceCommitment<E>>): seq<NonceCommitment<E>> {
    if list == [] then [] else Inserted(list[0], SortBySigner(list[1..]))
  }

  lemma {:induction false} InsertedElements<E>(c: NonceCommitment<E>, list: seq<NonceCommitment<E>>)
    ensures multiset(Inserted(c, list)) == multiset{c} + multiset(list)
  {
    if list != [] && c.signerId > list[0].signerId {
      InsertedElements(c, list[1..]);
      assert list == [list[0]] + list[1..];
    }
  }

  ghost predicate AtLeast<E>(list: seq<NonceCommitment<E>>, b: int) {
    forall k | 0 <= k < |list| :: list[k].signerId >= b
  }

  lemma {:induction false} InsertedAtLeast<E>(c: NonceCommitment<E>, list: seq<NonceCommitment<E>>, b: int)
    requires AtLeast(list, b) && c.signerId >= b
    ensures AtLeast(Inserted(c, list), b)
  {
    if list != [] && c.signerId > list[0].signerId { InsertedAtLeast(c, list[1..], b); }
  }

  lemma PrependAscending<E>(c: NonceCommitment<E>, list: seq<NonceCommitment<E>>)
    requires Ascending(list) && AtLeast(list, c.signerId)
    ensures Ascending([c] + list)
  {
    forall i, j | 0 <= i < j < |list| + 1 ensures ([c] + list)[i].signerId <= ([c] + list)[j].signerId {
      if i > 0 { assert list[i - 1].signerId <= list[j - 1].signerId; }
    }
  }

  lemma TailOfAscending<E>(list: seq<NonceCommitment<E>>)
    requires Ascending(list) && list != []
    ensures Ascending(list[1..]) && AtLeast(list, list[0].signerId) && AtLeast(list[1..], list[0].signerId)
  {
    forall k | 0 <= k < |list| ensures list[k].signerId >= list[0].signerId {}
    forall i, j | 0 <= i < j < |list| - 1 ensures list[1..][i].signerId <= list[1..][j].signerId {
      assert list[i + 1].signerId <= list[j + 1].signerId;
    }
  }

  lemma {:induction false} InsertedAscending<E>(c: NonceCommitment<E>, list: seq<NonceCommitment<E>>)
    requires Ascending(list)
    ensures Ascending(Inserted(c, list))
  {
    hide Ascending, AtLeast;
    if list == [] {
      OneAscends(c);
    } else {
      TailOfAscending(list);
      if c.signerId > list[0].signerId {
        InsertedAscending(c, list[1..]);
        InsertedAtLeast(c, list[1..], list[0].signerId);
        PrependAscending(list[0], Inserted(c, list[1..]));
      } else {
        LowerBound(list, list[0].signerId, c.signerId);
        PrependAscending(c, list);
      }
    }
  }

  lemma OneAscends<E>(c: NonceCommitment<E>)
    ensures Ascending([c])
  {}

  lemma LowerBound<E>(list: seq<NonceCommitment<E>>, b: int, d: int)
    requires AtLeast(list, b) && d <= b
    ensures AtLeast(list, d)
  {}

  lemma {:induction false} SortSorts<E>(list: seq<NonceCommitment<E>>)
    ensures multiset(SortBySigner(list)) == multiset(list)
    ensures Ascending(SortBySigner(list))
  {
    if list != [] {
      SortSorts(list[1..]);
      InsertedElements(list[0], SortBySigner(list[1..]));
      InsertedAscending(list[0], SortBySigner(list[1..]));
      assert list == [list[0]] + list[1..];
    }
  }

  lemma SameLength<E>(a: seq<NonceCommitment<E>>, b: seq<NonceCommitment<E>>)
    requires multiset(a) == multiset(b)
    ensures |a| == |b|
  {
    assert |multiset(a)| == |a| && |multiset(b)| == |b|;
  }

  lemma HeadIsLeast<E>(a: seq<NonceCommitment<E>>, b: seq<NonceCommitment<E>>)
    requires multiset(a) == multiset(b) && a != [] && b != [] && DistinctSigners(a)
    requires Ascending(a) && Ascending(b)
    ensures a[0] == b[0]
  {
    assert a[0] in multiset(b) && b[0] in multiset(a);
    var i :| 0 <= i < |a| && a[i] == b[0];
    var j :| 0 <= j < |b| && b[j] == a[0];
    assert a[0].signerId <= a[i].signerId && b[0].signerId <= b[j].signerId;
  }

  /** Two ascending lists of the same commitments, one a signer, are the same list. */
  lemma {:induction false} AscendingUnique<E>(a: seq<NonceCommitment<E>>, b: seq<NonceCommitment<E>>)
    requires multiset(a) == multiset(b) && DistinctSigners(a) && Ascending(a) && Ascending(b)
    ensures a == b
    decreases |a|
  {
    hide Ascending, DistinctSigners, AtLeast, Without;
    SameLength(a, b);
    if a != [] {
      HeadIsLeast(a, b);
      TailsAgree(a, b);
      TailOfAscending(a);
      TailOfAscending(b);
      TailDistinct(a);
      AscendingUnique(a[1..], b[1..]);
      assert a == [a[0]] + a[1..] && b == [b[0]] + b[1..];
    }
  }

  lemma TailsAgree<E>(a: seq<NonceCommitment<E>>, b: seq<NonceCommitment<E>>)
    requires a != [] && b != [] && a[0] == b[0] && multiset(a) == multiset(b)
    ensures multiset(a[1..]) == multiset(b[1..])
  {
    DropCommon(a, b, 0);
    assert Without(b, 0) == b[1..];
  }

  lemma TailDistinct<E>(list: seq<NonceCommitment<E>>)
    requires DistinctSigners(list) && list != []
    ensures DistinctSigners(list[1..])
  {}

  /** Whichever order the commitments arrive in, and whichever sorting algorithm a participant uses,
      everybody works with the same list. */
  lemma SortAgrees<E>(a: seq<NonceCommitment<E>>, b: seq<NonceCommitment<E>>, sorted: seq<NonceCommitment<E>>)
    requires multiset(a) == multiset(b) == multiset(sorted) && DistinctSigners(a) && Ascending(sorted)
    ensures SortBySigner(a) == SortBySigner(b) == sorted
  {
    SortSorts(a);
    SortSorts(b);
    DistinctPermuted(a, SortBySigner(a));
    AscendingUnique(SortBySigner(a), SortBySigner(b));
    AscendingUnique(SortBySigner(a), sorted);
  }

  lemma {:induction false} AtMostOnce<E>(a: seq<NonceCommitment<E>>, c: NonceCommitment<E>)
    requires DistinctSigners(a)
    ensures multiset(a)[c] <= 1
  {
    if a != [] {
      AtMostOnce(a[1..], c);
      assert a == [a[0]] + a[1..];
      if c == a[0] { assert c !in a[1..]; }
    }
  }

  lemma AtLeastTwice<E>(b: seq<NonceCommitment<E>>, i: nat, j: nat)
    requires i < j < |b| && b[i] == b[j]
    ensures multiset(b)[b[i]] >= 2
  {
    MultisetSplit(b, j);
    assert Without(b, j)[i] == b[i];
    assert b[i] in multiset(Without(b, j));
  }

  lemma DistinctPermuted<E>(a: seq<NonceCommitment<E>>, b: seq<NonceCommitment<E>>)
    requires multiset(a) == multiset(b) && DistinctSigners(a)
    ensures DistinctSigners(b)
  {
    forall i, j | 0 <= i < j < |b| ensures b[i].signerId != b[j].signerId {
      assert b[i] in multiset(a) && b[j] in multiset(a);
      if b[i] == b[j] {
        AtMostOnce(a, b[i]);
        AtLeastTwice(b, i, j);
      }
    }
  }
}
