/** Totals of integer lists and how they behave under concatenation and reordering. */
module Sums {

  function Total(xs: seq<int>): int {
    if xs == [] then 0 else xs[0] + Total(xs[1..])
  }

  lemma {:induction false} TotalAppend(xs: seq<int>, ys: seq<int>)
    ensures Total(xs + ys) == Total(xs) + Total(ys)
  {
    if xs == [] {
      assert xs + ys == ys;
    } else {
      TotalAppend(xs[1..], ys);
      assert (xs + ys)[1..] == xs[1..] + ys;
    }
  }

  function Map<A, B>(f: A -> B, s: seq<A>): (r: seq<B>)
    ensures |r| == |s| && forall i | 0 <= i < |s| :: r[i] == f(s[i])
  {
    if s == [] then [] else [f(s[0])] + Map(f, s[1..])
  }

  function Without<A>(s: seq<A>, i: nat): (r: seq<A>)
    requires i < |s|
    ensures |r| == |s| - 1
  {
    s[..i] + s[i + 1..]
  }

  lemma MultisetSplit<A>(s: seq<A>, i: nat)
    requires i < |s|
    ensures multiset(s) == multiset(Without(s, i)) + multiset{s[i]}
  {
    assert s == s[..i] + [s[i]] + s[i + 1..];
  }

  lemma DropCommon<A>(s: seq<A>, u: seq<A>, i: nat)
    requires s != [] && multiset(s) == multiset(u) && i < |u| && u[i] == s[0]
    ensures multiset(s[1..]) == multiset(Without(u, i))
  {
    MultisetSplit(u, i);
    MultisetSplit(s, 0);
    assert Without(s, 0) == s[1..];
    assert multiset(s[1..]) == multiset(s) - multiset{s[0]};
    assert multiset(Without(u, i)) == multiset(u) - multiset{s[0]};
  }

  lemma {:induction false} TotalSplit(xs: seq<int>, i: nat)
    requires i < |xs|
    ensures Total(xs) == Total(Without(xs, i)) + xs[i]
  {
    if i == 0 {
      assert Without(xs, 0) == xs[1..];
    } else {
      TotalSplit(xs[1..], i - 1);
      assert Without(xs, i)[1..] == Without(xs[1..], i - 1);
    }
  }

  /** The total of the images of a list depends only on which elements it has. */
  lemma {:induction false} TotalMapPermuted<A>(f: A -> int, s: seq<A>, u: seq<A>)
    requires multiset(s) == multiset(u)
    ensures Total(Map(f, s)) == Total(Map(f, u))
    decreases |s|
  {
    if s == [] {
      assert |u| == |multiset(u)| == 0;
    } else {
      assert s[0] in multiset(u);
      var i :| 0 <= i < |u| && u[i] == s[0];
      DropCommon(s, u, i);
      TotalMapPermuted(f, s[1..], Without(u, i));
      TotalSplit(Map(f, u), i);
      MapWithout(f, u, i);
    }
  }

  lemma MapSnoc<A, B>(f: A -> B, s: seq<A>, a: A)
    ensures Map(f, s + [a]) == Map(f, s) + [f(a)]
  {
    hide Map;
  }

  lemma MapWithout<A, B>(f: A -> B, s: seq<A>, i: nat)
    requires i < |s|
    ensures Map(f, Without(s, i)) == Without(Map(f, s), i)
  {
    hide Map;
    forall k | 0 <= k < |s| - 1 ensures Map(f, Without(s, i))[k] == Without(Map(f, s), i)[k] {
      assert Without(s, i)[k] == s[if k < i then k else k + 1];
    }
  }

  lemma MapSplit<A, B>(f: A -> B, s: seq<A>, i: nat)
    requires i < |s|
    ensures multiset(Map(f, s)) == multiset(Map(f, Without(s, i))) + multiset{f(s[i])}
  {
    hide *;
    MultisetSplit(Map(f, s), i);
    MapWithout(f, s, i);
  }

  lemma {:induction false} MapPermuted<A, B>(f: A -> B, s: seq<A>, u: seq<A>)
    requires multiset(s) == multiset(u)
    ensures multiset(Map(f, s)) == multiset(Map(f, u))
    decreases |s|
  {
    if s == [] {
      assert |u| == |multiset(u)| == 0;
    } else {
      assert s[0] in multiset(u);
      var i :| 0 <= i < |u| && u[i] == s[0];
      DropCommon(s, u, i);
      MapPermuted(f, s[1..], Without(u, i));
      MapSplit(f, u, i);
      MapSplit(f, s, 0);
      assert Without(s, 0) == s[1..] by { hide Map; }
    }
  }

  lemma TotalMapAppend<A>(f: A -> int, s: seq<A>, a: A)
    ensures Total(Map(f, s + [a])) == Total(Map(f, s)) + f(a)
  {
    MapSnoc(f, s, a);
    TotalAppend(Map(f, s), [f(a)]);
    assert Total([f(a)]) == f(a) by { assert [f(a)][1..] == []; }
  }

  lemma TotalPermuted(xs: seq<int>, ys: seq<int>)
    requires multiset(xs) == multiset(ys)
    ensures Total(xs) == Total(ys)
  {
    var id := (x: int) => x;
    assert Map(id, xs) == xs && Map(id, ys) == ys;
    TotalMapPermuted(id, xs, ys);
  }
}
