/** What other clients can do to a ceremony wherever it has got to. */
module OtherRequests {
  import opened Wrappers
  import opened Zq
  import opened Group
  import opened DkgCeremony
  import opened CeremonyRuns

  lemma RunExtended<E(!new)>(group: Group<E>, t: nat, n: nat, states: seq<State<E>>, steps: seq<Step>, e: Step)
    requires Run(group, t, n, states, steps) && Possible(group, states[|steps|], t, e)
    ensures Run(group, t, n, states + [After(group, states[|steps|], t, e)], steps + [e])
  {
    hide After, Possible, Begin;
    var longer, more := states + [After(group, states[|steps|], t, e)], steps + [e];
    forall k | 0 <= k < |more|
      ensures Possible(group, longer[k], t, more[k]) && longer[k + 1] == After(group, longer[k], t, more[k])
    {
      if k < |steps| { assert longer[k] == states[k] && longer[k + 1] == states[k + 1] && more[k] == steps[k]; }
    }
  }

  /** Whatever state a run has got to, any request of another client to a signer is possible, and changes
      nothing but what this signer holds. */
  lemma OthersAnytime<E(!new)>(group: Group<E>, t: nat, n: nat, states: seq<State<E>>, steps: seq<Step>, e: Step)
    requires Run(group, t, n, states, steps)
    requires (e.OtherRound1? && e.i < n && |e.polynomial| == t) || (e.OtherCommitments? && e.i < n)
    ensures Possible(group, states[|steps|], t, e) && e.i < |states[|steps|].signers|
    ensures
      var s, v := states[|steps|], After(group, states[|steps|], t, e);
      && Run(group, t, n, states + [v], steps + [e])
      && v == s.(signers := s.signers[e.i :=
           if e.OtherRound1? then DkgState(Some(e.polynomial), s.signers[e.i].commitments)
           else DkgState(s.signers[e.i].polynomial, e.commitments)])
  {
    assert |states| == |steps| + 1;
    hide Run;
    RunInv(group, t, n, states, steps, |steps|);
    RunExtended(group, t, n, states, steps, e);
  }

  /** Wherever a run has got to after the coordinator's Round1 at a signer, another client's Round1 there is
      possible, and with another polynomial it leaves messages that do not fit. */
  lemma OtherRound1Breaks<E(!new)>(group: Group<E>, t: nat, n: nat, states: seq<State<E>>, steps: seq<Step>, i: nat,
                                   g: seq<Scalar>)
    requires Run(group, t, n, states, steps) && i < |states[|steps|].collected| && group.Lawful() && |g| == t
    ensures Possible(group, states[|steps|], t, OtherRound1(i, g)) && i < |states[|steps|].history.drawn|
    ensures
      var v := After(group, states[|steps|], t, OtherRound1(i, g));
      && Run(group, t, n, states + [v], steps + [OtherRound1(i, g)])
      && i < |v.signers| && i < |v.collected| && i < 0xFFFF && v.signers[i].polynomial.Some?
      && (g != states[|steps|].history.drawn[i] ==> !Current(group, v, i))
  {
    assert |states| == |steps| + 1;
    hide Run, Group.Lawful, Current, SameValues;
    var s := states[|steps|];
    RunInv(group, t, n, states, steps, |steps|);
    CollectedBounds(group, s, t, n);
    var v := After(group, s, t, OtherRound1(i, g));
    OthersAnytime(group, t, n, states, steps, OtherRound1(i, g));
    CurrentIffSameValues(group, t, n, states + [v], steps + [OtherRound1(i, g)], |steps| + 1, i);
    if g != s.history.drawn[i] { NotSameValues(v, i); }
  }

  lemma CollectedBounds<E(!new)>(group: Group<E>, s: State<E>, t: nat, n: nat)
    requires CeremonyRuns.Inv(group, s, t, n)
    ensures |s.collected| == |s.history.drawn| <= |s.signers| == n
  {}

  lemma NotSameValues<E>(s: State<E>, i: nat)
    requires i < |s.signers| && i < |s.history.drawn| && s.signers[i].polynomial.Some?
    requires s.signers[i].polynomial.value != s.history.drawn[i]
    ensures !SameValues(s, i)
  {}
}
