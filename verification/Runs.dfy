/** Runs of a system given by its actions: when each is enabled, and what it does. */
module Runs {
  datatype System<!S, !A> = System(enabled: (S, A) -> bool, step: (S, A) -> S)

  /** acts leads from s to t, every action enabled where it is taken. */
  ghost predicate Run<S, A>(m: System<S, A>, s: S, acts: seq<A>, t: S)
    decreases |acts|
  {
    if acts == [] then s == t
    else m.enabled(s, acts[0]) && Run(m, m.step(s, acts[0]), acts[1..], t)
  }

  /** What every step keeps, every run keeps. */
  lemma {:induction false} Invariant<S(!new), A(!new)>(m: System<S, A>, inv: S -> bool, s: S, acts: seq<A>, t: S)
    requires forall x, a :: inv(x) && m.enabled(x, a) ==> inv(m.step(x, a))
    requires inv(s) && Run(m, s, acts, t)
    ensures inv(t)
    decreases |acts|
  {
    if acts != [] {
      Invariant(m, inv, m.step(s, acts[0]), acts[1..], t);
    }
  }

  /** A measure that drops by one at every step counts the steps of every run. */
  lemma {:induction false} StepsCounted<S(!new), A(!new)>(m: System<S, A>, measure: S -> int, s: S, acts: seq<A>, t: S)
    requires forall x, a :: m.enabled(x, a) ==> measure(m.step(x, a)) == measure(x) - 1
    requires Run(m, s, acts, t)
    ensures measure(t) == measure(s) - |acts|
    decreases |acts|
  {
    if acts != [] {
      StepsCounted(m, measure, m.step(s, acts[0]), acts[1..], t);
    }
  }

  lemma {:induction false} Concat<S, A>(m: System<S, A>, s: S, a: seq<A>, t: S, b: seq<A>, u: S)
    requires Run(m, s, a, t) && Run(m, t, b, u)
    ensures Run(m, s, a + b, u)
    decreases |a|
  {
    if a == [] {
      assert a + b == b;
    } else {
      assert (a + b)[1..] == a[1..] + b;
      Concat(m, m.step(s, a[0]), a[1..], t, b, u);
    }
  }

  lemma Snoc<S, A>(m: System<S, A>, s: S, acts: seq<A>, t: S, a: A)
    requires Run(m, s, acts, t) && m.enabled(t, a)
    ensures Run(m, s, acts + [a], m.step(t, a))
  {
    assert Run(m, m.step(t, a), [], m.step(t, a));
    Concat(m, s, acts, t, [a], m.step(t, a));
  }

  /** A run ends with its last action. */
  lemma {:induction false} Unsnoc<S, A>(m: System<S, A>, s: S, acts: seq<A>, a: A, t: S) returns (u: S)
    requires Run(m, s, acts + [a], t)
    ensures Run(m, s, acts, u) && m.enabled(u, a) && t == m.step(u, a)
    decreases |acts|
  {
    if acts == [] {
      u := s;
      assert ([] + [a])[1..] == [];
    } else {
      assert (acts + [a])[1..] == acts[1..] + [a];
      u := Unsnoc(m, m.step(s, acts[0]), acts[1..], a, t);
    }
  }

  /** A run given by the states it passes through. */
  ghost predicate Passes<S, A>(m: System<S, A>, acts: seq<A>, states: seq<S>) {
    && |states| == |acts| + 1
    && forall k :: 0 <= k < |acts| ==> m.enabled(states[k], acts[k]) && m.step(states[k], acts[k]) == states[k + 1]
  }

  lemma {:induction false} PassesRuns<S, A>(m: System<S, A>, acts: seq<A>, states: seq<S>)
    requires Passes(m, acts, states)
    ensures Run(m, states[0], acts, states[|acts|])
    decreases |acts|
  {
    if acts != [] {
      assert m.step(states[0], acts[0]) == states[1];
      forall k | 0 <= k < |acts[1..]|
        ensures m.enabled(states[1..][k], acts[1..][k]) && m.step(states[1..][k], acts[1..][k]) == states[1..][k + 1]
      {
        assert m.enabled(states[k + 1], acts[k + 1]) && m.step(states[k + 1], acts[k + 1]) == states[k + 2];
      }
      PassesRuns(m, acts[1..], states[1..]);
    }
  }

  // ----- what a run looks like to one of its threads

  /** The actions of acts that are in kept, in order. */
  function Only<A(==)>(acts: seq<A>, kept: set<A>): seq<A> {
    if acts == [] then []
    else
      var before, last := Only(acts[..|acts| - 1], kept), acts[|acts| - 1];
      if last in kept then before + [last] else before
  }

  lemma OnlySnoc<A>(acts: seq<A>, a: A, kept: set<A>)
    ensures Only(acts + [a], kept) == Only(acts, kept) + (if a in kept then [a] else [])
  {
    assert (acts + [a])[..|acts|] == acts;
  }

  /** acts goes round and round the cycle, n steps at most. */
  predicate Repeats<A(==)>(acts: seq<A>, cycle: seq<A>, n: nat)
    requires |cycle| > 0
  {
    |acts| <= n && forall k :: 0 <= k < |acts| ==> acts[k] == cycle[k % |cycle|]
  }

  lemma RepeatsSnoc<A>(acts: seq<A>, a: A, cycle: seq<A>, n: nat)
    requires |cycle| > 0
    ensures Repeats(acts + [a], cycle, n) <==>
      Repeats(acts, cycle, n) && |acts| < n && a == cycle[|acts| % |cycle|]
  {
    var all := acts + [a];
    assert all[|acts|] == a;
    assert forall k :: 0 <= k < |acts| ==> all[k] == acts[k];
  }

  lemma OnlyRepeatsSnoc<A>(acts: seq<A>, a: A, kept: set<A>, cycle: seq<A>, n: nat)
    requires |cycle| > 0
    ensures var seen := Only(acts, kept);
      Repeats(Only(acts + [a], kept), cycle, n) <==>
        Repeats(seen, cycle, n) && (a in kept ==> |seen| < n && a == cycle[|seen| % |cycle|])
  {
    OnlySnoc(acts, a, kept);
    assert Only(acts, kept) + [] == Only(acts, kept);
    RepeatsSnoc(Only(acts, kept), a, cycle, n);
  }

  /** No prefix has more than k takes beyond its gives. */
  ghost predicate Covered<A>(acts: seq<A>, take: A, give: A, k: nat) {
    forall n :: 0 <= n <= |acts| ==> multiset(acts[..n])[take] <= k + multiset(acts[..n])[give]
  }

  lemma CoveredSnoc<A>(acts: seq<A>, a: A, take: A, give: A, k: nat)
    ensures Covered(acts + [a], take, give, k) <==>
      Covered(acts, take, give, k) && multiset(acts + [a])[take] <= k + multiset(acts + [a])[give]
  {
    var all := acts + [a];
    assert all[..|all|] == all;
    assert forall n :: 0 <= n <= |acts| ==> all[..n] == acts[..n];
  }

  /** a is last taken at q before position p. */
  ghost predicate Latest<A>(acts: seq<A>, a: A, q: int, p: int) {
    0 <= q < p <= |acts| && acts[q] == a && a !in acts[q + 1..p]
  }

  lemma LatestSnoc<A>(acts: seq<A>, b: A, a: A, q: int)
    ensures forall p | p <= |acts| :: Latest(acts + [b], a, q, p) <==> Latest(acts, a, q, p)
    ensures Latest(acts + [b], a, q, |acts| + 1) <==> if a == b then q == |acts| else Latest(acts, a, q, |acts|)
  {
    var all := acts + [b];
    forall p | p <= |acts| ensures Latest(all, a, q, p) <==> Latest(acts, a, q, p) {
      assert 0 <= q < p ==> all[q + 1..p] == acts[q + 1..p];
    }
    if 0 <= q < |acts| {
      assert all[q + 1..|acts| + 1] == acts[q + 1..] + [b];
      assert acts[q + 1..] == acts[q + 1..|acts|];
    }
  }
}
