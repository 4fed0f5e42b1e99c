/**
 Two threads, a counting semaphore and a shared counter, with cnt++ and cnt-- taken as single steps.
 N is the number of iterations of each thread and K the initial value of the semaphore
 (10 and 7 in the program). The program's v() is sem_wait and its p() is sem_post.
 */
module Threads {
  import opened Bytes
  import Runs

  /** i and j count finished increments and finished posts. */
  datatype State = State(i: nat, waiting: bool, j: nat, posted: bool, cnt: int, sem: nat)

  datatype Action = Increment | Wait | Post | Decrement

  function Init(K: nat): State {
    State(0, false, 0, false, 0, K)
  }

  predicate Enabled(N: nat, s: State, a: Action) {
    match a
    case Increment => !s.waiting && s.i < N
    case Wait => s.waiting && s.sem > 0
    case Post => !s.posted && s.j < N
    case Decrement => s.posted
  }

  /** The state after an enabled action. */
  function Do(s: State, a: Action): State {
    match a
    case Increment => s.(i := s.i + 1, waiting := true, cnt := s.cnt + 1)
    case Wait => s.(waiting := false, sem := if s.sem > 0 then s.sem - 1 else 0)
    case Post => s.(j := s.j + 1, posted := true, sem := s.sem + 1)
    case Decrement => s.(posted := false, cnt := s.cnt - 1)
  }

  function Machine(N: nat): Runs.System<State, Action> {
    Runs.System((s, a) => Enabled(N, s, a), Do)
  }

  /** acts is an interleaving that leads from s to t. */
  ghost predicate Run(N: nat, s: State, acts: seq<Action>, t: State) {
    Runs.Run(Machine(N), s, acts, t)
  }

  /** Some interleaving from the start leads to s. */
  ghost predicate Reachable(N: nat, K: nat, s: State) {
    exists acts :: Run(N, Init(K), acts, s)
  }

  predicate Done(N: nat, s: State) {
    s.i == N && !s.waiting && s.j == N && !s.posted
  }

  // ----- the invariant of all interleavings

  function Bit(b: bool): nat {
    if b then 1 else 0
  }

  ghost predicate Inv(N: nat, K: nat, s: State) {
    && s.i <= N && s.j <= N
    && (s.waiting ==> s.i > 0) && (s.posted ==> s.j > 0)
    && s.cnt == s.i - (s.j - Bit(s.posted))
    && s.sem == K - s.cnt + Bit(s.waiting) + Bit(s.posted)
  }

  lemma InvHolds(N: nat, K: nat, acts: seq<Action>, s: State)
    requires Run(N, Init(K), acts, s)
    ensures Inv(N, K, s)
  {
    Runs.Invariant(Machine(N), x => Inv(N, K, x), Init(K), acts, s);
  }

  /** The semaphore pays for the counter in every reachable state. */
  lemma SemaphoreAccounting(N: nat, K: nat, acts: seq<Action>, s: State)
    requires Run(N, Init(K), acts, s)
    ensures s.sem == K - s.cnt + Bit(s.waiting) + Bit(s.posted)
    ensures 0 - N <= s.cnt <= Min(N, K + 2)
  {
    InvHolds(N, K, acts, s);
  }

  // ----- exactly which interleavings there are

  /** Where s stands in the cycle of each thread, and what counter and semaphore count. */
  ghost predicate Tracks(K: nat, acts: seq<Action>, s: State) {
    && |Runs.Only(acts, {Increment, Wait})| == 2 * s.i - Bit(s.waiting)
    && |Runs.Only(acts, {Post, Decrement})| == 2 * s.j - Bit(s.posted)
    && s.i == multiset(acts)[Increment] && s.j == multiset(acts)[Post]
    && s.cnt == s.i - multiset(acts)[Decrement]
    && s.sem == K + s.j - multiset(acts)[Wait]
  }

  lemma TracksStep(N: nat, K: nat, acts: seq<Action>, s: State, a: Action)
    requires Tracks(K, acts, s) && Enabled(N, s, a)
    ensures Tracks(K, acts + [a], Do(s, a))
  {
    Runs.OnlySnoc(acts, a, {Increment, Wait});
    Runs.OnlySnoc(acts, a, {Post, Decrement});
  }

  lemma {:induction false} RunTracks(N: nat, K: nat, acts: seq<Action>, s: State)
    requires Run(N, Init(K), acts, s)
    ensures Tracks(K, acts, s)
    decreases |acts|
  {
    if acts != [] {
      var pre, a := acts[..|acts| - 1], acts[|acts| - 1];
      assert acts == pre + [a];
      var u := Runs.Unsnoc(Machine(N), Init(K), pre, a, s);
      RunTracks(N, K, pre, u);
      TracksStep(N, K, pre, u, a);
    }
  }

  /** Each thread keeps to its own cycle, and no wait gets through that is not paid for. */
  ghost predicate Legal(N: nat, K: nat, acts: seq<Action>) {
    && Runs.Repeats(Runs.Only(acts, {Increment, Wait}), [Increment, Wait], 2 * N)
    && Runs.Repeats(Runs.Only(acts, {Post, Decrement}), [Post, Decrement], 2 * N)
    && Runs.Covered(acts, Wait, Post, K)
  }

  /** What one more action has to obey. */
  ghost predicate LegalNext(N: nat, K: nat, acts: seq<Action>, a: Action) {
    var v, p := |Runs.Only(acts, {Increment, Wait})|, |Runs.Only(acts, {Post, Decrement})|;
    match a
    case Increment => v < 2 * N && v % 2 == 0
    case Wait => v < 2 * N && v % 2 == 1 && multiset(acts)[Wait] < K + multiset(acts)[Post]
    case Post => p < 2 * N && p % 2 == 0
    case Decrement => p < 2 * N && p % 2 == 1
  }

  lemma TurnSnoc(N: nat, acts: seq<Action>, a: Action, first: Action, second: Action)
    requires first != second
    ensures var kept, cycle := {first, second}, [first, second];
      var seen := Runs.Only(acts, kept);
      Runs.Repeats(Runs.Only(acts + [a], kept), cycle, 2 * N) <==>
        Runs.Repeats(seen, cycle, 2 * N) && (a in kept ==> |seen| < 2 * N && (a == first <==> |seen| % 2 == 0))
  {
    Runs.OnlyRepeatsSnoc(acts, a, {first, second}, [first, second], 2 * N);
  }

  lemma WaitSnoc(K: nat, acts: seq<Action>, a: Action)
    ensures Runs.Covered(acts + [a], Wait, Post, K) <==>
      Runs.Covered(acts, Wait, Post, K) && (a.Wait? ==> multiset(acts)[Wait] < K + multiset(acts)[Post])
  {
    Runs.CoveredSnoc(acts, a, Wait, Post, K);
    assert acts[..|acts|] == acts;
    assert multiset(acts + [a]) == multiset(acts) + multiset{a};
  }

  lemma LegalSnoc(N: nat, K: nat, acts: seq<Action>, a: Action)
    ensures Legal(N, K, acts + [a]) <==> Legal(N, K, acts) && LegalNext(N, K, acts, a)
  {
    TurnSnoc(N, acts, a, Increment, Wait);
    TurnSnoc(N, acts, a, Post, Decrement);
    WaitSnoc(K, acts, a);
  }

  lemma NextIffEnabled(N: nat, K: nat, acts: seq<Action>, s: State, a: Action)
    requires Run(N, Init(K), acts, s)
    ensures LegalNext(N, K, acts, a) <==> Enabled(N, s, a)
  {
    RunTracks(N, K, acts, s);
    InvHolds(N, K, acts, s);
  }

  lemma {:induction false} RunIsLegal(N: nat, K: nat, acts: seq<Action>, t: State)
    requires Run(N, Init(K), acts, t)
    ensures Legal(N, K, acts)
    decreases |acts|
  {
    if acts != [] {
      var pre, a := acts[..|acts| - 1], acts[|acts| - 1];
      assert acts == pre + [a];
      var u := Runs.Unsnoc(Machine(N), Init(K), pre, a, t);
      RunIsLegal(N, K, pre, u);
      NextIffEnabled(N, K, pre, u, a);
      LegalSnoc(N, K, pre, a);
    }
  }

  lemma {:induction false} LegalRuns(N: nat, K: nat, acts: seq<Action>) returns (t: State)
    requires Legal(N, K, acts)
    ensures Run(N, Init(K), acts, t)
    decreases |acts|
  {
    if acts == [] {
      t := Init(K);
    } else {
      var pre, a := acts[..|acts| - 1], acts[|acts| - 1];
      assert acts == pre + [a];
      LegalSnoc(N, K, pre, a);
      var u := LegalRuns(N, K, pre);
      NextIffEnabled(N, K, pre, u, a);
      Runs.Snoc(Machine(N), Init(K), pre, u, a);
      t := Do(u, a);
    }
  }

  /**
   Exactly which sequences of actions are interleavings, said without the transition relation: one thread
   alternates increment and wait, at most N times, the other post and decrement, at most N times,
   and no prefix has more than K waits beyond its posts. Nothing else holds a thread back.
   */
  lemma RunsExact(N: nat, K: nat, acts: seq<Action>)
    ensures (exists t :: Run(N, Init(K), acts, t)) <==>
      var v, p := Runs.Only(acts, {Increment, Wait}), Runs.Only(acts, {Post, Decrement});
      && |v| <= 2 * N && (forall k :: 0 <= k < |v| ==> v[k] == [Increment, Wait][k % 2])
      && |p| <= 2 * N && (forall k :: 0 <= k < |p| ==> p[k] == [Post, Decrement][k % 2])
      && forall n :: 0 <= n <= |acts| ==> multiset(acts[..n])[Wait] <= K + multiset(acts[..n])[Post]
  {
    if Legal(N, K, acts) {
      var t := LegalRuns(N, K, acts);
    }
    if t :| Run(N, Init(K), acts, t) {
      RunIsLegal(N, K, acts, t);
    }
  }

  /** What a run computes: counter and semaphore count the actions taken. */
  lemma RunComputes(N: nat, K: nat, acts: seq<Action>, t: State)
    requires Run(N, Init(K), acts, t)
    ensures t.i == multiset(acts)[Increment] && t.j == multiset(acts)[Post]
    ensures t.cnt + multiset(acts)[Decrement] == multiset(acts)[Increment]
    ensures t.sem == K + multiset(acts)[Post] - multiset(acts)[Wait]
  {
    RunTracks(N, K, acts, t);
  }

  // ----- no deadlock, and every run comes to the same end

  /** A waiting thread is never stuck for good: while the semaphore is 0, the posting thread can move. */
  lemma NoDeadlock(N: nat, K: nat, acts: seq<Action>, s: State)
    requires Run(N, Init(K), acts, s) && !Done(N, s)
    ensures exists a :: Enabled(N, s, a)
    ensures s.waiting && s.sem == 0 ==> Enabled(N, s, Post) || Enabled(N, s, Decrement)
  {
    InvHolds(N, K, acts, s);
    assert Enabled(N, s, Increment) || Enabled(N, s, Wait) || Enabled(N, s, Post) || Enabled(N, s, Decrement);
  }

  /** Steps still to take. */
  function Remaining(N: nat, s: State): int {
    2 * (N - s.i) + Bit(s.waiting) + 2 * (N - s.j) + Bit(s.posted)
  }

  /** Maximal runs: 4N steps exactly, the counter at 0 and the semaphore at its initial value. */
  lemma MaximalRuns(N: nat, K: nat, acts: seq<Action>, s: State)
    requires Run(N, Init(K), acts, s)
    ensures |acts| <= 4 * N
    ensures (forall a :: !Enabled(N, s, a)) <==> |acts| == 4 * N
    ensures |acts| == 4 * N ==> s == State(N, false, N, false, 0, K)
  {
    InvHolds(N, K, acts, s);
    Runs.StepsCounted(Machine(N), x => Remaining(N, x), Init(K), acts, s);
    if !Done(N, s) {
      NoDeadlock(N, K, acts, s);
    }
  }

  // ----- how high the counter climbs

  /** n undisturbed iterations of the counting thread. */
  function Counting(n: nat): seq<Action> {
    if n == 0 then [] else [Increment, Wait] + Counting(n - 1)
  }

  lemma {:induction false} CountingRuns(N: nat, s: State, n: nat)
    requires !s.waiting && s.i + n <= N && n <= s.sem
    ensures Run(N, s, Counting(n), s.(i := s.i + n, cnt := s.cnt + n, sem := s.sem - n))
    decreases n
  {
    if n > 0 {
      var s1 := Do(s, Increment);
      var s2 := Do(s1, Wait);
      CountingRuns(N, s2, n - 1);
      var acts := Counting(n);
      assert acts[0] == Increment && acts[1..][0] == Wait && acts[1..][1..] == Counting(n - 1);
      var t := s.(i := s.i + n, cnt := s.cnt + n, sem := s.sem - n);
      assert t == s2.(i := s2.i + (n - 1), cnt := s2.cnt + (n - 1), sem := s2.sem - (n - 1));
      assert Run(N, s1, acts[1..], t);
    }
  }

  /** n undisturbed iterations of the posting thread. */
  function Posting(n: nat): seq<Action> {
    if n == 0 then [] else [Post, Decrement] + Posting(n - 1)
  }

  lemma {:induction false} PostingRuns(N: nat, s: State, n: nat)
    requires !s.posted && s.j + n <= N
    ensures Run(N, s, Posting(n), s.(j := s.j + n, cnt := s.cnt - n, sem := s.sem + n))
    decreases n
  {
    if n > 0 {
      var s1 := Do(s, Post);
      var s2 := Do(s1, Decrement);
      PostingRuns(N, s2, n - 1);
      var acts := Posting(n);
      assert acts[0] == Post && acts[1..][0] == Decrement && acts[1..][1..] == Posting(n - 1);
      var t := s.(j := s.j + n, cnt := s.cnt - n, sem := s.sem + n);
      assert t == s2.(j := s2.j + (n - 1), cnt := s2.cnt - (n - 1), sem := s2.sem + (n - 1));
      assert Run(N, s1, acts[1..], t);
    }
  }

  /** One post, c - 1 whole iterations of the counting thread and one more increment. */
  lemma ClimbTo(N: nat, K: nat, c: int) returns (s: State)
    requires 1 <= c <= Min(N, K + 2)
    ensures Reachable(N, K, s) && s.cnt == c
  {
    var n := c - 1;
    var s1 := Do(Init(K), Post);
    var s2 := s1.(i := s1.i + n, cnt := s1.cnt + n, sem := s1.sem - n);
    s := Do(s2, Increment);
    CountingRuns(N, s1, n);
    assert Run(N, s2, [Increment], s);
    Runs.Concat(Machine(N), s1, Counting(n), s2, [Increment], s);
    var acts := [Post] + (Counting(n) + [Increment]);
    assert acts[1..] == Counting(n) + [Increment];
    assert Run(N, Init(K), acts, s);
  }

  /**
   Exactly which values the counter takes: the interleavings reach every value from -N to
   min(N, K + 2) and no other. With N = 10 and K = 7 the counter reaches 9, although the
   counting thread sleeps whenever it finds 7 or more.
   */
  lemma CounterRange(N: nat, K: nat, c: int)
    ensures (exists s :: Reachable(N, K, s) && s.cnt == c) <==> 0 - N <= c <= Min(N, K + 2)
  {
    if s :| Reachable(N, K, s) && s.cnt == c {
      var acts :| Run(N, Init(K), acts, s);
      SemaphoreAccounting(N, K, acts, s);
    }
    if 1 <= c <= Min(N, K + 2) {
      var s := ClimbTo(N, K, c);
    } else if 0 - N <= c <= 0 {
      PostingRuns(N, Init(K), -c);
      var s := Init(K).(j := -c, cnt := c, sem := K - c);
      assert Run(N, Init(K), Posting(-c), s);
      assert Reachable(N, K, s);
    }
  }

  // ----- the program under an arbitrary scheduler

  class Shared {
    var cnt: int
    var sem: nat

    constructor (K: nat)
      ensures cnt == 0 && sem == K
    {
      cnt, sem := 0, K;
    }

    /** sem_post */
    method P()
      modifies this
      ensures sem == old(sem) + 1 && cnt == old(cnt)
    {
      sem := sem + 1;
    }

    /** sem_wait, at the moment it gets through */
    method V()
      requires sem > 0
      modifies this
      ensures sem == old(sem) - 1 && cnt == old(cnt)
    {
      sem := sem - 1;
    }
  }

  /**
   Both thread bodies, interleaved by any scheduler until neither can move. Termination is proved;
   the trace is one of the runs above; the threads always finish.
   */
  method RunThreads(N: nat, K: nat) returns (shared: Shared, ghost trace: seq<Action>)
    ensures fresh(shared) && shared.cnt == 0 && shared.sem == K
    ensures |trace| == 4 * N && Run(N, Init(K), trace, State(N, false, N, false, 0, K))
  {
    shared := new Shared(K);
    trace := [];
    var i, waiting := 0, false;
    var j, posted := 0, false;
    ghost var s := Init(K);
    while
      invariant s == State(i, waiting, j, posted, shared.cnt, shared.sem) && fresh(shared)
      invariant Run(N, Init(K), trace, s) && i <= N && j <= N
      decreases Remaining(N, State(i, waiting, j, posted, 0, 0))
    {
      case !waiting && i < N =>
        Runs.Snoc(Machine(N), Init(K), trace, s, Increment);
        trace, s := trace + [Increment], Do(s, Increment);
        shared.cnt := shared.cnt + 1;
        i, waiting := i + 1, true;
      case waiting && shared.sem > 0 =>
        Runs.Snoc(Machine(N), Init(K), trace, s, Wait);
        trace, s := trace + [Wait], Do(s, Wait);
        shared.V();
        waiting := false;
      case !posted && j < N =>
        Runs.Snoc(Machine(N), Init(K), trace, s, Post);
        trace, s := trace + [Post], Do(s, Post);
        shared.P();
        j, posted := j + 1, true;
      case posted =>
        Runs.Snoc(Machine(N), Init(K), trace, s, Decrement);
        trace, s := trace + [Decrement], Do(s, Decrement);
        shared.cnt := shared.cnt - 1;
        posted := false;
    }
    MaximalRuns(N, K, trace, s);
  }
}
