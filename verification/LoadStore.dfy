/**
 The same two threads with cnt++ and cnt-- split into a load and a store, as the machine runs them
 without a lock. Updates can be lost; the semaphore protocol does not depend on the counter.
 */
module LoadStore {
  import opened Bytes
  import Runs
  import Threads

  /** Where a thread stands between two iterations; Loaded holds the value it read. */
  datatype Counting = Ready | Loaded(value: int) | Waiting
  datatype Posting = Idle | Posted | Fetched(value: int)

  /** i counts stores of the counting thread, j posts, d stores of the posting thread. */
  datatype State = State(i: nat, v: Counting, j: nat, d: nat, p: Posting, cnt: int, sem: nat)

  datatype Action = Load | Store | Wait | Post | Fetch | PutBack

  function Init(K: nat): State {
    State(0, Ready, 0, 0, Idle, 0, K)
  }

  predicate Enabled(N: nat, s: State, a: Action) {
    match a
    case Load => s.v.Ready? && s.i < N
    case Store => s.v.Loaded?
    case Wait => s.v.Waiting? && s.sem > 0
    case Post => s.p.Idle? && s.j < N
    case Fetch => s.p.Posted?
    case PutBack => s.p.Fetched?
  }

  /** The state after an enabled action. */
  function Do(s: State, a: Action): State {
    match a
    case Load => s.(v := Loaded(s.cnt))
    case Store => s.(v := Waiting, i := s.i + 1, cnt := (if s.v.Loaded? then s.v.value else s.cnt) + 1)
    case Wait => s.(v := Ready, sem := if s.sem > 0 then s.sem - 1 else 0)
    case Post => s.(p := Posted, j := s.j + 1, sem := s.sem + 1)
    case Fetch => s.(p := Fetched(s.cnt))
    case PutBack => s.(p := Idle, d := s.d + 1, cnt := (if s.p.Fetched? then s.p.value else s.cnt) - 1)
  }

  function Machine(N: nat): Runs.System<State, Action> {
    Runs.System((s, a) => Enabled(N, s, a), Do)
  }

  ghost predicate Run(N: nat, s: State, acts: seq<Action>, t: State) {
    Runs.Run(Machine(N), s, acts, t)
  }

  ghost predicate Reachable(N: nat, K: nat, s: State) {
    exists acts :: Run(N, Init(K), acts, s)
  }

  predicate Done(N: nat, s: State) {
    s.i == N && s.v.Ready? && s.j == N && s.p.Idle?
  }

  // ----- invariants of all interleavings

  function Waits(s: State): int {
    s.i - (if s.v.Waiting? then 1 else 0)
  }

  ghost predicate Inv(N: nat, K: nat, s: State) {
    && s.i <= N && s.j <= N && (s.v.Loaded? ==> s.i < N) && (s.v.Waiting? ==> s.i > 0)
    && s.d == s.j - (if s.p.Idle? then 0 else 1)
    && s.sem == K - Waits(s) + s.j
    && 0 - s.d <= s.cnt <= s.i
    && (s.v.Loaded? ==> 0 - s.d <= s.v.value <= s.i)
    && (s.p.Fetched? ==> 0 - s.d <= s.p.value <= s.i)
  }

  lemma InvHolds(N: nat, K: nat, acts: seq<Action>, s: State)
    requires Run(N, Init(K), acts, s)
    ensures Inv(N, K, s)
  {
    Runs.Invariant(Machine(N), x => Inv(N, K, x), Init(K), acts, s);
  }

  // ----- exactly which interleavings there are

  /** Where s stands in the cycle of each thread, and what the semaphore counts. */
  ghost predicate Tracks(K: nat, acts: seq<Action>, s: State) {
    && |Runs.Only(acts, {Load, Store, Wait})| == 3 * s.i + (if s.v.Waiting? then -1 else if s.v.Loaded? then 1 else 0)
    && |Runs.Only(acts, {Post, Fetch, PutBack})| == 3 * s.d + (if s.p.Posted? then 1 else if s.p.Fetched? then 2 else 0)
    && s.i == multiset(acts)[Store] && s.j == multiset(acts)[Post] && s.d == multiset(acts)[PutBack]
    && s.sem == K + s.j - multiset(acts)[Wait]
  }

  lemma TracksStep(N: nat, K: nat, acts: seq<Action>, s: State, a: Action)
    requires Tracks(K, acts, s) && Enabled(N, s, a)
    ensures Tracks(K, acts + [a], Do(s, a))
  {
    Runs.OnlySnoc(acts, a, {Load, Store, Wait});
    Runs.OnlySnoc(acts, a, {Post, Fetch, PutBack});
    assert multiset(acts + [a]) == multiset(acts) + multiset{a};
  }

  lemma {:induction false} RunTracks(N: nat, K: nat, acts: seq<Action>, s: State)
    requires Run(N, Init(K), acts, s)
    ensures Tracks(K, acts, s)
    decreases |acts|
  {
    if acts != [] {
      var pre, a := acts[..|acts| - 1], acts[|acts| - 1];
      assert acts == pre + [a];
      var u := Runs.Unsnoc(Machine(N), Init(K), pre, a, s);
      RunTracks(N, K, pre, u);
      TracksStep(N, K, pre, u, a);
    }
  }

  /** Each thread keeps to its own cycle, and no wait gets through that is not paid for. */
  ghost predicate Legal(N: nat, K: nat, acts: seq<Action>) {
    && Runs.Repeats(Runs.Only(acts, {Load, Store, Wait}), [Load, Store, Wait], 3 * N)
    && Runs.Repeats(Runs.Only(acts, {Post, Fetch, PutBack}), [Post, Fetch, PutBack], 3 * N)
    && Runs.Covered(acts, Wait, Post, K)
  }

  /** What one more action has to obey. */
  predicate CountingNext(N: nat, n: nat, a: Action) {
    match a
    case Load => n < 3 * N && n % 3 == 0
    case Store => n < 3 * N && n % 3 == 1
    case Wait => n < 3 * N && n % 3 == 2
    case _ => true
  }

  predicate PostingNext(N: nat, n: nat, a: Action) {
    match a
    case Post => n < 3 * N && n % 3 == 0
    case Fetch => n < 3 * N && n % 3 == 1
    case PutBack => n < 3 * N && n % 3 == 2
    case _ => true
  }

  ghost predicate LegalNext(N: nat, K: nat, acts: seq<Action>, a: Action) {
    && CountingNext(N, |Runs.Only(acts, {Load, Store, Wait})|, a)
    && PostingNext(N, |Runs.Only(acts, {Post, Fetch, PutBack})|, a)
    && (a.Wait? ==> multiset(acts)[Wait] < K + multiset(acts)[Post])
  }

  /** Three distinct actions in turn: which one is next after n. */
  lemma TurnOf(N: nat, n: nat, a: Action, first: Action, second: Action, third: Action)
    requires first != second && first != third && second != third && a in {first, second, third}
    ensures var cycle := [first, second, third];
      n < 3 * N && a == cycle[n % |cycle|] <==>
        n < 3 * N && n % 3 == if a == first then 0 else if a == second then 1 else 2
  {
  }

  lemma CountingSnoc(N: nat, acts: seq<Action>, a: Action)
    ensures var kept, cycle := {Load, Store, Wait}, [Load, Store, Wait];
      Runs.Repeats(Runs.Only(acts + [a], kept), cycle, 3 * N) <==>
        Runs.Repeats(Runs.Only(acts, kept), cycle, 3 * N) && CountingNext(N, |Runs.Only(acts, kept)|, a)
  {
    Runs.OnlyRepeatsSnoc(acts, a, {Load, Store, Wait}, [Load, Store, Wait], 3 * N);
    if a in {Load, Store, Wait} {
      TurnOf(N, |Runs.Only(acts, {Load, Store, Wait})|, a, Load, Store, Wait);
    }
  }

  lemma PostingSnoc(N: nat, acts: seq<Action>, a: Action)
    ensures var kept, cycle := {Post, Fetch, PutBack}, [Post, Fetch, PutBack];
      Runs.Repeats(Runs.Only(acts + [a], kept), cycle, 3 * N) <==>
        Runs.Repeats(Runs.Only(acts, kept), cycle, 3 * N) && PostingNext(N, |Runs.Only(acts, kept)|, a)
  {
    Runs.OnlyRepeatsSnoc(acts, a, {Post, Fetch, PutBack}, [Post, Fetch, PutBack], 3 * N);
    if a in {Post, Fetch, PutBack} {
      TurnOf(N, |Runs.Only(acts, {Post, Fetch, PutBack})|, a, Post, Fetch, PutBack);
    }
  }

  lemma WaitSnoc(K: nat, acts: seq<Action>, a: Action)
    ensures Runs.Covered(acts + [a], Wait, Post, K) <==>
      Runs.Covered(acts, Wait, Post, K) && (a.Wait? ==> multiset(acts)[Wait] < K + multiset(acts)[Post])
  {
    Runs.CoveredSnoc(acts, a, Wait, Post, K);
    assert acts[..|acts|] == acts;
    assert multiset(acts + [a]) == multiset(acts) + multiset{a};
  }

  lemma LegalSnoc(N: nat, K: nat, acts: seq<Action>, a: Action)
    ensures Legal(N, K, acts + [a]) <==> Legal(N, K, acts) && LegalNext(N, K, acts, a)
  {
    CountingSnoc(N, acts, a);
    PostingSnoc(N, acts, a);
    WaitSnoc(K, acts, a);
  }

  lemma NextIffEnabled(N: nat, K: nat, acts: seq<Action>, s: State, a: Action)
    requires Run(N, Init(K), acts, s)
    ensures LegalNext(N, K, acts, a) <==> Enabled(N, s, a)
  {
    RunTracks(N, K, acts, s);
    InvHolds(N, K, acts, s);
  }

  lemma {:induction false} RunIsLegal(N: nat, K: nat, acts: seq<Action>, t: State)
    requires Run(N, Init(K), acts, t)
    ensures Legal(N, K, acts)
    decreases |acts|
  {
    if acts != [] {
      var pre, a := acts[..|acts| - 1], acts[|acts| - 1];
      assert acts == pre + [a];
      var u := Runs.Unsnoc(Machine(N), Init(K), pre, a, t);
      RunIsLegal(N, K, pre, u);
      NextIffEnabled(N, K, pre, u, a);
      LegalSnoc(N, K, pre, a);
    }
  }

  lemma {:induction false} LegalRuns(N: nat, K: nat, acts: seq<Action>) returns (t: State)
    requires Legal(N, K, acts)
    ensures Run(N, Init(K), acts, t)
    decreases |acts|
  {
    if acts == [] {
      t := Init(K);
    } else {
      var pre, a := acts[..|acts| - 1], acts[|acts| - 1];
      assert acts == pre + [a];
      LegalSnoc(N, K, pre, a);
      var u := LegalRuns(N, K, pre);
      NextIffEnabled(N, K, pre, u, a);
      Runs.Snoc(Machine(N), Init(K), pre, u, a);
      t := Do(u, a);
    }
  }

  /**
   Exactly which sequences of actions are interleavings, said without the transition relation: the
   counting thread goes round load, store, wait at most N times, the posting thread goes round post,
   fetch, put back at most N times, and no prefix has more than K waits beyond its posts. Nothing else
   holds a thread back.
   */
  lemma RunsExact(N: nat, K: nat, acts: seq<Action>)
    ensures (exists t :: Run(N, Init(K), acts, t)) <==>
      var v, p := Runs.Only(acts, {Load, Store, Wait}), Runs.Only(acts, {Post, Fetch, PutBack});
      && |v| <= 3 * N && (forall k :: 0 <= k < |v| ==> v[k] == [Load, Store, Wait][k % 3])
      && |p| <= 3 * N && (forall k :: 0 <= k < |p| ==> p[k] == [Post, Fetch, PutBack][k % 3])
      && forall n :: 0 <= n <= |acts| ==> multiset(acts[..n])[Wait] <= K + multiset(acts[..n])[Post]
  {
    if Legal(N, K, acts) {
      var t := LegalRuns(N, K, acts);
    }
    if t :| Run(N, Init(K), acts, t) {
      RunIsLegal(N, K, acts, t);
    }
  }

  // ----- the counter along a run

  /** Every store at p leaves d more than cnt held at the load before it. */
  ghost predicate StoresBack(acts: seq<Action>, cnt: seq<int>, load: Action, store: Action, d: int)
    requires |cnt| == |acts| + 1
  {
    forall q, p | Runs.Latest(acts, load, q, p) && p < |acts| && acts[p] == store :: cnt[p + 1] == cnt[q] + d
  }

  /** value is what cnt held at the last load. */
  ghost predicate Held(acts: seq<Action>, cnt: seq<int>, load: Action, value: int)
    requires |cnt| == |acts| + 1
  {
    exists q :: Runs.Latest(acts, load, q, |acts|) && value == cnt[q]
  }

  lemma OnlyLatest(acts: seq<Action>, a: Action, q: int, q': int, p: int)
    requires Runs.Latest(acts, a, q, p) && Runs.Latest(acts, a, q', p)
    ensures q == q'
  {
  }

  lemma StoresBackSnoc(acts: seq<Action>, cnt: seq<int>, a: Action, c: int, load: Action, store: Action, d: int)
    requires |cnt| == |acts| + 1 && StoresBack(acts, cnt, load, store, d)
    requires a == store ==> Held(acts, cnt, load, c - d)
    ensures StoresBack(acts + [a], cnt + [c], load, store, d)
  {
    var n, all, more := |acts|, acts + [a], cnt + [c];
    forall q, p | Runs.Latest(all, load, q, p) && p < |all| && all[p] == store ensures more[p + 1] == more[q] + d {
      Runs.LatestSnoc(acts, a, load, q);
      if p == n {
        var q' :| Runs.Latest(acts, load, q', n) && c - d == cnt[q'];
        OnlyLatest(acts, load, q, q', n);
      }
    }
  }

  lemma HeldSnoc(acts: seq<Action>, cnt: seq<int>, a: Action, c: int, load: Action, value: int)
    requires |cnt| == |acts| + 1
    requires if a == load then value == cnt[|acts|] else Held(acts, cnt, load, value)
    ensures Held(acts + [a], cnt + [c], load, value)
  {
    var q := |acts|;
    if a != load {
      q :| Runs.Latest(acts, load, q, |acts|) && value == cnt[q];
    }
    Runs.LatestSnoc(acts, a, load, q);
    assert Runs.Latest(acts + [a], load, q, |acts| + 1) && value == (cnt + [c])[q];
  }

  /** cnt lists the counter's values; a thread between load and store holds the value at its last load. */
  ghost predicate CounterValues(acts: seq<Action>, cnt: seq<int>, s: State) {
    && |cnt| == |acts| + 1 && cnt[0] == 0 && s.cnt == cnt[|acts|]
    && StoresBack(acts, cnt, Load, Store, 1) && StoresBack(acts, cnt, Fetch, PutBack, -1)
    && (forall p | 0 <= p < |acts| && acts[p] != Store && acts[p] != PutBack :: cnt[p + 1] == cnt[p])
    && (s.v.Loaded? ==> Held(acts, cnt, Load, s.v.value)) && (s.p.Fetched? ==> Held(acts, cnt, Fetch, s.p.value))
  }

  lemma CounterStep(acts: seq<Action>, cnt: seq<int>, N: nat, s: State, a: Action)
    requires CounterValues(acts, cnt, s) && Enabled(N, s, a)
    ensures CounterValues(acts + [a], cnt + [Do(s, a).cnt], Do(s, a))
  {
    var t := Do(s, a);
    StoresBackSnoc(acts, cnt, a, t.cnt, Load, Store, 1);
    StoresBackSnoc(acts, cnt, a, t.cnt, Fetch, PutBack, -1);
    if t.v.Loaded? {
      HeldSnoc(acts, cnt, a, t.cnt, Load, t.v.value);
    }
    if t.p.Fetched? {
      HeldSnoc(acts, cnt, a, t.cnt, Fetch, t.p.value);
    }
  }

  lemma {:induction false} CounterListed(N: nat, K: nat, acts: seq<Action>, t: State) returns (cnt: seq<int>)
    requires Run(N, Init(K), acts, t)
    ensures CounterValues(acts, cnt, t)
    decreases |acts|
  {
    if acts == [] {
      cnt := [0];
    } else {
      var pre, a := acts[..|acts| - 1], acts[|acts| - 1];
      assert acts == pre + [a];
      var u := Runs.Unsnoc(Machine(N), Init(K), pre, a, t);
      cnt := CounterListed(N, K, pre, u);
      CounterStep(pre, cnt, N, u, a);
      cnt := cnt + [t.cnt];
    }
  }

  /**
   What a run computes, read off its actions: every store leaves one more, every put back one less, than
   the counter held at that thread's last load, and nothing else changes the counter; the rest of the
   state counts actions.
   */
  lemma RunComputes(N: nat, K: nat, acts: seq<Action>, t: State) returns (cnt: seq<int>)
    requires Run(N, Init(K), acts, t)
    ensures |cnt| == |acts| + 1 && cnt[0] == 0 && cnt[|acts|] == t.cnt
    ensures forall q, p | Runs.Latest(acts, Load, q, p) && p < |acts| && acts[p] == Store :: cnt[p + 1] == cnt[q] + 1
    ensures forall q, p | Runs.Latest(acts, Fetch, q, p) && p < |acts| && acts[p] == PutBack :: cnt[p + 1] == cnt[q] - 1
    ensures forall p | 0 <= p < |acts| && acts[p] != Store && acts[p] != PutBack :: cnt[p + 1] == cnt[p]
    ensures t.i == multiset(acts)[Store] && t.j == multiset(acts)[Post] && t.d == multiset(acts)[PutBack]
    ensures t.sem == K + multiset(acts)[Post] - multiset(acts)[Wait]
  {
    cnt := CounterListed(N, K, acts, t);
    RunTracks(N, K, acts, t);
  }

  /** The counter stays between minus the posting thread's stores and the counting thread's stores. */
  lemma CounterBounded(N: nat, K: nat, s: State)
    requires Reachable(N, K, s)
    ensures 0 - N <= 0 - s.d <= s.cnt <= s.i <= N
    ensures s.sem == K - Waits(s) + s.j
  {
    var acts :| Run(N, Init(K), acts, s);
    InvHolds(N, K, acts, s);
  }

  lemma NoDeadlock(N: nat, K: nat, s: State)
    requires Reachable(N, K, s) && !Done(N, s)
    ensures exists a :: Enabled(N, s, a)
    ensures s.v.Waiting? && s.sem == 0 ==> Enabled(N, s, Post) || Enabled(N, s, Fetch) || Enabled(N, s, PutBack)
  {
    CounterBounded(N, K, s);
    var acts :| Run(N, Init(K), acts, s);
    InvHolds(N, K, acts, s);
    assert exists a :: Enabled(N, s, a) by {
      if s.sem > 0 {
        assert Enabled(N, s, Load) || Enabled(N, s, Store) || Enabled(N, s, Wait) ||
          Enabled(N, s, Post) || Enabled(N, s, Fetch) || Enabled(N, s, PutBack);
      } else {
        assert Enabled(N, s, Load) || Enabled(N, s, Store) ||
          Enabled(N, s, Post) || Enabled(N, s, Fetch) || Enabled(N, s, PutBack);
      }
    }
  }

  function Remaining(N: nat, s: State): int {
    3 * (N - s.i) + (match s.v case Ready => 0 case Loaded(_) => -1 case Waiting => 1) +
    3 * (N - s.j) + (match s.p case Idle => 0 case Posted => 2 case Fetched(_) => 1)
  }

  /** Every maximal run takes 6N steps and returns the semaphore to its initial value. */
  lemma MaximalRuns(N: nat, K: nat, acts: seq<Action>, s: State)
    requires Run(N, Init(K), acts, s)
    ensures |acts| <= 6 * N
    ensures (forall a :: !Enabled(N, s, a)) <==> |acts| == 6 * N
    ensures |acts| == 6 * N ==> s.i == s.j == s.d == N && s.v == Ready && s.p == Idle && s.sem == K
  {
    InvHolds(N, K, acts, s);
    Runs.StepsCounted(Machine(N), x => Remaining(N, x), Init(K), acts, s);
    if !Done(N, s) {
      assert Reachable(N, K, s);
      NoDeadlock(N, K, s);
    }
  }

  // ----- which values the counter can be left with

  /** The state in which both threads have completed n iterations. */
  function Level(K: nat, n: nat, cnt: int): State {
    State(n, Ready, n, n, Idle, cnt, K)
  }

  /** One iteration of each thread that leaves the counter d higher: a lost update for d != 0. */
  function Round(d: int): seq<Action> {
    if d > 0 then [Load, Post, Fetch, PutBack, Store, Wait]
    else if d < 0 then [Post, Fetch, Load, Store, Wait, PutBack]
    else [Load, Store, Post, Wait, Fetch, PutBack]
  }

  /** The states a round passes through. */
  function RoundStates(K: nat, n: nat, c: int, d: int): seq<State> {
    if d > 0 then [
      Level(K, n, c),
      State(n, Loaded(c), n, n, Idle, c, K),
      State(n, Loaded(c), n + 1, n, Posted, c, K + 1),
      State(n, Loaded(c), n + 1, n, Fetched(c), c, K + 1),
      State(n, Loaded(c), n + 1, n + 1, Idle, c - 1, K + 1),
      State(n + 1, Waiting, n + 1, n + 1, Idle, c + 1, K + 1),
      Level(K, n + 1, c + 1)]
    else if d < 0 then [
      Level(K, n, c),
      State(n, Ready, n + 1, n, Posted, c, K + 1),
      State(n, Ready, n + 1, n, Fetched(c), c, K + 1),
      State(n, Loaded(c), n + 1, n, Fetched(c), c, K + 1),
      State(n + 1, Waiting, n + 1, n, Fetched(c), c + 1, K + 1),
      State(n + 1, Ready, n + 1, n, Fetched(c), c + 1, K),
      Level(K, n + 1, c - 1)]
    else [
      Level(K, n, c),
      State(n, Loaded(c), n, n, Idle, c, K),
      State(n + 1, Waiting, n, n, Idle, c + 1, K),
      State(n + 1, Waiting, n + 1, n, Posted, c + 1, K + 1),
      State(n + 1, Ready, n + 1, n, Posted, c + 1, K),
      State(n + 1, Ready, n + 1, n, Fetched(c + 1), c + 1, K),
      Level(K, n + 1, c)]
  }

  lemma RoundPasses(N: nat, K: nat, n: nat, cnt: int, d: int, k: nat)
    requires n < N && -1 <= d <= 1 && k < 6
    ensures var acts, states := Round(d), RoundStates(K, n, cnt, d);
      Enabled(N, states[k], acts[k]) && Do(states[k], acts[k]) == states[k + 1]
  {
    assert k == 0 || k == 1 || k == 2 || k == 3 || k == 4 || k == 5;
  }

  lemma RoundRuns(N: nat, K: nat, n: nat, cnt: int, d: int)
    requires n < N && -1 <= d <= 1
    ensures Run(N, Level(K, n, cnt), Round(d), Level(K, n + 1, cnt + d))
  {
    var acts, states := Round(d), RoundStates(K, n, cnt, d);
    assert |acts| == 6 && |states| == 7;
    assert states[0] == Level(K, n, cnt) && states[6] == Level(K, n + 1, cnt + d);
    forall k | 0 <= k < 6
      ensures Enabled(N, states[k], acts[k]) && Do(states[k], acts[k]) == states[k + 1]
    {
      RoundPasses(N, K, n, cnt, d, k);
    }
    Runs.PassesRuns(Machine(N), acts, states);
  }

  function Sign(c: int): int {
    if c > 0 then 1 else if c < 0 then -1 else 0
  }

  /** Rounds that move the counter by c. */
  function Rounds(n: nat, c: int): seq<Action> {
    if n == 0 then [] else Round(Sign(c)) + Rounds(n - 1, c - Sign(c))
  }

  lemma {:induction false} RoundsRun(N: nat, K: nat, n: nat, cnt: int, c: int)
    requires n <= N && Abs(c) <= N - n
    ensures Run(N, Level(K, n, cnt), Rounds(N - n, c), Level(K, N, cnt + c))
    decreases N - n
  {
    if n < N {
      var d := Sign(c);
      RoundRuns(N, K, n, cnt, d);
      RoundsRun(N, K, n + 1, cnt + d, c - d);
      Runs.Concat(Machine(N), Level(K, n, cnt), Round(d), Level(K, n + 1, cnt + d),
                Rounds(N - n - 1, c - d), Level(K, N, cnt + c));
    }
  }

  /**
   Exactly which values complete runs leave in the counter: every value from -N to N,
   whatever the semaphore starts with. With single-step updates it is always 0.
   */
  lemma FinalValues(N: nat, K: nat, c: int)
    ensures (exists s :: Reachable(N, K, s) && Done(N, s) && s.cnt == c) <==> 0 - N <= c <= N
  {
    if s :| Reachable(N, K, s) && Done(N, s) && s.cnt == c {
      CounterBounded(N, K, s);
    }
    if 0 - N <= c <= N {
      RoundsRun(N, K, 0, 0, c);
      assert Level(K, 0, 0) == Init(K);
      assert Reachable(N, K, Level(K, N, c));
    }
  }

  // ----- the single-step program is one way of running this one

  function Lift(s: Threads.State): State {
    State(s.i, if s.waiting then Waiting else Ready, s.j, if s.posted && s.j > 0 then s.j - 1 else s.j,
          if s.posted then Posted else Idle, s.cnt, s.sem)
  }

  function Expand(a: Threads.Action): seq<Action> {
    match a
    case Increment => [Load, Store]
    case Wait => [Wait]
    case Post => [Post]
    case Decrement => [Fetch, PutBack]
  }

  function ExpandAll(acts: seq<Threads.Action>): seq<Action> {
    if acts == [] then [] else Expand(acts[0]) + ExpandAll(acts[1..])
  }

  lemma ExpandStep(N: nat, s: Threads.State, a: Threads.Action)
    requires Threads.Enabled(N, s, a) && (s.posted ==> s.j > 0)
    ensures Run(N, Lift(s), Expand(a), Lift(Threads.Do(s, a)))
  {
    var e, t := Expand(a), Lift(s);
    var t1 := Do(t, e[0]);
    Runs.PassesRuns(Machine(N), e, if |e| == 2 then [t, t1, Do(t1, e[1])] else [t, t1]);
  }

  /** Every interleaving of the single-step program is an interleaving here, with the same counter and semaphore. */
  lemma {:induction false} SingleStepRuns(N: nat, K: nat, s: Threads.State, acts: seq<Threads.Action>, t: Threads.State)
    requires Threads.Inv(N, K, s) && Threads.Run(N, s, acts, t)
    ensures Run(N, Lift(s), ExpandAll(acts), Lift(t))
    decreases |acts|
  {
    if acts != [] {
      var u := Threads.Do(s, acts[0]);
      ExpandStep(N, s, acts[0]);
      SingleStepRuns(N, K, u, acts[1..], t);
      Runs.Concat(Machine(N), Lift(s), Expand(acts[0]), Lift(u), ExpandAll(acts[1..]), Lift(t));
    }
  }

  // ----- and, without interruptions, the only way

  /** What is left when the unfinished update of a thread is forgotten. */
  function Abstract(s: State): Threads.State {
    Threads.State(s.i, s.v.Waiting?, s.j, !s.p.Idle?, s.cnt, s.sem)
  }

  /** The single-step actions: a store is where the update happens. */
  function Collapse(acts: seq<Action>): seq<Threads.Action> {
    if acts == [] then []
    else Collapse(acts[..|acts| - 1]) + CollapseOne(acts[|acts| - 1])
  }

  function CollapseOne(a: Action): seq<Threads.Action> {
    match a
    case Store => [Threads.Increment]
    case Wait => [Threads.Wait]
    case Post => [Threads.Post]
    case PutBack => [Threads.Decrement]
    case _ => []
  }

  /** No other falls between a load and its store. */
  ghost predicate Apart(acts: seq<Action>, load: Action, store: Action, other: Action) {
    forall q, p | Runs.Latest(acts, load, q, p) && p < |acts| && acts[p] == store :: other !in acts[q..p]
  }

  /** value, held since the last load, is the counter's unless other has come in between. */
  ghost predicate FreshUnless(acts: seq<Action>, load: Action, other: Action, value: int, cnt: int) {
    exists q :: Runs.Latest(acts, load, q, |acts|) && (other !in acts[q..] ==> value == cnt)
  }

  lemma ApartPrefix(acts: seq<Action>, a: Action, load: Action, store: Action, other: Action)
    requires Apart(acts + [a], load, store, other)
    ensures Apart(acts, load, store, other)
  {
    var all := acts + [a];
    forall q, p | Runs.Latest(acts, load, q, p) && p < |acts| && acts[p] == store ensures other !in acts[q..p] {
      Runs.LatestSnoc(acts, a, load, q);
      assert Runs.Latest(all, load, q, p) && all[q..p] == acts[q..p];
    }
  }

  lemma FreshSnoc(acts: seq<Action>, a: Action, load: Action, other: Action, value: int, before: int, after: int)
    requires a != other ==> after == before
    requires if a == load then value == after else FreshUnless(acts, load, other, value, before)
    ensures FreshUnless(acts + [a], load, other, value, after)
  {
    var q, all := |acts|, acts + [a];
    if a != load {
      q :| Runs.Latest(acts, load, q, |acts|) && (other !in acts[q..] ==> value == before);
      assert all[q..] == acts[q..] + [a];
    }
    Runs.LatestSnoc(acts, a, load, q);
    assert Runs.Latest(all, load, q, |all|) && (other !in all[q..] ==> value == after);
  }

  lemma ApartIsFresh(acts: seq<Action>, load: Action, store: Action, other: Action, value: int, cnt: int)
    requires Apart(acts + [store], load, store, other) && FreshUnless(acts, load, other, value, cnt)
    ensures value == cnt
  {
    var n, all := |acts|, acts + [store];
    var q :| Runs.Latest(acts, load, q, n) && (other !in acts[q..] ==> value == cnt);
    Runs.LatestSnoc(acts, store, load, q);
    assert Runs.Latest(all, load, q, n) && all[n] == store && all[q..n] == acts[q..];
  }

  ghost predicate Fresh(acts: seq<Action>, s: State) {
    && (s.v.Loaded? ==> FreshUnless(acts, Load, PutBack, s.v.value, s.cnt))
    && (s.p.Fetched? ==> FreshUnless(acts, Fetch, Store, s.p.value, s.cnt))
  }

  /** The next store adds to the counter's present value. */
  lemma FreshStep(N: nat, acts: seq<Action>, s: State, a: Action)
    requires Fresh(acts, s) && Enabled(N, s, a)
    requires Apart(acts + [a], Load, Store, PutBack) && Apart(acts + [a], Fetch, PutBack, Store)
    ensures Fresh(acts + [a], Do(s, a))
    ensures (a.Store? ==> s.v.value == s.cnt) && (a.PutBack? ==> s.p.value == s.cnt)
  {
    var t := Do(s, a);
    if t.v.Loaded? {
      FreshSnoc(acts, a, Load, PutBack, t.v.value, s.cnt, t.cnt);
    }
    if t.p.Fetched? {
      FreshSnoc(acts, a, Fetch, Store, t.p.value, s.cnt, t.cnt);
    }
    if a.Store? {
      ApartIsFresh(acts, Load, Store, PutBack, s.v.value, s.cnt);
    }
    if a.PutBack? {
      ApartIsFresh(acts, Fetch, PutBack, Store, s.p.value, s.cnt);
    }
  }

  lemma {:induction false} CollapseRuns(N: nat, K: nat, acts: seq<Action>, t: State)
    requires Run(N, Init(K), acts, t) && Apart(acts, Load, Store, PutBack) && Apart(acts, Fetch, PutBack, Store)
    ensures Threads.Run(N, Threads.Init(K), Collapse(acts), Abstract(t)) && Fresh(acts, t)
    decreases |acts|
  {
    if acts != [] {
      var pre, a := acts[..|acts| - 1], acts[|acts| - 1];
      assert acts == pre + [a];
      var u := Runs.Unsnoc(Machine(N), Init(K), pre, a, t);
      ApartPrefix(pre, a, Load, Store, PutBack);
      ApartPrefix(pre, a, Fetch, PutBack, Store);
      CollapseRuns(N, K, pre, u);
      FreshStep(N, pre, u, a);
      InvHolds(N, K, pre, u);
      CollapseStep(N, K, u, a);
      if CollapseOne(a) != [] {
        Runs.Snoc(Threads.Machine(N), Threads.Init(K), Collapse(pre), Abstract(u), CollapseOne(a)[0]);
      } else {
        assert Collapse(pre) + [] == Collapse(pre);
      }
    }
  }

  lemma CollapseStep(N: nat, K: nat, s: State, a: Action)
    requires Inv(N, K, s) && Enabled(N, s, a)
    requires (a.Store? ==> s.v.value == s.cnt) && (a.PutBack? ==> s.p.value == s.cnt)
    ensures var c, u := CollapseOne(a), Abstract(s);
      if c == [] then Abstract(Do(s, a)) == u
      else c == [c[0]] && Threads.Enabled(N, u, c[0]) && Abstract(Do(s, a)) == Threads.Do(u, c[0])
  {
  }

  /**
   Interruptions are the only way to lose an update: a run in which no store of the other thread falls
   between a load and its store has the counter and the semaphore of a run with single-step updates,
   so complete ones leave 0 in the counter.
   */
  lemma UninterruptedIsSingleStep(N: nat, K: nat, acts: seq<Action>, t: State)
    requires Run(N, Init(K), acts, t)
    requires forall q, p | Runs.Latest(acts, Load, q, p) && p < |acts| && acts[p] == Store :: PutBack !in acts[q..p]
    requires forall q, p | Runs.Latest(acts, Fetch, q, p) && p < |acts| && acts[p] == PutBack :: Store !in acts[q..p]
    ensures Threads.Run(N, Threads.Init(K), Collapse(acts), Abstract(t))
    ensures Threads.Reachable(N, K, Abstract(t)) && Abstract(t).cnt == t.cnt && Abstract(t).sem == t.sem
    ensures Done(N, t) ==> t.cnt == 0
  {
    CollapseRuns(N, K, acts, t);
    Threads.SemaphoreAccounting(N, K, Collapse(acts), Abstract(t));
    InvHolds(N, K, acts, t);
  }
}
