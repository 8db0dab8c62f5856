/** The runtime lock as a step system: any number of threads over one shared word. */
module FutexLock {

  /** Where a thread stands in `sapote_runtime_lock` and `sapote_runtime_unlock`. */
  datatype Place =
    | Outside      // neither holding nor asking for the lock
    | Trying       // about to exchange
    | BeforeWait   // the exchange returned nonzero, about to call FUTEX_WAIT
    | Sleeping     // inside FUTEX_WAIT
    | Holding      // the exchange returned zero
    | BeforeWake   // stored zero, about to call FUTEX_WAKE

  datatype State = State(word: nat, threads: seq<Place>)

  datatype Step =
    | Call(thread: nat)
    | Exchange(thread: nat)
    | Wait(thread: nat)                 // compare and sleep in one step, or return if they differ
    | Return(thread: nat)               // FUTEX_WAIT returns for no reason, before or after sleeping
    | Store(thread: nat)
    | Wake(thread: nat, sleeper: nat)   // the kernel picks one sleeper, if there is one

  /** The thread at `i` moves to `place`. */
  function Put(s: State, i: nat, place: Place): (r: State)
    requires i < |s.threads|
  {
    s.(threads := s.threads[i := place])
  }

  predicate At(s: State, i: nat, place: Place) {
    i < |s.threads| && s.threads[i] == place
  }

  predicate Enabled(s: State, step: Step) {
    match step
    case Call(i) => At(s, i, Outside)
    case Exchange(i) => At(s, i, Trying)
    case Wait(i) => At(s, i, BeforeWait)
    case Return(i) => At(s, i, BeforeWait) || At(s, i, Sleeping)
    case Store(i) => At(s, i, Holding)
    case Wake(i, j) => At(s, i, BeforeWake) && (Sleeping in s.threads ==> At(s, j, Sleeping))
  }

  function Next(s: State, step: Step): (r: State)
    requires Enabled(s, step)
  {
    match step
    case Call(i) => Put(s, i, Trying)
    case Exchange(i) => Put(s, i, if s.word == 0 then Holding else BeforeWait).(word := 1)
    case Wait(i) => Put(s, i, if s.word == 1 then Sleeping else Trying)
    case Return(i) => Put(s, i, Trying)
    case Store(i) => Put(s, i, BeforeWake).(word := 0)
    case Wake(i, j) => if Sleeping in s.threads then Put(Put(s, j, Trying), i, Outside) else Put(s, i, Outside)
  }

  function Initial(n: nat): (s: State) {
    State(0, seq(n, i => Outside))
  }

  ghost function Count(s: State, place: Place): (n: nat) {
    multiset(s.threads)[place]
  }

  /** What moving one thread does to the count of `other`. */
  ghost predicate Moved(s: State, i: nat, place: Place, other: Place)
    requires i < |s.threads|
  {
    Count(Put(s, i, place), other) ==
      Count(s, other) - (if s.threads[i] == other then 1 else 0) + (if place == other then 1 else 0)
  }

  lemma CountPositive(s: State, i: nat)
    requires i < |s.threads|
    ensures 0 < Count(s, s.threads[i])
  {
  }

  /** Two threads at one place are counted twice. */
  lemma CountTwo(s: State, i: nat, j: nat)
    requires i < j < |s.threads| && s.threads[i] == s.threads[j]
    ensures 2 <= Count(s, s.threads[i])
  {
    var front, back := s.threads[..j], s.threads[j..];
    assert s.threads == front + back && front[i] in front && back[0] in back;
    assert multiset(s.threads) == multiset(front) + multiset(back);
  }

  lemma CountSome(s: State, place: Place)
    ensures 0 < Count(s, place) <==> place in s.threads
  {
  }

  lemma CountBound(threads: seq<Place>, place: Place)
    ensures multiset(threads)[place] <= |threads|
  {
    assert |multiset(threads) - multiset{}[place := multiset(threads)[place]]| >= 0;
    assert multiset(threads) == (multiset(threads) - multiset{}[place := multiset(threads)[place]]) + multiset{}[place := multiset(threads)[place]];
  }

  // ---------------------------------------------------------------------------------------------
  // Safety

  /** The word says whether somebody holds the lock, one thread at most does, and nobody sleeps
      without someone left to wake it or to take the lock first. */
  ghost predicate Inv(s: State) {
    && s.word <= 1 && Count(s, Holding) == s.word
    && (0 < Count(s, Sleeping) ==>
          0 < Count(s, Holding) + Count(s, BeforeWake) + Count(s, Trying) + Count(s, BeforeWait))
  }

  ghost predicate StepsTo(s: State, step: Step, after: State) {
    Enabled(s, step) && after == Next(s, step)
  }

  lemma StepKeeps(s: State, step: Step)
    requires Inv(s) && Enabled(s, step)
    ensures Inv(Next(s, step)) && |Next(s, step).threads| == |s.threads|
  {
    hide Count;
    var i := step.thread;
    CountPositive(s, i);
    CountSome(s, Sleeping);
    match step
    case Wake(_, j) =>
      if Sleeping in s.threads {
        MovedCounts(s, j, Trying);
        MovedCounts(Put(s, j, Trying), i, Outside);
      } else {
        MovedCounts(s, i, Outside);
      }
    case _ =>
      var after := Next(s, step);
      MovedCounts(s, i, after.threads[i]);
      SameThreads(after, Put(s, i, after.threads[i]));
  }

  /** All counts after one thread moves. */
  lemma MovedCounts(s: State, i: nat, place: Place)
    requires i < |s.threads|
    ensures Moved(s, i, place, Trying) && Moved(s, i, place, BeforeWait) && Moved(s, i, place, Sleeping)
    ensures Moved(s, i, place, Holding) && Moved(s, i, place, BeforeWake)
  {
    hide Moved;
    MovedCount(s, i, place, Trying);
    MovedCount(s, i, place, BeforeWait);
    MovedCount(s, i, place, Sleeping);
    MovedCount(s, i, place, Holding);
    MovedCount(s, i, place, BeforeWake);
  }

  lemma MovedCount(s: State, i: nat, place: Place, other: Place)
    requires i < |s.threads|
    ensures Moved(s, i, place, other)
  {
    assert multiset(s.threads[i := place]) == multiset(s.threads) - multiset{s.threads[i]} + multiset{place};
  }

  lemma SameThreads(s: State, t: State)
    requires s.threads == t.threads
    ensures forall place :: Count(s, place) == Count(t, place)
  {
    assert multiset(s.threads) == multiset(t.threads);
  }

  /** A run of the protocol from the unlocked state, with any interleaving of any threads. */
  ghost predicate IsRun(n: nat, states: seq<State>, steps: seq<Step>) {
    && |states| == |steps| + 1 && states[0] == Initial(n)
    && forall k :: 0 <= k < |steps| ==> RunStep(states, steps, k)
  }

  ghost predicate RunStep(states: seq<State>, steps: seq<Step>, k: nat) {
    k + 1 < |states| && k < |steps| && StepsTo(states[k], steps[k], states[k + 1])
  }

  lemma InitialHolds(n: nat)
    ensures Inv(Initial(n))
  {
    forall place: Place | place != Outside ensures Count(Initial(n), place) == 0 {
      CountSome(Initial(n), place);
    }
  }

  lemma {:induction false} RunKeeps(n: nat, states: seq<State>, steps: seq<Step>, k: nat)
    requires IsRun(n, states, steps) && k < |states|
    ensures Inv(states[k]) && |states[k].threads| == n
  {
    hide Inv, Enabled;
    if k == 0 {
      InitialHolds(n);
    } else {
      RunKeeps(n, states, steps, k - 1);
      assert RunStep(states, steps, k - 1);
      StepKeeps(states[k - 1], steps[k - 1]);
    }
  }

  /** Mutual exclusion: in every state of every run, two different threads never both hold. */
  lemma MutualExclusion(n: nat, states: seq<State>, steps: seq<Step>, k: nat, i: nat, j: nat)
    requires IsRun(n, states, steps) && k < |states| && i < n && j < n && i != j
    ensures |states[k].threads| == n
    ensures !(states[k].threads[i] == Holding && states[k].threads[j] == Holding)
  {
    RunKeeps(n, states, steps, k);
    var s := states[k];
    if s.threads[i] == Holding && s.threads[j] == Holding {
      CountTwo(s, if i < j then i else j, if i < j then j else i);
    }
  }

  /** No wake-up is lost: whenever a thread sleeps, some thread holds the lock, has yet to wake a
      sleeper, or is still running towards the lock. */
  lemma NoLostWakeup(n: nat, states: seq<State>, steps: seq<Step>, k: nat)
    requires IsRun(n, states, steps) && k < |states| && Sleeping in states[k].threads
    ensures exists place :: place in states[k].threads && place in {Holding, BeforeWake, Trying, BeforeWait}
  {
    RunKeeps(n, states, steps, k);
    CountSome(states[k], Sleeping);
    CountSome(states[k], Holding);
    CountSome(states[k], BeforeWake);
    CountSome(states[k], Trying);
    CountSome(states[k], BeforeWait);
  }

  ghost predicate Takes(states: seq<State>, steps: seq<Step>, k: nat, i: nat) {
    k < |steps| && k < |states| && steps[k] == Exchange(i) && states[k].word == 0
  }

  lemma {:induction false} HoldsUntilStore(n: nat, states: seq<State>, steps: seq<Step>, i: nat, lo: nat, hi: nat)
    requires IsRun(n, states, steps) && lo <= hi < |states| && At(states[lo], i, Holding)
    requires forall k :: lo <= k < hi ==> steps[k] != Store(i)
    ensures At(states[hi], i, Holding)
    decreases hi
  {
    if lo < hi {
      HoldsUntilStore(n, states, steps, i, lo, hi - 1);
      assert RunStep(states, steps, hi - 1);
    }
  }

  /** Critical sections are bracketed: between two acquisitions the first holder releases. */
  lemma ReleasedBetween(n: nat, states: seq<State>, steps: seq<Step>, i: nat, j: nat, a: nat, b: nat)
    requires IsRun(n, states, steps) && a < b && Takes(states, steps, a, i) && Takes(states, steps, b, j)
    ensures exists c :: a < c < b && steps[c] == Store(i)
  {
    assert RunStep(states, steps, a);
    if forall c :: a < c < b ==> steps[c] != Store(i) {
      HoldsUntilStore(n, states, steps, i, a + 1, b);
      RunKeeps(n, states, steps, b);
      CountPositive(states[b], i);
    }
  }

  // ---------------------------------------------------------------------------------------------
  // Progress

  /** Somebody is inside the lock or unlock call or holds the lock. */
  ghost predicate Busy(s: State) {
    exists i :: 0 <= i < |s.threads| && s.threads[i] != Outside
  }

  predicate Spontaneous(step: Step) {
    step.Call? || step.Return?
  }

  /** No deadlock: while anybody is busy, some step other than a new call or a spurious return can
      be taken, by the holder, an unlocker or a running contender. */
  lemma NoDeadlock(s: State) returns (step: Step)
    requires Inv(s) && Busy(s)
    ensures Enabled(s, step) && !Spontaneous(step)
  {
    var i :| 0 <= i < |s.threads| && s.threads[i] != Outside;
    if s.threads[i] == Sleeping {
      CountPositive(s, i);
      CountSome(s, Holding);
      CountSome(s, BeforeWake);
      CountSome(s, Trying);
      CountSome(s, BeforeWait);
      var k :| 0 <= k < |s.threads| && s.threads[k] in {Holding, BeforeWake, Trying, BeforeWait};
      step := Running(s, k);
    } else {
      step := Running(s, i);
    }
  }

  lemma Running(s: State, i: nat) returns (step: Step)
    requires i < |s.threads| && s.threads[i] in {Holding, BeforeWake, Trying, BeforeWait}
    ensures Enabled(s, step) && !Spontaneous(step)
  {
    match s.threads[i]
    case Holding => step := Store(i);
    case Trying => step := Exchange(i);
    case BeforeWait => step := Wait(i);
    case BeforeWake =>
      var j := 0;
      if Sleeping in s.threads {
        j :| 0 <= j < |s.threads| && s.threads[j] == Sleeping;
      }
      step := Wake(i, j);
  }

  ghost function Contenders(s: State): (n: nat) {
    Count(s, Trying) + Count(s, BeforeWait) + Count(s, Sleeping)
  }

  function Times(weight: nat, n: nat): (p: int) {
    weight * n
  }

  lemma TimesNext(weight: nat, n: nat)
    ensures 0 <= Times(weight, n) && Times(weight, n + 1) == Times(weight, n) + weight
  {
  }

  /** What the protocol still owes the threads inside it, `weight` for each contender. */
  ghost function Work(s: State, weight: nat): (w: int) {
    Times(weight, Contenders(s)) + 4 * Count(s, Holding) + 3 * Count(s, BeforeWake) + Count(s, BeforeWait)
    + (if s.word == 0 then 0 else 2 * Count(s, Trying))
  }

  /** Every step of the protocol uses up work; only new calls and spurious returns add any. */
  lemma {:induction false} StepWorks(s: State, step: Step, weight: nat)
    requires Inv(s) && Enabled(s, step) && weight == 2 * |s.threads| + 5
    ensures
      var w := Work(Next(s, step), weight);
      match step
      case Call(_) => w <= Work(s, weight) + weight + 2
      case Return(_) => w <= Work(s, weight) + 2
      case _ => w < Work(s, weight)
  {
    hide Count, Times;
    if step.Wake? {
      WakeWorks(s, step.thread, step.sleeper, weight);
    } else {
      var i, after := step.thread, Next(s, step);
      CountPositive(s, i);
      CountBound(s.threads, Trying);
      CountIs(s, Trying);
      TimesNext(weight, Contenders(s));
      TimesNext(weight, Contenders(after));
      MovedCounts(s, i, after.threads[i]);
      SameThreads(after, Put(s, i, after.threads[i]));
    }
  }

  lemma WakeWorks(s: State, i: nat, j: nat, weight: nat)
    requires Enabled(s, Wake(i, j))
    ensures Work(Next(s, Wake(i, j)), weight) < Work(s, weight)
  {
    hide Count, Times;
    CountPositive(s, i);
    if Sleeping in s.threads {
      CountPositive(s, j);
      var middle := Put(s, j, Trying);
      MovedCounts(s, j, Trying);
      MovedCounts(middle, i, Outside);
      assert Contenders(Put(middle, i, Outside)) == Contenders(s);
    } else {
      MovedCounts(s, i, Outside);
      assert Contenders(Put(s, i, Outside)) == Contenders(s);
    }
  }

  lemma CountIs(s: State, place: Place)
    ensures Count(s, place) == multiset(s.threads)[place]
  {
  }

  ghost function Calls(steps: seq<Step>): (n: nat) {
    if steps == [] then 0 else Calls(steps[..|steps| - 1]) + if steps[|steps| - 1].Call? then 1 else 0
  }

  ghost function Returns(steps: seq<Step>): (n: nat) {
    if steps == [] then 0 else Returns(steps[..|steps| - 1]) + if steps[|steps| - 1].Return? then 1 else 0
  }

  lemma {:induction false} RunWorks(n: nat, states: seq<State>, steps: seq<Step>)
    requires IsRun(n, states, steps)
    ensures
      var made := |steps| - Calls(steps) - Returns(steps);
      made + Work(states[|steps|], 2 * n + 5) <= (2 * n + 7) * Calls(steps) + 2 * Returns(steps)
  {
    hide Inv, Enabled, Next, Work;
    if steps == [] {
      InitialRests(n);
    } else {
      var m := |steps| - 1;
      var front, fewer := states[..m + 1], steps[..m];
      forall k | 0 <= k < m ensures RunStep(front, fewer, k) {
        assert RunStep(states, steps, k);
      }
      RunWorks(n, front, fewer);
      RunKeeps(n, states, steps, m);
      assert RunStep(states, steps, m);
      StepWorks(states[m], steps[m], 2 * n + 5);
      assert (2 * n + 7) * (Calls(fewer) + 1) == (2 * n + 7) * Calls(fewer) + (2 * n + 7);
    }
  }

  lemma InitialRests(n: nat)
    ensures Work(Initial(n), 2 * n + 5) == 0
  {
    forall place: Place | place != Outside ensures Count(Initial(n), place) == 0 {
      CountSome(Initial(n), place);
    }
  }

  lemma WorkIsOwed(s: State, weight: nat)
    ensures 0 <= Work(s, weight)
  {
    TimesNext(weight, Contenders(s));
  }

  /** Progress: in every run the protocol makes at most `2n + 7` steps a call and two a spurious
      return, so without further ones it comes to rest; at rest every thread is outside. */
  lemma EveryCallCompletes(n: nat, states: seq<State>, steps: seq<Step>)
    requires IsRun(n, states, steps)
    ensures |steps| <= (2 * n + 8) * Calls(steps) + 3 * Returns(steps)
    ensures (forall step :: Enabled(states[|steps|], step) ==> Spontaneous(step)) <==> !Busy(states[|steps|])
  {
    hide Inv, Work, Count;
    RunWorks(n, states, steps);
    var last := states[|steps|];
    WorkIsOwed(last, 2 * n + 5);
    assert (2 * n + 8) * Calls(steps) == (2 * n + 7) * Calls(steps) + Calls(steps);
    RunKeeps(n, states, steps, |steps|);
    if Busy(last) {
      var step := NoDeadlock(last);
    }
  }

  // ---------------------------------------------------------------------------------------------
  // Every call is served

  /** The ways a thread can move. */
  predicate Moves(a: Place, b: Place) {
    match a
    case Outside => b == Trying
    case Trying => b == Holding || b == BeforeWait
    case BeforeWait => b == Sleeping || b == Trying
    case Sleeping => b == Trying
    case Holding => b == BeforeWake
    case BeforeWake => b == Outside
  }

  /** In every step at most two threads move, each along the protocol: a caller leaves only as holder. */
  lemma StepMoves(s: State, step: Step, i: nat)
    requires Enabled(s, step) && i < |s.threads|
    ensures
      var t := Next(s, step);
      && |t.threads| == |s.threads| && (t.threads[i] == s.threads[i] || Moves(s.threads[i], t.threads[i]))
      && (t.threads[i] != s.threads[i] ==> i == step.thread || (step.Wake? && i == step.sleeper && s.threads[i] == Sleeping))
      && (s.threads[i] == Trying && t.threads[i] == Holding <==> step == Exchange(i) && s.word == 0)
      && (s.threads[i] == Holding && t.threads[i] != Holding <==> step == Store(i))
      && (s.threads[i] == Outside && t.threads[i] != Outside <==> step == Call(i))
      && (step == Exchange(i) && s.word != 0 ==> t.threads[i] == BeforeWait)
  {
  }

  /** One of the places inside a lock call. */
  predicate Contends(p: Place) {
    p == Trying || p == BeforeWait || p == Sleeping
  }

  ghost function CallsBy(steps: seq<Step>, i: nat): (n: nat) {
    if steps == [] then 0 else CallsBy(steps[..|steps| - 1], i) + if steps[|steps| - 1] == Call(i) then 1 else 0
  }

  ghost function StoresBy(steps: seq<Step>, i: nat): (n: nat) {
    if steps == [] then 0 else StoresBy(steps[..|steps| - 1], i) + if steps[|steps| - 1] == Store(i) then 1 else 0
  }

  /** Acquisitions: exchanges that found the word zero. */
  ghost function TakesBy(states: seq<State>, steps: seq<Step>, i: nat): (n: nat)
    requires |states| > |steps|
  {
    if steps == [] then 0
    else
      var m := |steps| - 1;
      TakesBy(states, steps[..m], i) + if Takes(states, steps, m, i) then 1 else 0
  }

  lemma {:induction false} TakesPrefix(states: seq<State>, steps: seq<Step>, i: nat, m: nat)
    requires |states| > |steps| && |steps| < m <= |states|
    ensures TakesBy(states[..m], steps, i) == TakesBy(states, steps, i)
  {
    if steps != [] {
      TakesPrefix(states, steps[..|steps| - 1], i, m);
    }
  }

  /** Over every run: each lock call of a thread has acquired the lock once, except one it is still in,
      and each acquisition has been released once, except one it still holds. */
  lemma {:induction false} CallsAreServed(n: nat, states: seq<State>, steps: seq<Step>, i: nat)
    requires IsRun(n, states, steps) && i < n
    ensures |states[|steps|].threads| == n
    ensures
      var place := states[|steps|].threads[i];
      && CallsBy(steps, i) == TakesBy(states, steps, i) + (if Contends(place) then 1 else 0)
      && TakesBy(states, steps, i) == StoresBy(steps, i) + (if place == Holding then 1 else 0)
  {
    hide Inv, Enabled, Next;
    if steps != [] {
      var m := |steps| - 1;
      var front, fewer := states[..m + 1], steps[..m];
      forall k | 0 <= k < m ensures RunStep(front, fewer, k) {
        assert RunStep(states, steps, k);
      }
      CallsAreServed(n, front, fewer, i);
      TakesPrefix(states, fewer, i, m + 1);
      assert RunStep(states, steps, m);
      StepMoves(states[m], steps[m], i);
    }
  }

  /** At rest every call has acquired and released the lock exactly once. */
  lemma AtRestAllAreServed(n: nat, states: seq<State>, steps: seq<Step>, i: nat)
    requires IsRun(n, states, steps) && i < n && !Busy(states[|steps|])
    ensures CallsBy(steps, i) == TakesBy(states, steps, i) == StoresBy(steps, i)
  {
    CallsAreServed(n, states, steps, i);
  }

  /** Any thread may move from where it stands: an outside one may call, a waiting or sleeping one may
      return for no reason, and an unlocker may wake any sleeper. */
  lemma AnyThreadMayMove(s: State, i: nat, j: nat)
    requires i < |s.threads| && j < |s.threads|
    ensures
      match s.threads[i]
      case Outside => Enabled(s, Call(i))
      case Trying => Enabled(s, Exchange(i))
      case BeforeWait => Enabled(s, Wait(i)) && Enabled(s, Return(i))
      case Sleeping => Enabled(s, Return(i))
      case Holding => Enabled(s, Store(i))
      case BeforeWake => (s.threads[j] == Sleeping || Sleeping !in s.threads ==> Enabled(s, Wake(i, j)))
  {
  }
}
