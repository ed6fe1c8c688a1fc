/**
 The futex condition variable: a 32-bit word with two flag bits and a counter stepped by
 four. Waiters load the word, release the mutex and sleep if the word is still the same;
 signal and broadcast step the counter and then wake. Any number of threads take part.
 */
module CondVar {
  import opened Basics

  const WORD: nat := 0x1_0000_0000                 // 2^32
  const STEP: nat := 4
  const ROUND: nat := 0x4000_0000                  // 2^30 steps bring the word back

  type Thread = nat

  /** A thread in pthread_cond_wait; `at` is how many steps the word had made when loaded. */
  datatype Waiter =
    | Loaded(value: nat, at: nat)                  // still holds the mutex
    | Unlocked(value: nat, at: nat)                // released it, about to call futex
    | Asleep(value: nat, at: nat, shared: bool)
    | Relocking                                    // back from futex, wants the mutex

  /** A thread in signal or broadcast; `index` counts the steps made before its own. */
  datatype Waker =
    | WakerLoaded(shared: bool, all: bool)
    | Stepped(shared: bool, all: bool, index: nat)

  /** `finished` holds the index of every broadcast that has done its wake call. */
  datatype State = State(
    start: nat, word: nat, steps: nat, mutex: Option<Thread>,
    waiters: map<Thread, Waiter>, wakers: map<Thread, Waker>, finished: set<nat>)

  datatype Step =
    | Lock(t: Thread)
    | Unlock(t: Thread)
    | BeginWait(t: Thread)                         // load the word
    | TimedOutEarly(t: Thread)                     // the deadline has passed: return at once
    | ReleaseMutex(t: Thread)
    | FutexWait(t: Thread)
    | Return(t: Thread)                            // timeout, signal or spurious wake-up
    | Relock(t: Thread)
    | BeginWake(t: Thread, all: bool)              // load the word
    | AddStep(t: Thread)
    | FutexWake(t: Thread, chosen: set<Thread>)

  /** The process-shared flag picks the futex namespace. */
  predicate SharedFlag(word: nat) { word % 2 == 1 }

  function Initial(start: nat): State
    requires start < WORD
  {
    State(start, start, 0, None, map[], map[], {})
  }

  function Sleepers(s: State, shared: bool): set<Thread> {
    set t | t in s.waiters && s.waiters[t].Asleep? && s.waiters[t].shared == shared
  }

  predicate Enabled(s: State, step: Step) {
    match step
    case Lock(t) => s.mutex.None? && t !in s.waiters
    case Unlock(t) => s.mutex == Some(t) && t !in s.waiters
    case BeginWait(t) => s.mutex == Some(t) && t !in s.waiters && t !in s.wakers
    case TimedOutEarly(t) => t in s.waiters && s.waiters[t].Loaded?
    case ReleaseMutex(t) => t in s.waiters && s.waiters[t].Loaded?
    case FutexWait(t) => t in s.waiters && s.waiters[t].Unlocked?
    case Return(t) => t in s.waiters && s.waiters[t].Asleep?
    case Relock(t) => t in s.waiters && s.waiters[t].Relocking? && s.mutex.None?
    case BeginWake(t, _) => t !in s.waiters && t !in s.wakers
    case AddStep(t) => t in s.wakers && s.wakers[t].WakerLoaded?
    case FutexWake(t, chosen) =>
      && t in s.wakers && s.wakers[t].Stepped?
      && var asleep := Sleepers(s, s.wakers[t].shared);
         if s.wakers[t].all then chosen == asleep
         else chosen <= asleep && |chosen| == (if asleep == {} then 0 else 1)
  }

  function Apply(s: State, step: Step): State
    requires Enabled(s, step)
  {
    match step
    case Lock(t) => s.(mutex := Some(t))
    case Unlock(t) => s.(mutex := None)
    case BeginWait(t) => s.(waiters := s.waiters[t := Loaded(s.word, s.steps)])
    case TimedOutEarly(t) => s.(waiters := s.waiters - {t})
    case ReleaseMutex(t) =>
      s.(mutex := None, waiters := s.waiters[t := Unlocked(s.waiters[t].value, s.waiters[t].at)])
    case FutexWait(t) =>
      var w := s.waiters[t];
      s.(waiters := s.waiters[t := if s.word == w.value then Asleep(w.value, w.at, SharedFlag(w.value))
                                   else Relocking])
    case Return(t) => s.(waiters := s.waiters[t := Relocking])
    case Relock(t) => s.(mutex := Some(t), waiters := s.waiters - {t})
    case BeginWake(t, all) => s.(wakers := s.wakers[t := WakerLoaded(SharedFlag(s.word), all)])
    case AddStep(t) =>
      s.(word := (s.word + STEP) % WORD, steps := s.steps + 1,
         wakers := s.wakers[t := Stepped(s.wakers[t].shared, s.wakers[t].all, s.steps)])
    case FutexWake(t, chosen) =>
      s.(waiters := map w | w in s.waiters :: if w in chosen then Relocking else s.waiters[w],
         wakers := s.wakers - {t},
         finished := if s.wakers[t].all then s.finished + {s.wakers[t].index} else s.finished)
  }

  // ---- what holds in every run ------------------------------------------------------

  /** The word after `n` steps. */
  function WordAt(start: nat, n: nat): nat { (start + STEP * n) % WORD }

  predicate InWait(w: Waiter) { !w.Relocking? }

  ghost predicate Counted(s: State) {
    && s.start < WORD && s.word == WordAt(s.start, s.steps)
    && (forall t | t in s.waiters && InWait(s.waiters[t]) ::
          s.waiters[t].at <= s.steps && s.waiters[t].value == WordAt(s.start, s.waiters[t].at))
    && (forall t | t in s.waiters && s.waiters[t].Loaded? :: s.mutex == Some(t))
    && (forall t | t in s.wakers && s.wakers[t].Stepped? :: s.wakers[t].index < s.steps)
    && (forall j | j in s.finished :: j < s.steps)
  }

  /** Waiters and wakers agree on the futex namespace. */
  ghost predicate SameFlag(s: State) {
    && (forall t | t in s.waiters && s.waiters[t].Asleep? :: s.waiters[t].shared == SharedFlag(s.start))
    && (forall t | t in s.wakers :: s.wakers[t].shared == SharedFlag(s.start))
  }

  /** No finished broadcast has left a waiter of before its step asleep. */
  ghost predicate NoneLeftAsleep(s: State) {
    forall t, j | t in s.waiters && s.waiters[t].Asleep? && j in s.finished :: j < s.waiters[t].at
  }

  /** Steps keep both flag bits, also when the counter wraps around. */
  lemma StepsKeepFlags(start: nat, n: nat)
    ensures WordAt(start, n) % STEP == start % STEP
    ensures SharedFlag(WordAt(start, n)) == SharedFlag(start)
  {
    var x := start + STEP * n;
    assert x == WORD * (x / WORD) + x % WORD;
    assert WORD * (x / WORD) == STEP * (0x4000_0000 * (x / WORD));
    ModByFour(x % WORD, 0x4000_0000 * (x / WORD), x);
    ModByFour(start, n, x);
  }

  lemma ModByFour(a: nat, k: nat, x: nat)
    requires x == a + STEP * k
    ensures x % STEP == a % STEP && a % 2 == x % 2
  {
    FourTimes(a / 4, a % 4, a);
    FourTimes(a / 4 + k, a % 4, x);
  }

  lemma FourTimes(q: nat, r: nat, x: nat)
    requires x == 4 * q + r && r < 4
    ensures x % 4 == r && x % 2 == r % 2
  {
    assert x / 4 == q;
    Halves(2 * q, r, x);
  }

  lemma Halves(h: nat, r: nat, x: nat)
    requires x == 2 * h + r && r < 4
    ensures x % 2 == r % 2
  {
    assert x / 2 == h + r / 2;
  }

  lemma NextWord(start: nat, n: nat)
    ensures (WordAt(start, n) + STEP) % WORD == WordAt(start, n + 1)
  {
    var x := start + STEP * n;
    assert x + STEP == start + STEP * (n + 1);
  }

  /** The word looks unchanged exactly when it has made a whole number of rounds. */
  lemma LooksUnchangedExactlyWhen(start: nat, at: nat, now: nat)
    requires at <= now
    ensures WordAt(start, at) == WordAt(start, now) <==> (now - at) % ROUND == 0
  {
    var a, d := start + STEP * at, now - at;
    var q, r := d / ROUND, d % ROUND;
    assert d == ROUND * q + r;
    assert STEP * d == WORD * q + STEP * r;
    assert start + STEP * now == a + STEP * d;
    WholeRounds(a + STEP * r, q);
    assert a + STEP * d == (a + STEP * r) + WORD * q;
    PartRound(a, STEP * r);
  }

  lemma WholeRounds(a: nat, q: nat)
    ensures (a + WORD * q) % WORD == a % WORD
  {
    var x := a + WORD * q;
    assert x == WORD * (a / WORD + q) + a % WORD by {
      assert a == WORD * (a / WORD) + a % WORD;
    }
    UniqueRemainder(x, a / WORD + q, a % WORD);
  }

  lemma UniqueRemainder(x: nat, q: nat, r: nat)
    requires x == WORD * q + r && r < WORD
    ensures x % WORD == r
  {
  }

  lemma PartRound(a: nat, b: nat)
    requires b < WORD
    ensures a % WORD == (a + b) % WORD <==> b == 0
  {
    var m := a % WORD;
    assert a == WORD * (a / WORD) + m;
    if m + b < WORD {
      UniqueRemainder(a + b, a / WORD, m + b);
    } else {
      assert a + b == WORD * (a / WORD + 1) + (m + b - WORD);
      UniqueRemainder(a + b, a / WORD + 1, m + b - WORD);
    }
  }

  lemma InitialHolds(start: nat)
    requires start < WORD
    ensures Counted(Initial(start)) && SameFlag(Initial(start)) && NoneLeftAsleep(Initial(start))
  {
  }

  lemma StepKeepsCounted(s: State, step: Step)
    requires Counted(s) && Enabled(s, step)
    ensures Counted(Apply(s, step))
  {
    hide WordAt;
    NextWord(s.start, s.steps);
  }

  lemma StepKeepsSameFlag(s: State, step: Step)
    requires Counted(s) && SameFlag(s) && Enabled(s, step)
    ensures SameFlag(Apply(s, step))
  {
    hide WordAt, SharedFlag;
    StepsKeepFlags(s.start, s.steps);
    if step.FutexWait? { StepsKeepFlags(s.start, s.waiters[step.t].at); }
  }

  /** Fewer than 2^30 steps between a waiter's load and its futex check. */
  predicate InTime(s: State, step: Step) {
    step.FutexWait? && step.t in s.waiters && s.waiters[step.t].Unlocked? ==>
      s.steps - s.waiters[step.t].at < ROUND
  }

  /** Whether a waiter goes to sleep depends on the number of steps since its load alone. */
  lemma SleepsExactlyWhen(s: State, t: Thread)
    requires Counted(s) && Enabled(s, FutexWait(t))
    ensures Apply(s, FutexWait(t)).waiters[t].Asleep? <==> (s.steps - s.waiters[t].at) % ROUND == 0
  {
    LooksUnchangedExactlyWhen(s.start, s.waiters[t].at, s.steps);
  }

  lemma StepKeepsNoneLeftAsleep(s: State, step: Step)
    requires Counted(s) && SameFlag(s) && NoneLeftAsleep(s) && Enabled(s, step) && InTime(s, step)
    ensures NoneLeftAsleep(Apply(s, step))
  {
    hide WordAt, SharedFlag;
    if step.FutexWait? {
      SleepsExactlyWhen(s, step.t);
      SmallRemainder(s.steps - s.waiters[step.t].at);
    }
  }

  lemma SmallRemainder(d: int)
    requires 0 <= d < ROUND
    ensures d % ROUND == d
  {
  }

  /**
   Without that bound the protocol breaks exactly here: a wait that a finished broadcast
   should have ended begins its sleep after a whole number of rounds of the counter.
   */
  lemma WaitIsSafeExactlyWhen(s: State, t: Thread)
    requires Counted(s) && NoneLeftAsleep(s) && Enabled(s, FutexWait(t))
    ensures NoneLeftAsleep(Apply(s, FutexWait(t))) <==>
            (s.steps - s.waiters[t].at) % ROUND != 0
            || forall j | j in s.finished :: j < s.waiters[t].at
  {
    hide WordAt, SharedFlag;
    SleepsExactlyWhen(s, t);
    var u := Apply(s, FutexWait(t));
    assert u.waiters[t].Asleep? ==> u.waiters[t].at == s.waiters[t].at;
  }

  ghost predicate Inv(s: State) {
    Counted(s) && SameFlag(s) && NoneLeftAsleep(s)
  }

  ghost predicate Runs(s: State, steps: seq<Step>, t: State)
    decreases |steps|
  {
    if steps == [] then s == t
    else
      && Enabled(s, steps[0]) && InTime(s, steps[0])
      && Runs(Apply(s, steps[0]), steps[1..], t)
  }

  lemma {:induction false} RunsKeepInv(s: State, steps: seq<Step>, t: State)
    requires Inv(s) && Runs(s, steps, t)
    ensures Inv(t)
    decreases |steps|
  {
    if steps != [] {
      StepKeepsCounted(s, steps[0]);
      StepKeepsSameFlag(s, steps[0]);
      StepKeepsNoneLeftAsleep(s, steps[0]);
      hide Counted, SameFlag, NoneLeftAsleep;
      RunsKeepInv(Apply(s, steps[0]), steps[1..], t);
    }
  }

  ghost predicate Reachable(s: State) {
    exists start: nat, steps :: start < WORD && Runs(Initial(start), steps, s)
  }

  lemma ReachableInv(s: State)
    requires Reachable(s)
    ensures Inv(s)
  {
    var start: nat, steps :| start < WORD && Runs(Initial(start), steps, s);
    InitialHolds(start);
    RunsKeepInv(Initial(start), steps, s);
  }

  // ---- a whole round ----------------------------------------------------------------

  lemma {:induction false} RunsMore(s: State, steps: seq<Step>, t: State, step: Step)
    requires Runs(s, steps, t) && Enabled(t, step) && InTime(t, step)
    ensures Runs(s, steps + [step], Apply(t, step))
    decreases |steps|
  {
    if steps == [] {
      assert steps + [step] == [step];
      assert Runs(Apply(s, step), [], Apply(t, step));
    } else {
      assert (steps + [step])[0] == steps[0] && (steps + [step])[1..] == steps[1..] + [step];
      RunsMore(Apply(s, steps[0]), steps[1..], t, step);
    }
  }

  function FirstIndices(n: nat): (js: set<nat>)
    ensures forall j: nat :: j in js <==> j < n
  {
    if n == 0 then {} else FirstIndices(n - 1) + {n - 1}
  }

  /** Thread 0 has released the mutex in order to wait, and `n` broadcasts have been made since. */
  function AfterBroadcasts(n: nat): State {
    State(0, WordAt(0, n), n, None, map[0 := Unlocked(0, 0)], map[], FirstIndices(n))
  }

  lemma {:induction false} BroadcastsReach(n: nat) returns (steps: seq<Step>)
    ensures Runs(Initial(0), steps, AfterBroadcasts(n))
    decreases n
  {
    if n == 0 {
      var a := Initial(0);
      var b := Apply(a, Lock(0));
      var c := Apply(b, BeginWait(0));
      assert Runs(a, [], a);
      RunsMore(a, [], a, Lock(0));
      RunsMore(a, [] + [Lock(0)], b, BeginWait(0));
      steps := [] + [Lock(0)] + [BeginWait(0)];
      RunsMore(a, steps, c, ReleaseMutex(0));
      steps := steps + [ReleaseMutex(0)];
      assert Apply(c, ReleaseMutex(0)) == AfterBroadcasts(0);
    } else {
      steps := BroadcastsReach(n - 1);
      steps := OneMoreBroadcast(n - 1, steps);
    }
  }

  lemma OneMoreBroadcast(n: nat, before: seq<Step>) returns (steps: seq<Step>)
    requires Runs(Initial(0), before, AfterBroadcasts(n))
    ensures Runs(Initial(0), steps, AfterBroadcasts(n + 1))
  {
    hide Runs, WordAt;
    var a := AfterBroadcasts(n);
    var b := Apply(a, BeginWake(1, true));
    var c := Apply(b, AddStep(1));
    NextWord(0, n);
    assert Sleepers(c, c.wakers[1].shared) == {};
    RunsMore(Initial(0), before, a, BeginWake(1, true));
    steps := before + [BeginWake(1, true)];
    RunsMore(Initial(0), steps, b, AddStep(1));
    steps := steps + [AddStep(1)];
    RunsMore(Initial(0), steps, c, FutexWake(1, {}));
    steps := steps + [FutexWake(1, {})];
    var d := Apply(c, FutexWake(1, {}));
    assert d.waiters == AfterBroadcasts(n + 1).waiters;
    assert d.wakers == map[];
    assert d.finished == AfterBroadcasts(n + 1).finished;
  }

  /** 2^30 broadcasts between load and check, and the waiter goes to sleep past all of them. */
  lemma WrapAroundExample()
    ensures var s := AfterBroadcasts(ROUND);
            && Reachable(s) && Enabled(s, FutexWait(0)) && ROUND - 1 in s.finished
            && Apply(s, FutexWait(0)).waiters[0].Asleep?
            && !NoneLeftAsleep(Apply(s, FutexWait(0)))
  {
    hide WordAt, Runs;
    var steps := BroadcastsReach(ROUND);
    var s := AfterBroadcasts(ROUND);
    assert Reachable(s);
    ReachableInv(s);
    SleepsExactlyWhen(s, 0);
    var u := Apply(s, FutexWait(0));
    assert 0 in u.waiters && ROUND - 1 in u.finished && u.waiters[0].at == 0;
  }

  // ---- theorems ---------------------------------------------------------------------

  /**
   Once a broadcast has done its wake call, no waiter that loaded the word before the
   broadcast's step is asleep, and none of them can fall asleep any more.
   */
  lemma BroadcastWakesAll(s: State, j: nat, t: Thread)
    requires Reachable(s) && j in s.finished
    requires t in s.waiters && InWait(s.waiters[t]) && s.waiters[t].at <= j
    ensures !s.waiters[t].Asleep?
    ensures s.waiters[t].Unlocked? && InTime(s, FutexWait(t)) ==>
              Apply(s, FutexWait(t)).waiters[t].Relocking?
  {
    ReachableInv(s);
    if s.waiters[t].Unlocked? && InTime(s, FutexWait(t)) {
      SleepsExactlyWhen(s, t);
      SmallRemainder(s.steps - s.waiters[t].at);
    }
  }

  /**
   To a broadcast, giving up the mutex and going to sleep are one action: a thread that
   is anywhere in its wait when the broadcast steps the word is not in that wait's sleep
   once the broadcast has finished. If it sleeps then, it has come back and waits anew.
   */
  lemma BroadcastCoversWaiters(s: State, t: Thread, steps: seq<Step>, u: State, w: Thread)
    requires Reachable(s) && Enabled(s, AddStep(t)) && s.wakers[t].all
    requires w in s.waiters && InWait(s.waiters[w])
    requires Runs(Apply(s, AddStep(t)), steps, u) && s.steps in u.finished
    ensures w in u.waiters && u.waiters[w].Asleep? ==> u.waiters[w].at > s.waiters[w].at
  {
    ReachableInv(s);
    var s' := Apply(s, AddStep(t));
    StepKeepsCounted(s, AddStep(t));
    StepKeepsSameFlag(s, AddStep(t));
    StepKeepsNoneLeftAsleep(s, AddStep(t));
    RunsKeepInv(s', steps, u);
  }

  ghost predicate SleepsSince(s: State, w: Thread, n: nat) {
    s.steps >= n && (w in s.waiters && s.waiters[w].Asleep? ==> s.waiters[w].at >= n)
  }

  lemma StepKeepsSleepsSince(s: State, step: Step, w: Thread, n: nat)
    requires Counted(s) && SleepsSince(s, w, n) && Enabled(s, step) && InTime(s, step)
    ensures SleepsSince(Apply(s, step), w, n)
  {
    hide WordAt, SharedFlag;
    if step == FutexWait(w) {
      SleepsExactlyWhen(s, w);
      SmallRemainder(s.steps - s.waiters[w].at);
    }
  }

  lemma {:induction false} RunsKeepSleepsSince(s: State, steps: seq<Step>, u: State, w: Thread, n: nat)
    requires Counted(s) && SleepsSince(s, w, n) && Runs(s, steps, u)
    ensures SleepsSince(u, w, n)
    decreases |steps|
  {
    hide Counted, SleepsSince, Enabled, Apply;
    if steps != [] {
      StepKeepsCounted(s, steps[0]);
      StepKeepsSleepsSince(s, steps[0], w, n);
      RunsKeepSleepsSince(Apply(s, steps[0]), steps[1..], u, w, n);
    }
  }

  /**
   A signal is not missed either: a thread that has begun its wait, but does not sleep yet,
   when signal or broadcast steps the word, does not fall asleep in that wait any more.
   */
  lemma SignalCoversWaiters(s: State, t: Thread, steps: seq<Step>, u: State, w: Thread)
    requires Reachable(s) && Enabled(s, AddStep(t)) && Runs(Apply(s, AddStep(t)), steps, u)
    requires w in s.waiters && (s.waiters[w].Loaded? || s.waiters[w].Unlocked?)
    ensures w in u.waiters && u.waiters[w].Asleep? ==> u.waiters[w].at > s.waiters[w].at
  {
    ReachableInv(s);
    StepKeepsCounted(s, AddStep(t));
    RunsKeepSleepsSince(Apply(s, AddStep(t)), steps, u, w, s.steps + 1);
  }

  /** A signal wakes exactly one sleeping thread if there is one, whichever flag is set. */
  lemma SignalWakesOne(s: State, t: Thread, chosen: set<Thread>)
    requires Reachable(s) && Enabled(s, FutexWake(t, chosen)) && !s.wakers[t].all
    ensures chosen <= s.waiters.Keys
    ensures (exists w :: w in s.waiters && s.waiters[w].Asleep?) <==> |chosen| == 1
    ensures forall w | w in s.waiters ::
              Apply(s, FutexWake(t, chosen)).waiters[w] ==
              if w in chosen then Relocking else s.waiters[w]
  {
    ReachableInv(s);
    var asleep := Sleepers(s, s.wakers[t].shared);
    if w :| w in s.waiters && s.waiters[w].Asleep? {
      assert w in asleep;
    }
  }

  /** A waiter returns only with the mutex, and a waiter that still holds it is alone. */
  lemma WaitReturnsWithMutex(s: State, step: Step, t: Thread)
    requires Reachable(s) && Enabled(s, step) && t in s.waiters && t !in Apply(s, step).waiters
    ensures Apply(s, step).mutex == Some(t)
  {
    ReachableInv(s);
  }
}
