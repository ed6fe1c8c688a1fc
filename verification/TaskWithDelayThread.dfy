/**
 The worker thread that coalesces requests to run a function, as a transition system.
 A step is what happens between two releases of the mutex, or between two points at
 which another thread can come in. Any number of threads make requests.
 */
module TaskWithDelayThread {

  datatype WorkerPc =
    | Starting                 // created, wants the mutex
    | Checking                 // at the loop condition, holds the mutex
    | Waiting                  // in wait_for, the mutex is released
    | Woken                    // the wait is over, wants the mutex
    | Claimed                  // flags cleared, mutex released, function not yet called
    | Running                  // inside the function
    | Returned                 // back from the function, wants the mutex
    | Leaving                  // `running` is false, still holds the mutex
    | Unwinding                // past its last use of the mutex
    | Exited

  datatype Mutex = Free | ByWorker | ByRequester

  /** A call of terminate under way, or the last one over and no request since; `Open` otherwise. */
  datatype Terminate = Open | Joining | Done

  datatype Mark = Request | Start

  /**
   `workers` are all threads ever started; the handle `thread` is the last of them.
   `notifications` counts notify_all calls that are still to come.
   */
  datatype State = State(
    mutex: Mutex, running: bool, hasPendingTask: bool, runImmediately: bool, stopping: bool,
    workers: seq<WorkerPc>, notifications: nat, terminate: Terminate, log: seq<Mark>)

  const Initial := State(Free, false, false, false, false, [], 0, Open, [])

  datatype Step =
    | RequestRun(immediate: bool)
    | JoinFinished
    | Worker
    | Wake
    | Notify
    | TerminateSet
    | TerminateJoined

  function Last(s: State): WorkerPc
    requires s.workers != []
  {
    s.workers[|s.workers| - 1]
  }

  function Move(s: State, pc: WorkerPc): State
    requires s.workers != []
  {
    s.(workers := s.workers[|s.workers| - 1 := pc])
  }

  predicate Wants(pc: WorkerPc) { pc.Starting? || pc.Woken? || pc.Returned? }

  /** A request here would use the thread handle while terminate joins it. */
  predicate RequestRaces(s: State) { s.terminate.Joining? && !s.running }

  predicate Enabled(s: State, step: Step) {
    match step
    case RequestRun(_) => s.mutex.Free? && !RequestRaces(s)
    case JoinFinished => s.mutex.ByRequester? && s.workers != [] && Last(s).Exited?
    case Worker =>
      && s.workers != [] && !Last(s).Exited? && !Last(s).Waiting?
      && (Wants(Last(s)) ==> s.mutex.Free?)
    case Wake => s.workers != [] && Last(s).Waiting?
    case Notify => s.notifications > 0
    case TerminateSet => s.mutex.Free? && !s.terminate.Joining?
    case TerminateJoined => s.terminate.Joining? && (s.workers == [] || Last(s).Exited?)
  }

  /** The next thing the worker does, by the point it has reached. */
  function WorkerStep(s: State): State
    requires Enabled(s, Worker)
  {
    match Last(s)
    case Starting => Move(s, Checking).(mutex := ByWorker)
    case Returned => Move(s, Checking).(mutex := ByWorker)
    case Checking =>
      if !s.hasPendingTask then Move(s, Leaving).(running := false)
      else if !s.runImmediately && !s.stopping then Move(s, Waiting).(mutex := Free)
      else Move(s, Claimed).(mutex := Free, hasPendingTask := false, runImmediately := false)
    case Woken => Move(s, Claimed).(hasPendingTask := false, runImmediately := false)
    case Claimed => Move(s, Running).(log := s.log + [Start])
    case Running => Move(s, Returned)
    case Leaving => Move(s, Unwinding).(mutex := Free)
    case Unwinding => Move(s, Exited)
  }

  function Apply(s: State, step: Step): State
    requires Enabled(s, step)
  {
    match step
    case RequestRun(immediate) =>
      var t := s.(hasPendingTask := true, runImmediately := s.runImmediately || immediate,
                  running := true, log := s.log + [Request]);
      if s.running then t.(notifications := s.notifications + if immediate then 1 else 0)
      else if s.workers == [] || s.terminate.Done? then t.(workers := s.workers + [Starting], terminate := Open)
      else t.(mutex := ByRequester)
    case JoinFinished => s.(workers := s.workers + [Starting], mutex := Free)
    case Worker => WorkerStep(s)
    case Wake => Move(s, Woken)
    case Notify =>
      var t := s.(notifications := s.notifications - 1);
      if s.workers != [] && Last(s).Waiting? then Move(t, Woken) else t
    case TerminateSet =>
      s.(runImmediately := true, stopping := true, notifications := s.notifications + 1,
         terminate := Joining)
    case TerminateJoined => s.(terminate := Done)
  }

  // ---- what every step keeps --------------------------------------------------------

  function Count(log: seq<Mark>, m: Mark): nat {
    if log == [] then 0 else (if log[|log| - 1] == m then 1 else 0) + Count(log[..|log| - 1], m)
  }

  predicate IsClaimed(s: State) { s.workers != [] && Last(s).Claimed? }

  /** All but the last worker are gone. */
  ghost predicate OneWorker(s: State) {
    forall i | 0 <= i < |s.workers| - 1 :: s.workers[i].Exited?
  }

  /** The last worker is, or soon will be, out of its loop. */
  predicate OutOfLoop(s: State) {
    s.workers == [] || Last(s).Leaving? || Last(s).Unwinding? || Last(s).Exited?
  }

  /** Who holds the mutex, and what `running` says about the worker. */
  ghost predicate Ownership(s: State) {
    && (s.mutex.ByWorker? <==> s.workers != [] && (Last(s).Checking? || Last(s).Leaving?))
    && (s.mutex.ByRequester? ==>
          s.running && s.workers != [] && (Last(s).Unwinding? || Last(s).Exited?) && s.terminate.Open?)
    && (s.running <==> s.mutex.ByRequester? || !OutOfLoop(s))
    && (s.hasPendingTask ==> s.running)
  }

  /** Requests against starts. */
  ghost predicate Ledger(s: State) {
    && (!s.hasPendingTask && !IsClaimed(s) ==> s.log == [] || s.log[|s.log| - 1] == Start)
    && Count(s.log, Start) + (if s.hasPendingTask then 1 else 0) + (if IsClaimed(s) then 1 else 0)
       <= Count(s.log, Request)
    && (s.workers != [] && (Last(s).Waiting? || Last(s).Woken?) ==> s.hasPendingTask)
  }

  /** A worker that should not wait any more is about to be notified. */
  ghost predicate Notified(s: State) {
    && (s.workers != [] && Last(s).Waiting? && (s.runImmediately || s.stopping) ==> s.notifications > 0)
    && (s.stopping || s.terminate.Open?)
    && (s.terminate.Done? ==> s.workers == [] || Last(s).Exited?)
  }

  ghost predicate Inv(s: State) {
    OneWorker(s) && Ownership(s) && Ledger(s) && Notified(s)
  }

  lemma CountMore(log: seq<Mark>, m: Mark)
    ensures forall k :: Count(log + [m], k) == Count(log, k) + if k == m then 1 else 0
  {
    assert (log + [m])[..|log|] == log;
  }

  lemma WorkerKeepsLedger(s: State)
    requires Ledger(s) && Ownership(s) && Enabled(s, Worker)
    ensures Ledger(WorkerStep(s))
  {
    hide Count;
    CountMore(s.log, Start);
  }

  lemma WorkerKeepsInv(s: State)
    requires Inv(s) && Enabled(s, Worker)
    ensures Inv(WorkerStep(s))
  {
    hide Ledger;
    WorkerKeepsLedger(s);
  }

  lemma RequestKeepsInv(s: State, immediate: bool)
    requires Inv(s) && Enabled(s, RequestRun(immediate))
    ensures Inv(Apply(s, RequestRun(immediate)))
  {
    hide Count;
    CountMore(s.log, Request);
  }

  lemma StepKeepsInv(s: State, step: Step)
    requires Inv(s) && Enabled(s, step)
    ensures Inv(Apply(s, step))
  {
    hide Count;
    match step
    case RequestRun(immediate) => RequestKeepsInv(s, immediate);
    case Worker => WorkerKeepsInv(s);
    case _ =>
  }

  ghost predicate Runs(s: State, steps: seq<Step>, t: State)
    decreases |steps|
  {
    if steps == [] then s == t
    else Enabled(s, steps[0]) && Runs(Apply(s, steps[0]), steps[1..], t)
  }

  lemma {:induction false} RunsKeepInv(s: State, steps: seq<Step>, t: State)
    requires Inv(s) && Runs(s, steps, t)
    ensures Inv(t)
    decreases |steps|
  {
    hide Inv;
    if steps != [] {
      StepKeepsInv(s, steps[0]);
      RunsKeepInv(Apply(s, steps[0]), steps[1..], t);
    }
  }

  ghost predicate Reachable(t: State) {
    exists steps :: Runs(Initial, steps, t)
  }

  lemma ReachableInv(t: State)
    requires Reachable(t)
    ensures Inv(t)
  {
    var steps :| Runs(Initial, steps, t);
    RunsKeepInv(Initial, steps, t);
  }

  lemma {:induction false} RunsMore(s: State, steps: seq<Step>, t: State, step: Step)
    requires Runs(s, steps, t) && Enabled(t, step)
    ensures Runs(s, steps + [step], Apply(t, step))
    decreases |steps|
  {
    hide Enabled, Apply;
    if steps == [] {
      assert Runs(Apply(t, step), [], Apply(t, step));
      assert steps + [step] == [step];
    } else {
      RunsMore(Apply(s, steps[0]), steps[1..], t, step);
      assert (steps + [step])[1..] == steps[1..] + [step];
    }
  }

  lemma ReachableStep(s: State, step: Step) returns (t: State)
    requires Reachable(s) && Enabled(s, step)
    ensures t == Apply(s, step) && Reachable(t)
  {
    var steps :| Runs(Initial, steps, s);
    RunsMore(Initial, steps, s, step);
    t := Apply(s, step);
  }

  // ---- theorems ---------------------------------------------------------------------

  /**
   No request is lost, and none is counted twice: once no worker runs, the last start
   comes after the last request, and there never are more starts than requests.
   */
  lemma NoRequestIsLost(t: State)
    requires Reachable(t)
    ensures !t.running ==> t.log == [] || t.log[|t.log| - 1] == Start
    ensures Count(t.log, Start) <= Count(t.log, Request)
  {
    ReachableInv(t);
  }

  /** The function is never run by two threads at a time. */
  lemma AtMostOneRuns(t: State, i: nat, j: nat)
    requires Reachable(t) && i < |t.workers| && j < |t.workers|
    requires t.workers[i].Running? && t.workers[j].Running?
    ensures i == j
  {
    ReachableInv(t);
  }

  /**
   The join made while holding the mutex cannot block: the worker it waits for has
   already ended, or its own next step, which needs no mutex, ends it.
   */
  lemma JoinCannotBlock(t: State)
    requires Reachable(t) && t.mutex.ByRequester?
    ensures t.workers != []
    ensures if Last(t).Exited? then Enabled(t, JoinFinished)
            else Enabled(t, Worker) && Enabled(Apply(t, Worker), JoinFinished)
  {
    ReachableInv(t);
  }

  /** Whoever holds the mutex can always go on, and gives it back within two steps. */
  lemma MutexIsReleased(t: State)
    requires Reachable(t) && !t.mutex.Free?
    ensures var step := if t.mutex.ByRequester? && t.workers != [] && Last(t).Exited?
                        then JoinFinished else Worker;
            && Enabled(t, step)
            && var u := Apply(t, step);
               u.mutex.Free? || (u.workers != [] && var step' := if u.mutex.ByRequester? then JoinFinished else Worker;
                 Enabled(u, step') && Apply(u, step').mutex.Free?)
  {
    ReachableInv(t);
  }

  // ---- the delay --------------------------------------------------------------------

  function Wakes(steps: seq<Step>): nat {
    if steps == [] then 0 else (if steps[0].Wake? then 1 else 0) + Wakes(steps[1..])
  }

  /**
   How many starts a step can bring about. The end of a wait brings one, a request after
   terminate one, and terminate itself one. An immediate request brings one, and a second
   one if its notification comes late and ends the next wait.
   */
  function Allows(s: State, step: Step): nat {
    match step
    case Wake => 1
    case RequestRun(immediate) =>
      if s.stopping then 1 else if !immediate then 0 else if s.running then 2 else 1
    case TerminateSet => if s.stopping then 0 else 1
    case _ => 0
  }

  function Allowance(s: State, steps: seq<Step>): nat
    decreases |steps|
  {
    if steps == [] || !Enabled(s, steps[0]) then 0
    else Allows(s, steps[0]) + Allowance(Apply(s, steps[0]), steps[1..])
  }

  /** Starts, and those that need no further wait. */
  function Due(s: State): nat {
    var woken := s.workers != [] && Last(s).Woken?;
    Count(s.log, Start)
    + (if woken || IsClaimed(s) then 1 else 0)
    + if s.stopping then (if s.hasPendingTask && !woken then 1 else 0)
      else (if s.runImmediately then 1 else 0) + s.notifications
  }

  lemma StepIsAllowed(s: State, step: Step)
    requires Inv(s) && Enabled(s, step)
    ensures Due(Apply(s, step)) <= Due(s) + Allows(s, step)
  {
    hide Count, Inv, Due;
    match step
    case Worker => WorkerIsAllowed(s);
    case RequestRun(immediate) => RequestIsAllowed(s, immediate);
    case _ => OtherStepIsAllowed(s, step);
  }

  lemma WorkerIsAllowed(s: State)
    requires Inv(s) && Enabled(s, Worker)
    ensures Due(WorkerStep(s)) <= Due(s)
  {
    hide Count;
    CountMore(s.log, Start);
  }

  lemma RequestIsAllowed(s: State, immediate: bool)
    requires Inv(s) && Enabled(s, RequestRun(immediate))
    ensures Due(Apply(s, RequestRun(immediate))) <= Due(s) + Allows(s, RequestRun(immediate))
  {
    hide Count;
    CountMore(s.log, Request);
  }

  lemma OtherStepIsAllowed(s: State, step: Step)
    requires Inv(s) && Enabled(s, step) && !step.Worker? && !step.RequestRun?
    ensures Due(Apply(s, step)) <= Due(s) + Allows(s, step)
  {
    hide Count;
  }

  lemma {:induction false} RunIsAllowed(s: State, steps: seq<Step>, t: State)
    requires Inv(s) && Runs(s, steps, t)
    ensures Due(t) <= Due(s) + Allowance(s, steps)
    decreases |steps|
  {
    hide Inv, Due, Allows;
    if steps != [] {
      StepKeepsInv(s, steps[0]);
      StepIsAllowed(s, steps[0]);
      RunIsAllowed(Apply(s, steps[0]), steps[1..], t);
    }
  }

  /** Every start has been waited for, or been asked for without a wait. */
  lemma StartsAreAllowed(steps: seq<Step>, t: State)
    requires Runs(Initial, steps, t)
    ensures Count(t.log, Start) <= Allowance(Initial, steps)
  {
    RunIsAllowed(Initial, steps, t);
  }

  /** Without immediate requests and without terminate, the function starts at most once for each wait that ends. */
  lemma DelayIsWaitedOut(steps: seq<Step>, t: State)
    requires Runs(Initial, steps, t)
    requires forall step | step in steps :: step != RequestRun(true) && step != TerminateSet
    ensures Count(t.log, Start) <= Wakes(steps)
  {
    StartsAreAllowed(steps, t);
    OnlyWakesAllow(Initial, steps, t);
  }

  lemma {:induction false} OnlyWakesAllow(s: State, steps: seq<Step>, t: State)
    requires Runs(s, steps, t) && !s.stopping
    requires forall step | step in steps :: step != RequestRun(true) && step != TerminateSet
    ensures Allowance(s, steps) == Wakes(steps)
    decreases |steps|
  {
    if steps != [] {
      assert steps[0] in steps && forall step | step in steps[1..] :: step in steps;
      OnlyWakesAllow(Apply(s, steps[0]), steps[1..], t);
    }
  }

  /** A worker that goes on to the function takes all requests with it, also that for haste, and frees the mutex. */
  lemma ClaimTakesAllRequests(s: State)
    requires Inv(s) && Enabled(s, Worker) && IsClaimed(WorkerStep(s))
    ensures var t := WorkerStep(s); !t.hasPendingTask && !t.runImmediately && t.log == s.log
    ensures s.mutex.ByWorker? ==> WorkerStep(s).mutex.Free?
  {
  }

  /** An immediate request has been made and not been followed by a start yet. */
  ghost predicate Hurried(s: State) {
    s.runImmediately || IsClaimed(s) || (s.workers != [] && Last(s).Woken?)
  }

  lemma StepKeepsHurried(s: State, step: Step)
    requires Inv(s) && Hurried(s) && Enabled(s, step)
    ensures Hurried(Apply(s, step)) || Apply(s, step).log == s.log + [Start]
    ensures s.workers != [] && Last(s).Checking? ==> !Last(Apply(s, step)).Waiting?
  {
    hide Count;
  }

  lemma {:induction false} RunKeepsHurried(s: State, steps: seq<Step>, t: State)
    requires Inv(s) && Hurried(s) && Runs(s, steps, t)
    ensures Count(t.log, Start) >= Count(s.log, Start)
    ensures Count(t.log, Start) == Count(s.log, Start) ==> Hurried(t)
    decreases |steps|
  {
    hide Inv, Hurried, Count, Enabled, Apply;
    if steps != [] {
      StepKeepsInv(s, steps[0]);
      StepKeepsHurried(s, steps[0]);
      CountGrows(s, steps[0]);
      if Hurried(Apply(s, steps[0])) {
        RunKeepsHurried(Apply(s, steps[0]), steps[1..], t);
      } else {
        RunCounts(Apply(s, steps[0]), steps[1..], t);
      }
    }
  }

  lemma CountGrows(s: State, step: Step)
    requires Enabled(s, step)
    ensures Count(Apply(s, step).log, Start) >= Count(s.log, Start)
    ensures Apply(s, step).log == s.log + [Start] ==> Count(Apply(s, step).log, Start) > Count(s.log, Start)
  {
    hide Count, Enabled, Apply;
    LogGrows(s, step);
    CountMore(s.log, Start);
    CountMore(s.log, Request);
  }

  lemma LogGrows(s: State, step: Step)
    requires Enabled(s, step)
    ensures var log := Apply(s, step).log;
            log == s.log || log == s.log + [Start] || log == s.log + [Request]
  {
    hide WorkerStep;
    if step.Worker? { WorkerLogs(s); }
  }

  lemma WorkerLogs(s: State)
    requires Enabled(s, Worker)
    ensures WorkerStep(s).log == s.log + if IsClaimed(s) then [Start] else []
  {
  }

  lemma {:induction false} RunCounts(s: State, steps: seq<Step>, t: State)
    requires Runs(s, steps, t)
    ensures Count(t.log, Start) >= Count(s.log, Start)
    decreases |steps|
  {
    hide Count, Enabled, Apply;
    if steps != [] {
      CountGrows(s, steps[0]);
      RunCounts(Apply(s, steps[0]), steps[1..], t);
    }
  }

  /**
   From an immediate request to the next start no worker begins to wait, and one that was
   waiting has a notification coming that wakes it.
   */
  lemma ImmediateIsNotDelayed(s: State, steps: seq<Step>, t: State)
    requires Reachable(s) && Enabled(s, RequestRun(true)) && Runs(Apply(s, RequestRun(true)), steps, t)
    requires Count(t.log, Start) == Count(s.log, Start)
    ensures WaitEnds(t) && !BeginsToWait(t)
  {
    hide Count, Enabled, Hurried, Inv, WaitEnds, BeginsToWait;
    var u := Apply(s, RequestRun(true));
    ReachableInv(s);
    StepKeepsInv(s, RequestRun(true));
    CountMore(s.log, Request);
    RequestIsHurried(s);
    RunKeepsHurried(u, steps, t);
    RunsKeepInv(u, steps, t);
    HurriedDoesNotWait(t);
  }

  lemma RequestIsHurried(s: State)
    requires Enabled(s, RequestRun(true))
    ensures var u := Apply(s, RequestRun(true)); Hurried(u) && u.log == s.log + [Request]
  {
  }

  lemma HurriedDoesNotWait(t: State)
    requires Inv(t) && Hurried(t)
    ensures WaitEnds(t) && !BeginsToWait(t)
  {
    hide Count;
  }

  /** A worker that waits has a notification coming that wakes it. */
  predicate WaitEnds(s: State) {
    s.workers != [] && Last(s).Waiting? ==> Enabled(s, Notify) && Last(Apply(s, Notify)).Woken?
  }

  predicate BeginsToWait(s: State) {
    Enabled(s, Worker) && Last(WorkerStep(s)).Waiting?
  }

  /** A run with a step put in front of it. */
  lemma Prepended(s: State, step: Step, rest: seq<Step>, t: State, wakes: nat, allowance: nat) returns (steps: seq<Step>)
    requires Enabled(s, step) && LeadsTo(Apply(s, step), rest, t, wakes, allowance)
    requires step != TerminateSet
    ensures LeadsTo(s, steps, t, wakes + (if step.Wake? then 1 else 0), allowance + Allows(s, step))
  {
    hide Apply, Enabled, Allows;
    steps := [step] + rest;
    assert steps[0] == step && steps[1..] == rest;
  }

  ghost predicate LeadsTo(s: State, steps: seq<Step>, t: State, wakes: nat, allowance: nat) {
    Runs(s, steps, t) && TerminateSet !in steps && Wakes(steps) == wakes && Allowance(s, steps) == allowance
  }

  /** Two immediate requests and three starts without a wait: the bound is reached. */
  lemma LateNotificationExample() returns (steps: seq<Step>, t: State)
    ensures Runs(Initial, steps, t) && TerminateSet !in steps && Wakes(steps) == 0
    ensures Count(t.log, Start) == 3 == Allowance(Initial, steps)
  {
    t := InFunction(0, [Request, Start, Request, Start, Request, Start]);
    ThreeStarts();
    assert LeadsTo(t, [], t, 0, 0);
    hide LeadsTo;
    steps := LateRun([], t, 0);
    steps := SecondRun(steps, t, 0);
    steps := FirstRun(steps, t, 2);
    assert Initial == State(Free, false, false, false, false, [], 0, Open, []);
    LeadsToMeans(Initial, steps, t, 0, 3);
  }

  lemma LeadsToMeans(s: State, steps: seq<Step>, t: State, wakes: nat, allowance: nat)
    requires LeadsTo(s, steps, t, wakes, allowance)
    ensures Runs(s, steps, t) && TerminateSet !in steps && Wakes(steps) == wakes && Allowance(s, steps) == allowance
  {
  }

  lemma ThreeStarts()
    ensures Count([Request, Start, Request, Start, Request, Start], Start) == 3
  {
    assert Count([Request], Start) == 0;
    CountMore([Request], Start);
    CountMore([Request] + [Start], Request);
    CountMore([Request] + [Start] + [Request], Start);
    CountMore([Request] + [Start] + [Request] + [Start], Request);
    CountMore([Request] + [Start] + [Request] + [Start] + [Request], Start);
    assert [Request] + [Start] + [Request] + [Start] + [Request] + [Start] == [Request, Start, Request, Start, Request, Start];
  }

  /** Inside the function, with nothing more to do. */
  function InFunction(notifications: nat, log: seq<Mark>): State {
    State(Free, true, false, false, false, [Running], notifications, Open, log)
  }

  lemma FirstRun(rest: seq<Step>, t: State, allowance: nat) returns (steps: seq<Step>)
    requires LeadsTo(InFunction(0, [Request, Start]), rest, t, 0, allowance)
    ensures LeadsTo(Initial, steps, t, 0, allowance + 1)
  {
    hide LeadsTo;
    var s1 := Apply(Initial, RequestRun(true));
    var s2 := Apply(s1, Worker);
    var s3 := Apply(s2, Worker);
    assert Apply(s3, Worker) == InFunction(0, [Request, Start]);
    steps := Prepended(s3, Worker, rest, t, 0, allowance);
    steps := Prepended(s2, Worker, steps, t, 0, allowance);
    steps := Prepended(s1, Worker, steps, t, 0, allowance);
    steps := Prepended(Initial, RequestRun(true), steps, t, 0, allowance);
  }

  /** The worker does not wait, and the notification is still to come. */
  lemma SecondRun(rest: seq<Step>, t: State, allowance: nat) returns (steps: seq<Step>)
    requires LeadsTo(InFunction(1, [Request, Start, Request, Start]), rest, t, 0, allowance)
    ensures LeadsTo(InFunction(0, [Request, Start]), steps, t, 0, allowance + 2)
  {
    hide LeadsTo;
    var s0 := InFunction(0, [Request, Start]);
    var s1 := Apply(s0, RequestRun(true));
    var s2 := Apply(s1, Worker);
    var s3 := Apply(s2, Worker);
    var s4 := Apply(s3, Worker);
    assert Apply(s4, Worker) == InFunction(1, [Request, Start, Request, Start]);
    steps := Prepended(s4, Worker, rest, t, 0, allowance);
    steps := Prepended(s3, Worker, steps, t, 0, allowance);
    steps := Prepended(s2, Worker, steps, t, 0, allowance);
    steps := Prepended(s1, Worker, steps, t, 0, allowance);
    steps := Prepended(s0, RequestRun(true), steps, t, 0, allowance);
  }

  /** The notification ends the wait for a request that was not immediate. */
  lemma LateRun(rest: seq<Step>, t: State, allowance: nat) returns (steps: seq<Step>)
    requires LeadsTo(InFunction(0, [Request, Start, Request, Start, Request, Start]), rest, t, 0, allowance)
    ensures LeadsTo(InFunction(1, [Request, Start, Request, Start]), steps, t, 0, allowance)
  {
    hide LeadsTo;
    var s0 := InFunction(1, [Request, Start, Request, Start]);
    var s1 := Apply(s0, RequestRun(false));
    var s2 := Apply(s1, Worker);
    var s3 := Apply(s2, Worker);
    assert Apply(s3, Worker) == WaitingBehind([Request, Start, Request, Start, Request]);
    steps := NotifiedRun(rest, t, allowance);
    steps := Prepended(s3, Worker, steps, t, 0, allowance);
    steps := Prepended(s2, Worker, steps, t, 0, allowance);
    steps := Prepended(s1, Worker, steps, t, 0, allowance);
    steps := Prepended(s0, RequestRun(false), steps, t, 0, allowance);
  }

  function WaitingBehind(log: seq<Mark>): State {
    State(Free, true, true, false, false, [Waiting], 1, Open, log)
  }

  lemma NotifiedRun(rest: seq<Step>, t: State, allowance: nat) returns (steps: seq<Step>)
    requires LeadsTo(InFunction(0, [Request, Start, Request, Start, Request, Start]), rest, t, 0, allowance)
    ensures LeadsTo(WaitingBehind([Request, Start, Request, Start, Request]), steps, t, 0, allowance)
  {
    hide LeadsTo;
    var s4 := WaitingBehind([Request, Start, Request, Start, Request]);
    var s5 := Apply(s4, Notify);
    var s6 := Apply(s5, Worker);
    assert Apply(s6, Worker) == InFunction(0, [Request, Start, Request, Start, Request, Start]);
    steps := Prepended(s6, Worker, rest, t, 0, allowance);
    steps := Prepended(s5, Worker, steps, t, 0, allowance);
    steps := Prepended(s4, Notify, steps, t, 0, allowance);
  }

  /** An immediate request, or terminate, never leaves the worker to sleep its delay out. */
  lemma ImmediateRunIsNotified(t: State)
    requires Reachable(t) && t.workers != [] && Last(t).Waiting? && (t.runImmediately || t.stopping)
    ensures Enabled(t, Notify) && Last(Apply(t, Notify)).Woken?
  {
    ReachableInv(t);
  }

  /**
   After terminate every request made has been followed by a start, and no thread is left;
   also when requests came after an earlier terminate, which the worker of another task makes.
   */
  lemma TerminateDrains(t: State)
    requires Reachable(t) && t.terminate.Done?
    ensures forall i | 0 <= i < |t.workers| :: t.workers[i].Exited?
    ensures t.log == [] || t.log[|t.log| - 1] == Start
  {
    ReachableInv(t);
  }

  /**
   The one request that is no step: the worker is past its last look at the flags, and
   terminate and the request both join its thread.
   */
  lemma RequestRacesExample() returns (s: State)
    ensures Reachable(s) && s.mutex.Free? && RequestRaces(s) && s.workers != [] && !Last(s).Exited?
  {
    hide Reachable, Runs;
    s := StoppedRunExample();
    s := ReachableStep(s, Worker);
    s := ReachableStep(s, Worker);
    s := ReachableStep(s, Worker);
    s := ReachableStep(s, Worker);
  }

  lemma StoppedRunExample() returns (s: State)
    ensures Reachable(s)
    ensures s == State(Free, true, false, false, true, [Running], 1, Joining, [Request, Start])
  {
    hide Reachable;
    s := Initial;
    assert Reachable(s) by { InitialIsReachable(); }
    s := ReachableStep(s, RequestRun(true));
    s := ReachableStep(s, TerminateSet);
    s := ReachableStep(s, Worker);
    s := ReachableStep(s, Worker);
    s := ReachableStep(s, Worker);
  }

  lemma InitialIsReachable()
    ensures Reachable(Initial)
  {
    assert Runs(Initial, [], Initial);
  }
}
