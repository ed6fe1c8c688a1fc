/**
 pthread_once: a control word that goes from 0 to 1 to 2, with any number of threads.
 */
module Once {

  type Thread = nat

  datatype Pc =
    | Chosen                   // swapped 0 for 1, routine not yet called
    | InRoutine
    | AfterRoutine             // routine done, control word not yet 2
    | Spinning
    | Returned

  /** `started` and `finished` count the calls of the routine and its returns. */
  datatype State = State(control: nat, threads: map<Thread, Pc>, started: nat, finished: nat)

  const Initial := State(0, map[], 0, 0)

  datatype Step =
    | Call(t: Thread)          // the compare-and-swap, and the test of what it found
    | Begin(t: Thread)
    | End(t: Thread)
    | Publish(t: Thread)
    | Spin(t: Thread)

  predicate Enabled(s: State, step: Step) {
    match step
    case Call(t) => t !in s.threads || s.threads[t].Returned?
    case Begin(t) => t in s.threads && s.threads[t].Chosen?
    case End(t) => t in s.threads && s.threads[t].InRoutine?
    case Publish(t) => t in s.threads && s.threads[t].AfterRoutine?
    case Spin(t) => t in s.threads && s.threads[t].Spinning?
  }

  function Apply(s: State, step: Step): State
    requires Enabled(s, step)
  {
    match step
    case Call(t) =>
      if s.control == 0 then s.(control := 1, threads := s.threads[t := Chosen])
      else if s.control == 2 then s.(threads := s.threads[t := Returned])
      else s.(threads := s.threads[t := Spinning])
    case Begin(t) => s.(started := s.started + 1, threads := s.threads[t := InRoutine])
    case End(t) => s.(finished := s.finished + 1, threads := s.threads[t := AfterRoutine])
    case Publish(t) => s.(control := 2, threads := s.threads[t := Returned])
    case Spin(t) => if s.control == 1 then s else s.(threads := s.threads[t := Returned])
  }

  predicate Runner(pc: Pc) { pc.Chosen? || pc.InRoutine? || pc.AfterRoutine? }

  ghost predicate Inv(s: State) {
    && s.control <= 2
    && (s.control == 0 ==> s.started == s.finished == 0)
    && (s.control == 2 ==> s.started == s.finished == 1)
    && (s.control == 1 <==> exists t :: t in s.threads && Runner(s.threads[t]))
    && (forall t, u | t in s.threads && u in s.threads && Runner(s.threads[t]) && Runner(s.threads[u]) :: t == u)
    && (forall t | t in s.threads ::
          match s.threads[t]
          case Chosen => s.started == s.finished == 0
          case InRoutine => s.started == 1 && s.finished == 0
          case AfterRoutine => s.started == s.finished == 1
          case Spinning => s.control > 0
          case Returned => s.control == 2)
  }

  lemma StepKeepsInv(s: State, step: Step)
    requires Inv(s) && Enabled(s, step)
    ensures Inv(Apply(s, step))
  {
    var s' := Apply(s, step);
    assert forall t | t in s.threads && t != step.t :: t in s'.threads && s'.threads[t] == s.threads[t];
    if s'.control == 1 {
      if s.control == 0 {
        assert Runner(s'.threads[step.t]);
      } else {
        var t :| t in s.threads && Runner(s.threads[t]);
        assert t in s'.threads && Runner(s'.threads[t]);
      }
    }
  }

  ghost predicate Runs(s: State, steps: seq<Step>, t: State)
    decreases |steps|
  {
    if steps == [] then s == t
    else Enabled(s, steps[0]) && Runs(Apply(s, steps[0]), steps[1..], t)
  }

  lemma {:induction false} RunsKeepInv(s: State, steps: seq<Step>, t: State)
    requires Inv(s) && Runs(s, steps, t)
    ensures Inv(t) && s.control <= t.control
    decreases |steps|
  {
    if steps != [] {
      StepKeepsInv(s, steps[0]);
      RunsKeepInv(Apply(s, steps[0]), steps[1..], t);
    }
  }

  ghost predicate Reachable(s: State) {
    exists steps :: Runs(Initial, steps, s)
  }

  lemma ReachableInv(s: State)
    requires Reachable(s)
    ensures Inv(s)
  {
    var steps :| Runs(Initial, steps, s);
    RunsKeepInv(Initial, steps, s);
  }

  /** The routine is called at most once, and who has returned did so after its end. */
  lemma RoutineRunsOnce(s: State)
    requires Reachable(s)
    ensures s.started <= 1
    ensures (exists t :: t in s.threads && s.threads[t].Returned?) ==> s.finished == 1
  {
    ReachableInv(s);
    if s.control == 1 {
      var t :| t in s.threads && Runner(s.threads[t]);
    }
  }

  /** The control word only goes up. */
  lemma ControlOnlyRises(s: State, steps: seq<Step>, t: State)
    requires Reachable(s) && Runs(s, steps, t)
    ensures s.control <= t.control <= 2
  {
    ReachableInv(s);
    RunsKeepInv(s, steps, t);
  }

  /** Nobody spins without cause: while a thread spins, either one thread is at the routine or its next look ends the wait. */
  lemma SpinnersAreReleased(s: State, t: Thread)
    requires Reachable(s) && t in s.threads && s.threads[t].Spinning?
    ensures Apply(s, Spin(t)).threads[t].Returned?
            || exists u :: u in s.threads && Runner(s.threads[u])
    ensures Apply(s, Spin(t)).threads[t].Returned? <==> s.finished == 1 && s.control == 2
  {
    ReachableInv(s);
  }
}
