/**
 When an upload uses a list that is not there, or the queues get stuck.
 */
module NoCrash {
  import opened Basics
  import opened EventQueue
  import opened Buffered
  import opened EventManager

  /** The fetch that finds nothing although there seemed to be something. */
  lemma CrashesExactlyWhen(s: Manager, maxCount: nat, maxSize: nat)
    requires Enabled(s, MainFetchNormal(maxCount, maxSize)) && maxCount > 0 && maxSize > 0
    ensures Apply(s, MainFetchNormal(maxCount, maxSize)).main.Crashed?
            <==> s.normal.mem == [] && (Pending(s.normal.wrapped) == [] || Stuck(s.normal.wrapped))
  {
    NullListExactlyWhen(s.normal, maxCount, maxSize);
  }

  predicate LimitsTake(m: Limits, size: nat) { m.maxSize == 0 || size <= m.maxSize }

  ghost predicate Small(ls: seq<Bytes>, size: nat) { forall l | l in ls :: |l| <= size }

  /** Every file behind the newest has events, and every event on its way to the files fits one. */
  ghost predicate Healthy(s: Manager, size: nat) {
    && Filled(s.normal.wrapped) && Filled(s.critical)
    && LimitsTake(s.normalLimits, size) && LimitsTake(s.criticalLimits, size)
    && Small(s.normal.mem, size) && Small(LinesOf(s.realtime), size) && Small(LinesOf(InTransfer(s)), size)
    && !s.main.Crashed?
  }

  /** Opened over files with events, and before anything has been added, the manager is healthy. */
  lemma StartIsHealthy(normal: Buffer, critical: Queue, realtimeLimit: nat, n: Limits, c: Limits, size: nat)
    requires Filled(normal.wrapped) && Filled(critical) && Small(normal.mem, size)
    requires LimitsTake(n, size) && LimitsTake(c, size)
    ensures Healthy(Start(normal, critical, realtimeLimit, n, c), size)
  {
    hide Filled;
    NoEventsNoLines();
  }

  predicate Modest(l: Step, size: nat) {
    match l
    case Add(e, _) => |e.line| <= size
    case ConfigureNormal(m) => LimitsTake(m, size)
    case ConfigureCritical(m) => LimitsTake(m, size)
    case MainFetchNormal(maxCount, maxSize) => maxCount > 0 && maxSize > 0
    case _ => true
  }

  lemma StoreKeepsHealthy(s: Manager, e: Event, io: Outcomes, size: nat)
    requires Healthy(s, size) && |e.line| <= size
    ensures Healthy(Store(s, e, io).0, size)
  {
    hide TryAdd, TryForward, Filled, LinesOf, Dropped;
    if e.critical {
      TryAddKeepsFilled(s.critical, e.line, s.criticalLimits, Works(io));
    } else {
      TryForwardKeepsFilled(s.normal.wrapped, s.normal.mem, s.normalLimits, io);
    }
  }

  lemma SmallParts(es: seq<Event>, k: nat, size: nat)
    requires k <= |es| && Small(LinesOf(es), size)
    ensures Small(LinesOf(es[k..]), size) && (k < |es| ==> |es[k].line| <= size)
  {
    LinesOfParts(es, k);
    if k < |es| { assert LinesOf(es)[k] in LinesOf(es); }
  }

  lemma StepKeepsHealthy(s: Manager, l: Step, size: nat)
    requires Healthy(s, size) && Enabled(s, l) && Acknowledgeable(s, l) && Modest(l, size)
    ensures Healthy(Apply(s, l), size)
  {
    hide Filled, LinesOf, FetchQueue, FetchMemory, BufferFetch, Acknowledge, Store, ListLines, Target, Taken;
    NoEventsNoLines();
    match l
    case Add(e, io) =>
      if GoesToRealtime(s, e) { LinesOfMore(s.realtime, e); } else { StoreKeepsHealthy(s, e, io, size); }
    case MainFetchCritical(maxCount, maxSize) => FetchKeepsFilled(s.critical, maxCount, maxSize);
    case MainFetchOne => FetchKeepsFilled(s.critical, 1, SIZE_MAX);
    case MainFetchNormal(maxCount, maxSize) => NormalFetchKeepsHealthy(s, maxCount, maxSize, size);
    case MainAnswer(success) => if success { AnswerKeepsFilled(s); }
    case MainDrop => AcknowledgeKeepsFilled(s.critical, s.main.list);
    case RealtimeAnswer(success) => if success { SmallParts(s.realtime, s.rt.list.count, size); }
    case RealtimeDrop => SmallParts(s.realtime, s.rt.list.count, size);
    case TransferOne(io) => TransferKeepsHealthy(s, io, size);
    case _ =>
  }

  lemma TransferKeepsHealthy(s: Manager, io: Outcomes, size: nat)
    requires Healthy(s, size) && Enabled(s, TransferOne(io))
    ensures Healthy(Apply(s, TransferOne(io)), size)
  {
    hide Filled, LinesOf, Store;
    NoEventsNoLines();
    if s.rt.rest != [] {
      SmallParts(s.rt.rest, 0, size);
      SmallParts(s.rt.rest, 1, size);
      StoreKeepsHealthy(s, s.rt.rest[0], io, size);
    }
  }

  lemma NormalFetchKeepsHealthy(s: Manager, maxCount: nat, maxSize: nat, size: nat)
    requires Healthy(s, size) && Enabled(s, MainFetchNormal(maxCount, maxSize))
    requires maxCount > 0 && maxSize > 0
    ensures Healthy(Apply(s, MainFetchNormal(maxCount, maxSize)), size)
  {
    hide LinesOf, FetchMemory, Pending, FetchQueue;
    CrashesExactlyWhen(s, maxCount, maxSize);
    FetchKeepsFilled(s.normal.wrapped, maxCount, maxSize);
    if EventQueue.HasEvents(s.normal.wrapped) { FilledHasPending(s.normal.wrapped); }
  }

  lemma AnswerKeepsFilled(s: Manager)
    requires Enabled(s, MainAnswer(true)) && Acknowledgeable(s, MainAnswer(true)) && Filled(s.normal.wrapped) && Filled(s.critical)
    ensures s.main.CriticalSending? ==> Filled(Acknowledge(s.critical, s.main.list))
    ensures s.main.NormalSending? ==>
              && Filled(BufferUploaded(s.normal, s.main.blist).wrapped)
              && forall l | l in BufferUploaded(s.normal, s.main.blist).mem :: l in s.normal.mem
  {
    hide Filled, Acknowledge, Target;
    if s.main.CriticalSending? { AcknowledgeKeepsFilled(s.critical, s.main.list); }
    if s.main.NormalSending? {
      match s.main.blist
      case WrappedList(w, _) => AcknowledgeKeepsFilled(s.normal.wrapped, w);
      case MergedList(w, _) => AcknowledgeKeepsFilled(s.normal.wrapped, w);
      case MemoryList(_) =>
    }
  }

  ghost predicate ModestRuns(s: Manager, steps: seq<Step>, t: Manager, size: nat)
    decreases |steps|
  {
    if steps == [] then s == t
    else
      && Enabled(s, steps[0]) && Acknowledgeable(s, steps[0]) && Modest(steps[0], size)
      && ModestRuns(Apply(s, steps[0]), steps[1..], t, size)
  }

  /** If every event fits a file under every configuration, no run gets stuck or uses a list that is not there. */
  lemma {:induction false} ModestRunsNeverStick(s: Manager, steps: seq<Step>, t: Manager, size: nat)
    requires Healthy(s, size) && ModestRuns(s, steps, t, size)
    ensures !Stuck(t.normal.wrapped) && !Stuck(t.critical) && !t.main.Crashed? && Healthy(t, size)
    decreases |steps|
  {
    if steps != [] {
      hide Healthy;
      StepKeepsHealthy(s, steps[0], size);
      ModestRunsNeverStick(Apply(s, steps[0]), steps[1..], t, size);
    }
  }
}
