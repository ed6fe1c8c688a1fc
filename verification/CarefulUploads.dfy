/**
 Runs in which no flush meets events of memory in flight, and acknowledgements that are undefined.
 */
module CarefulUploads {
  import opened Basics
  import opened Lines
  import opened EventQueue
  import opened Buffered
  import opened EventManager
  import opened Conservation

  /** The one acknowledgement that is undefined: of more events from memory than it holds. */
  lemma UndefinedExactlyWhen(s: Manager, l: Step)
    requires ListsHold(s) && Enabled(s, l)
    ensures !Acknowledgeable(s, l)
            <==> l == MainAnswer(true) && s.main.NormalSending? && MemoryCount(s.main.blist) > |s.normal.mem|
  {
    hide Join, Split;
  }

  lemma UndisturbedIsAcknowledgeable(s: Manager, l: Step)
    requires ListsHold(s) && Undisturbed(s) && Enabled(s, l)
    ensures Acknowledgeable(s, l)
  {
    UndefinedExactlyWhen(s, l);
  }

  ghost predicate NothingLost(s: Manager, t: Manager) {
    t.criticalBooks.lost == s.criticalBooks.lost && t.otherBooks.lost == s.otherBooks.lost
  }

  lemma AnswerKeepsUndisturbed(s: Manager, success: bool)
    requires Conserved(s) && Undisturbed(s) && Enabled(s, MainAnswer(success)) && Acknowledgeable(s, MainAnswer(success))
    ensures Undisturbed(Apply(s, MainAnswer(success))) && NothingLost(s, Apply(s, MainAnswer(success)))
  {
    hide BufferUploaded, BufferNames, Conserved, Taken, ListLines, Acknowledge, Target;
    ConservedLines(s);
    if success && s.main.NormalSending? {
      TakenIsSent(s.normal, s.main.blist);
      var x := ListLines(Data(s.main.blist));
      assert x - x == multiset{};
    }
  }

  lemma StoreStepKeepsUndisturbed(s: Manager, l: Step)
    requires ListsHold(s) && Undisturbed(s) && Legal(s, l) && Careful(s, l) && (l.Add? || l.TransferOne?)
    ensures Undisturbed(Apply(s, l))
  {
    hide BufferNames, Store, Undisturbed, NoFlushInFlight;
    var e := if l.Add? then l.e else if s.rt.rest != [] then s.rt.rest[0] else Event([], true, false);
    StoreLeavesTasks(s, e, l.io);
    if Stored(s, l).Some? { StoreKeepsNames(s, e, l.io); }
    SameTasks(s, Apply(s, l));
    SameTasks(Store(s, e, l.io).0, Apply(s, l));
  }

  lemma SameTasks(s: Manager, t: Manager)
    ensures s.main == t.main && s.normal == t.normal && s.criticalBooks.repeated == t.criticalBooks.repeated
            && s.otherBooks.repeated == t.otherBooks.repeated ==>
              (Undisturbed(s) <==> Undisturbed(t))
  {
  }

  /** Without a flush in flight the next acknowledgement is defined and takes what was sent. */
  lemma StepKeepsUndisturbed(s: Manager, l: Step)
    requires Conserved(s) && Undisturbed(s) && Enabled(s, l) && (l.Add? ==> IsLine(l.e.line)) && Careful(s, l)
    ensures Legal(s, l) && Undisturbed(Apply(s, l))
    ensures l == MainAnswer(true) ==> NothingLost(s, Apply(s, l))
  {
    hide Even, Apply, Held, AllPending, BufferNames, OnlyLines;
    UndisturbedIsAcknowledgeable(s, l);
    if l.MainAnswer? {
      AnswerKeepsUndisturbed(s, l.success);
    } else if l.Add? || l.TransferOne? {
      StoreStepKeepsUndisturbed(s, l);
    } else if l.MainFetchNormal? {
      FetchKeepsUndisturbed(s, l.maxCount, l.maxSize);
    } else {
      OtherStepKeepsUndisturbed(s, l);
    }
  }

  lemma FetchKeepsUndisturbed(s: Manager, maxCount: nat, maxSize: nat)
    requires Undisturbed(s) && Enabled(s, MainFetchNormal(maxCount, maxSize))
    ensures Undisturbed(Apply(s, MainFetchNormal(maxCount, maxSize)))
  {
    hide BufferFetch, BufferNames;
    BufferFetchNames(s.normal, maxCount, maxSize);
  }

  lemma OtherStepKeepsUndisturbed(s: Manager, l: Step)
    requires Undisturbed(s) && Legal(s, l)
    requires !l.MainAnswer? && !l.Add? && !l.TransferOne? && !l.MainFetchNormal?
    ensures Undisturbed(Apply(s, l))
  {
    hide BufferNames, FetchQueue, FetchMemory, Acknowledge, LinesOf, LinesIn, ListLines;
  }

  lemma ConservedLines(s: Manager)
    requires Conserved(s)
    ensures AllLines(AllPending(s.normal)) && ListsHold(s)
  {
    hide AllPending, Held;
  }

  lemma StoreKeepsNames(s: Manager, e: Event, io: Outcomes)
    requires ListsHold(s) && Undisturbed(s) && NoFlushInFlight(s, e)
    ensures Undisturbed(Store(s, e, io).0)
  {
    hide TryBufferAdd, BufferNames, FilesName;
    if s.main.NormalSending? && !e.critical { NormalListHolds(s.normal, e.line, s.normalLimits, io, s.main.blist); }
  }

  lemma TakenIsSent(b: Buffer, l: BufferedList)
    requires BufferNames(b, l) && AllLines(AllPending(b))
    ensures WrappedCount(l) <= |Target(b.wrapped)| && MemoryCount(l) <= |b.mem|
    ensures multiset(Taken(b, l)) == ListLines(Data(l))
  {
    hide Pending, AllPending, ListLines, Taken, BufferUploaded;
    NormalLeaves(b, l);
    UploadedTakes(b, l);
    SameRest(multiset(Taken(b, l)), ListLines(Data(l)), multiset(AllPending(BufferUploaded(b, l))));
  }

  lemma SameRest(x: Bag, y: Bag, rest: Bag)
    requires x + rest == y + rest
    ensures x == y
  {
    forall e: Bytes ensures x[e] == y[e] {
      assert (x + rest)[e] == (y + rest)[e];
    }
  }

  ghost predicate CarefulRuns(s: Manager, steps: seq<Step>, t: Manager)
    decreases |steps|
  {
    if steps == [] then s == t
    else
      && Enabled(s, steps[0]) && (steps[0].Add? ==> IsLine(steps[0].e.line)) && Careful(s, steps[0])
      && Acknowledgeable(s, steps[0])
      && CarefulRuns(Apply(s, steps[0]), steps[1..], t)
  }

  /** Whatever is acknowledged next, the queues hold it. */
  ghost predicate AllDefined(s: Manager) { forall l | Enabled(s, l) :: Acknowledgeable(s, l) }

  /** Without a flush in flight, every accepted event is in exactly one place. */
  lemma {:induction false} CarefulRunsRepeatNothing(s: Manager, steps: seq<Step>, t: Manager)
    requires Conserved(s) && Undisturbed(s) && CarefulRuns(s, steps, t)
    ensures Conserved(t) && Undisturbed(t)
    ensures t.criticalBooks.accepted == Held(t, true) + t.criticalBooks.uploaded + t.criticalBooks.lost
    ensures t.otherBooks.accepted == Held(t, false) + t.otherBooks.uploaded + t.otherBooks.lost
    ensures AllDefined(t)
    decreases |steps|
  {
    if steps == [] {
      forall l | Enabled(s, l) ensures Acknowledgeable(s, l) { UndisturbedIsAcknowledgeable(s, l); }
      assert forall b: Books | b.repeated == multiset{} :: b.accepted + b.repeated == b.accepted;
    } else {
      hide Conserved, Undisturbed;
      StepKeepsUndisturbed(s, steps[0]);
      StepConserves(s, steps[0]);
      CarefulRunsRepeatNothing(Apply(s, steps[0]), steps[1..], t);
    }
  }
}
