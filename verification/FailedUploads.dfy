/**
 What failed uploads and drops leave behind.
 */
module FailedUploads {
  import opened Basics
  import opened Lines
  import opened Storage
  import opened FileBatch
  import opened EventQueue
  import opened Buffered
  import opened EventManager
  import opened Conservation

  /** An event that some thread adds, and how its writes and opens go. */
  datatype Arrival = Arrival(e: Event, io: Outcomes)

  function AddAll(s: Manager, es: seq<Arrival>): Manager
    decreases |es|
  {
    if es == [] then s else AddStep(AddAll(s, es[..|es| - 1]), es[|es| - 1].e, es[|es| - 1].io)
  }

  /** The same events in the same order everywhere, though perhaps in other files, and the same books. */
  ghost predicate Alike(s: Manager, t: Manager) {
    && s.realtime == t.realtime && s.realtimeLimit == t.realtimeLimit
    && s.normal.mem == t.normal.mem && s.normal.limit == t.normal.limit && s.normalLimits == t.normalLimits
    && Pending(s.normal.wrapped) == Pending(t.normal.wrapped)
    && Pending(s.critical) == Pending(t.critical) && s.criticalLimits == t.criticalLimits
    && s.criticalBooks == t.criticalBooks && s.otherBooks == t.otherBooks
  }

  lemma AddKeepsAlike(s: Manager, t: Manager, e: Event, io: Outcomes)
    requires Alike(s, t)
    ensures Alike(AddStep(s, e, io), AddStep(t, e, io))
  {
    hide Pending, Store, LinesOf;
    StoreKeepsAlike(s, t, e, io);
  }

  lemma StoreKeepsAlike(s: Manager, t: Manager, e: Event, io: Outcomes)
    requires Alike(s, t)
    ensures Alike(Store(s, e, io).0, Store(t, e, io).0) && Store(s, e, io).1 == Store(t, e, io).1
  {
    hide Pending, TryAdd, EventQueue.Add, TryBufferAdd, FitsFile, Dropped;
    if e.critical {
      TryAddAppends(s.critical, e.line, s.criticalLimits, Works(io));
      TryAddAppends(t.critical, e.line, t.criticalLimits, Works(io));
      AddFits(s.critical, e.line, s.criticalLimits);
      AddFits(t.critical, e.line, t.criticalLimits);
    } else {
      BufferAddAlike(s.normal, t.normal, e.line, s.normalLimits, io);
    }
  }

  lemma BufferAddAlike(b: Buffer, c: Buffer, line: Bytes, m: Limits, io: Outcomes)
    requires b.mem == c.mem && b.limit == c.limit && Pending(b.wrapped) == Pending(c.wrapped)
    ensures var (b', ok) := TryBufferAdd(b, line, m, io);
            var (c', ok') := TryBufferAdd(c, line, m, io);
            ok == ok' && b'.mem == c'.mem && b'.limit == c'.limit == b.limit && Pending(b'.wrapped) == Pending(c'.wrapped)
  {
    hide Pending, TryForward, Forwarded;
    TryForwardAppends(b.wrapped, b.mem, m, io);
    TryForwardAppends(c.wrapped, c.mem, m, io);
  }

  lemma {:induction false} AddAllKeepsAlike(s: Manager, t: Manager, es: seq<Arrival>)
    requires Alike(s, t)
    ensures Alike(AddAll(s, es), AddAll(t, es))
    ensures AddAll(s, es).main == s.main
    decreases |es|
  {
    hide Alike, Store;
    if es != [] {
      var e, io := es[|es| - 1].e, es[|es| - 1].io;
      AddAllKeepsAlike(s, t, es[..|es| - 1]);
      AddKeepsAlike(AddAll(s, es[..|es| - 1]), AddAll(t, es[..|es| - 1]), e, io);
      StoreLeavesTasks(AddAll(s, es[..|es| - 1]), e, io);
    }
  }

  /**
   A fetch from a stored queue whose upload fails leaves no trace: with any adds in between,
   everything is as if only these had been there.
   */
  lemma FailedSendLeavesNoTrace(s: Manager, fetch: Step, es: seq<Arrival>)
    requires Enabled(s, fetch) && (fetch.MainFetchCritical? || fetch.MainFetchNormal?)
    requires Enabled(AddAll(Apply(s, fetch), es), MainAnswer(false))
    ensures Alike(Apply(AddAll(Apply(s, fetch), es), MainAnswer(false)), AddAll(s, es))
  {
    hide Pending, FetchQueue, AddAll;
    var t := Apply(s, fetch);
    if fetch.MainFetchCritical? {
      FetchGivesPrefix(s.critical, fetch.maxCount, fetch.maxSize);
    } else {
      FetchGivesPrefix(s.normal.wrapped, fetch.maxCount, fetch.maxSize);
    }
    assert Alike(t, s);
    AddAllKeepsAlike(t, s, es);
  }

  /** A failed realtime upload moves its events towards the stored queues and loses none. */
  lemma FailedRealtimeSendKeepsEvents(s: Manager)
    requires Enabled(s, RealtimeAnswer(false))
    ensures var t := Apply(s, RealtimeAnswer(false));
            && Held(t, true) == Held(s, true) && Held(t, false) == Held(s, false)
            && t.criticalBooks == s.criticalBooks && t.otherBooks == s.otherBooks
            && InTransfer(t) == s.realtime
  {
    hide Held;
    TransferStarts(s, Apply(s, RealtimeAnswer(false)));
  }

  /**
   Dropping one event in order to go on drops nothing exactly when the first event is
   longer than one read: then the same step is taken for ever.
   */
  lemma DropStallsExactlyWhen(q: Queue)
    requires FetchQueue(q, 1, SIZE_MAX).1.Some?
    ensures var (q', r) := FetchQueue(q, 1, SIZE_MAX);
            && Pending(q) != [] && r.value.count <= |Target(q')|
            && (Pending(Acknowledge(q', r.value)) == Pending(q) <==> |Pending(q)[0]| > MAX_READ)
  {
    FetchGivesPrefix(q, 1, SIZE_MAX);
    FetchIsEmptyExactlyWhenFirstIsTooLong(q, 1, SIZE_MAX);
    var (q', r) := FetchQueue(q, 1, SIZE_MAX);
    AcknowledgeRemovesPrefix(q', r.value);
    assert r.value.count <= 1 by { FetchWithinLimits(q, 1, SIZE_MAX); }
  }

  /** An event of more than 1 MiB is fetched as nothing, and dropping nothing changes nothing. */
  lemma DropStallExample()
    ensures var line := seq(MAX_READ, _ => 65 as Byte) + [NEWLINE];
            var (q', r) := FetchQueue(Queue(None, [], [line]), 1, SIZE_MAX);
            IsLine(line) && r == Some(EventList([], 0, true)) && Pending(Acknowledge(q', r.value)) == [line]
  {
    var body := seq(MAX_READ, _ => 65 as Byte);
    var line := body + [NEWLINE];
    var q := Queue(None, [], [line]);
    assert line[..|line| - 1] == body;
    assert Pending(q) == [line];
    NoLines();
    FetchMissesExactlyWhenStuck(q, 1, SIZE_MAX);
    DropStallsExactlyWhen(q);
    FetchIsEmptyExactlyWhenFirstIsTooLong(q, 1, SIZE_MAX);
    assert [line][..0] == [];
  }
}
