/**
 No event is lost or doubled without being counted, in any run of the event manager.
 */
module Conservation {
  import opened Basics
  import opened Sequences
  import opened Lines
  import opened Storage
  import opened FileBatch
  import opened EventQueue
  import opened Buffered
  import opened EventManager

  // ---- books ------------------------------------------------------------------------

  /** What comes in is accepted, and what it pushes out is lost. */
  lemma EvenAccepted(b: Books, held: Bag, b': Books, held': Bag, into: Bag)
    requires Even(b, held) && b'.uploaded == b.uploaded && b'.repeated == b.repeated
    requires b'.accepted == b.accepted + into && held' + b'.lost == held + b.lost + into
    ensures Even(b', held')
  {
    assert b'.accepted + b'.repeated == (b.accepted + b.repeated) + into;
    assert held' + b'.uploaded + b'.lost == (held' + b'.lost) + b.uploaded;
    assert (b.accepted + b.repeated) + into == (held + b.lost + into) + b.uploaded;
  }

  /** What is gone is uploaded or lost. */
  lemma EvenGone(b: Books, held: Bag, b': Books, held': Bag, gone: Bag)
    requires Even(b, held) && held == held' + gone
    requires b' == Uploads(b, gone) || b' == Loses(b, gone)
    ensures Even(b', held')
  {
    assert b'.accepted + b'.repeated == held' + gone + b.uploaded + b.lost;
  }

  /** The same where what is taken need not be what was sent. */
  lemma EvenTaken(b: Books, held: Bag, b': Books, held': Bag, taken: Bag, sent: Bag)
    requires Even(b, held) && held == held' + taken
    requires b'.accepted == b.accepted && b'.uploaded == b.uploaded + sent
    requires b'.lost == b.lost + (taken - sent) && b'.repeated == b.repeated + (sent - taken)
    ensures Even(b', held')
  {
    forall x: Bytes ensures (b'.accepted + b'.repeated)[x] == (held' + b'.uploaded + b'.lost)[x] {
      assert (b.accepted + b.repeated)[x] == (held + b.uploaded + b.lost)[x];
      assert held[x] == (held' + taken)[x];
    }
  }

  /** What is transferred is stored or lost. */
  lemma EvenMoved(b: Books, held: Bag, b': Books, held': Bag)
    requires Even(b, held) && b' == b.(lost := b'.lost) && held' + b'.lost == held + b.lost
    ensures Even(b', held')
  {
    assert held' + b'.uploaded + b'.lost == (held' + b'.lost) + b.uploaded;
    assert held + b.uploaded + b.lost == (held + b.lost) + b.uploaded;
  }

  // ---- queues -----------------------------------------------------------------------

  lemma CutMultiset(p: seq<Bytes>, k: nat)
    requires k <= |p|
    ensures multiset(p) == multiset(p[..k]) + multiset(p[k..])
  {
    assert p == p[..k] + p[k..];
  }

  lemma SubLines(p: seq<Bytes>, q: seq<Bytes>)
    requires AllLines(p) && forall l | l in q :: l in p
    ensures AllLines(q)
  {
  }

  lemma ListedLines(list: EventList, ls: seq<Bytes>)
    requires Heads(list, ls) && AllLines(ls)
    ensures Split(list.data) == ls[..list.count]
    ensures multiset(ls) == ListLines(list.data) + multiset(ls[list.count..])
    ensures AllLines(ls[list.count..])
  {
    hide Split, Join;
    JoinIsClean(ls[..list.count]);
    CutMultiset(ls, list.count);
  }

  /** An acknowledged critical list leaves the queue as uploaded, nothing else does. */
  lemma CriticalLeaves(q: Queue, list: EventList)
    requires InFlight(q, list) && AllLines(Pending(q))
    ensures list.count <= |Target(q)|
    ensures multiset(Pending(q)) == ListLines(list.data) + multiset(Pending(Acknowledge(q, list)))
    ensures AllLines(Pending(Acknowledge(q, list)))
  {
    hide Split, Join, Pending;
    AcknowledgeRemovesPrefix(q, list);
    InFlightHeadsPending(q, list);
    ListedLines(list, Pending(q));
  }

  lemma PartsAreLines(a: seq<Bytes>, b: seq<Bytes>)
    requires AllLines(a + b)
    ensures AllLines(a) && AllLines(b)
  {
    SubLines(a + b, a);
    SubLines(a + b, b);
  }

  lemma WholeIsLines(a: seq<Bytes>, b: seq<Bytes>)
    requires AllLines(a) && AllLines(b)
    ensures AllLines(a + b)
  {
  }

  lemma NormalLeaves(b: Buffer, l: BufferedList)
    requires BufferNames(b, l) && AllLines(AllPending(b))
    ensures WrappedCount(l) <= |Target(b.wrapped)| && MemoryCount(l) <= |b.mem|
    ensures multiset(AllPending(b)) == ListLines(Data(l)) + multiset(AllPending(BufferUploaded(b, l)))
    ensures AllLines(AllPending(BufferUploaded(b, l)))
  {
    hide Split, Join, Pending, Acknowledge;
    var p := Pending(b.wrapped);
    var after := BufferUploaded(b, l);
    PartsAreLines(p, b.mem);
    NoLines();
    match l {
      case WrappedList(w, _) =>
        CriticalLeaves(b.wrapped, w);
      case MemoryList(m) =>
        if m.Some? { ListedLines(m.value, b.mem); }
      case MergedList(w, m) =>
        CriticalLeaves(b.wrapped, w);
        InFlightHeadsPending(b.wrapped, w);
        ListedLines(w, p);
        ListedLines(m, b.mem);
        JoinIsClean(p[..w.count]);
        SplitAppend(w.data, m.data);
    }
    WholeIsLines(Pending(after.wrapped), after.mem);
  }

  /** Storing in the normal queue: the event goes in, and what a flush cannot forward is lost. */
  lemma NormalStores(b: Buffer, line: Bytes, m: Limits, io: Outcomes)
    requires AllLines(AllPending(b)) && IsLine(line)
    ensures var (b', ok) := TryBufferAdd(b, line, m, io);
            && multiset(AllPending(b')) + (if |b.mem| < b.limit then multiset{} else multiset(Dropped(b.mem, m, io)))
               == multiset(AllPending(b)) + (if ok then multiset{line} else multiset{})
            && AllLines(AllPending(b'))
  {
    hide Pending, TryForward;
    PartsAreLines(Pending(b.wrapped), b.mem);
    ForwardedSplits(b.mem, m, io);
    SubLines(b.mem, Forwarded(b.mem, m, io));
    TryForwardAppends(b.wrapped, b.mem, m, io);
  }

  lemma NormalListHolds(b: Buffer, line: Bytes, m: Limits, io: Outcomes, l: BufferedList)
    requires FilesName(b.wrapped, l)
    ensures var b' := TryBufferAdd(b, line, m, io).0;
            && FilesName(b'.wrapped, l)
            && (BufferNames(b, l) && (MemoryCount(l) > 0 ==> |b.mem| < b.limit) ==> BufferNames(b', l))
  {
    var b' := TryBufferAdd(b, line, m, io).0;
    if |b.mem| < b.limit {
      if MemoryCount(l) <= |b.mem| { assert b'.mem[..MemoryCount(l)] == b.mem[..MemoryCount(l)]; }
    } else {
      assert b'.mem[..0] == b.mem[..0] == [];
      match l
      case WrappedList(w, _) => TryForwardKeepsInFlight(b.wrapped, b.mem, m, io, w);
      case MergedList(w, _) => TryForwardKeepsInFlight(b.wrapped, b.mem, m, io, w);
      case MemoryList(_) =>
    }
  }

  // ---- storing ----------------------------------------------------------------------

  /** The event that comes in, as seen by the books of one class. */
  function Into(e: Event, ok: bool, critical: bool): Bag {
    if ok && e.critical == critical then multiset{e.line} else multiset{}
  }

  lemma StoreConserves(s: Manager, e: Event, io: Outcomes, critical: bool)
    requires OnlyLines(s) && ListsHold(s) && IsLine(e.line)
    ensures var (s', ok) := Store(s, e, io);
            && Held(s', critical) + BooksOf(s', critical).lost
               == Held(s, critical) + BooksOf(s, critical).lost + Into(e, ok, critical)
            && OnlyLines(s') && ListsHold(s')
  {
    if e.critical { CriticalStoreConserves(s, e, io, critical); } else { NormalStoreConserves(s, e, io, critical); }
  }

  lemma CriticalStoreConserves(s: Manager, e: Event, io: Outcomes, critical: bool)
    requires OnlyLines(s) && ListsHold(s) && IsLine(e.line) && e.critical
    ensures var (s', ok) := Store(s, e, io);
            && Held(s', critical) + BooksOf(s', critical).lost
               == Held(s, critical) + BooksOf(s, critical).lost + Into(e, ok, critical)
            && OnlyLines(s') && ListsHold(s')
  {
    hide Pending, AllPending, InFlight, FilesName, BufferNames, Heads, TryBufferAdd, TryAdd, LinesOf, LinesIn;
    var (s', ok) := Store(s, e, io);
    TryAddAppends(s.critical, e.line, s.criticalLimits, Works(io));
    if s.main.CriticalSending? || s.main.CriticalDropping? {
      TryAddKeepsInFlight(s.critical, e.line, s.criticalLimits, Works(io), s.main.list);
    }
    assert multiset(Queued(s', critical)) == multiset(Queued(s, critical)) + Into(e, ok, critical);
    StoreBalance(s, s', critical, multiset{}, Into(e, ok, critical));
  }

  lemma NormalStoreConserves(s: Manager, e: Event, io: Outcomes, critical: bool)
    requires OnlyLines(s) && ListsHold(s) && IsLine(e.line) && !e.critical
    ensures var (s', ok) := Store(s, e, io);
            && Held(s', critical) + BooksOf(s', critical).lost
               == Held(s, critical) + BooksOf(s, critical).lost + Into(e, ok, critical)
            && OnlyLines(s') && ListsHold(s')
  {
    hide Pending, AllPending, InFlight, FilesName, BufferNames, Heads, TryBufferAdd, TryAdd, LinesOf, LinesIn;
    var (s', ok) := Store(s, e, io);
    var out := if critical then multiset{} else FlushLoss(s, e, io);
    NormalStores(s.normal, e.line, s.normalLimits, io);
    if s.main.NormalSending? { NormalListHolds(s.normal, e.line, s.normalLimits, io, s.main.blist); }
    assert multiset(Queued(s', critical)) + out == multiset(Queued(s, critical)) + Into(e, ok, critical);
    StoreBalance(s, s', critical, out, Into(e, ok, critical));
  }

  lemma StoreBalance(s: Manager, s': Manager, critical: bool, out: Bag, into: Bag)
    requires Outside(s', critical) == Outside(s, critical)
    requires BooksOf(s', critical).lost == BooksOf(s, critical).lost + out
    requires multiset(Queued(s', critical)) + out == multiset(Queued(s, critical)) + into
    ensures Held(s', critical) + BooksOf(s', critical).lost == Held(s, critical) + BooksOf(s, critical).lost + into
  {
    hide Queued, Outside, BooksOf;
    var o, q, q', lost := Outside(s, critical), multiset(Queued(s, critical)), multiset(Queued(s', critical)), BooksOf(s, critical).lost;
    assert o + q' + (lost + out) == o + (q' + out) + lost;
    assert o + (q + into) + lost == o + q + lost + into;
  }

  /**
   A critical event leaves the normal buffer as it is and becomes the last of the critical
   queue if it is stored; any other one the reverse, behind the flush it may cause.
   */
  lemma StoreGoesWhereItBelongs(s: Manager, e: Event, io: Outcomes)
    ensures var (s', ok) := Store(s, e, io);
            && (e.critical ==>
                  && (ok <==> Works(io) && (s.criticalLimits.maxSize == 0 || |e.line| <= s.criticalLimits.maxSize))
                  && s'.normal == s.normal
                  && Pending(s'.critical) == Pending(s.critical) + if ok then [e.line] else [])
            && (!e.critical ==>
                  && (ok <==> s.normal.limit > 0)
                  && s'.critical == s.critical
                  && AllPending(s'.normal)
                     == Pending(s.normal.wrapped)
                        + (if |s.normal.mem| < s.normal.limit then s.normal.mem
                           else Forwarded(s.normal.mem, s.normalLimits, io))
                        + if ok then [e.line] else [])
  {
    hide Pending, TryForward, Forwarded, TryAdd, EventQueue.Add;
    TryAddAppends(s.critical, e.line, s.criticalLimits, Works(io));
    AddFits(s.critical, e.line, s.criticalLimits);
    TryForwardAppends(s.normal.wrapped, s.normal.mem, s.normalLimits, io);
  }

  /**
   A realtime event goes to realtime memory alone as long as that has room; all others,
   and only these, go straight to their stored queue.
   */
  lemma AddGoesWhereItBelongs(s: Manager, e: Event, io: Outcomes)
    ensures var t := AddStep(s, e, io);
            && t.main == s.main && t.rt == s.rt
            && (e.realtime && |s.realtime| < s.realtimeLimit ==>
                  t.realtime == s.realtime + [e] && t.normal == s.normal && t.critical == s.critical)
            && (!(e.realtime && |s.realtime| < s.realtimeLimit) ==>
                  && t.realtime == s.realtime
                  && (t.normal, t.critical) == (Store(s, e, io).0.normal, Store(s, e, io).0.critical))
  {
    hide TryAdd, TryBufferAdd;
  }

  /** A transfer stores the events of realtime memory one by one, in their order. */
  lemma TransferGoesInOrder(s: Manager, io: Outcomes)
    requires s.rt.Transferring? && s.rt.rest != []
    ensures var t, s' := Apply(s, TransferOne(io)), Store(s, s.rt.rest[0], io).0;
            && t.realtime == s.realtime && t.normal == s'.normal && t.critical == s'.critical
            && t.rt.Transferring? && [s.rt.rest[0]] + t.rt.rest == s.rt.rest
  {
    hide TryAdd, TryBufferAdd;
  }

  lemma BufferFetchNames(b: Buffer, maxCount: nat, maxSize: nat)
    ensures var (b', l) := BufferFetch(b, maxCount, maxSize);
            BufferNames(b', l) && FilesName(b'.wrapped, l) && AllPending(b') == AllPending(b)
  {
    hide Join, FitCount, Pending;
    FetchGivesPrefix(b.wrapped, maxCount, maxSize);
    FetchWithinLimits(b.wrapped, maxCount, maxSize);
    var r := FetchQueue(b.wrapped, maxCount, maxSize).1;
    if r.Some? { MemoryFetchHeads(b.mem, maxCount - r.value.count, maxSize - |r.value.data|); }
    MemoryFetchHeads(b.mem, maxCount, maxSize);
  }

  lemma AddConserves(s: Manager, e: Event, io: Outcomes)
    requires Conserved(s) && Legal(s, Step.Add(e, io))
    ensures Conserved(AddStep(s, e, io))
  {
    hide Pending, AllPending, InFlight, FilesName, BufferNames, Store, LinesOf, LinesIn, Held, OnlyLines, Even;
    var t := AddStep(s, e, io);
    if GoesToRealtime(s, e) {
      LinesOfMore(s.realtime, e);
      var ls := LinesOf(s.realtime);
      if s.rt.RealtimeSending? || s.rt.RealtimeDropping? {
        assert (ls + [e.line])[..s.rt.list.count] == ls[..s.rt.list.count];
      }
      RealtimeGrows(s, t, e, true);
      RealtimeGrows(s, t, e, false);
      EvenAccepted(s.criticalBooks, Held(s, true), t.criticalBooks, Held(t, true), Into(e, true, true));
      EvenAccepted(s.otherBooks, Held(s, false), t.otherBooks, Held(t, false), Into(e, true, false));
    } else {
      hide ListsHold;
      var (s', ok) := Store(s, e, io);
      StoreConserves(s, e, io, true);
      StoreConserves(s, e, io, false);
      StoreKeepsRest(s, e, io);
      BooksDoNotMatter(s', t);
      EvenAccepted(s.criticalBooks, Held(s, true), t.criticalBooks, Held(t, true), Into(e, ok, true));
      EvenAccepted(s.otherBooks, Held(s, false), t.otherBooks, Held(t, false), Into(e, ok, false));
    }
  }

  lemma RealtimeGrows(s: Manager, t: Manager, e: Event, critical: bool)
    requires t == s.(realtime := s.realtime + [e], criticalBooks := t.criticalBooks, otherBooks := t.otherBooks)
    requires BooksOf(t, critical).lost == BooksOf(s, critical).lost
    ensures Held(t, critical) + BooksOf(t, critical).lost
            == Held(s, critical) + BooksOf(s, critical).lost + Into(e, true, critical)
    ensures OnlyLines(s) && IsLine(e.line) ==> OnlyLines(t)
  {
    hide Pending, AllPending, LinesOf, LinesIn, Outside, Queued;
    LinesOfMore(s.realtime, e);
    OutsideGrows(s, t, e, critical);
    QueuedSame(s, t, critical);
    var o, q, lost, into := Outside(s, critical), multiset(Queued(s, critical)), BooksOf(s, critical).lost, Into(e, true, critical);
    hide OnlyLines, BooksOf, Into;
    assert (o + into) + q + lost == (o + q) + lost + into;
  }

  lemma OutsideGrows(s: Manager, t: Manager, e: Event, critical: bool)
    requires t.realtime == s.realtime + [e] && t.rt == s.rt
    ensures Outside(t, critical) == Outside(s, critical) + Into(e, true, critical)
  {
    hide LinesIn;
    LinesInTogether(s.realtime, [e], critical);
    LinesInOne(e, critical);
    assert multiset(LinesIn(t.realtime, critical)) == multiset(LinesIn(s.realtime, critical)) + Into(e, true, critical);
  }

  lemma QueuedSame(s: Manager, t: Manager, critical: bool)
    requires t.normal == s.normal && t.critical == s.critical
    ensures Queued(t, critical) == Queued(s, critical)
  {
  }

  /** Only the books differ. */
  lemma BooksDoNotMatter(s: Manager, t: Manager)
    requires t == s.(criticalBooks := t.criticalBooks, otherBooks := t.otherBooks)
    ensures Held(t, true) == Held(s, true) && Held(t, false) == Held(s, false)
    ensures (OnlyLines(t) <==> OnlyLines(s)) && (ListsHold(t) <==> ListsHold(s))
  {
  }

  // ---- fetching and answering -------------------------------------------------------

  /** Steps that only look leave everything held where it is. */
  lemma SameParts(s: Manager, t: Manager)
    requires t.realtime == s.realtime && InTransfer(t) == InTransfer(s)
    requires AllPending(t.normal) == AllPending(s.normal) && Pending(t.critical) == Pending(s.critical)
    ensures Held(t, true) == Held(s, true) && Held(t, false) == Held(s, false)
    ensures OnlyLines(t) <==> OnlyLines(s)
  {
    hide Pending, AllPending, LinesOf;
  }

  lemma MainFetchConserves(s: Manager, l: Step)
    requires Conserved(s) && Enabled(s, l) && Acknowledgeable(s, l)
    requires l.MainFetchCritical? || l.MainFetchNormal? || l.MainFetchOne?
    ensures Conserved(Apply(s, l))
  {
    hide Pending, AllPending, InFlight, FilesName, BufferNames, FetchQueue, BufferFetch, LinesOf, Held, OnlyLines, Even;
    match l
    case MainFetchCritical(maxCount, maxSize) =>
      FetchGivesPrefix(s.critical, maxCount, maxSize);
      SameParts(s, Apply(s, l));
    case MainFetchNormal(maxCount, maxSize) =>
      BufferFetchNames(s.normal, maxCount, maxSize);
      SameParts(s, Apply(s, l));
    case MainFetchOne =>
      FetchGivesPrefix(s.critical, 1, SIZE_MAX);
      FetchWithinLimits(s.critical, 1, SIZE_MAX);
      SameParts(s, Apply(s, l));
  }

  lemma MainAnswerConserves(s: Manager, l: Step)
    requires Conserved(s) && Enabled(s, l) && Acknowledgeable(s, l)
    requires l.MainAnswer? || l.MainDrop?
    ensures Conserved(Apply(s, l))
  {
    hide Pending, AllPending, InFlight, FilesName, BufferNames, Acknowledge, BufferUploaded, Taken, ListLines, LinesOf, Held, OnlyLines, Even;
    var t := Apply(s, l);
    if l == MainAnswer(false) {
      SameParts(s, t);
    } else if s.main.NormalSending? {
      NormalShrinks(s, t);
      EvenTaken(s.otherBooks, Held(s, false), t.otherBooks, Held(t, false),
                multiset(Taken(s.normal, s.main.blist)), ListLines(Data(s.main.blist)));
    } else {
      CriticalShrinks(s, t);
      EvenGone(s.criticalBooks, Held(s, true), t.criticalBooks, Held(t, true), ListLines(s.main.list.data));
    }
  }

  lemma NormalShrinks(s: Manager, t: Manager)
    requires OnlyLines(s) && s.main.NormalSending?
    requires WrappedCount(s.main.blist) <= |Target(s.normal.wrapped)|
    requires MemoryCount(s.main.blist) <= |s.normal.mem|
    requires t == s.(normal := BufferUploaded(s.normal, s.main.blist), main := MainIdle, otherBooks := t.otherBooks)
    ensures Held(s, false) == Held(t, false) + multiset(Taken(s.normal, s.main.blist))
    ensures Held(t, true) == Held(s, true) && OnlyLines(t)
  {
    hide Pending, AllPending, BufferUploaded, ListLines, LinesOf, LinesIn, Taken;
    UploadedTakes(s.normal, s.main.blist);
  }

  lemma AcknowledgeTakes(q: Queue, list: EventList)
    requires list.count <= |Target(q)|
    ensures multiset(Pending(q)) == multiset(Target(q)[..list.count]) + multiset(Pending(Acknowledge(q, list)))
    ensures forall l | l in Pending(Acknowledge(q, list)) :: l in Pending(q)
  {
    var rest := Flatten(q.closed);
    CutMultiset(Target(q), list.count);
    if q.oldest.Some? {
      assert Pending(Acknowledge(q, list)) == Target(q)[list.count..] + (rest + q.newest);
    } else {
      assert Pending(q) == rest + q.newest;
      assert Pending(Acknowledge(q, list)) == rest + q.newest[list.count..];
    }
  }

  /** An acknowledgement takes events out and changes no others, also if a flush has come between. */
  lemma UploadedTakes(b: Buffer, l: BufferedList)
    requires WrappedCount(l) <= |Target(b.wrapped)| && MemoryCount(l) <= |b.mem|
    ensures multiset(AllPending(b)) == multiset(Taken(b, l)) + multiset(AllPending(BufferUploaded(b, l)))
    ensures AllLines(AllPending(b)) ==> AllLines(AllPending(BufferUploaded(b, l)))
  {
    hide Pending, Acknowledge, Target;
    var after := BufferUploaded(b, l);
    CutMultiset(b.mem, MemoryCount(l));
    match l {
      case WrappedList(w, _) => AcknowledgeTakes(b.wrapped, w);
      case MemoryList(_) =>
      case MergedList(w, _) => AcknowledgeTakes(b.wrapped, w);
    }
    assert multiset(Pending(b.wrapped)) ==
           multiset(Target(b.wrapped)[..WrappedCount(l)]) + multiset(Pending(after.wrapped));
    assert b.mem[MemoryCount(l)..] == after.mem;
    if AllLines(AllPending(b)) {
      PartsAreLines(Pending(b.wrapped), b.mem);
      WholeIsLines(Pending(after.wrapped), after.mem);
    }
  }

  lemma CriticalShrinks(s: Manager, t: Manager)
    requires OnlyLines(s) && (s.main.CriticalSending? || s.main.CriticalDropping?)
    requires InFlight(s.critical, s.main.list) && s.main.list.count <= |Target(s.critical)|
    requires t == s.(critical := Acknowledge(s.critical, s.main.list), main := MainIdle, criticalBooks := t.criticalBooks)
    ensures Held(s, true) == Held(t, true) + ListLines(s.main.list.data)
    ensures Held(t, false) == Held(s, false) && OnlyLines(t)
  {
    hide Pending, AllPending, InFlight, Acknowledge, ListLines, LinesOf, LinesIn;
    CriticalLeaves(s.critical, s.main.list);
  }

  /** All realtime events are taken over for transfer. */
  lemma TransferStarts(s: Manager, t: Manager)
    requires !s.rt.Transferring? && t == s.(realtime := [], rt := Transferring(s.realtime))
    ensures Held(t, true) == Held(s, true) && Held(t, false) == Held(s, false) && (OnlyLines(s) ==> OnlyLines(t))
  {
    hide Pending, AllPending, LinesOf;
    NoEventsNoLines();
  }

  lemma RealtimeFetchConserves(s: Manager, l: Step)
    requires Conserved(s) && Enabled(s, l) && Acknowledgeable(s, l)
    requires l.RealtimeFetch? || l.RealtimeFetchOne? || l == RealtimeAnswer(false)
    ensures Conserved(Apply(s, l))
  {
    hide Pending, AllPending, InFlight, FilesName, BufferNames, Heads, FetchMemory, LinesOf, LinesIn, Held, OnlyLines, Even;
    var ls, t := LinesOf(s.realtime), Apply(s, l);
    if t.rt.Transferring? { TransferStarts(s, t); } else { SameParts(s, t); }
    match l
    case RealtimeFetch(maxCount, maxSize) => MemoryFetchHeads(ls, maxCount, maxSize);
    case RealtimeFetchOne =>
      MemoryFetchHeads(ls, 1, SIZE_MAX);
      MemoryFetchIsLongest(ls, 1, SIZE_MAX);
    case RealtimeAnswer(_) =>
  }

  lemma RealtimeLeaves(s: Manager, l: Step)
    requires Conserved(s) && Enabled(s, l) && Acknowledgeable(s, l)
    requires l == RealtimeAnswer(true) || l.RealtimeDrop?
    ensures Conserved(Apply(s, l))
  {
    hide Pending, AllPending, InFlight, FilesName, BufferNames, ListLines, LinesOf, LinesIn, Held, OnlyLines, Even, Heads;
    var t, k := Apply(s, l), s.rt.list.count;
    RealtimeShrinks(s, t, true);
    RealtimeShrinks(s, t, false);
    EvenGone(s.criticalBooks, Held(s, true), t.criticalBooks, Held(t, true), multiset(LinesIn(s.realtime[..k], true)));
    EvenGone(s.otherBooks, Held(s, false), t.otherBooks, Held(t, false), multiset(LinesIn(s.realtime[..k], false)));
  }

  lemma RealtimeShrinks(s: Manager, t: Manager, critical: bool)
    requires s.rt.RealtimeSending? || s.rt.RealtimeDropping?
    requires s.rt.list.count <= |s.realtime|
    requires t == s.(realtime := s.realtime[s.rt.list.count..], rt := RealtimeIdle,
                     criticalBooks := t.criticalBooks, otherBooks := t.otherBooks)
    ensures Held(s, critical) == Held(t, critical) + multiset(LinesIn(s.realtime[..s.rt.list.count], critical))
    ensures OnlyLines(s) ==> OnlyLines(t)
  {
    hide Pending, AllPending, LinesOf, LinesIn;
    var k := s.rt.list.count;
    assert s.realtime == s.realtime[..k] + s.realtime[k..];
    LinesInTogether(s.realtime[..k], s.realtime[k..], critical);
    LinesOfParts(s.realtime, k);
    if OnlyLines(s) { SubLines(LinesOf(s.realtime), LinesOf(s.realtime[k..])); }
    assert InTransfer(t) == InTransfer(s) == [];
    QueuedSame(s, t, critical);
  }

  /** What an answer to a realtime upload books in the two books together is what was sent, in its order. */
  lemma RealtimeBooksWhatWasSent(s: Manager)
    requires Conserved(s) && s.rt.RealtimeSending?
    ensures var es := s.realtime[..s.rt.list.count];
            && Split(s.rt.list.data) == LinesOf(es)
            && multiset(LinesIn(es, true)) + multiset(LinesIn(es, false)) == ListLines(s.rt.list.data)
  {
    hide Pending, AllPending, LinesIn, Split;
    var k := s.rt.list.count;
    ListedLines(s.rt.list, LinesOf(s.realtime));
    assert LinesOf(s.realtime[..k]) == LinesOf(s.realtime)[..k];
    ClassesTogether(s.realtime[..k]);
  }

  lemma TransferConserves(s: Manager, io: Outcomes)
    requires Conserved(s) && Legal(s, TransferOne(io))
    ensures Conserved(Apply(s, TransferOne(io)))
  {
    hide Pending, AllPending, InFlight, FilesName, BufferNames, Heads, Store, LinesOf, LinesIn, Held, Even;
    var rest, t := s.rt.rest, Apply(s, TransferOne(io));
    NoEventsNoLines();
    if rest != [] {
      var e := rest[0];
      LinesOfParts(rest, 1);
      assert LinesOf(rest)[0] == e.line && LinesOf(rest)[0] in LinesOf(rest);
      SubLines(LinesOf(rest), LinesOf(rest[1..]));
      var (u, ok) := Store(s, e, io);
      StoreKeepsRest(s, e, io);
      TransferBalance(s, t, io, true);
      TransferBalance(s, t, io, false);
      EvenMoved(s.criticalBooks, Held(s, true), t.criticalBooks, Held(t, true));
      EvenMoved(s.otherBooks, Held(s, false), t.otherBooks, Held(t, false));
    } else {
      SameParts(s, t);
    }
  }

  lemma TransferBalance(s: Manager, t: Manager, io: Outcomes, critical: bool)
    requires OnlyLines(s) && ListsHold(s) && s.rt.Transferring? && s.rt.rest != [] && IsLine(s.rt.rest[0].line)
    requires t == Apply(s, TransferOne(io))
    ensures OnlyLines(Store(s, s.rt.rest[0], io).0) && ListsHold(Store(s, s.rt.rest[0], io).0)
    ensures Held(t, critical) + BooksOf(t, critical).lost == Held(s, critical) + BooksOf(s, critical).lost
  {
    hide Store, Held, OnlyLines, ListsHold, LinesIn;
    var e := s.rt.rest[0];
    var (u, ok) := Store(s, e, io);
    StoreConserves(s, e, io, critical);
    StoreLeavesTasks(s, e, io);
    TransferredIsGone(u, t, critical);
    Cancel(Held(t, critical), BooksOf(t, critical).lost, Into(e, ok, critical), Into(e, true, critical),
           BooksOf(u, critical).lost, Held(s, critical), BooksOf(s, critical).lost);
  }

  lemma TransferredIsGone(u: Manager, t: Manager, critical: bool)
    requires u.rt.Transferring? && u.rt.rest != []
    requires t == u.(rt := Transferring(u.rt.rest[1..]), criticalBooks := t.criticalBooks, otherBooks := t.otherBooks)
    ensures Held(u, critical) == Held(t, critical) + Into(u.rt.rest[0], true, critical)
  {
    hide Pending, AllPending, LinesIn, Queued;
    var first, rest := u.rt.rest[..1], u.rt.rest[1..];
    assert u.rt.rest == first + rest && first == [u.rt.rest[0]];
    LinesInTogether(first, rest, critical);
    LinesInOne(u.rt.rest[0], critical);
    QueuedSame(u, t, critical);
  }

  lemma Cancel(ht: Bag, tl: Bag, into: Bag, x: Bag, ul: Bag, hs: Bag, sl: Bag)
    requires tl + into == ul + x && (ht + x) + ul == hs + sl + into
    ensures ht + tl == hs + sl
  {
    forall b: Bytes ensures (ht + tl)[b] == (hs + sl)[b] {
      assert (tl + into)[b] == (ul + x)[b];
      assert ((ht + x) + ul)[b] == (hs + sl + into)[b];
    }
  }

  /** No upload is larger than it may be. */
  lemma SendsWithinLimits(s: Manager, l: Step)
    requires Legal(s, l)
    ensures l.MainFetchCritical? && Apply(s, l).main.CriticalSending? ==>
              Apply(s, l).main.list.count <= l.maxCount && |Apply(s, l).main.list.data| <= l.maxSize
    ensures l.MainFetchNormal? && Apply(s, l).main.NormalSending? ==>
              Count(Apply(s, l).main.blist) <= l.maxCount && |Data(Apply(s, l).main.blist)| <= l.maxSize
    ensures l.RealtimeFetch? && Apply(s, l).rt.RealtimeSending? ==>
              Apply(s, l).rt.list.count <= l.maxCount && |Apply(s, l).rt.list.data| <= l.maxSize
  {
    hide FetchQueue, BufferFetch, FetchMemory, LinesOf, Data, Count;
    match l
    case MainFetchCritical(maxCount, maxSize) => FetchWithinLimits(s.critical, maxCount, maxSize);
    case MainFetchNormal(maxCount, maxSize) => BufferFetchWithinLimits(s.normal, maxCount, maxSize);
    case RealtimeFetch(maxCount, maxSize) => MemoryFetchIsLongest(LinesOf(s.realtime), maxCount, maxSize);
    case _ =>
  }

  /** Giving up an event gives up one at most, the first of its queue. */
  lemma DropLosesOneAtMost(s: Manager, l: Step)
    requires Conserved(s) && Legal(s, l) && (l.MainDrop? || l.RealtimeDrop?)
    ensures var t := Apply(s, l);
            && t.normal == s.normal
            && (l.MainDrop? ==>
                  && (Pending(t.critical) == Pending(s.critical)
                      || (Pending(s.critical) != [] && Pending(t.critical) == Pending(s.critical)[1..]))
                  && t.realtime == s.realtime)
            && (l.RealtimeDrop? ==>
                  && (t.realtime == s.realtime || (s.realtime != [] && t.realtime == s.realtime[1..]))
                  && t.critical == s.critical)
  {
    hide Pending, Split, LinesIn, Held;
    if l.MainDrop? { AcknowledgeRemovesPrefix(s.critical, s.main.list); }
  }

  /** Only an add that puts its event somewhere counts it as accepted. */
  lemma AcceptedExactlyWhen(s: Manager, l: Step, critical: bool)
    requires Legal(s, l)
    ensures BooksOf(Apply(s, l), critical).accepted
            == BooksOf(s, critical).accepted
               + if l.Add? then Into(l.e, GoesToRealtime(s, l.e) || Store(s, l.e, l.io).1, critical) else multiset{}
  {
    hide FetchQueue, BufferFetch, FetchMemory, Acknowledge, BufferUploaded, LinesOf, LinesIn, TryAdd, TryBufferAdd, Split, Taken, Target;
    assert forall x: Bag :: x + multiset{} == x;
  }

  /** Only a successful answer counts events as uploaded: those that were sent. */
  lemma UploadedExactlyWhen(s: Manager, l: Step, critical: bool)
    requires Legal(s, l)
    ensures BooksOf(Apply(s, l), critical).uploaded
            == BooksOf(s, critical).uploaded
               + (if l == MainAnswer(true) && s.main.CriticalSending? == critical
                  then multiset(Split(if critical then s.main.list.data else Data(s.main.blist)))
                  else if l == RealtimeAnswer(true) then multiset(LinesIn(s.realtime[..s.rt.list.count], critical))
                  else multiset{})
  {
    hide FetchQueue, BufferFetch, FetchMemory, Acknowledge, BufferUploaded, LinesOf, LinesIn, TryAdd, TryBufferAdd, Split, Taken, Target;
    assert forall x: Bag :: x + multiset{} == x;
  }

  /** An event is lost in a drop, in a flush, in a transfer or by an answer that hits others, and nowhere else. */
  lemma LostExactlyWhen(s: Manager, l: Step, critical: bool)
    requires Legal(s, l)
    ensures var b, b' := BooksOf(s, critical), BooksOf(Apply(s, l), critical);
            var stored := Stored(s, l);
            && (l.MainDrop? && critical ==> b'.lost == b.lost + multiset(Split(s.main.list.data)))
            && (l.RealtimeDrop? ==> b'.lost == b.lost + multiset(LinesIn(s.realtime[..s.rt.list.count], critical)))
            && (stored.Some? ==>
                  b'.lost == b.lost + (if critical then multiset{} else FlushLoss(s, stored.value, l.io))
                    + (if l.TransferOne? && stored.value.critical == critical && !Store(s, stored.value, l.io).1
                       then multiset{stored.value.line} else multiset{}))
            && ((l.MainDrop? && critical) || l.RealtimeDrop? || stored.Some?
                || (l == MainAnswer(true) && s.main.NormalSending? && !critical) || b'.lost == b.lost)
  {
    hide FetchQueue, BufferFetch, FetchMemory, Acknowledge, BufferUploaded, LinesOf, LinesIn, Store, FlushLoss, Split, Taken, Target;
    if Stored(s, l).Some? {
      StoreLoses(s, Stored(s, l).value, l.io);
    } else if l.Add? {
      StoreKeepsRest(s, l.e, l.io);
    }
    assert forall x: Bag :: x + multiset{} == x;
  }

  lemma StoreLoses(s: Manager, e: Event, io: Outcomes)
    ensures var s' := Store(s, e, io).0;
            && s'.criticalBooks == s.criticalBooks
            && s'.otherBooks == Loses(s.otherBooks, FlushLoss(s, e, io))
  {
    hide TryAdd, TryBufferAdd, Dropped;
  }

  /** The limits of a queue are those last configured for it. */
  lemma ConfiguredLimitsDecide(s: Manager, m: Limits, e: Event, io: Outcomes)
    ensures e.critical ==>
              (Store(Apply(s, ConfigureCritical(m)), e, io).1 <==> Works(io) && (m.maxSize == 0 || |e.line| <= m.maxSize))
    ensures !e.critical && |s.normal.mem| >= s.normal.limit ==>
              Pending(Store(Apply(s, ConfigureNormal(m)), e, io).0.normal.wrapped)
              == Pending(s.normal.wrapped) + Forwarded(s.normal.mem, m, io)
  {
    hide Pending, TryForward, Forwarded, TryAdd, EventQueue.Add;
    if e.critical {
      StoreGoesWhereItBelongs(s.(criticalLimits := m), e, io);
    } else {
      TryForwardAppends(s.normal.wrapped, s.normal.mem, m, io);
    }
  }

  lemma StepConserves(s: Manager, l: Step)
    requires Conserved(s) && Legal(s, l)
    ensures Conserved(Apply(s, l))
  {
    hide Held, OnlyLines;
    match l
    case Add(e, io) => AddConserves(s, e, io);
    case TransferOne(io) => TransferConserves(s, io);
    case ConfigureNormal(_) => LimitsDoNotMatter(s, l);
    case ConfigureCritical(_) => LimitsDoNotMatter(s, l);
    case RealtimeFetch(_, _) => RealtimeFetchConserves(s, l);
    case RealtimeFetchOne => RealtimeFetchConserves(s, l);
    case RealtimeAnswer(ok) => if ok { RealtimeLeaves(s, l); } else { RealtimeFetchConserves(s, l); }
    case RealtimeDrop => RealtimeLeaves(s, l);
    case MainFetchCritical(_, _) => MainFetchConserves(s, l);
    case MainFetchNormal(_, _) => MainFetchConserves(s, l);
    case MainFetchOne => MainFetchConserves(s, l);
    case MainAnswer(_) => MainAnswerConserves(s, l);
    case MainDrop => MainAnswerConserves(s, l);
  }

  lemma LimitsDoNotMatter(s: Manager, l: Step)
    requires Conserved(s) && (l.ConfigureNormal? || l.ConfigureCritical?)
    ensures Conserved(Apply(s, l))
  {
    hide Pending, AllPending, InFlight, FilesName, BufferNames;
  }

  /**
   Main theorem: in every run, with any flushes in flight and any writes and opens failing,
   for critical events and for the others alike, those accepted and repeated together are
   those held, uploaded and lost. A run goes on for as long as it does not acknowledge more
   events from memory than there are.
   */
  lemma {:induction false} RunsConserve(s: Manager, steps: seq<Step>, t: Manager)
    requires Conserved(s) && EventManager.Runs(s, steps, t)
    ensures Conserved(t)
    decreases |steps|
  {
    hide Conserved;
    if steps != [] {
      StepConserves(s, steps[0]);
      RunsConserve(Apply(s, steps[0]), steps[1..], t);
    }
  }

  lemma StartConserves(normal: Buffer, critical: Queue, realtimeLimit: nat, n: Limits, c: Limits)
    requires AllLines(AllPending(normal)) && AllLines(Pending(critical))
    ensures Conserved(Start(normal, critical, realtimeLimit, n, c))
    ensures Undisturbed(Start(normal, critical, realtimeLimit, n, c))
  {
    hide Pending, AllPending;
    NoEventsNoLines();
  }
}
