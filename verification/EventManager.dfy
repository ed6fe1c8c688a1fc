/**
 The event manager as a protocol between any number of threads that add events, the
 main upload task and the realtime upload task. Every access to a queue is one step,
 so adds come between a fetch, its upload and its acknowledgement. The network answer is
 a free choice.
 */
module EventManager {
  import opened Basics
  import opened Lines
  import opened Storage
  import opened FileBatch
  import opened EventQueue
  import opened Buffered

  const SIZE_MAX: nat := 0xFFFF_FFFF_FFFF_FFFF

  datatype Event = Event(line: Bytes, critical: bool, realtime: bool)

  function LinesOf(es: seq<Event>): (ls: seq<Bytes>)
    ensures |ls| == |es|
    ensures forall i | 0 <= i < |es| :: ls[i] == es[i].line
  {
    seq(|es|, i requires 0 <= i < |es| => es[i].line)
  }

  /** The lines of the critical events among `es`, or of the others. */
  function LinesIn(es: seq<Event>, critical: bool): seq<Bytes>
    decreases |es|
  {
    if es == [] then []
    else (if es[0].critical == critical then [es[0].line] else []) + LinesIn(es[1..], critical)
  }

  /**
   Where one `sendEvents` call on one of the two stored queues stands. The buffered queue
   never answers a fetch with nothing, so only the critical one can be missed.
   */
  datatype MainTask =
    | MainIdle
    | CriticalMissed                             // nothing fetched: look again, then drop one
    | CriticalSending(list: EventList)
    | CriticalDropping(list: EventList)
    | NormalSending(blist: BufferedList)
    | Crashed                                    // a list without a list inside was used

  datatype RealtimeTask =
    | RealtimeIdle
    | RealtimeMissed
    | RealtimeSending(list: EventList)
    | RealtimeDropping(list: EventList)
    | Transferring(rest: seq<Event>)             // on their way to the stored queues

  type Bag = multiset<Bytes>

  /**
   The books of one class of events: `accepted`, `uploaded` and `lost` count those that have
   come in, gone out, and been dropped; `repeated` those that have gone out and still wait.
   */
  datatype Books = Books(accepted: Bag, uploaded: Bag, lost: Bag, repeated: Bag)

  function Accepts(b: Books, x: Bag): Books { b.(accepted := b.accepted + x) }
  function Uploads(b: Books, x: Bag): Books { b.(uploaded := b.uploaded + x) }
  function Loses(b: Books, x: Bag): Books { b.(lost := b.lost + x) }

  /** Critical events and the others are booked apart. */
  datatype Manager = Manager(
    realtime: seq<Event>, realtimeLimit: nat,
    normal: Buffer, normalLimits: Limits, critical: Queue, criticalLimits: Limits,
    main: MainTask, rt: RealtimeTask, criticalBooks: Books, otherBooks: Books)

  function BooksOf(s: Manager, critical: bool): Books {
    if critical then s.criticalBooks else s.otherBooks
  }

  function Rebook(s: Manager, critical: bool, b: Books): Manager {
    if critical then s.(criticalBooks := b) else s.(otherBooks := b)
  }

  datatype Step =
    | Add(e: Event, io: Outcomes)                // which of its writes and opens work
    | ConfigureNormal(limits: Limits)
    | ConfigureCritical(limits: Limits)
    | MainFetchCritical(maxCount: nat, maxSize: nat)
    | MainFetchNormal(maxCount: nat, maxSize: nat)
    | MainFetchOne
    | MainAnswer(success: bool)
    | MainDrop
    | RealtimeFetch(maxCount: nat, maxSize: nat)
    | RealtimeFetchOne
    | RealtimeAnswer(success: bool)
    | RealtimeDrop
    | TransferOne(io: Outcomes)

  // ---- the steps --------------------------------------------------------------------

  /** What adding `e` forwards from memory and loses: no file takes it, or a write or open fails. */
  function FlushLoss(s: Manager, e: Event, io: Outcomes): multiset<Bytes> {
    if !e.critical && |s.normal.mem| >= s.normal.limit
    then multiset(Dropped(s.normal.mem, s.normalLimits, io)) else multiset{}
  }

  /** Puts an event into its stored queue. */
  function Store(s: Manager, e: Event, io: Outcomes): (Manager, bool) {
    if e.critical then
      var (q, ok) := TryAdd(s.critical, e.line, s.criticalLimits, Works(io));
      (s.(critical := q), ok)
    else
      var (b, ok) := TryBufferAdd(s.normal, e.line, s.normalLimits, io);
      (s.(normal := b, otherBooks := Loses(s.otherBooks, FlushLoss(s, e, io))), ok)
  }

  predicate GoesToRealtime(s: Manager, e: Event) {
    e.realtime && |s.realtime| < s.realtimeLimit
  }

  function AddStep(s: Manager, e: Event, io: Outcomes): Manager {
    if GoesToRealtime(s, e) then Accept(s.(realtime := s.realtime + [e]), e)
    else
      var (s', ok) := Store(s, e, io);
      if ok then Accept(s', e) else s'
  }

  function Accept(s: Manager, e: Event): Manager {
    Rebook(s, e.critical, Accepts(BooksOf(s, e.critical), multiset{e.line}))
  }

  function ListLines(data: Bytes): multiset<Bytes> { multiset(Split(data)) }

  function FetchRealtime(s: Manager, maxCount: nat, maxSize: nat): Option<EventList> {
    FetchMemory(LinesOf(s.realtime), maxCount, maxSize)
  }

  predicate BufferHasEvents(b: Buffer) { b.mem != [] || EventQueue.HasEvents(b.wrapped) }

  /** The events that acknowledging `l` takes out of the buffer, whichever they are. */
  function Taken(b: Buffer, l: BufferedList): seq<Bytes>
    requires WrappedCount(l) <= |Target(b.wrapped)| && MemoryCount(l) <= |b.mem|
  {
    Target(b.wrapped)[..WrappedCount(l)] + b.mem[..MemoryCount(l)]
  }

  predicate Enabled(s: Manager, l: Step) {
    match l
    case Add(_, _) => true
    case ConfigureNormal(_) => true
    case ConfigureCritical(_) => true
    case MainFetchCritical(_, _) => s.main.MainIdle?
    case MainFetchNormal(_, _) => s.main.MainIdle? && BufferHasEvents(s.normal)
    case MainFetchOne => s.main.CriticalMissed?
    case MainAnswer(_) => s.main.CriticalSending? || s.main.NormalSending?
    case MainDrop => s.main.CriticalDropping?
    case RealtimeFetch(_, _) => s.rt.RealtimeIdle?
    case RealtimeFetchOne => s.rt.RealtimeMissed?
    case RealtimeAnswer(_) => s.rt.RealtimeSending?
    case RealtimeDrop => s.rt.RealtimeDropping?
    case TransferOne(_) => s.rt.Transferring?
  }

  /** Where a step acknowledges a list, the queue holds as many events as the list names. */
  predicate Acknowledgeable(s: Manager, l: Step)
    requires Enabled(s, l)
  {
    match l
    case MainAnswer(success) =>
      success ==>
        if s.main.CriticalSending? then s.main.list.count <= |Target(s.critical)|
        else
          && WrappedCount(s.main.blist) <= |Target(s.normal.wrapped)|
          && MemoryCount(s.main.blist) <= |s.normal.mem|
    case MainDrop => s.main.list.count <= |Target(s.critical)|
    case RealtimeAnswer(success) => success ==> s.rt.list.count <= |s.realtime|
    case RealtimeDrop => s.rt.list.count <= |s.realtime|
    case _ => true
  }

  function Apply(s: Manager, l: Step): Manager
    requires Enabled(s, l) && Acknowledgeable(s, l)
  {
    match l
    case Add(e, io) => AddStep(s, e, io)
    case ConfigureNormal(limits) => s.(normalLimits := limits)
    case ConfigureCritical(limits) => s.(criticalLimits := limits)
    case MainFetchCritical(maxCount, maxSize) =>
      var (q, r) := FetchQueue(s.critical, maxCount, maxSize);
      s.(critical := q, main := if r.Some? then CriticalSending(r.value) else CriticalMissed)
    case MainFetchNormal(maxCount, maxSize) =>
      var (b, r) := BufferFetch(s.normal, maxCount, maxSize);
      s.(normal := b, main := if r == MemoryList(None) then Crashed else NormalSending(r))
    case MainFetchOne =>
      if !EventQueue.HasEvents(s.critical) then s.(main := MainIdle)
      else
        var (q, r) := FetchQueue(s.critical, 1, SIZE_MAX);
        s.(critical := q, main := if r.Some? then CriticalDropping(r.value) else MainIdle)
    case MainAnswer(success) =>
      if !success then s.(main := MainIdle)
      else if s.main.CriticalSending? then
        s.(critical := Acknowledge(s.critical, s.main.list), main := MainIdle,
           criticalBooks := Uploads(s.criticalBooks, ListLines(s.main.list.data)))
      else
        var taken, sent := multiset(Taken(s.normal, s.main.blist)), ListLines(Data(s.main.blist));
        var b := Loses(Uploads(s.otherBooks, sent), taken - sent);
        s.(normal := BufferUploaded(s.normal, s.main.blist), main := MainIdle,
           otherBooks := b.(repeated := b.repeated + (sent - taken)))
    case MainDrop =>
      s.(critical := Acknowledge(s.critical, s.main.list), main := MainIdle,
         criticalBooks := Loses(s.criticalBooks, ListLines(s.main.list.data)))
    case RealtimeFetch(maxCount, maxSize) =>
      var r := FetchRealtime(s, maxCount, maxSize);
      s.(rt := if r.Some? then RealtimeSending(r.value) else RealtimeMissed)
    case RealtimeFetchOne =>
      var r := FetchRealtime(s, 1, SIZE_MAX);
      if s.realtime == [] then s.(rt := RealtimeIdle)
      else if r.Some? then s.(rt := RealtimeDropping(r.value))
      else s.(realtime := [], rt := Transferring(s.realtime))
    case RealtimeAnswer(success) =>
      if success then
        s.(realtime := s.realtime[s.rt.list.count..], rt := RealtimeIdle,
           criticalBooks := Uploads(s.criticalBooks, multiset(LinesIn(s.realtime[..s.rt.list.count], true))),
           otherBooks := Uploads(s.otherBooks, multiset(LinesIn(s.realtime[..s.rt.list.count], false))))
      else s.(realtime := [], rt := Transferring(s.realtime))
    case RealtimeDrop =>
      s.(realtime := s.realtime[s.rt.list.count..], rt := RealtimeIdle,
         criticalBooks := Loses(s.criticalBooks, multiset(LinesIn(s.realtime[..s.rt.list.count], true))),
         otherBooks := Loses(s.otherBooks, multiset(LinesIn(s.realtime[..s.rt.list.count], false))))
    case TransferOne(io) =>
      if s.rt.rest == [] then s.(rt := RealtimeIdle)
      else
        var e := s.rt.rest[0];
        var (s', ok) := Store(s, e, io);
        var t := s'.(rt := Transferring(s.rt.rest[1..]));
        if ok then t else Rebook(t, e.critical, Loses(BooksOf(t, e.critical), multiset{e.line}))
  }

  // ---- conservation -----------------------------------------------------------------

  function InTransfer(s: Manager): seq<Event> {
    if s.rt.Transferring? then s.rt.rest else []
  }

  /** What is stored of a class: critical events have their own queue. */
  function Queued(s: Manager, critical: bool): seq<Bytes> {
    if critical then Pending(s.critical) else AllPending(s.normal)
  }

  /** What is kept of a class outside of its stored queue. */
  function Outside(s: Manager, critical: bool): Bag {
    multiset(LinesIn(s.realtime, critical)) + multiset(LinesIn(InTransfer(s), critical))
  }

  /** Everything of a class that the manager still has, wherever it is. */
  function Held(s: Manager, critical: bool): Bag {
    Outside(s, critical) + multiset(Queued(s, critical))
  }

  ghost predicate OnlyLines(s: Manager) {
    && AllLines(LinesOf(s.realtime)) && AllLines(LinesOf(InTransfer(s)))
    && AllLines(AllPending(s.normal)) && AllLines(Pending(s.critical))
  }

  /** The list stands at the front of the parts it came from. */
  ghost predicate BufferNames(b: Buffer, l: BufferedList) {
    match l
    case WrappedList(w, _) => InFlight(b.wrapped, w)
    case MemoryList(m) => m.Some? ==> Heads(m.value, b.mem)
    case MergedList(w, m) => InFlight(b.wrapped, w) && Heads(m, b.mem)
  }

  /** The part of a list that came from the files is in flight there. */
  ghost predicate FilesName(q: Queue, l: BufferedList) {
    match l
    case WrappedList(w, _) => InFlight(q, w)
    case MemoryList(_) => true
    case MergedList(w, _) => InFlight(q, w)
  }

  ghost predicate ListsHold(s: Manager) {
    && (s.main.NormalSending? ==> FilesName(s.normal.wrapped, s.main.blist))
    && (s.main.CriticalSending? || s.main.CriticalDropping? ==> InFlight(s.critical, s.main.list))
    && (s.rt.RealtimeSending? || s.rt.RealtimeDropping? ==> Heads(s.rt.list, LinesOf(s.realtime)))
    && (s.main.CriticalDropping? ==> s.main.list.count <= 1) && (s.rt.RealtimeDropping? ==> s.rt.list.count <= 1)
  }

  /** Every accepted event is held, uploaded or lost, and in two of these only as often as it is repeated. */
  ghost predicate Even(b: Books, held: Bag) {
    b.accepted + b.repeated == held + b.uploaded + b.lost
  }

  /** The books of both classes are even, each with its own queue. */
  ghost predicate Conserved(s: Manager) {
    && Even(s.criticalBooks, Held(s, true)) && Even(s.otherBooks, Held(s, false))
    && OnlyLines(s) && ListsHold(s)
  }

  /** Nothing has been repeated, and the list in flight still names what it was fetched from. */
  ghost predicate Undisturbed(s: Manager) {
    s.criticalBooks.repeated == s.otherBooks.repeated == multiset{} && (s.main.NormalSending? ==> BufferNames(s.normal, s.main.blist))
  }

  /** The event that a step puts into a stored queue. */
  function Stored(s: Manager, l: Step): Option<Event> {
    match l
    case Add(e, _) => if GoesToRealtime(s, e) then None else Some(e)
    case TransferOne(_) => if InTransfer(s) != [] then Some(InTransfer(s)[0]) else None
    case _ => None
  }

  /** No flush of the memory buffer while events from it are in flight. */
  predicate NoFlushInFlight(s: Manager, e: Event) {
    !e.critical && s.main.NormalSending? && MemoryCount(s.main.blist) > 0 ==>
      |s.normal.mem| < s.normal.limit
  }

  ghost predicate Legal(s: Manager, l: Step) {
    Enabled(s, l) && Acknowledgeable(s, l) && (l.Add? ==> IsLine(l.e.line))
  }

  predicate Careful(s: Manager, l: Step) {
    Stored(s, l).Some? ==> NoFlushInFlight(s, Stored(s, l).value)
  }

  ghost predicate Runs(s: Manager, steps: seq<Step>, t: Manager)
    decreases |steps|
  {
    if steps == [] then s == t
    else
      && Legal(s, steps[0])
      && Runs(Apply(s, steps[0]), steps[1..], t)
  }

  function OpenedWith(ls: seq<Bytes>): Books {
    Books(multiset(ls), multiset{}, multiset{}, multiset{})
  }

  function Start(normal: Buffer, critical: Queue, realtimeLimit: nat, n: Limits, c: Limits): Manager {
    Manager([], realtimeLimit, normal, n, critical, c, MainIdle, RealtimeIdle,
            OpenedWith(Pending(critical)), OpenedWith(AllPending(normal)))
  }

  // ---- small facts ------------------------------------------------------------------

  lemma LinesOfParts(es: seq<Event>, k: nat)
    requires k <= |es|
    ensures LinesOf(es[k..]) == LinesOf(es)[k..]
    ensures es != [] ==> LinesOf(es) == [es[0].line] + LinesOf(es[1..])
  {
  }

  lemma LinesOfMore(es: seq<Event>, e: Event)
    ensures LinesOf(es + [e]) == LinesOf(es) + [e.line]
  {
  }

  lemma NoEventsNoLines()
    ensures LinesOf([]) == [] && LinesIn([], true) == LinesIn([], false) == []
  {
  }

  lemma {:induction false} LinesInTogether(a: seq<Event>, b: seq<Event>, critical: bool)
    ensures LinesIn(a + b, critical) == LinesIn(a, critical) + LinesIn(b, critical)
    decreases |a|
  {
    hide LinesIn;
    NoEventsNoLines();
    if a == [] {
      assert a + b == b;
    } else {
      assert (a + b)[1..] == a[1..] + b && (a + b)[0] == a[0];
      LinesInTogether(a[1..], b, critical);
      LinesInStep(a, critical);
      LinesInStep(a + b, critical);
    }
  }

  lemma LinesInStep(es: seq<Event>, critical: bool)
    requires es != []
    ensures LinesIn(es, critical) == (if es[0].critical == critical then [es[0].line] else []) + LinesIn(es[1..], critical)
  {
  }

  lemma LinesInOne(e: Event, critical: bool)
    ensures LinesIn([e], critical) == if e.critical == critical then [e.line] else []
  {
  }

  lemma {:induction false} ClassesTogether(es: seq<Event>)
    ensures multiset(LinesIn(es, true)) + multiset(LinesIn(es, false)) == multiset(LinesOf(es))
    decreases |es|
  {
    NoEventsNoLines();
    if es != [] {
      LinesOfParts(es, 1);
      ClassesTogether(es[1..]);
    }
  }

  lemma StoreKeepsRest(s: Manager, e: Event, io: Outcomes)
    ensures var s' := Store(s, e, io).0;
            s' == s.(normal := s'.normal, critical := s'.critical, otherBooks := s'.otherBooks)
            && s'.otherBooks == s.otherBooks.(lost := s'.otherBooks.lost)
  {
  }

  lemma StoreLeavesTasks(s: Manager, e: Event, io: Outcomes)
    ensures Store(s, e, io).0.main == s.main && Store(s, e, io).0.rt == s.rt
    ensures Store(s, e, io).0.criticalBooks == s.criticalBooks
    ensures Store(s, e, io).0.otherBooks.repeated == s.otherBooks.repeated
  {
  }
}
