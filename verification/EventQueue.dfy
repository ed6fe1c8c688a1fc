/**
 What the chain of batch files is for: one first-in, first-out queue of events. The
 functions here are the specification of MultiFileEventBatch; the lemmas say what it
 promises over every run of adds, fetches and acknowledgements, and where it stops.
 */
module EventQueue {
  import opened Basics
  import opened Sequences
  import opened Lines
  import opened Storage
  import opened FileBatch

  /** The events of the oldest file (if it is open), of the closed files, of the newest. */
  datatype Queue = Queue(oldest: Option<seq<Bytes>>, closed: seq<seq<Bytes>>, newest: seq<Bytes>)

  datatype Limits = Limits(maxEvents: nat, maxSize: nat)

  /** The events of the open oldest file. */
  function Front(q: Queue): seq<Bytes> {
    if q.oldest.Some? then q.oldest.value else []
  }

  /** All events, the oldest first. */
  function Pending(q: Queue): seq<Bytes> {
    Front(q) + (Flatten(q.closed) + q.newest)
  }

  /** The file that fetches and acknowledgements go to. */
  function Target(q: Queue): seq<Bytes> {
    if q.oldest.Some? then q.oldest.value else q.newest
  }

  function PopEmpty(closed: seq<seq<Bytes>>): (Option<seq<Bytes>>, seq<seq<Bytes>>) {
    if closed == [] then (None, [])
    else if closed[0] != [] then (Some(closed[0]), closed[1..])
    else PopEmpty(closed[1..])
  }

  /** Opens the next closed file that has events and deletes those that have none. */
  function CheckOldest(q: Queue): Queue {
    if q.oldest.Some? then q
    else
      var (o, rest) := PopEmpty(q.closed);
      Queue(o, rest, q.newest)
  }

  /** Finalizes the newest file and starts an empty one. */
  function Rotate(q: Queue): Queue {
    if q.oldest.None? && q.closed == [] then Queue(Some(q.newest), [], [])
    else Queue(q.oldest, q.closed + [q.newest], [])
  }

  /** Starts a new file when the newest one has no room. */
  function MakeRoom(q: Queue, line: Bytes, m: Limits): Queue {
    if HasRoom(q.newest, |line|, m.maxEvents, m.maxSize) then q else Rotate(q)
  }

  function Add(q: Queue, line: Bytes, m: Limits): (Queue, bool) {
    var q' := MakeRoom(q, line, m);
    if HasRoom(q'.newest, |line|, m.maxEvents, m.maxSize) then (q'.(newest := q'.newest + [line]), true)
    else (q', false)
  }

  /** An add whose write, or whose opening of a file, may fail. */
  function TryAdd(q: Queue, line: Bytes, m: Limits, works: bool): (Queue, bool) {
    if works then Add(q, line, m) else (MakeRoom(q, line, m), false)
  }

  function FetchQueue(q: Queue, maxCount: nat, maxSize: nat): (Queue, Option<EventList>) {
    var q' := CheckOldest(q);
    match Fetch(Target(q'), maxCount, maxSize)
    case None => (q', None)
    case Some(l) => (q', Some(l.(more := l.more || q'.oldest.Some?)))
  }

  function Acknowledge(q: Queue, list: EventList): Queue
    requires list.count <= |Target(q)|
  {
    if q.oldest.Some? then
      var rest := q.oldest.value[list.count..];
      q.(oldest := if rest == [] then None else Some(rest))
    else q.(newest := q.newest[list.count..])
  }

  function HasEvents(q: Queue): bool {
    q.closed != [] || q.oldest.Some? || q.newest != []
  }

  /**
   `list` is in flight: it was fetched from the file an acknowledgement will reach, and
   no closed file can come to stand in front of that file.
   */
  ghost predicate InFlight(q: Queue, list: EventList) {
    Heads(list, Target(q)) && (q.oldest.None? ==> q.closed == [])
  }

  // ---- single operations ------------------------------------------------------------

  lemma {:induction false} PopEmptyKeeps(closed: seq<seq<Bytes>>)
    ensures var (o, rest) := PopEmpty(closed);
            Flatten(closed) == (if o.Some? then o.value else []) + Flatten(rest)
    ensures var (o, rest) := PopEmpty(closed);
            (o.Some? ==> o.value != []) && (o.None? ==> rest == [])
  {
    if closed != [] && closed[0] == [] {
      PopEmptyKeeps(closed[1..]);
    }
  }

  /** Looking for the oldest file changes no event. */
  lemma CheckOldestKeepsPending(q: Queue)
    ensures Pending(CheckOldest(q)) == Pending(q)
    ensures CheckOldest(q).oldest.None? ==> CheckOldest(q).closed == []
    ensures CheckOldest(q).oldest == Some([]) <==> q.oldest == Some([])
  {
    PopEmptyKeeps(q.closed);
  }

  lemma RotateKeepsPending(q: Queue)
    ensures Pending(Rotate(q)) == Pending(q)
  {
    FlattenAppend(q.closed, [q.newest]);
    FlattenOne(q.newest);
  }

  /** An accepted event goes to the very end; a refused one leaves the queue as it was. */
  lemma AddAppends(q: Queue, line: Bytes, m: Limits)
    ensures var (q', ok) := Add(q, line, m);
            Pending(q') == if ok then Pending(q) + [line] else Pending(q)
    ensures Add(q, line, m).1 <==> HasRoom(q.newest, |line|, m.maxEvents, m.maxSize)
                                   || m.maxSize == 0 || |line| <= m.maxSize
  {
    RotateKeepsPending(q);
  }

  lemma RotateKeepsInFlight(q: Queue, list: EventList)
    requires InFlight(q, list)
    ensures InFlight(Rotate(q), list) && Target(q) <= Target(Rotate(q))
  {
  }

  /** However adds rotate the files, the acknowledgement reaches the file that was read. */
  lemma AddKeepsInFlight(q: Queue, line: Bytes, m: Limits, list: EventList)
    requires InFlight(q, list)
    ensures InFlight(Add(q, line, m).0, list)
    ensures Target(q) <= Target(Add(q, line, m).0)
  {
    if q.oldest.None? {
      assert (q.newest + [line])[..list.count] == q.newest[..list.count];
    }
  }

  /** A failed add loses its own event alone. */
  lemma TryAddAppends(q: Queue, line: Bytes, m: Limits, works: bool)
    ensures var (q', ok) := TryAdd(q, line, m, works);
            && Pending(q') == Pending(q) + (if ok then [line] else [])
            && (ok <==> works && Add(q, line, m).1)
  {
    hide Pending;
    RotateKeepsPending(q);
    AddAppends(q, line, m);
  }

  lemma TryAddKeepsInFlight(q: Queue, line: Bytes, m: Limits, works: bool, list: EventList)
    requires InFlight(q, list)
    ensures InFlight(TryAdd(q, line, m, works).0, list)
  {
    AddKeepsInFlight(q, line, m, list);
    RotateKeepsInFlight(q, list);
  }

  /** A fetch gives a prefix of the queue and leaves every event where it is. */
  lemma FetchGivesPrefix(q: Queue, maxCount: nat, maxSize: nat)
    ensures Pending(FetchQueue(q, maxCount, maxSize).0) == Pending(q)
    ensures var (q', l) := FetchQueue(q, maxCount, maxSize);
            l.Some? ==> InFlight(q', l.value)
                        && l.value.count <= |Pending(q)|
                        && l.value.data == Join(Pending(q)[..l.value.count])
  {
    CheckOldestKeepsPending(q);
    var (q', l) := FetchQueue(q, maxCount, maxSize);
    if l.Some? {
      InFlightHeadsPending(q', l.value);
    }
  }

  lemma NoneLeftBehind(q: Queue)
    requires Pending(q) == [] && q.oldest != Some([])
    ensures CheckOldest(q) == Queue(None, [], [])
  {
    CheckOldestKeepsPending(q);
  }

  /** A fetch takes as much of the first file with events as both limits and 1 MiB allow. */
  lemma FetchIsLongest(q: Queue, maxCount: nat, maxSize: nat)
    ensures var ls, l := Target(CheckOldest(q)), FetchQueue(q, maxCount, maxSize).1;
            l.Some? ==>
              && l.value.count <= maxCount && l.value.count <= |ls| && |l.value.data| <= Min(maxSize, 1048576)
              && l.value.data == Join(ls[..l.value.count])
              && forall k | l.value.count < k <= |ls| && k <= maxCount :: |Join(ls[..k])| > Min(maxSize, 1048576)
  {
    FitCountIsLongest(Target(CheckOldest(q)), maxCount, Min(maxSize, MAX_READ));
  }

  /** `more` says whether something is left, and is also set wherever the list is from a finalized file. */
  lemma MoreExactlyWhen(q: Queue, maxCount: nat, maxSize: nat)
    ensures var l := FetchQueue(q, maxCount, maxSize).1;
            l.Some? ==> (l.value.more <==> l.value.count < |Pending(q)| || CheckOldest(q).oldest.Some?)
  {
    CheckOldestKeepsPending(q);
    var q' := CheckOldest(q);
    if q'.oldest.None? { assert Pending(q') == q'.newest; }
  }

  lemma InFlightHeadsPending(q: Queue, list: EventList)
    requires InFlight(q, list)
    ensures list.count <= |Pending(q)| && Pending(q)[..list.count] == Target(q)[..list.count]
    ensures list.data == Join(Pending(q)[..list.count])
  {
    if q.oldest.None? {
      assert Pending(q) == q.newest;
    }
  }

  /** Acknowledging removes the fetched prefix and nothing else. */
  lemma AcknowledgeRemovesPrefix(q: Queue, list: EventList)
    requires InFlight(q, list)
    ensures list.count <= |Pending(q)|
    ensures Pending(Acknowledge(q, list)) == Pending(q)[list.count..]
  {
    InFlightHeadsPending(q, list);
    if q.oldest.None? {
      assert Pending(q) == q.newest;
    } else {
      assert Pending(q)[list.count..] == q.oldest.value[list.count..] + (Flatten(q.closed) + q.newest);
    }
  }

  /**
   A fetch from a non-empty queue finds nothing exactly when the oldest file is open
   and empty: it is never given up, because only an acknowledgement closes it.
   */
  lemma FetchMissesExactlyWhenStuck(q: Queue, maxCount: nat, maxSize: nat)
    requires maxCount > 0
    ensures FetchQueue(q, maxCount, maxSize).1.None? <==> Pending(q) == [] || q.oldest == Some([])
  {
    CheckOldestKeepsPending(q);
    PopEmptyKeeps(q.closed);
  }

  /**
   A fetched list is empty exactly when the first event is longer than what may be
   read. Its acknowledgement then removes nothing.
   */
  lemma FetchIsEmptyExactlyWhenFirstIsTooLong(q: Queue, maxCount: nat, maxSize: nat)
    requires FetchQueue(q, maxCount, maxSize).1.Some?
    ensures Pending(q) != []
    ensures FetchQueue(q, maxCount, maxSize).1.value.count == 0
            <==> |Pending(q)[0]| > Min(maxSize, MAX_READ)
  {
    CheckOldestKeepsPending(q);
    var q' := CheckOldest(q);
    assert q'.oldest.None? ==> Pending(q') == q'.newest;
    assert Pending(q)[0] == Target(q')[0];
  }

  // ---- the dead end -----------------------------------------------------------------

  ghost predicate Stuck(q: Queue) { q.oldest == Some([]) }

  /**
   The only way into the dead end: an event that no file can take arrives while every
   file is empty. Fetches and acknowledgements never lead there.
   */
  lemma AddSticksExactlyWhen(q: Queue, line: Bytes, m: Limits, works: bool)
    requires !Stuck(q)
    ensures Stuck(TryAdd(q, line, m, works).0) <==>
            q == Queue(None, [], []) && m.maxSize != 0 && |line| > m.maxSize
  {
  }

  /** An event of two bytes with files of one; the event behind it is accepted and never fetched. */
  lemma OversizeEventExample()
    ensures var m, q := Limits(0, 1), Queue(None, [], []);
            var q' := Add(Add(q, [65, NEWLINE], m).0, [NEWLINE], m).0;
            Pending(q') == [[NEWLINE]] && FetchQueue(q', 1, 100).1.None?
  {
    var m, q := Limits(0, 1), Queue(None, [], []);
    NoLines();
    JoinOne([NEWLINE]);
    AddAppends(q, [65, NEWLINE], m);
    AddAppends(Add(q, [65, NEWLINE], m).0, [NEWLINE], m);
    assert [] + [[NEWLINE]] == [[NEWLINE]];
  }

  lemma LongFirstEventExample()
    ensures FetchQueue(Queue(None, [], [[65, NEWLINE]]), 1, 1).1 == Some(EventList([], 0, true))
  {
    NoLines();
    JoinOne([65, NEWLINE]);
    var q := Queue(None, [], [[65, NEWLINE]]);
    assert Pending(q) == [[65, NEWLINE]];
    FetchIsEmptyExactlyWhenFirstIsTooLong(q, 1, 1);
    assert [[65, NEWLINE]][..0] == [];
  }

  lemma OnlyAddSticks(q: Queue, maxCount: nat, maxSize: nat, list: EventList)
    requires !Stuck(q)
    ensures !Stuck(FetchQueue(q, maxCount, maxSize).0)
    ensures list.count <= |Target(q)| ==> !Stuck(Acknowledge(q, list))
  {
    CheckOldestKeepsPending(q);
  }

  /** No file but the newest is empty. */
  ghost predicate Filled(q: Queue) {
    q.oldest != Some([]) && forall c | c in q.closed :: c != []
  }

  lemma FilledHasPending(q: Queue)
    requires Filled(q) && HasEvents(q)
    ensures Pending(q) != []
  {
    if q.closed != [] {
      FlattenFirst(q.closed);
      assert q.closed[0] in q.closed;
    }
  }

  /** An event that fits a file rotates only a file with events. */
  lemma AddKeepsFilled(q: Queue, line: Bytes, m: Limits)
    requires Filled(q) && (m.maxSize == 0 || |line| <= m.maxSize)
    ensures Filled(Add(q, line, m).0)
  {
    NoLines();
  }

  lemma TryAddKeepsFilled(q: Queue, line: Bytes, m: Limits, works: bool)
    requires Filled(q) && (m.maxSize == 0 || |line| <= m.maxSize)
    ensures Filled(TryAdd(q, line, m, works).0)
  {
    AddKeepsFilled(q, line, m);
    NoLines();
  }

  lemma FetchKeepsFilled(q: Queue, maxCount: nat, maxSize: nat)
    requires Filled(q)
    ensures Filled(FetchQueue(q, maxCount, maxSize).0)
  {
    if q.oldest.None? && q.closed != [] {
      assert q.closed[0] in q.closed;
      assert forall c | c in q.closed[1..] :: c in q.closed;
    }
  }

  lemma AcknowledgeKeepsFilled(q: Queue, list: EventList)
    requires Filled(q) && list.count <= |Target(q)|
    ensures Filled(Acknowledge(q, list))
  {
  }

  // ---- runs -------------------------------------------------------------------------

  /** What a client does: any thread adds, one uploader fetches and acknowledges. */
  datatype Op =
    | AddEvent(line: Bytes, works: bool)           // whether its write and opens work
    | GetEvents(maxCount: nat, maxSize: nat)
    | Uploaded
    | SetFileLimits(limits: Limits)

  /** A queue in use, with the history of accepted and of acknowledged events. */
  datatype Usage = Usage(q: Queue, limits: Limits, inFlight: Option<EventList>,
                         accepted: seq<Bytes>, delivered: seq<Bytes>)

  function Step(u: Usage, op: Op): Usage
    requires u.inFlight.Some? ==> u.inFlight.value.count <= |Target(u.q)|
  {
    match op
    case AddEvent(line, works) =>
      var (q', ok) := TryAdd(u.q, line, u.limits, works);
      u.(q := q', accepted := if ok then u.accepted + [line] else u.accepted)
    case GetEvents(maxCount, maxSize) =>
      var (q', l) := FetchQueue(u.q, maxCount, maxSize);
      u.(q := q', inFlight := l)
    case Uploaded =>
      if u.inFlight.None? then u
      else u.(q := Acknowledge(u.q, u.inFlight.value), inFlight := None,
              delivered := u.delivered + Split(u.inFlight.value.data))
    case SetFileLimits(limits) => u.(limits := limits)
  }

  ghost predicate LegalOp(op: Op) {
    op.AddEvent? ==> IsLine(op.line)
  }

  /** The first-in, first-out law: what was delivered and what is left is what was accepted. */
  ghost predicate Fifo(u: Usage) {
    && AllLines(u.accepted)
    && u.delivered + Pending(u.q) == u.accepted
    && (u.inFlight.Some? ==> InFlight(u.q, u.inFlight.value))
  }

  /** A queue as it is opened, with its events as the accepted ones. */
  function Opening(q: Queue, limits: Limits): Usage {
    Usage(q, limits, None, Pending(q), [])
  }

  lemma OpeningIsFifo(q: Queue, limits: Limits)
    requires AllLines(Pending(q))
    ensures Fifo(Opening(q, limits))
  {
    assert [] + Pending(q) == Pending(q);
  }

  lemma LinesOfSuffix(a: seq<Bytes>, b: seq<Bytes>, k: nat)
    requires AllLines(a + b) && k <= |b|
    ensures AllLines(b) && AllLines(b[..k])
  {
    assert forall l | l in b :: l in a + b;
  }

  lemma StepKeepsFifo(u: Usage, op: Op)
    requires Fifo(u) && LegalOp(op)
    ensures Fifo(Step(u, op))
  {
    hide Pending, Split, Join, TryAdd;
    match op
    case AddEvent(line, works) =>
      TryAddAppends(u.q, line, u.limits, works);
      Associative(u.delivered, Pending(u.q), [line]);
      if u.inFlight.Some? { TryAddKeepsInFlight(u.q, line, u.limits, works, u.inFlight.value); }
    case GetEvents(maxCount, maxSize) =>
      FetchGivesPrefix(u.q, maxCount, maxSize);
    case Uploaded =>
      if u.inFlight.Some? {
        var l := u.inFlight.value;
        AcknowledgeRemovesPrefix(u.q, l);
        InFlightHeadsPending(u.q, l);
        LinesOfSuffix(u.delivered, Pending(u.q), l.count);
        JoinIsClean(Pending(u.q)[..l.count]);
        Associative(u.delivered, Pending(u.q)[..l.count], Pending(u.q)[l.count..]);
        assert Pending(u.q)[..l.count] + Pending(u.q)[l.count..] == Pending(u.q);
      }
    case SetFileLimits(limits) =>
  }

  /** `ops` takes `u` to `v`. */
  ghost predicate Runs(u: Usage, ops: seq<Op>, v: Usage)
    decreases |ops|
  {
    if ops == [] then u == v
    else
      && LegalOp(ops[0])
      && (u.inFlight.Some? ==> u.inFlight.value.count <= |Target(u.q)|)
      && Runs(Step(u, ops[0]), ops[1..], v)
  }

  /** Main theorem: the chain of files is one FIFO queue, in every run. */
  lemma {:induction false} RunsAreFifo(u: Usage, ops: seq<Op>, v: Usage)
    requires Fifo(u) && Runs(u, ops, v)
    ensures Fifo(v)
    decreases |ops|
  {
    if ops != [] {
      StepKeepsFifo(u, ops[0]);
      RunsAreFifo(Step(u, ops[0]), ops[1..], v);
    }
  }

  // ---- the size of files ------------------------------------------------------------

  /** A file within the limits, of which 0 is none. */
  ghost predicate Within(ls: seq<Bytes>, m: Limits) {
    (m.maxEvents == 0 || |ls| <= m.maxEvents) && (m.maxSize == 0 || |Join(ls)| <= m.maxSize)
  }

  ghost predicate AllWithin(q: Queue, m: Limits) {
    && (q.oldest.Some? ==> Within(q.oldest.value, m)) && Within(q.newest, m)
    && forall c | c in q.closed :: Within(c, m)
  }

  /** The newest file is left for the next one exactly when the event would exceed one of its limits. */
  lemma LeavesFileExactlyWhen(q: Queue, line: Bytes, m: Limits)
    ensures MakeRoom(q, line, m) != q <==>
              || (m.maxEvents != 0 && |q.newest| + 1 > m.maxEvents)
              || (m.maxSize != 0 && |Join(q.newest)| + |line| > m.maxSize)
    ensures MakeRoom(q, line, m) != q ==> MakeRoom(q, line, m).newest == []
  {
  }

  lemma PrefixGoneWithin(ls: seq<Bytes>, k: nat, m: Limits)
    requires Within(ls, m) && k <= |ls|
    ensures Within(ls[k..], m) && Within([], m)
  {
    JoinCut(ls, k);
    NoLines();
  }

  lemma AddKeepsWithin(q: Queue, line: Bytes, m: Limits, works: bool)
    requires AllWithin(q, m)
    ensures AllWithin(TryAdd(q, line, m, works).0, m)
  {
    hide Join;
    NoLines();
    JoinMore(q.newest, line);
    JoinMore([], line);
    assert [] + [line] == [line];
  }

  lemma JoinMore(ls: seq<Bytes>, line: Bytes)
    ensures |Join(ls + [line])| == |Join(ls)| + |line|
  {
    JoinAppend(ls, [line]);
    JoinOne(line);
  }

  lemma {:induction false} PopEmptyIsPart(closed: seq<seq<Bytes>>)
    ensures var (o, rest) := PopEmpty(closed);
            (o.Some? ==> o.value in closed) && forall c | c in rest :: c in closed
  {
    if closed != [] && closed[0] == [] { PopEmptyIsPart(closed[1..]); }
  }

  lemma StepKeepsWithin(u: Usage, op: Op)
    requires AllWithin(u.q, u.limits) && !op.SetFileLimits?
    requires u.inFlight.Some? ==> u.inFlight.value.count <= |Target(u.q)|
    ensures AllWithin(Step(u, op).q, u.limits) && Step(u, op).limits == u.limits
  {
    hide Within, TryAdd, Split, PopEmpty;
    match op
    case AddEvent(line, works) => AddKeepsWithin(u.q, line, u.limits, works);
    case GetEvents(_, _) => PopEmptyIsPart(u.q.closed);
    case Uploaded =>
      if u.inFlight.Some? { PrefixGoneWithin(Target(u.q), u.inFlight.value.count, u.limits); }
  }

  /** As long as the limits stay, every file keeps to them, in every run. */
  lemma {:induction false} FilesStayWithinLimits(u: Usage, ops: seq<Op>, v: Usage)
    requires AllWithin(u.q, u.limits) && Runs(u, ops, v) && forall op | op in ops :: !op.SetFileLimits?
    ensures AllWithin(v.q, v.limits) && v.limits == u.limits
    decreases |ops|
  {
    hide AllWithin;
    if ops != [] {
      assert ops[0] in ops && forall op | op in ops[1..] :: op in ops;
      StepKeepsWithin(u, ops[0]);
      FilesStayWithinLimits(Step(u, ops[0]), ops[1..], v);
    }
  }

  /** No run from a state that keeps the law ever acknowledges more than its file holds. */
  lemma {:induction false} EveryRunExists(u: Usage, ops: seq<Op>) returns (v: Usage)
    requires Fifo(u) && forall op | op in ops :: LegalOp(op)
    ensures Runs(u, ops, v)
    decreases |ops|
  {
    if ops == [] {
      v := u;
    } else {
      StepKeepsFifo(u, ops[0]);
      v := EveryRunExists(Step(u, ops[0]), ops[1..]);
    }
  }

  /** Only acknowledging a list of no events, fetched before, opens a stuck queue again. */
  lemma UnsticksExactlyWhen(u: Usage, op: Op)
    requires Stuck(u.q) && Fifo(u) && LegalOp(op)
    ensures !Stuck(Step(u, op).q) <==> op.Uploaded? && u.inFlight.Some?
    ensures Step(u, op).delivered == u.delivered
  {
    if u.inFlight.Some? { NoLines(); }
  }

  /** Once stuck with no list in flight, a queue delivers nothing more. */
  lemma {:induction false} StuckForever(u: Usage, ops: seq<Op>, v: Usage)
    requires Stuck(u.q) && u.inFlight.None? && Runs(u, ops, v)
    ensures Stuck(v.q) && v.inFlight.None? && v.delivered == u.delivered
    decreases |ops|
  {
    if ops != [] {
      StuckForever(Step(u, ops[0]), ops[1..], v);
    }
  }
}
