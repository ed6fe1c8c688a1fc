/**
 A memory buffer in front of the file queue. Events wait in memory until the buffer is
 full, are then forwarded to the files, and a fetch joins what both parts hold.
 */
module Buffered {
  import opened Basics
  import opened Sequences
  import opened Lines
  import opened Storage
  import opened FileBatch
  import opened EventQueue
  import opened MultiFile

  // ---- the memory part --------------------------------------------------------------

  function SerializeAll(items: seq<Bytes>): (ls: seq<Bytes>)
    ensures |ls| == |items|
    ensures forall i | 0 <= i < |items| :: ls[i] == Serialize(items[i])
  {
    seq(|items|, i requires 0 <= i < |items| => Serialize(items[i]))
  }

  lemma SerializeMore(items: seq<Bytes>, json: Bytes)
    ensures SerializeAll(items + [json]) == SerializeAll(items) + [Serialize(json)]
  {
  }

  lemma SerializedTexts(items: seq<Bytes>)
    ensures SerializeAll(items) == seq(|items|, i requires 0 <= i < |items| => items[i] + [13, 10])
  {
  }

  function FetchMemory(ls: seq<Bytes>, maxCount: nat, maxSize: nat): Option<EventList> {
    if maxCount == 0 || maxSize == 0 || ls == [] then None
    else
      var k := FitCount(ls, maxCount, maxSize);
      Some(EventList(Join(ls[..k]), k, k < |ls|))
  }

  /** From memory comes the longest prefix that both limits allow, and none if there is nothing to take. */
  lemma MemoryFetchIsLongest(ls: seq<Bytes>, maxCount: nat, maxSize: nat)
    ensures var l := FetchMemory(ls, maxCount, maxSize);
            && (l.None? <==> ls == [] || maxCount == 0 || maxSize == 0)
            && (l.Some? ==>
                  && l.value.count <= maxCount && l.value.count <= |ls| && |l.value.data| <= maxSize
                  && l.value.data == Join(ls[..l.value.count])
                  && (l.value.more <==> l.value.count < |ls|)
                  && forall k | l.value.count < k <= |ls| && k <= maxCount :: |Join(ls[..k])| > maxSize)
  {
    FitCountIsLongest(ls, maxCount, maxSize);
  }

  /** The longest list of the first of these events, in order, each with a line end behind it, that the limits allow. */
  ghost predicate ListsTexts(l: EventList, js: seq<Bytes>, maxCount: nat, maxSize: nat) {
    var ls := seq(|js|, i requires 0 <= i < |js| => js[i] + [13, 10]);
    && l.count <= maxCount && l.count <= |ls| && |l.data| <= maxSize
    && l.data == Join(ls[..l.count]) && (l.more <==> l.count < |ls|)
    && forall k | l.count < k <= |ls| && k <= maxCount :: |Join(ls[..k])| > maxSize
  }

  class MemoryEventBatch {
    var items: seq<Bytes>
    const limit: nat

    constructor (limit: nat)
      ensures items == [] && this.limit == limit
    {
      items := [];
      this.limit := limit;
    }

    function Contents(): seq<Bytes>
      reads this
    {
      SerializeAll(items)
    }

    method AddEvent(json: Bytes) returns (ok: bool)
      modifies this`items
      ensures ok <==> |old(items)| < limit
      ensures items == if ok then old(items) + [json] else old(items)
    {
      if |items| >= limit { return false; }
      items := items + [json];
      ok := true;
    }

    predicate HasEvents()
      reads this
    {
      items != []
    }

    method GetEventsForUpload(maxCount: nat, maxSize: nat) returns (list: Option<EventList>)
      ensures list == FetchMemory(Contents(), maxCount, maxSize)
      ensures list.None? <==> items == [] || maxCount == 0 || maxSize == 0
      ensures list.Some? ==> ListsTexts(list.value, items, maxCount, maxSize)
    {
      hide Join, Serialize;
      if maxCount == 0 || maxSize == 0 || items == [] { return None; }
      ghost var ls := Contents();
      var ret: Bytes := [];
      var count := 0;
      NoLines();
      assert ls[..0] == [];
      while count < |items|
        invariant count <= |items| && count < maxCount
        invariant ret == Join(ls[..count]) && |ret| <= maxSize
      {
        var itm := Serialize(items[count]);
        LineStep(ls, count);
        if |ret| + |itm| > maxSize {
          break;
        }
        ret := ret + itm;
        count := count + 1;
        if count == maxCount {
          break;
        }
      }
      FitCountUnique(ls, maxCount, maxSize, count);
      list := Some(EventList(ret, count, count < |items|));
      MemoryFetchIsLongest(ls, maxCount, maxSize);
      SerializedTexts(items);
    }

    method OnEventsUploaded(list: EventList)
      requires list.count <= |items|
      modifies this`items
      ensures items == old(items)[list.count..]
    {
      items := items[list.count..];
    }

    method TransferAllEvents() returns (all: seq<Bytes>)
      modifies this`items
      ensures all == old(items) && items == []
    {
      all := items;
      items := [];
    }
  }

  // ---- the buffered queue -----------------------------------------------------------

  datatype Buffer = Buffer(wrapped: Queue, mem: seq<Bytes>, limit: nat)

  /** The three kinds of fetched list; a memory list may wrap nothing at all. */
  datatype BufferedList =
    | WrappedList(list: EventList, hasMemory: bool)
    | MemoryList(inner: Option<EventList>)
    | MergedList(front: EventList, back: EventList)

  /** How many of the listed events came from the files, and how many from memory. */
  function WrappedCount(l: BufferedList): nat {
    match l
    case WrappedList(w, _) => w.count
    case MemoryList(_) => 0
    case MergedList(w, _) => w.count
  }

  function MemoryCount(l: BufferedList): nat {
    match l
    case WrappedList(_, _) => 0
    case MemoryList(m) => if m.Some? then m.value.count else 0
    case MergedList(_, m) => m.count
  }

  function Data(l: BufferedList): Bytes {
    match l
    case WrappedList(w, _) => w.data
    case MemoryList(m) => if m.Some? then m.value.data else []
    case MergedList(w, m) => w.data + m.data
  }

  function Count(l: BufferedList): nat { WrappedCount(l) + MemoryCount(l) }

  function AllPending(b: Buffer): seq<Bytes> { Pending(b.wrapped) + b.mem }

  /** Forwards the lines one by one; a refused line is logged and lost. */
  function Forward(q: Queue, ls: seq<Bytes>, m: Limits): Queue
    decreases |ls|
  {
    if ls == [] then q else Forward(Add(q, ls[0], m).0, ls[1..], m)
  }

  function Flush(b: Buffer, m: Limits): Buffer {
    b.(wrapped := Forward(b.wrapped, b.mem, m), mem := [])
  }

  function BufferAdd(b: Buffer, line: Bytes, m: Limits): (Buffer, bool) {
    if |b.mem| < b.limit then (b.(mem := b.mem + [line]), true)
    else
      var b' := Flush(b, m);
      if 0 < b.limit then (b'.(mem := [line]), true) else (b', false)
  }

  /** What is handed out behind a fetch from the files, which `w` is the result of. */
  function WithMemory(w: Option<EventList>, mem: seq<Bytes>, maxCount: nat, maxSize: nat): BufferedList
    requires w.Some? ==> w.value.count <= maxCount && |w.value.data| <= maxSize
  {
    match w
    case None => MemoryList(FetchMemory(mem, maxCount, maxSize))
    case Some(l) =>
      var rest := if !l.more && mem != [] then FetchMemory(mem, maxCount - l.count, maxSize - |l.data|) else None;
      if rest.Some? then MergedList(l, rest.value) else WrappedList(l, mem != [])
  }

  function BufferFetch(b: Buffer, maxCount: nat, maxSize: nat): (Buffer, BufferedList) {
    if HasEvents(b.wrapped) then
      var (q, l) := FetchQueue(b.wrapped, maxCount, maxSize);
      FetchWithinLimits(b.wrapped, maxCount, maxSize);
      (b.(wrapped := q), WithMemory(l, b.mem, maxCount, maxSize))
    else (b, WithMemory(None, b.mem, maxCount, maxSize))
  }

  /** Undefined in the source when memory holds fewer events than the list names. */
  function BufferUploaded(b: Buffer, l: BufferedList): Buffer
    requires WrappedCount(l) <= |Target(b.wrapped)| && MemoryCount(l) <= |b.mem|
  {
    match l
    case WrappedList(w, _) => b.(wrapped := Acknowledge(b.wrapped, w))
    case MemoryList(m) => b.(mem := b.mem[MemoryCount(l)..])
    case MergedList(w, m) => b.(wrapped := Acknowledge(b.wrapped, w), mem := b.mem[m.count..])
  }

  /** `l` may be acknowledged: it names what stands at the front of the two parts. */
  ghost predicate BufferInFlight(b: Buffer, l: BufferedList) {
    match l
    case WrappedList(w, _) => InFlight(b.wrapped, w)
    case MemoryList(m) =>
      && (m.Some? ==> Heads(m.value, b.mem))
      && (MemoryCount(l) > 0 ==> Pending(b.wrapped) == [])
    case MergedList(w, m) =>
      && InFlight(b.wrapped, w) && Heads(m, b.mem)
      && (MemoryCount(l) > 0 ==> w.count == |Pending(b.wrapped)|)
  }

  /** The remaining limits of a merged fetch never go below zero. */
  lemma FetchWithinLimits(q: Queue, maxCount: nat, maxSize: nat)
    ensures var l := FetchQueue(q, maxCount, maxSize).1;
            l.Some? ==> l.value.count <= maxCount && |l.value.data| <= maxSize
  {
    FitCountIsLongest(Target(CheckOldest(q)), maxCount, Min(maxSize, MAX_READ));
  }

  lemma NoMoreMeansAll(q: Queue, maxCount: nat, maxSize: nat)
    requires var l := FetchQueue(q, maxCount, maxSize).1; l.Some? && !l.value.more
    ensures FetchQueue(q, maxCount, maxSize).1.value.count == |Pending(q)|
  {
    CheckOldestKeepsPending(q);
    var q' := CheckOldest(q);
    assert Pending(q') == q'.newest;
  }

  lemma NoEventsNonePending(q: Queue)
    requires !HasEvents(q)
    ensures Pending(q) == []
  {
  }

  lemma JoinPrefix(a: seq<Bytes>, b: seq<Bytes>, k: nat)
    requires k <= |b|
    ensures Join((a + b)[..|a| + k]) == Join(a) + Join(b[..k])
  {
    assert (a + b)[..|a| + k] == a + b[..k];
    JoinAppend(a, b[..k]);
  }

  /** A fetch returns a prefix of files ++ memory, ready to be acknowledged, unless the files are stuck. */
  lemma BufferFetchGivesPrefix(b: Buffer, maxCount: nat, maxSize: nat)
    requires !Stuck(b.wrapped)
    ensures var (b', l) := BufferFetch(b, maxCount, maxSize);
            && AllPending(b') == AllPending(b) && !Stuck(b'.wrapped)
            && Count(l) <= |AllPending(b)|
            && Data(l) == Join(AllPending(b)[..Count(l)])
            && BufferInFlight(b', l)
  {
    hide Join, Fetch, FitCount, Pending;
    var (b', l) := BufferFetch(b, maxCount, maxSize);
    var p := Pending(b.wrapped);
    FetchGivesPrefix(b.wrapped, maxCount, maxSize);
    CheckOldestKeepsPending(b.wrapped);
    NoLines();
    if !HasEvents(b.wrapped) {
      NoEventsNonePending(b.wrapped);
      MemoryFetchHeads(b.mem, maxCount, maxSize);
      assert AllPending(b) == b.mem;
    } else if l.WrappedList? {
      assert AllPending(b)[..Count(l)] == p[..Count(l)];
    } else if l.MergedList? {
      NoMoreMeansAll(b.wrapped, maxCount, maxSize);
      FetchWithinLimits(b.wrapped, maxCount, maxSize);
      MemoryFetchHeads(b.mem, maxCount - l.front.count, maxSize - |l.front.data|);
      JoinPrefix(p, b.mem, l.back.count);
      assert p[..|p|] == p;
    } else {
      MemoryFetchHeads(b.mem, maxCount, maxSize);
      if maxCount > 0 {
        FetchMissesExactlyWhenStuck(b.wrapped, maxCount, maxSize);
        assert AllPending(b) == b.mem;
      }
      assert AllPending(b)[..0] == [];
    }
  }

  /** Whether the source's list reports more events. */
  predicate More(l: BufferedList) {
    match l
    case WrappedList(w, hasMemory) => hasMemory || w.more
    case MemoryList(m) => m.Some? && m.value.more
    case MergedList(w, m) => w.more || m.more
  }

  lemma BufferFetchWithinLimits(b: Buffer, maxCount: nat, maxSize: nat)
    ensures var l := BufferFetch(b, maxCount, maxSize).1;
            Count(l) <= maxCount && |Data(l)| <= maxSize
  {
    hide Join, FetchQueue, FetchMemory;
    FetchWithinLimits(b.wrapped, maxCount, maxSize);
    MemoryFetchIsLongest(b.mem, maxCount, maxSize);
    var l := FetchQueue(b.wrapped, maxCount, maxSize).1;
    if l.Some? { MemoryFetchIsLongest(b.mem, maxCount - l.value.count, maxSize - |l.value.data|); }
  }

  /**
   Once only the newest file is left and the list takes all of it, or the files have no
   events, memory fills what the limits leave: no longer prefix of files and memory fits.
   */
  lemma BufferFetchIsLongest(b: Buffer, maxCount: nat, maxSize: nat)
    requires !Stuck(b.wrapped) && [] !in b.mem && maxCount > 0 && maxSize > 0
    ensures var l := BufferFetch(b, maxCount, maxSize).1;
            CheckOldest(b.wrapped).oldest.None? && WrappedCount(l) == |Pending(b.wrapped)| ==>
              forall k | Count(l) < k <= |AllPending(b)| && k <= maxCount :: |Join(AllPending(b)[..k])| > maxSize
  {
    hide Join, Fetch, FitCount, Pending, CheckOldest, Target;
    var (b', l) := BufferFetch(b, maxCount, maxSize);
    var p := Pending(b.wrapped);
    FetchWithinLimits(b.wrapped, maxCount, maxSize);
    FetchMissesExactlyWhenStuck(b.wrapped, maxCount, maxSize);
    BufferFetchGivesPrefix(b, maxCount, maxSize);
    MoreExactlyWhen(b.wrapped, maxCount, maxSize);
    if !HasEvents(b.wrapped) { NoEventsNonePending(b.wrapped); }
    if CheckOldest(b.wrapped).oldest.None? && WrappedCount(l) == |p| {
      var taken := if p == [] then 0 else |FetchQueue(b.wrapped, maxCount, maxSize).1.value.data|;
      assert p[..|p|] == p;
      if p == [] { NoLines(); } else { FetchGivesPrefix(b.wrapped, maxCount, maxSize); }
      assert |Join(p)| == taken <= maxSize;
      MemoryFetchIsLongest(b.mem, maxCount - |p|, maxSize - taken);
      forall k | Count(l) < k <= |AllPending(b)| && k <= maxCount ensures |Join(AllPending(b)[..k])| > maxSize {
        JoinPrefix(p, b.mem, k - |p|);
        if taken == maxSize { JoinsSomething(b.mem, k - |p|); }
      }
    }
  }

  lemma JoinsSomething(ls: seq<Bytes>, k: nat)
    requires [] !in ls && 0 < k <= |ls|
    ensures |Join(ls[..k])| > 0
  {
    assert ls[..k][0] in ls;
  }

  /**
   As long as another file may hold events, a fetch keeps to the first file that has some,
   and takes as much of it as the limits allow.
   */
  lemma BufferFetchStaysInFile(b: Buffer, maxCount: nat, maxSize: nat)
    requires !Stuck(b.wrapped) && Pending(b.wrapped) != [] && maxCount > 0
    ensures var ls, l := Target(CheckOldest(b.wrapped)), BufferFetch(b, maxCount, maxSize).1;
            && !l.MemoryList? && WrappedCount(l) <= |ls|
            && (CheckOldest(b.wrapped).oldest.Some? ==> l.WrappedList?)
            && forall k | WrappedCount(l) < k <= |ls| && k <= maxCount :: |Join(ls[..k])| > Min(maxSize, 1048576)
  {
    hide Join, Fetch, FitCount, Pending, Target;
    FetchMissesExactlyWhenStuck(b.wrapped, maxCount, maxSize);
    FetchIsLongest(b.wrapped, maxCount, maxSize);
    if !HasEvents(b.wrapped) { NoEventsNonePending(b.wrapped); }
  }

  /** A list that reports no more events has them all; one from a finalized file always reports more. */
  lemma BufferMoreExactlyWhen(b: Buffer, maxCount: nat, maxSize: nat)
    requires !Stuck(b.wrapped) && maxCount > 0 && maxSize > 0
    ensures var l := BufferFetch(b, maxCount, maxSize).1;
            More(l) <==> Count(l) < |AllPending(b)| || CheckOldest(b.wrapped).oldest.Some?
  {
    hide Join, Fetch, FitCount, Pending;
    FetchMissesExactlyWhenStuck(b.wrapped, maxCount, maxSize);
    BufferFetchGivesPrefix(b, maxCount, maxSize);
    MoreExactlyWhen(b.wrapped, maxCount, maxSize);
    if !HasEvents(b.wrapped) { NoEventsNonePending(b.wrapped); }
    if Pending(b.wrapped) == [] { NoneLeftBehind(b.wrapped); }
    FetchGivesPrefix(b.wrapped, maxCount, maxSize);
    FetchWithinLimits(b.wrapped, maxCount, maxSize);
    var l := FetchQueue(b.wrapped, maxCount, maxSize).1;
    if l.Some? { MemoryFetchIsLongest(b.mem, maxCount - l.value.count, maxSize - |l.value.data|); }
    MemoryFetchIsLongest(b.mem, maxCount, maxSize);
  }

  lemma MemoryFetchHeads(ls: seq<Bytes>, maxCount: nat, maxSize: nat)
    ensures var l := FetchMemory(ls, maxCount, maxSize);
            l.Some? ==> Heads(l.value, ls) && maxCount > 0
  {
  }

  lemma HeadsCount(l: EventList, ls: seq<Bytes>)
    requires Heads(l, ls)
    ensures l.count <= |ls|
  {
  }

  lemma InFlightCount(q: Queue, l: EventList)
    requires InFlight(q, l)
    ensures l.count <= |Target(q)|
  {
  }

  /** Acknowledging removes exactly the fetched prefix of files ++ memory. */
  lemma BufferUploadedRemovesPrefix(b: Buffer, l: BufferedList)
    requires BufferInFlight(b, l)
    ensures WrappedCount(l) <= |Target(b.wrapped)| && MemoryCount(l) <= |b.mem|
    ensures Count(l) <= |AllPending(b)|
    ensures AllPending(BufferUploaded(b, l)) == AllPending(b)[Count(l)..]
  {
    hide Pending, Acknowledge, InFlight, Heads, Target;
    var p := Pending(b.wrapped);
    if l.MemoryList? {
      if l.inner.Some? { HeadsCount(l.inner.value, b.mem); }
    } else if l.MergedList? {
      HeadsCount(l.back, b.mem);
      InFlightCount(b.wrapped, l.front);
    } else {
      InFlightCount(b.wrapped, l.list);
    }
    match l
    case WrappedList(w, _) =>
      AcknowledgeRemovesPrefix(b.wrapped, w);
      CutFirst(p, b.mem, w.count);
    case MemoryList(m) =>
      CutSecond(p, b.mem, MemoryCount(l));
      CutFirst(p, b.mem, 0);
    case MergedList(w, m) =>
      AcknowledgeRemovesPrefix(b.wrapped, w);
      CutFirst(p, b.mem, w.count);
      CutSecond(p, b.mem, m.count);
  }

  lemma CutFirst<T>(a: seq<T>, b: seq<T>, k: nat)
    requires k <= |a|
    ensures (a + b)[..k] == a[..k] && (a + b)[k..] == a[k..] + b
    ensures a[0..] == a && b[0..] == b
  {
  }

  lemma CutSecond<T>(a: seq<T>, b: seq<T>, k: nat)
    requires k <= |b|
    ensures (a + b)[|a| + k..] == b[k..] && a[|a|..] == []
    ensures (a + b)[..|a| + k] == a + b[..k]
  {
  }

  // ---- forwarding -------------------------------------------------------------------

  predicate FitsFile(line: Bytes, m: Limits) {
    m.maxSize == 0 || |line| <= m.maxSize
  }

  function Fitting(ls: seq<Bytes>, m: Limits): seq<Bytes> {
    if ls == [] then []
    else (if FitsFile(ls[0], m) then [ls[0]] else []) + Fitting(ls[1..], m)
  }

  function Oversize(ls: seq<Bytes>, m: Limits): seq<Bytes> {
    if ls == [] then []
    else (if FitsFile(ls[0], m) then [] else [ls[0]]) + Oversize(ls[1..], m)
  }

  /** Forwarding appends, in order, exactly the lines that fit a file. */
  lemma {:induction false} ForwardAppends(q: Queue, ls: seq<Bytes>, m: Limits)
    ensures Pending(Forward(q, ls, m)) == Pending(q) + Fitting(ls, m)
    decreases |ls|
  {
    hide Pending, Add;
    if ls != [] {
      AddFits(q, ls[0], m);
      ForwardAppends(Add(q, ls[0], m).0, ls[1..], m);
    }
  }

  lemma AddFits(q: Queue, line: Bytes, m: Limits)
    ensures Pending(Add(q, line, m).0) == Pending(q) + if FitsFile(line, m) then [line] else []
    ensures Add(q, line, m).1 <==> FitsFile(line, m)
  {
    AddAppends(q, line, m);
  }

  lemma {:induction false} ForwardKeepsInFlight(q: Queue, ls: seq<Bytes>, m: Limits, l: EventList)
    requires InFlight(q, l)
    ensures InFlight(Forward(q, ls, m), l)
    decreases |ls|
  {
    if ls != [] {
      AddKeepsInFlight(q, ls[0], m, l);
      ForwardKeepsInFlight(Add(q, ls[0], m).0, ls[1..], m, l);
    }
  }

  lemma {:induction false} FittingAll(ls: seq<Bytes>, m: Limits)
    requires Oversize(ls, m) == []
    ensures Fitting(ls, m) == ls
  {
    if ls != [] {
      assert FitsFile(ls[0], m);
      FittingAll(ls[1..], m);
    }
  }

  lemma {:induction false} FittingSplits(ls: seq<Bytes>, m: Limits)
    ensures multiset(ls) == multiset(Fitting(ls, m)) + multiset(Oversize(ls, m))
  {
    if ls != [] {
      FittingSplits(ls[1..], m);
      assert ls == [ls[0]] + ls[1..];
    }
  }

  /** A flush moves events from memory to the files and changes no order; what is lost does not fit a file. */
  lemma FlushKeepsPending(b: Buffer, m: Limits)
    ensures AllPending(Flush(b, m)) == Pending(b.wrapped) + Fitting(b.mem, m)
    ensures Oversize(b.mem, m) == [] ==> AllPending(Flush(b, m)) == AllPending(b)
  {
    ForwardAppends(b.wrapped, b.mem, m);
    if Oversize(b.mem, m) == [] { FittingAll(b.mem, m); }
  }

  /** An add without a flush appends one event and leaves the in-flight list valid. */
  lemma AddWithoutFlush(b: Buffer, line: Bytes, m: Limits, l: BufferedList)
    requires |b.mem| < b.limit
    ensures AllPending(BufferAdd(b, line, m).0) == AllPending(b) + [line]
    ensures BufferInFlight(b, l) ==> BufferInFlight(BufferAdd(b, line, m).0, l)
  {
    if BufferInFlight(b, l) && MemoryCount(l) <= |b.mem| {
      assert (b.mem + [line])[..MemoryCount(l)] == b.mem[..MemoryCount(l)];
    }
  }

  /** With a flush the event is still appended, unless memory holds nothing; what fits no file is lost. */
  lemma AddWithFlush(b: Buffer, line: Bytes, m: Limits)
    requires |b.mem| >= b.limit
    ensures BufferAdd(b, line, m).1 <==> b.limit > 0
    ensures AllPending(BufferAdd(b, line, m).0)
            == Pending(b.wrapped) + Fitting(b.mem, m) + if b.limit > 0 then [line] else []
    ensures Oversize(b.mem, m) == [] && b.limit > 0 ==> AllPending(BufferAdd(b, line, m).0) == AllPending(b) + [line]
  {
    FlushKeepsPending(b, m);
    if Oversize(b.mem, m) == [] { FittingAll(b.mem, m); }
  }

  // ---- failing writes ---------------------------------------------------------------

  /** Outcomes of storing calls in their order; those not named succeed. */
  type Outcomes = seq<bool>

  predicate Works(io: Outcomes) { io == [] || io[0] }

  function Later(io: Outcomes): Outcomes { if io == [] then [] else io[1..] }

  /** Forwards the lines one by one, where a write or an open may fail each time. */
  function TryForward(q: Queue, ls: seq<Bytes>, m: Limits, io: Outcomes): Queue
    decreases |ls|
  {
    if ls == [] then q else TryForward(TryAdd(q, ls[0], m, Works(io)).0, ls[1..], m, Later(io))
  }

  /** The lines that get into a file, and those that do not. */
  function Forwarded(ls: seq<Bytes>, m: Limits, io: Outcomes): seq<Bytes>
    decreases |ls|
  {
    if ls == [] then []
    else (if FitsFile(ls[0], m) && Works(io) then [ls[0]] else []) + Forwarded(ls[1..], m, Later(io))
  }

  function Dropped(ls: seq<Bytes>, m: Limits, io: Outcomes): seq<Bytes>
    decreases |ls|
  {
    if ls == [] then []
    else (if FitsFile(ls[0], m) && Works(io) then [] else [ls[0]]) + Dropped(ls[1..], m, Later(io))
  }

  function TryBufferAdd(b: Buffer, line: Bytes, m: Limits, io: Outcomes): (Buffer, bool) {
    if |b.mem| < b.limit then (b.(mem := b.mem + [line]), true)
    else
      var q := TryForward(b.wrapped, b.mem, m, io);
      if 0 < b.limit then (Buffer(q, [line], b.limit), true) else (Buffer(q, [], b.limit), false)
  }

  /** Where nothing fails it is the add from before. */
  lemma {:induction false} NothingFails(q: Queue, ls: seq<Bytes>, m: Limits)
    ensures TryForward(q, ls, m, []) == Forward(q, ls, m)
    ensures Forwarded(ls, m, []) == Fitting(ls, m) && Dropped(ls, m, []) == Oversize(ls, m)
    decreases |ls|
  {
    hide Add;
    if ls != [] { NothingFails(Add(q, ls[0], m).0, ls[1..], m); }
  }

  lemma TryIsAdd(b: Buffer, line: Bytes, m: Limits)
    ensures TryBufferAdd(b, line, m, []) == BufferAdd(b, line, m)
  {
    hide Forward, TryForward;
    NothingFails(b.wrapped, b.mem, m);
  }

  lemma {:induction false} TryForwardAppends(q: Queue, ls: seq<Bytes>, m: Limits, io: Outcomes)
    ensures Pending(TryForward(q, ls, m, io)) == Pending(q) + Forwarded(ls, m, io)
    decreases |ls|
  {
    hide Pending, TryAdd, Add;
    if ls != [] {
      TryAddAppends(q, ls[0], m, Works(io));
      AddFits(q, ls[0], m);
      TryForwardAppends(TryAdd(q, ls[0], m, Works(io)).0, ls[1..], m, Later(io));
    }
  }

  lemma {:induction false} TryForwardKeepsInFlight(q: Queue, ls: seq<Bytes>, m: Limits, io: Outcomes, l: EventList)
    requires InFlight(q, l)
    ensures InFlight(TryForward(q, ls, m, io), l)
    decreases |ls|
  {
    hide InFlight, TryAdd;
    if ls != [] {
      TryAddKeepsInFlight(q, ls[0], m, Works(io), l);
      TryForwardKeepsInFlight(TryAdd(q, ls[0], m, Works(io)).0, ls[1..], m, Later(io), l);
    }
  }

  lemma {:induction false} TryForwardKeepsFilled(q: Queue, ls: seq<Bytes>, m: Limits, io: Outcomes)
    requires Filled(q) && forall l | l in ls :: FitsFile(l, m)
    ensures Filled(TryForward(q, ls, m, io))
    decreases |ls|
  {
    hide Filled, TryAdd;
    if ls != [] {
      assert FitsFile(ls[0], m) && forall l | l in ls[1..] :: l in ls;
      TryAddKeepsFilled(q, ls[0], m, Works(io));
      TryForwardKeepsFilled(TryAdd(q, ls[0], m, Works(io)).0, ls[1..], m, Later(io));
    }
  }

  /** Every line is forwarded or dropped. */
  lemma {:induction false} ForwardedSplits(ls: seq<Bytes>, m: Limits, io: Outcomes)
    ensures multiset(ls) == multiset(Forwarded(ls, m, io)) + multiset(Dropped(ls, m, io))
    ensures forall l | l in Forwarded(ls, m, io) :: l in ls
    decreases |ls|
  {
    if ls != [] {
      ForwardedSplits(ls[1..], m, Later(io));
      assert ls == [ls[0]] + ls[1..];
    }
  }

  // ---- runs -------------------------------------------------------------------------

  datatype BufferOp =
    | Put(line: Bytes)
    | FetchUpTo(maxCount: nat, maxSize: nat)
    | Uploaded
    | FlushNow
    | SetLimits(limits: Limits)

  /**
   A buffer in use. Of the accepted events, `lost` are those that a flush could not forward
   because no file takes them, and `kept` are the others, in the order of their arrival.
   */
  datatype BufferUsage = BufferUsage(b: Buffer, limits: Limits, inFlight: Option<BufferedList>,
                                     accepted: seq<Bytes>, kept: seq<Bytes>, lost: seq<Bytes>, delivered: seq<Bytes>)

  /** The flush; memory holds the last of the kept events. */
  function FlushStep(u: BufferUsage): BufferUsage
    requires |u.b.mem| <= |u.kept|
  {
    u.(b := Flush(u.b, u.limits), lost := u.lost + Oversize(u.b.mem, u.limits),
       kept := u.kept[..|u.kept| - |u.b.mem|] + Fitting(u.b.mem, u.limits))
  }

  ghost predicate StepDefined(u: BufferUsage) {
    && |u.b.mem| <= |u.kept|
    && (u.inFlight.Some? ==>
          && WrappedCount(u.inFlight.value) <= |Target(u.b.wrapped)|
          && MemoryCount(u.inFlight.value) <= |u.b.mem|)
  }

  ghost function BufferStep(u: BufferUsage, op: BufferOp): BufferUsage
    requires StepDefined(u)
  {
    match op
    case Put(line) =>
      var u' := if |u.b.mem| < u.b.limit then u else FlushStep(u);
      var (b', ok) := BufferAdd(u.b, line, u.limits);
      u'.(b := b', accepted := u.accepted + if ok then [line] else [], kept := u'.kept + if ok then [line] else [])
    case FetchUpTo(maxCount, maxSize) =>
      var (b', l) := BufferFetch(u.b, maxCount, maxSize);
      u.(b := b', inFlight := Some(l))
    case Uploaded =>
      if u.inFlight.None? then u
      else u.(b := BufferUploaded(u.b, u.inFlight.value), inFlight := None,
              delivered := u.delivered + Split(Data(u.inFlight.value)))
    case FlushNow => FlushStep(u)
    case SetLimits(limits) => u.(limits := limits)
  }

  predicate Flushes(b: Buffer, op: BufferOp) {
    op.FlushNow? || (op.Put? && |b.mem| >= b.limit)
  }

  /**
   No flush meets events from memory in flight, and none begins with an event too large for
   a file while there are no files with events.
   */
  ghost predicate LegalBufferOp(u: BufferUsage, op: BufferOp) {
    && (op.Put? ==> IsLine(op.line))
    && (Flushes(u.b, op) && u.inFlight.Some? ==> MemoryCount(u.inFlight.value) == 0)
    && (Flushes(u.b, op) ==> !StartsStuck(u.b.wrapped, u.b.mem, u.limits))
  }

  /** What is delivered and what is left is what was accepted and not lost, in order. */
  ghost predicate BufferFifo(u: BufferUsage) {
    && AllLines(u.kept) && u.delivered + AllPending(u.b) == u.kept
    && Sub(u.kept, u.accepted) && multiset(u.accepted) == multiset(u.kept) + multiset(u.lost)
    && (u.lost == [] ==> u.kept == u.accepted)
    && !Stuck(u.b.wrapped)
    && (u.inFlight.Some? ==> BufferInFlight(u.b, u.inFlight.value))
  }

  /** A buffer as it is opened. */
  function BufferOpening(b: Buffer, limits: Limits): BufferUsage {
    BufferUsage(b, limits, None, AllPending(b), AllPending(b), [], [])
  }

  lemma BufferOpeningIsFifo(b: Buffer, limits: Limits)
    requires AllLines(AllPending(b)) && !Stuck(b.wrapped)
    ensures BufferFifo(BufferOpening(b, limits))
  {
    SubAll(AllPending(b));
    assert [] + AllPending(b) == AllPending(b);
  }

  predicate StartsStuck(q: Queue, ls: seq<Bytes>, m: Limits) {
    q == Queue(None, [], []) && ls != [] && !FitsFile(ls[0], m)
  }

  /** Forwarding leads into the dead end exactly when its first event, too large, finds no events in the files. */
  lemma {:induction false} ForwardSticksExactlyWhen(q: Queue, ls: seq<Bytes>, m: Limits)
    requires !Stuck(q)
    ensures Stuck(Forward(q, ls, m)) <==> StartsStuck(q, ls, m)
    decreases |ls|
  {
    if ls != [] {
      AddSticksExactlyWhen(q, ls[0], m, true);
      var q' := Add(q, ls[0], m).0;
      if Stuck(q') {
        ForwardStaysStuck(q', ls[1..], m);
      } else {
        AddLeavesFiles(q, ls[0], m);
        ForwardSticksExactlyWhen(q', ls[1..], m);
      }
    }
  }

  lemma AddLeavesFiles(q: Queue, line: Bytes, m: Limits)
    ensures Add(q, line, m).0 != Queue(None, [], [])
  {
  }

  lemma {:induction false} ForwardStaysStuck(q: Queue, ls: seq<Bytes>, m: Limits)
    requires Stuck(q)
    ensures Stuck(Forward(q, ls, m))
    decreases |ls|
  {
    if ls != [] { ForwardStaysStuck(Add(q, ls[0], m).0, ls[1..], m); }
  }

  /** A flush keeps a list that names nothing from memory. */
  lemma FlushKeepsFileLists(b: Buffer, m: Limits, mem: seq<Bytes>, l: BufferedList)
    requires BufferInFlight(b, l) && MemoryCount(l) == 0
    ensures BufferInFlight(Flush(b, m).(mem := mem), l)
  {
    assert b.mem[..0] == mem[..0];
    match l
    case WrappedList(w, _) => ForwardKeepsInFlight(b.wrapped, b.mem, m, w);
    case MergedList(w, _) => ForwardKeepsInFlight(b.wrapped, b.mem, m, w);
    case MemoryList(_) =>
  }

  /** A flush on its own keeps the law, and the events it kept are the fitting ones. */
  lemma FlushKeepsLaw(u: BufferUsage)
    requires BufferFifo(u)
    ensures |u.b.mem| <= |u.kept|
    ensures var v := FlushStep(u);
            && AllLines(v.kept) && v.delivered + AllPending(v.b) == v.kept
            && multiset(v.accepted) == multiset(v.kept) + multiset(v.lost)
            && (v.lost == [] ==> v.kept == v.accepted) && Sub(v.kept, v.accepted)
  {
    hide Pending, Forward, BufferInFlight, Fitting, Oversize, Flush, AllLines, Sub;
    var p, ls := Pending(u.b.wrapped), u.b.mem;
    var front, fit := u.delivered + p, Fitting(ls, u.limits);
    FlushKeepsPending(u.b, u.limits);
    Associative(u.delivered, p, ls);
    Associative(u.delivered, p, fit);
    assert u.kept == front + ls;
    assert u.kept[..|u.kept| - |ls|] == front;
    FittingSplits(ls, u.limits);
    MultisetSplit(u.accepted, front, ls, fit, Oversize(ls, u.limits), u.lost);
    FittingIsPart(ls, u.limits);
    LinesOfPart(front, ls, fit);
    FittingIsSub(ls, u.limits);
    SubAll(front);
    SubAppend(front, front, fit, ls);
    SubTrans(front + fit, u.kept, u.accepted);
    if Oversize(ls, u.limits) == [] { FittingAll(ls, u.limits); }
  }

  lemma {:induction false} FittingIsSub(ls: seq<Bytes>, m: Limits)
    ensures Sub(Fitting(ls, m), ls)
  {
    if ls != [] {
      FittingIsSub(ls[1..], m);
      if FitsFile(ls[0], m) {
        assert Fitting(ls, m)[1..] == Fitting(ls[1..], m);
      } else {
        assert Fitting(ls, m) == Fitting(ls[1..], m);
      }
    }
  }

  lemma LinesOfPart(front: seq<Bytes>, ls: seq<Bytes>, part: seq<Bytes>)
    requires AllLines(front + ls) && forall l | l in part :: l in ls
    ensures AllLines(front + part)
  {
    assert forall l | l in front + part :: l in front + ls;
  }

  lemma MultisetSplit(all: seq<Bytes>, front: seq<Bytes>, ls: seq<Bytes>, a: seq<Bytes>, b: seq<Bytes>, lost: seq<Bytes>)
    requires multiset(all) == multiset(front + ls) + multiset(lost)
    requires multiset(ls) == multiset(a) + multiset(b)
    ensures multiset(all) == multiset(front + a) + multiset(lost + b)
  {
  }

  lemma {:induction false} FittingIsPart(ls: seq<Bytes>, m: Limits)
    ensures forall l | l in Fitting(ls, m) :: l in ls
  {
    if ls != [] { FittingIsPart(ls[1..], m); }
  }

  lemma PutKeepsFifo(u: BufferUsage, line: Bytes)
    requires BufferFifo(u) && StepDefined(u) && LegalBufferOp(u, Put(line))
    ensures BufferFifo(BufferStep(u, Put(line)))
  {
    hide AllPending, BufferInFlight, Forward, Fitting, Oversize, Sub;
    var l := if u.inFlight.Some? then u.inFlight.value else MemoryList(None);
    var v := if |u.b.mem| < u.b.limit then u else FlushStep(u);
    var (b', ok) := BufferAdd(u.b, line, u.limits);
    if |u.b.mem| < u.b.limit {
      AddWithoutFlush(u.b, line, u.limits, l);
    } else {
      FlushKeepsLaw(u);
      ForwardSticksExactlyWhen(u.b.wrapped, u.b.mem, u.limits);
      if u.inFlight.Some? { FlushKeepsFileLists(u.b, u.limits, b'.mem, l); }
    }
    BufferAddParts(u.b, line, u.limits);
    Associative(v.delivered, AllPending(v.b), if ok then [line] else []);
    MultisetMore(u.accepted, v.kept, v.lost, if ok then [line] else []);
    SubAll(if ok then [line] else []);
    SubAppend(v.kept, v.accepted, if ok then [line] else [], if ok then [line] else []);
  }

  /** What an add does behind its flush, if there is one. */
  lemma BufferAddParts(b: Buffer, line: Bytes, m: Limits)
    ensures var (b', ok) := BufferAdd(b, line, m);
            var start := if |b.mem| < b.limit then b else Flush(b, m);
            AllPending(b') == AllPending(start) + if ok then [line] else []
  {
  }

  lemma MultisetMore(a: seq<Bytes>, k: seq<Bytes>, l: seq<Bytes>, x: seq<Bytes>)
    requires multiset(a) == multiset(k) + multiset(l)
    ensures multiset(a + x) == multiset(k + x) + multiset(l)
  {
  }

  lemma UploadedKeepsFifo(u: BufferUsage)
    requires BufferFifo(u) && StepDefined(u) && u.inFlight.Some?
    ensures BufferFifo(BufferStep(u, BufferOp.Uploaded))
  {
    hide AllPending, Split, Join, BufferInFlight;
    var l := u.inFlight.value;
    var p := AllPending(u.b);
    BufferUploadedRemovesPrefix(u.b, l);
    ListedIsPrefix(u.b, l);
    LinesOfSuffix(u.delivered, p, Count(l));
    JoinIsClean(p[..Count(l)]);
    Associative(u.delivered, p[..Count(l)], p[Count(l)..]);
    assert p[..Count(l)] + p[Count(l)..] == p;
    UploadedNeverSticks(u.b, l);
  }

  lemma UploadedNeverSticks(b: Buffer, l: BufferedList)
    requires !Stuck(b.wrapped) && WrappedCount(l) <= |Target(b.wrapped)| && MemoryCount(l) <= |b.mem|
    ensures !Stuck(BufferUploaded(b, l).wrapped)
  {
  }

  /** The bytes of a list in flight are those of the events at the front. */
  lemma ListedIsPrefix(b: Buffer, l: BufferedList)
    requires BufferInFlight(b, l)
    ensures Count(l) <= |AllPending(b)| && Data(l) == Join(AllPending(b)[..Count(l)])
  {
    hide Join, Pending;
    NoLines();
    var p := Pending(b.wrapped);
    match l
    case WrappedList(w, _) =>
      InFlightHeadsPending(b.wrapped, w);
      CutFirst(p, b.mem, w.count);
    case MemoryList(m) =>
      CutSecond(p, b.mem, MemoryCount(l));
      CutFirst(p, b.mem, 0);
      assert b.mem[..0] == p[..0] == [];
    case MergedList(w, m) =>
      InFlightHeadsPending(b.wrapped, w);
      CutFirst(p, b.mem, w.count);
      JoinPrefix(p, b.mem, m.count);
      assert b.mem[..0] == [] && p[..|p|] == p;
  }

  lemma FifoIsDefined(u: BufferUsage)
    requires BufferFifo(u)
    ensures StepDefined(u)
  {
    hide Pending, BufferInFlight, Target;
    if u.inFlight.Some? { BufferUploadedRemovesPrefix(u.b, u.inFlight.value); }
  }

  lemma BufferStepKeepsFifo(u: BufferUsage, op: BufferOp)
    requires BufferFifo(u) && LegalBufferOp(u, op)
    ensures StepDefined(u) && BufferFifo(BufferStep(u, op))
  {
    FifoIsDefined(u);
    hide AllPending, BufferInFlight, BufferFetch, Forward, BufferUploaded, Split, BufferAdd, Fitting, Oversize, Sub;
    match op
    case Put(line) => PutKeepsFifo(u, line);
    case FetchUpTo(maxCount, maxSize) =>
      BufferFetchGivesPrefix(u.b, maxCount, maxSize);
    case Uploaded =>
      if u.inFlight.Some? { UploadedKeepsFifo(u); }
    case FlushNow =>
      FlushKeepsLaw(u);
      ForwardSticksExactlyWhen(u.b.wrapped, u.b.mem, u.limits);
      if u.inFlight.Some? { FlushKeepsFileLists(u.b, u.limits, [], u.inFlight.value); }
    case SetLimits(limits) =>
  }

  ghost predicate BufferRuns(u: BufferUsage, ops: seq<BufferOp>, v: BufferUsage)
    decreases |ops|
  {
    if ops == [] then u == v
    else
      && LegalBufferOp(u, ops[0])
      && StepDefined(u)
      && BufferRuns(BufferStep(u, ops[0]), ops[1..], v)
  }

  /** Memory in front of files is still one FIFO queue, in every legal run. */
  lemma {:induction false} BufferRunsAreFifo(u: BufferUsage, ops: seq<BufferOp>, v: BufferUsage)
    requires BufferFifo(u) && BufferRuns(u, ops, v)
    ensures BufferFifo(v)
    decreases |ops|
  {
    if ops != [] {
      BufferStepKeepsFifo(u, ops[0]);
      BufferRunsAreFifo(BufferStep(u, ops[0]), ops[1..], v);
    }
  }

  // ---- a flush in flight ------------------------------------------------------------

  /** An acknowledgement is defined and leaves the events `left`. */
  ghost predicate UploadedLeaves(b: Buffer, l: BufferedList, left: seq<Bytes>) {
    && WrappedCount(l) <= |Target(b.wrapped)| && MemoryCount(l) <= |b.mem|
    && AllPending(BufferUploaded(b, l)) == left
  }

  /** Any number of adds, each with the flush it causes. */
  function AddLines(b: Buffer, es: seq<Bytes>, m: Limits): Buffer
    decreases |es|
  {
    if es == [] then b else BufferAdd(AddLines(b, es[..|es| - 1], m), es[|es| - 1], m).0
  }

  /** Memory's lines and those accepted behind them. */
  function Came(b: Buffer, es: seq<Bytes>): seq<Bytes> {
    b.mem + if b.limit > 0 then es else []
  }

  /** How many of these a flush has taken out of memory. */
  function Moved(b: Buffer, es: seq<Bytes>, m: Limits): nat
    decreases |es|
  {
    if es == [] then 0
    else
      var before := es[..|es| - 1];
      if |AddLines(b, before, m).mem| < b.limit then Moved(b, before, m) else |Came(b, before)|
  }

  /** Of the lines `s`, the first `c` have gone from memory to the files. */
  ghost predicate Divided(b: Buffer, s: seq<Bytes>, c: nat, b': Buffer, m: Limits) {
    && c <= |s| && b'.limit == b.limit && b'.mem == s[c..]
    && Pending(b'.wrapped) == Pending(b.wrapped) + Fitting(s[..c], m)
  }

  ghost predicate AllFit(ls: seq<Bytes>, m: Limits) {
    forall l | l in ls :: FitsFile(l, m)
  }

  /** Where all events fit a file, adds put one behind the other, and the files do not get stuck. */
  lemma {:induction false} AddLinesInOrder(b: Buffer, es: seq<Bytes>, m: Limits)
    requires !Stuck(b.wrapped) && b.limit > 0 && AllFit(b.mem, m) && AllFit(es, m)
    ensures var b' := AddLines(b, es, m);
            !Stuck(b'.wrapped) && b'.limit == b.limit && AllFit(b'.mem, m) && AllPending(b') == AllPending(b) + es
    decreases |es|
  {
    hide Pending, FitsFile, Stuck, BufferAdd;
    if es != [] {
      var before, line := es[..|es| - 1], es[|es| - 1];
      assert es == before + [line] && line in es;
      AddLinesInOrder(b, before, m);
      AddInOrder(AddLines(b, before, m), line, m);
      Associative(AllPending(b), before, [line]);
    }
  }

  lemma AddInOrder(b: Buffer, line: Bytes, m: Limits)
    requires !Stuck(b.wrapped) && b.limit > 0 && AllFit(b.mem, m) && FitsFile(line, m)
    ensures var b' := BufferAdd(b, line, m).0;
            !Stuck(b'.wrapped) && b'.limit == b.limit && AllFit(b'.mem, m) && AllPending(b') == AllPending(b) + [line]
  {
    hide Pending, Stuck, Forward;
    if |b.mem| < b.limit {
      AddWithoutFlush(b, line, m, MemoryList(None));
    } else {
      ForwardSticksExactlyWhen(b.wrapped, b.mem, m);
      NoneOversize(b.mem, m);
      AddWithFlush(b, line, m);
    }
  }

  lemma {:induction false} NoneOversize(ls: seq<Bytes>, m: Limits)
    requires AllFit(ls, m)
    ensures Oversize(ls, m) == []
  {
    if ls != [] { NoneOversize(ls[1..], m); }
  }

  /**
   Events added one after another come back in their order, each as its own text with a
   line end behind it, after those that were pending, however many flushes come between.
   */
  lemma PostedComeBack(b: Buffer, js: seq<Bytes>, m: Limits, maxCount: nat, maxSize: nat)
    requires !Stuck(b.wrapped) && b.limit > 0 && AllFit(b.mem, m)
    requires forall j | j in js :: m.maxSize == 0 || |j| + 2 <= m.maxSize
    ensures var ls := seq(|js|, i requires 0 <= i < |js| => js[i] + [13, 10]);
            var l := BufferFetch(AddLines(b, ls, m), maxCount, maxSize).1;
            Count(l) <= |AllPending(b) + ls| && Data(l) == Join((AllPending(b) + ls)[..Count(l)])
  {
    hide Pending, Stuck, BufferFetch, Join, AddLines;
    var ls := seq(|js|, i requires 0 <= i < |js| => js[i] + [13, 10]);
    AddLinesInOrder(b, ls, m);
    BufferFetchGivesPrefix(AddLines(b, ls, m), maxCount, maxSize);
  }

  lemma AddLinesParts(b: Buffer, es: seq<Bytes>, m: Limits)
    ensures var s, c, b' := Came(b, es), Moved(b, es, m), AddLines(b, es, m);
            && (c == 0 || |b.mem| <= c) && c <= |s| && b'.limit == b.limit && b'.mem == s[c..]
            && Pending(b'.wrapped) == Pending(b.wrapped) + Fitting(s[..c], m)
            && (c == 0 ==> Pending(b'.wrapped) == Pending(b.wrapped))
  {
    hide Pending, AddLines, Moved, Fitting;
    AddLinesDivide(b, es, m);
    NothingFits(m);
    assert Came(b, es)[..0] == [];
  }

  lemma {:induction false} AddLinesDivide(b: Buffer, es: seq<Bytes>, m: Limits)
    ensures Divided(b, Came(b, es), Moved(b, es, m), AddLines(b, es, m), m)
    ensures Moved(b, es, m) == 0 || |b.mem| <= Moved(b, es, m)
    decreases |es|
  {
    hide BufferAdd, Divided;
    if es == [] {
      NothingMoved(b, m);
      assert Came(b, es) == b.mem;
    } else {
      var before, line := es[..|es| - 1], es[|es| - 1];
      AddLinesDivide(b, before, m);
      assert es == before + [line];
      assert b.limit > 0 ==> Came(b, es) == Came(b, before) + [line];
      assert b.limit == 0 ==> Came(b, es) == Came(b, before) + [];
      OneMoreDivides(b, Came(b, before), Moved(b, before, m), AddLines(b, before, m), line, m);
    }
  }

  lemma NothingMoved(b: Buffer, m: Limits)
    ensures Divided(b, b.mem, 0, b, m)
  {
    hide Pending;
    assert b.mem[0..] == b.mem && b.mem[..0] == [];
  }

  lemma OneMoreDivides(b: Buffer, s: seq<Bytes>, c: nat, a: Buffer, line: Bytes, m: Limits)
    requires Divided(b, s, c, a, m)
    ensures a.limit == b.limit
    ensures var t := s + if b.limit > 0 then [line] else [];
            Divided(b, t, if |a.mem| < b.limit then c else |s|, BufferAdd(a, line, m).0, m)
  {
    hide Pending, BufferAdd, Fitting;
    BufferAddMoves(a, line, m);
    if |a.mem| < b.limit {
      assert (s + [line])[c..] == s[c..] + [line] && (s + [line])[..c] == s[..c];
    } else {
      var t := s + if b.limit > 0 then [line] else [];
      FittingParts(s, c, m);
      Associative(Pending(b.wrapped), Fitting(s[..c], m), Fitting(a.mem, m));
      assert t[..|s|] == s && t[|s|..] == if b.limit > 0 then [line] else [];
    }
  }

  /** What one add moves from memory to the files. */
  lemma BufferAddMoves(a: Buffer, line: Bytes, m: Limits)
    ensures var b' := BufferAdd(a, line, m).0;
            && b'.limit == a.limit
            && (if |a.mem| < a.limit then b'.mem == a.mem + [line] && b'.wrapped == a.wrapped
                else b'.mem == (if a.limit > 0 then [line] else [])
                     && Pending(b'.wrapped) == Pending(a.wrapped) + Fitting(a.mem, m))
  {
    hide Pending, Forward, Fitting;
    ForwardAppends(a.wrapped, a.mem, m);
  }

  lemma NothingFits(m: Limits)
    ensures Fitting([], m) == []
  {
  }

  lemma {:induction false} AddLinesKeepInFlight(b: Buffer, es: seq<Bytes>, m: Limits, w: EventList)
    requires InFlight(b.wrapped, w)
    ensures InFlight(AddLines(b, es, m).wrapped, w)
    decreases |es|
  {
    hide InFlight, Forward;
    if es != [] {
      AddLinesKeepInFlight(b, es[..|es| - 1], m, w);
      var a := AddLines(b, es[..|es| - 1], m);
      ForwardKeepsInFlight(a.wrapped, a.mem, m, w);
    }
  }

  /** What an acknowledgement of `l` should leave behind these adds: everything it does not list. */
  function Unlisted(b: Buffer, es: seq<Bytes>, m: Limits, l: BufferedList): seq<Bytes>
    requires WrappedCount(l) <= |Pending(b.wrapped)| && MemoryCount(l) <= |b.mem|
  {
    AddLinesParts(b, es, m);
    var s, c, k := Came(b, es), Moved(b, es, m), MemoryCount(l);
    Pending(b.wrapped)[WrappedCount(l)..] + if c == 0 then s[k..] else Fitting(s[k..c], m) + s[c..]
  }

  /** The lines listed from memory read, in front of those moved behind them, as they do behind these. */
  predicate Repeats(b: Buffer, es: seq<Bytes>, m: Limits, k: nat)
    requires k <= |b.mem|
  {
    AddLinesParts(b, es, m);
    var s, c := Came(b, es), Moved(b, es, m);
    && |b.mem| <= c && c + k <= |s| && Fitting(s[..k], m) == s[..k]
    && s[..k] + Fitting(s[k..c], m) == Fitting(s[k..c], m) + s[c..c + k]
  }

  /**
   Any number of adds while a list is in flight: the acknowledgement leaves just what was
   not listed exactly when the list holds nothing from memory, no flush has come, or memory
   has been refilled with the same lines. Otherwise it erases events added since, and keeps
   uploaded ones.
   */
  lemma FlushInFlightExactlyWhen(b: Buffer, es: seq<Bytes>, m: Limits, l: BufferedList)
    requires BufferInFlight(b, l)
    ensures WrappedCount(l) <= |Pending(b.wrapped)| && MemoryCount(l) <= |b.mem|
    ensures UploadedLeaves(AddLines(b, es, m), l, Unlisted(b, es, m, l))
            <==> MemoryCount(l) == 0 || Moved(b, es, m) == 0 || Repeats(b, es, m, MemoryCount(l))
  {
    hide AddLines, Moved, Pending, Fitting, Acknowledge;
    var b', s, c, k := AddLines(b, es, m), Came(b, es), Moved(b, es, m), MemoryCount(l);
    AddLinesParts(b, es, m);
    FilesAfterwards(b, es, m, l);
    var rest, moved := Pending(b.wrapped)[WrappedCount(l)..], Fitting(s[..c], m);
    if k <= |b'.mem| {
      assert s[c..][k..] == s[c + k..];
      Associative(rest, moved, s[c + k..]);
      if c == 0 {
        NothingFits(m);
        assert s[..0] == [] && moved + s[k..] == s[k..];
      } else {
        MovedAndLeft(s, c, k, m);
        SameFront(rest, moved + s[c + k..], Fitting(s[k..c], m) + s[c..]);
      }
    }
  }

  /** The files behind the adds and the acknowledgement. */
  lemma FilesAfterwards(b: Buffer, es: seq<Bytes>, m: Limits, l: BufferedList)
    requires BufferInFlight(b, l)
    ensures var q, p, c := AddLines(b, es, m).wrapped, Pending(b.wrapped), Moved(b, es, m);
            && WrappedCount(l) <= |p| && WrappedCount(l) <= |Target(q)| && c <= |Came(b, es)|
            && Pending(if l.MemoryList? then q else Acknowledge(q, if l.WrappedList? then l.list else l.front))
               == p[WrappedCount(l)..] + Fitting(Came(b, es)[..c], m)
  {
    hide AddLines, Moved, Pending, Fitting, Acknowledge;
    AddLinesParts(b, es, m);
    var q, p, fit := AddLines(b, es, m).wrapped, Pending(b.wrapped), Fitting(Came(b, es)[..Moved(b, es, m)], m);
    if !l.MemoryList? {
      var w := if l.WrappedList? then l.list else l.front;
      AcknowledgeRemovesPrefix(b.wrapped, w);
      AddLinesKeepInFlight(b, es, m, w);
      InFlightCount(q, w);
      AcknowledgeRemovesPrefix(q, w);
      assert (p + fit)[w.count..] == p[w.count..] + fit;
    }
  }

  lemma MovedAndLeft(s: seq<Bytes>, c: nat, k: nat, m: Limits)
    requires k <= c && c + k <= |s|
    ensures Fitting(s[..c], m) + s[c + k..] == Fitting(s[k..c], m) + s[c..]
            <==> Fitting(s[..k], m) == s[..k] && s[..k] + Fitting(s[k..c], m) == Fitting(s[k..c], m) + s[c..c + k]
  {
    hide Fitting;
    var front, f, t := Fitting(s[..k], m), Fitting(s[k..c], m), s[c + k..];
    FittingParts(s[..c], k, m);
    assert s[..c][..k] == s[..k] && s[..c][k..] == s[k..c];
    assert s[c..] == s[c..c + k] + t;
    Associative(f, s[c..c + k], t);
    SameEnd(front + f, f + s[c..c + k], t);
    FittingShort(s[..k], m);
  }

  lemma SameEnd(a: seq<Bytes>, b: seq<Bytes>, t: seq<Bytes>)
    ensures a + t == b + t <==> a == b
  {
    if a + t == b + t { assert (a + t)[..|a|] == a && (b + t)[..|b|] == b; }
  }

  /** Nothing is missing when as many lines fit as there are. */
  lemma {:induction false} FittingShort(ls: seq<Bytes>, m: Limits)
    ensures |Fitting(ls, m)| <= |ls|
    ensures |Fitting(ls, m)| == |ls| ==> Fitting(ls, m) == ls
  {
    if ls != [] { FittingShort(ls[1..], m); }
  }

  ghost predicate Distinct<T>(s: seq<T>) {
    forall i, j | 0 <= i < j < |s| :: s[i] != s[j]
  }

  /** Where no two events are equal, a flush always does this harm to listed ones. */
  lemma DistinctNeverRepeat(b: Buffer, es: seq<Bytes>, m: Limits, k: nat)
    requires 0 < k <= |b.mem| && Distinct(Came(b, es))
    ensures !Repeats(b, es, m, k)
  {
    hide AddLines, Moved, Fitting;
    AddLinesParts(b, es, m);
    var s, c := Came(b, es), Moved(b, es, m);
    if |b.mem| <= c && c + k <= |s| {
      var f, back := Fitting(s[k..c], m), s[c..c + k];
      FittingIsPart(s[k..c], m);
      assert (s[..k] + f)[0] == s[0];
      assert (f + back)[0] == if f == [] then s[c] else f[0];
      if f != [] { assert f[0] in s[k..c]; }
      assert (f + back)[0] != s[0];
    }
  }

  /** Two equal events are sent, and two more like them come after the flush: then it is right again. */
  lemma RefilledAlikeExample(a: Bytes)
    ensures var b, m := Buffer(Queue(None, [], []), [a, a], 2), Limits(0, 0);
            Moved(b, [a, a], m) == 2 && Repeats(b, [a, a], m, 2)
  {
    var b, m := Buffer(Queue(None, [], []), [a, a], 2), Limits(0, 0);
    var es := [a, a];
    assert es[..1] == [a] && es[..1][..0] == [] && es[1] == a;
    assert AddLines(b, [], m) == b;
    assert Moved(b, [a], m) == 2;
    assert AddLines(b, [a], m).mem == [a];
    AddLinesParts(b, es, m);
    var s := Came(b, es);
    assert s == [a, a, a, a] && s[..2] == [a, a] && s[2..2] == [] && s[2..4] == [a, a];
    BothFit(a, m);
  }

  lemma BothFit(a: Bytes, m: Limits)
    requires m.maxSize == 0
    ensures Fitting([a, a], m) == [a, a] && Fitting([], m) == []
  {
    assert [a, a][1..] == [a];
    assert Fitting([a], m) == [a];
  }

  lemma SameFront(a: seq<Bytes>, s: seq<Bytes>, t: seq<Bytes>)
    ensures a + s == a + t <==> s == t
  {
    assert (a + s)[|a|..] == s && (a + t)[|a|..] == t;
  }

  lemma {:induction false} FittingParts(ls: seq<Bytes>, k: nat, m: Limits)
    requires k <= |ls|
    ensures Fitting(ls, m) == Fitting(ls[..k], m) + Fitting(ls[k..], m)
    decreases k
  {
    if k > 0 {
      FittingParts(ls[1..], k - 1, m);
      assert ls[..k][1..] == ls[1..][..k - 1];
    } else {
      assert ls[0..] == ls;
    }
  }

  /** The event in flight stays and the new one is lost instead. */
  lemma FlushInFlightExample()
    ensures var a, c: Bytes := [65, NEWLINE], [66, NEWLINE];
            var m, b := Limits(0, 0), Buffer(Queue(None, [], []), [a], 1);
            var l := BufferFetch(b, 1, 100).1;
            && Data(l) == a
            && WrappedCount(l) <= |Target(BufferAdd(b, c, m).0.wrapped)|
            && MemoryCount(l) <= |BufferAdd(b, c, m).0.mem|
            && AllPending(BufferUploaded(BufferAdd(b, c, m).0, l)) == [a]
  {
    var a, c: Bytes := [65, NEWLINE], [66, NEWLINE];
    var m, b := Limits(0, 0), Buffer(Queue(None, [], []), [a], 1);
    var l := BufferFetch(b, 1, 100).1;
    NoLines();
    JoinOne(a);
    FitCountUnique([a], 1, 100, 1) by { assert [a][..1] == [a]; }
    assert [a][..1] == [a];
    assert l == MemoryList(Some(EventList(a, 1, false)));
    AddFits(b.wrapped, a, m);
    assert [a][1..] == [];
    ForwardNone(Add(b.wrapped, a, m).0, m);
    var b' := BufferAdd(b, c, m).0;
    assert Pending(b'.wrapped) == [a] && b'.mem == [c];
  }

  lemma {:induction false} ForwardKeepsFilled(q: Queue, ls: seq<Bytes>, m: Limits)
    requires Filled(q) && forall l | l in ls :: FitsFile(l, m)
    ensures Filled(Forward(q, ls, m))
    decreases |ls|
  {
    if ls != [] {
      assert ls[0] in ls;
      AddKeepsFilled(q, ls[0], m);
      ForwardKeepsFilled(Add(q, ls[0], m).0, ls[1..], m);
    }
  }

  /** One closed file without events is enough: the buffer reports events and hands out nothing. */
  lemma NullListExample()
    ensures var q := Queue(None, [[]], []);
            EventQueue.HasEvents(q) && BufferFetch(Buffer(q, [], 50), 100, 1000).1 == MemoryList(None)
  {
    var q := Queue(None, [[]], []);
    assert Pending(q) == [];
    NullListExactlyWhen(Buffer(q, [], 50), 100, 1000);
  }

  /**
   A list without any list inside is handed out, and later dereferenced, exactly when
   memory is empty and the files give nothing.
   */
  lemma NullListExactlyWhen(b: Buffer, maxCount: nat, maxSize: nat)
    requires maxCount > 0 && maxSize > 0
    ensures BufferFetch(b, maxCount, maxSize).1 == MemoryList(None)
            <==> b.mem == [] && (Pending(b.wrapped) == [] || Stuck(b.wrapped))
  {
    FetchMissesExactlyWhenStuck(b.wrapped, maxCount, maxSize);
    if !HasEvents(b.wrapped) { NoEventsNonePending(b.wrapped); }
  }

  lemma ForwardLast(q: Queue, ls: seq<Bytes>, line: Bytes, m: Limits)
    ensures Forward(q, ls + [line], m) == Add(Forward(q, ls, m), line, m).0
    decreases |ls|
  {
    hide Add;
    if ls == [] {
      assert ls + [line] == [line];
    } else {
      assert (ls + [line])[1..] == ls[1..] + [line];
      ForwardLast(Add(q, ls[0], m).0, ls[1..], line, m);
    }
  }

  class BufferedEventBatch {
    const wrapped: MultiFileEventBatch
    const mem: MemoryEventBatch

    ghost function Repr(): set<object>
      reads this, wrapped
    {
      wrapped.Repr() + {mem}
    }

    ghost predicate Sound()
      reads this, wrapped, wrapped.Repr(), mem
    {
      wrapped.Sound() && (mem as object) !in wrapped.Repr() && forall i | 0 <= i < |mem.items| :: IsJson(mem.items[i])
    }

    ghost predicate Valid()
      reads this, wrapped, wrapped.Repr(), mem
    {
      Sound() && wrapped.Valid()
    }

    ghost function Contents(): Buffer
      reads this, wrapped, wrapped.Repr(), mem
      requires Sound()
    {
      Buffer(wrapped.Contents(), mem.Contents(), mem.limit)
    }

    /** The part of a list that came from the files is awaited there. */
    ghost predicate Awaited(l: BufferedList)
      reads this, wrapped, wrapped.Repr(), mem
      requires Sound()
    {
      match l
      case WrappedList(w, _) => wrapped.Awaited(w)
      case MemoryList(_) => true
      case MergedList(w, _) => wrapped.Awaited(w)
    }

    ghost predicate InFlightNow(l: BufferedList)
      reads this, wrapped, wrapped.Repr(), mem
      requires Sound()
    {
      BufferInFlight(Contents(), l) && Awaited(l)
    }

    constructor (wrapped: MultiFileEventBatch, bufferedItemCount: nat)
      requires wrapped.Sound()
      ensures this.wrapped == wrapped && Sound() && (wrapped.Valid() ==> Valid()) && fresh(mem)
      ensures Contents() == Buffer(wrapped.Contents(), [], bufferedItemCount)
    {
      this.wrapped := wrapped;
      mem := new MemoryEventBatch(bufferedItemCount);
    }

    /** A list in flight stays in flight, unless a flush moves events of it to the files. */
    method AddEvent(json: Bytes) returns (ok: bool)
      requires Sound() && IsJson(json)
      modifies Repr()
      ensures unchanged(wrapped`fileMaxEvents) && unchanged(wrapped`fileMaxSize)
      ensures fresh(Repr() - old(Repr())) && wrapped.fs.failures >= old(wrapped.fs.failures)
      ensures old(|mem.items| < mem.limit) ==>
                Sound() && (old(Valid()) ==> Valid()) && wrapped.fs.failures == old(wrapped.fs.failures)
      ensures old(|mem.items| < mem.limit) || (old(Valid()) && wrapped.fs.failures == old(wrapped.fs.failures)) ==>
                Sound() && (Contents(), ok) == BufferAdd(old(Contents()), json + [13, 10], wrapped.LimitsNow())
      ensures old(Valid()) && wrapped.fs.failures == old(wrapped.fs.failures) ==> Valid()
      ensures old(Valid()) && wrapped.fs.failures == old(wrapped.fs.failures) ==>
                forall l | old(InFlightNow(l) && (|mem.items| < mem.limit || MemoryCount(l) == 0)) :: InFlightNow(l)
    {
      hide Add, Serialize, Forward, BufferInFlight;
      hide FileEventBatch.Sound, FileEventBatch.Valid, FileEventBatch.Events, OnDisk, Listed, MultiFileEventBatch.Ids;
      hide MultiFileEventBatch.Sound;
      SerializeMore(mem.items, json);
      SerializeAddsLineEnd(json);
      ghost var b, line, m := Contents(), Serialize(json), wrapped.LimitsNow();
      ok := mem.AddEvent(json);
      if ok {
        forall l | old(InFlightNow(l)) ensures InFlightNow(l) { AddWithoutFlush(b, line, m, l); }
      } else {
        FlushInternal();
        ok := AddBehindFlush(json);
        if old(Valid()) && wrapped.fs.failures == old(wrapped.fs.failures) {
          forall l | old(InFlightNow(l)) && MemoryCount(l) == 0 ensures InFlightNow(l) {
            FlushKeepsFileLists(b, m, Contents().mem, l);
          }
        }
      }
    }

    method AddBehindFlush(json: Bytes) returns (ok: bool)
      requires IsJson(json) && mem.items == []
      modifies mem`items
      ensures ok == (0 < mem.limit)
      ensures old(Sound()) ==>
                Sound() && Contents() == old(Contents()).(mem := if ok then [Serialize(json)] else [])
      ensures old(Valid()) ==> Valid()
      ensures old(Sound()) ==> forall l | old(Awaited(l)) :: Awaited(l)
    {
      hide Add, Serialize, Forward;
      hide FileEventBatch.Sound, FileEventBatch.Valid, FileEventBatch.Events, OnDisk, Listed, MultiFileEventBatch.Ids;
      SerializeMore([], json);
      assert [] + [json] == [json] && SerializeAll([]) == [];
      ok := mem.AddEvent(json);
    }

    /** `lost` are the events of closed files that could not be opened. */
    method GetEventsForUpload(maxCount: nat, maxSize: nat) returns (l: BufferedList, ghost lost: seq<Bytes>)
      requires Sound()
      modifies wrapped.Repr()
      ensures unchanged(wrapped`fileMaxEvents) && unchanged(wrapped`fileMaxSize)
      ensures fresh(Repr() - old(Repr())) && Sound() && (old(Valid()) ==> Valid())
      ensures wrapped.fs.failures >= old(wrapped.fs.failures)
      ensures wrapped.fs.failures == old(wrapped.fs.failures) ==> lost == []
      ensures lost + AllPending(Contents()) == AllPending(old(Contents()))
      ensures wrapped.fs.failures == old(wrapped.fs.failures) ==>
                (Contents(), l) == BufferFetch(old(Contents()), maxCount, maxSize)
      ensures wrapped.fs.failures == old(wrapped.fs.failures) && !Stuck(old(Contents()).wrapped) ==>
                InFlightNow(l)
    {
      hide FetchQueue, FetchMemory, Join, InFlight, Heads, Stuck, Pending, EventQueue.HasEvents, BufferInFlight, WithMemory;
      hide MultiFileEventBatch.Sound, MultiFileEventBatch.Valid, MultiFileEventBatch.Contents;
      hide FileEventBatch.Sound, FileEventBatch.Valid, FileEventBatch.Events, OnDisk, Listed, MultiFileEventBatch.Ids;
      ghost var before := Contents();
      lost := [];
      if !Stuck(before.wrapped) { BufferFetchGivesPrefix(before, maxCount, maxSize); }
      assert lost + AllPending(before) == AllPending(before);
      var ret := None;
      if wrapped.HasEvents() {
        ret, lost := wrapped.GetEventsForUpload(maxCount, maxSize);
        FetchWithinLimits(before.wrapped, maxCount, maxSize);
        Associative(lost, Pending(Contents().wrapped), before.mem);
      }
      l := JoinMemory(ret, maxCount, maxSize);
    }

    /** Joins what memory has to the list from the files, if that is the last of them. */
    method JoinMemory(ret: Option<EventList>, maxCount: nat, maxSize: nat) returns (l: BufferedList)
      requires ret.Some? ==> ret.value.count <= maxCount && |ret.value.data| <= maxSize
      ensures l == WithMemory(ret, mem.Contents(), maxCount, maxSize)
      ensures !l.MemoryList? ==> ret == Some(if l.WrappedList? then l.list else l.front)
    {
      hide FetchMemory, Join, ListsTexts;
      if ret.Some? && !ret.value.more && mem.HasEvents() {
        var retMem := mem.GetEventsForUpload(maxCount - ret.value.count, maxSize - |ret.value.data|);
        if retMem.Some? {
          l := MergedList(ret.value, retMem.value);
          return;
        }
      }
      if ret.Some? {
        l := WrappedList(ret.value, mem.HasEvents());
        return;
      }
      var retMem := mem.GetEventsForUpload(maxCount, maxSize);
      l := MemoryList(retMem);
    }

    method OnEventsUploaded(l: BufferedList) returns (ok: bool)
      requires Sound() && BufferInFlight(Contents(), l)
      modifies Repr()
      ensures unchanged(wrapped`fileMaxEvents) && unchanged(wrapped`fileMaxSize)
      ensures Repr() <= old(Repr()) && wrapped.fs.failures >= old(wrapped.fs.failures)
      ensures wrapped.fs.failures == old(wrapped.fs.failures) ==>
                ok && Sound() && Contents() == BufferUploaded(old(Contents()), l)
      ensures wrapped.fs.failures == old(wrapped.fs.failures) && old(Valid() && Awaited(l)) ==> Valid()
      ensures !ok ==> Sound() && Contents() == old(Contents())
    {
      hide Acknowledge, Target, InFlight;
      hide FileEventBatch.Sound, FileEventBatch.Valid, FileEventBatch.Events, OnDisk, Listed, MultiFileEventBatch.Ids;
      hide MultiFileEventBatch.Sound, MultiFileEventBatch.Valid, MultiFileEventBatch.Contents;
      ok := true;
      match l {
        case WrappedList(w, _) =>
          ok := wrapped.OnEventsUploaded(w);
        case MemoryList(m) =>
          if m.Some? { mem.OnEventsUploaded(m.value); }
        case MergedList(w, m) =>
          ok := wrapped.OnEventsUploaded(w);
          if ok { mem.OnEventsUploaded(m); }
      }
    }

    predicate HasEvents()
      reads this, wrapped, wrapped.Repr(), mem
      requires Sound()
      ensures HasEvents() <==> Contents().mem != [] || EventQueue.HasEvents(Contents().wrapped)
    {
      mem.HasEvents() || wrapped.HasEvents()
    }

    method FlushInternal()
      requires Sound()
      modifies Repr()
      ensures fresh(Repr() - old(Repr())) && (mem as object) !in wrapped.Repr()
      ensures mem.items == [] && wrapped.fs.failures >= old(wrapped.fs.failures)
      ensures unchanged(wrapped`fileMaxEvents) && unchanged(wrapped`fileMaxSize)
      ensures old(Valid()) && wrapped.fs.failures == old(wrapped.fs.failures) ==>
                Valid() && Contents() == Flush(old(Contents()), wrapped.LimitsNow())
      ensures old(Valid()) && wrapped.fs.failures == old(wrapped.fs.failures) ==>
                forall l | old(InFlightNow(l)) && MemoryCount(l) == 0 :: InFlightNow(l)
    {
      hide Add, Serialize, Forward, InFlight;
      hide FileEventBatch.Sound, FileEventBatch.Valid, FileEventBatch.Events, OnDisk, Listed, MultiFileEventBatch.Ids;
      hide MultiFileEventBatch.Sound, MultiFileEventBatch.Valid, MultiFileEventBatch.Contents;
      ghost var b := Contents();
      var items := mem.TransferAllEvents();
      ghost var q0, m := wrapped.Contents(), wrapped.LimitsNow();
      ghost var ls := SerializeAll(items);
      var i := 0;
      wrapped.SoundIsUsable();
      assert Forward(q0, ls[..0], m) == q0 by { ForwardNone(q0, m); assert ls[..0] == []; }
      while i < |items|
        invariant i <= |items| && mem.items == [] && wrapped.Usable() && (mem as object) !in wrapped.Repr()
        invariant fresh(Repr() - old(Repr())) && wrapped.fs.failures >= old(wrapped.fs.failures)
        invariant wrapped.LimitsNow() == m
        invariant old(Valid()) && wrapped.fs.failures == old(wrapped.fs.failures) ==>
                    Valid() && wrapped.Contents() == Forward(q0, ls[..i], m)
        invariant old(Valid()) && wrapped.fs.failures == old(wrapped.fs.failures) ==>
                    forall w | old(wrapped.InFlightNow(w)) :: wrapped.InFlightNow(w)
      {
        ForwardLast(q0, ls[..i], ls[i], m);
        assert ls[..i] + [ls[i]] == ls[..i + 1];
        var added := wrapped.AddEvent(items[i]);
        i := i + 1;
      }
      assert ls[..i] == ls;
      if old(Valid()) && wrapped.fs.failures == old(wrapped.fs.failures) {
        forall l | old(InFlightNow(l)) && MemoryCount(l) == 0 ensures InFlightNow(l) {
          FlushKeepsFileLists(b, m, [], l);
          if !l.MemoryList? {
            ghost var w := if l.WrappedList? then l.list else l.front;
            assert old(wrapped.InFlightNow(w));
          }
        }
      }
    }
  }

  lemma ForwardNone(q: Queue, m: Limits)
    ensures Forward(q, [], m) == q
  {
  }

  // ---- a client ---------------------------------------------------------------------

  datatype BufferRequest =
    | Post(json: Bytes)
    | Poll(maxCount: nat, maxSize: nat)
    | Confirm
    | FlushAll
    | Limit(maxEvents: nat, maxSize: nat)

  function BufferOpOf(r: BufferRequest): BufferOp {
    match r
    case Post(json) => Put(Serialize(json))
    case Poll(maxCount, maxSize) => FetchUpTo(maxCount, maxSize)
    case Confirm => BufferOp.Uploaded
    case FlushAll => FlushNow
    case Limit(maxEvents, maxSize) => SetLimits(Limits(maxEvents, maxSize))
  }

  /** The objects are where the usage is, and hold its list in flight. */
  ghost predicate BufferServes(buffer: BufferedEventBatch, u: BufferUsage, list: Option<BufferedList>)
    reads buffer, buffer.Repr(), buffer.wrapped.Repr()
  {
    && buffer.Valid() && BufferFifo(u) && u.b == buffer.Contents() && u.limits == buffer.wrapped.LimitsNow()
    && u.inFlight == list && (list.Some? ==> buffer.InFlightNow(list.value))
  }

  /** A buffer over files that are not stuck, as they are when opened, serves from there on. */
  lemma BufferServesAtFirst(buffer: BufferedEventBatch)
    requires buffer.Valid() && !Stuck(buffer.wrapped.Contents())
    ensures BufferServes(buffer, BufferOpening(buffer.Contents(), buffer.wrapped.LimitsNow()), None)
  {
    hide IsLine, Split, Pending, Listed, OnDisk, Stuck;
    var q, b := buffer.wrapped.Contents(), buffer.Contents();
    PendingIsLines(q, buffer.wrapped.fs.files, buffer.wrapped.oldBatches);
    LinesTogether(Pending(q), b.mem);
    BufferOpeningIsFifo(b, buffer.wrapped.LimitsNow());
  }

  lemma LinesTogether(a: seq<Bytes>, b: seq<Bytes>)
    requires AllLines(a) && AllLines(b)
    ensures AllLines(a + b)
  {
  }

  lemma FifoNeverStuck(u: BufferUsage)
    requires BufferFifo(u)
    ensures !Stuck(u.b.wrapped) && (u.inFlight.Some? ==> BufferInFlight(u.b, u.inFlight.value))
  {
  }

  /** What a step does to buffer, limits and list. */
  lemma StepParts(u: BufferUsage, op: BufferOp)
    requires StepDefined(u)
    ensures var v := BufferStep(u, op);
            && v.b == (match op
                       case Put(line) => BufferAdd(u.b, line, u.limits).0
                       case FetchUpTo(maxCount, maxSize) => BufferFetch(u.b, maxCount, maxSize).0
                       case Uploaded => if u.inFlight.None? then u.b else BufferUploaded(u.b, u.inFlight.value)
                       case FlushNow => Flush(u.b, u.limits)
                       case SetLimits(_) => u.b)
            && v.limits == (if op.SetLimits? then op.limits else u.limits)
            && v.inFlight == (if op.FetchUpTo? then Some(BufferFetch(u.b, op.maxCount, op.maxSize).1)
                              else if op.Uploaded? then None else u.inFlight)
            && v.delivered == u.delivered +
                 (if op.Uploaded? && u.inFlight.Some? then Split(Data(u.inFlight.value)) else [])
  {
    hide Split, BufferAdd, BufferFetch, BufferUploaded, Flush, Target;
  }

  /** Any one call on the objects is one step of the usage, as long as no call of the system fails. */
  method BufferServe(buffer: BufferedEventBatch, r: BufferRequest, list: Option<BufferedList>, ghost u: BufferUsage)
    returns (next: Option<BufferedList>, sent: Bytes, ghost v: BufferUsage)
    requires BufferServes(buffer, u, list)
    requires (r.Post? ==> IsJson(r.json)) && LegalBufferOp(u, BufferOpOf(r))
    modifies buffer.Repr()
    ensures fresh(buffer.Repr() - old(buffer.Repr()))
    ensures StepDefined(u) && v == BufferStep(u, BufferOpOf(r))
    ensures buffer.wrapped.fs.failures == old(buffer.wrapped.fs.failures) ==>
              BufferServes(buffer, v, next) && v.delivered == u.delivered + Split(sent)
  {
    hide Split, Join, OnDisk, Listed, Pending, Add, Serialize, Forward, BufferFetch, BufferInFlight, Target;
    hide BufferStep, BufferFifo, BufferAdd, BufferUploaded, Flush, StartsStuck, Stuck, AllPending;
    hide BufferedEventBatch.Awaited, FileEventBatch.Sound, FileEventBatch.Valid, FileEventBatch.Events, MultiFileEventBatch.Ids;
    BufferStepKeepsFifo(u, BufferOpOf(r));
    StepParts(u, BufferOpOf(r));
    FifoNeverStuck(u);
    v := BufferStep(u, BufferOpOf(r));
    next, sent := list, [];
    NoLines();
    match r {
      case Post(json) =>
        SerializeAddsLineEnd(json);
        var ok := buffer.AddEvent(json);
      case Poll(maxCount, maxSize) =>
        var l, lost := buffer.GetEventsForUpload(maxCount, maxSize);
        next := Some(l);
      case Confirm =>
        if list.Some? {
          var ok := buffer.OnEventsUploaded(list.value);
          next := None;
          sent := Data(list.value);
        }
      case FlushAll =>
        buffer.FlushInternal();
      case Limit(maxEvents, maxSize) =>
        LimitFiles(buffer, maxEvents, maxSize);
    }
  }

  /** The limits are set on the wrapped queue itself. */
  method LimitFiles(buffer: BufferedEventBatch, maxEvents: nat, maxSize: nat)
    requires buffer.Sound()
    modifies buffer.wrapped.Repr()
    ensures buffer.Repr() == old(buffer.Repr()) && buffer.Sound() && (old(buffer.Valid()) ==> buffer.Valid())
    ensures buffer.Contents() == old(buffer.Contents())
    ensures buffer.wrapped.LimitsNow() == Limits(maxEvents, maxSize)
    ensures buffer.wrapped.fs.failures == old(buffer.wrapped.fs.failures)
    ensures forall l | old(buffer.InFlightNow(l)) :: buffer.InFlightNow(l)
  {
    hide OnDisk, Listed, Pending, InFlight, FileEventBatch.Sound, FileEventBatch.Valid, FileEventBatch.Events;
    hide MultiFileEventBatch.Ids, MultiFileEventBatch.Awaited;
    buffer.wrapped.SetFileLimits(maxEvents, maxSize);
    forall l | old(buffer.InFlightNow(l)) ensures buffer.InFlightNow(l) {
      if !l.MemoryList? {
        ghost var w := if l.WrappedList? then l.list else l.front;
        assert old(buffer.wrapped.InFlightNow(w));
      }
    }
  }

  /**
   With room in memory nothing can fail but the fetch: what is posted comes back behind
   what was pending, each event as its own text with a line end behind it.
   */
  method PostThenPoll(buffer: BufferedEventBatch, js: seq<Bytes>, maxCount: nat, maxSize: nat)
    returns (l: BufferedList)
    requires buffer.Valid() && !Stuck(buffer.wrapped.Contents())
    requires |buffer.mem.items| + |js| <= buffer.mem.limit && forall j | j in js :: NEWLINE !in j
    modifies buffer.Repr()
    ensures buffer.wrapped.fs.failures == old(buffer.wrapped.fs.failures) ==>
              var all := old(AllPending(buffer.Contents()))
                         + seq(|js|, i requires 0 <= i < |js| => js[i] + [13, 10]);
              Count(l) <= |all| && Data(l) == Join(all[..Count(l)])
  {
    hide Split, Join, OnDisk, Listed, Pending, BufferFetch, Stuck, Serialize, BufferInFlight;
    hide FileEventBatch.Sound, FileEventBatch.Valid, FileEventBatch.Events, MultiFileEventBatch.Ids;
    hide MultiFileEventBatch.Sound, MultiFileEventBatch.Valid, MultiFileEventBatch.Contents;
    ghost var p, q := AllPending(buffer.Contents()), buffer.Contents().wrapped;
    var i := 0;
    while i < |js|
      invariant i <= |js| && buffer.Valid() && fresh(buffer.Repr() - old(buffer.Repr()))
      invariant buffer.wrapped.fs.failures == old(buffer.wrapped.fs.failures)
      invariant |buffer.mem.items| + (|js| - i) <= buffer.mem.limit && buffer.Contents().wrapped == q
      invariant AllPending(buffer.Contents()) == p + seq(i, k requires 0 <= k < i => js[k] + [13, 10])
    {
      assert js[i] in js;
      AddWithoutFlush(buffer.Contents(), js[i] + [13, 10], buffer.wrapped.LimitsNow(), MemoryList(None));
      Appended(p, js, i);
      var ok := buffer.AddEvent(js[i]);
      i := i + 1;
    }
    BufferFetchGivesPrefix(buffer.Contents(), maxCount, maxSize);
    ghost var lost;
    l, lost := buffer.GetEventsForUpload(maxCount, maxSize);
  }
}
