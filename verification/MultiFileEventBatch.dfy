/**
 The event queue kept in a directory of batch files: the newest file takes events, the
 oldest one is uploaded, the files in between stay closed.
 */
module MultiFile {
  import opened Basics
  import opened Sequences
  import opened Lines
  import opened Storage
  import opened FileBatch
  import opened EventQueue

  /** A serialised event, before the line end is put behind it. */
  ghost predicate IsJson(json: Bytes) { NEWLINE !in json }

  function Serialize(json: Bytes): (line: Bytes)
    ensures IsJson(json) ==> IsLine(line)
  {
    var line := json + [CARRIAGE_RETURN, NEWLINE];
    assert line[..|line| - 1] == json + [CARRIAGE_RETURN];
    line
  }

  /** An event is stored as it is, with a carriage return and a line feed behind it. */
  lemma SerializeAddsLineEnd(json: Bytes)
    ensures Serialize(json) == json + [13, 10]
  {
  }

  /** No two events give the same line. */
  lemma SerializeIsInjective(a: Bytes, b: Bytes)
    requires Serialize(a) == Serialize(b)
    ensures a == b
  {
    SerializeAddsLineEnd(a);
    SerializeAddsLineEnd(b);
    assert a == (a + [13, 10])[..|a|] && b == (b + [13, 10])[..|b|];
  }

  ghost predicate Increasing(ids: seq<nat>) {
    forall i, j | 0 <= i < j < |ids| :: ids[i] < ids[j]
  }

  ghost predicate Lists(ids: seq<nat>, keys: set<nat>) {
    && (forall id | id in ids :: id in keys)
    && (forall id | id in keys :: id in ids)
  }

  /** `ids` is the sorted directory listing of `keys`. */
  ghost predicate Listed(ids: seq<nat>, keys: set<nat>) {
    Increasing(ids) && Lists(ids, keys)
  }

  ghost function FileLines(files: map<nat, Bytes>, id: nat): seq<Bytes> {
    if id in files then Split(files[id]) else []
  }

  /** The events of the given files as a reader of the directory finds them. */
  ghost function OnDisk(files: map<nat, Bytes>, ids: seq<nat>): (r: seq<seq<Bytes>>)
    ensures |r| == |ids|
  {
    seq(|ids|, i requires 0 <= i < |ids| => FileLines(files, ids[i]))
  }

  lemma OnDiskSame(a: map<nat, Bytes>, b: map<nat, Bytes>, ids: seq<nat>)
    requires forall id | id in ids :: id in a && id in b && a[id] == b[id]
    ensures OnDisk(a, ids) == OnDisk(b, ids)
  {
    forall i | 0 <= i < |ids| ensures OnDisk(a, ids)[i] == OnDisk(b, ids)[i] {
      assert ids[i] in ids;
    }
  }

  lemma OnDiskAppend(a: map<nat, Bytes>, ids: seq<nat>, id: nat)
    ensures OnDisk(a, ids + [id]) == OnDisk(a, ids) + [FileLines(a, id)]
    ensures Flatten(OnDisk(a, ids + [id])) == Flatten(OnDisk(a, ids)) + FileLines(a, id)
  {
    assert OnDisk(a, ids + [id]) == OnDisk(a, ids) + [FileLines(a, id)];
    FlattenAppend(OnDisk(a, ids), [FileLines(a, id)]);
    FlattenOne(FileLines(a, id));
  }

  lemma OnDiskFirst(a: map<nat, Bytes>, id: nat, rest: seq<nat>)
    ensures OnDisk(a, [id] + rest) == [FileLines(a, id)] + OnDisk(a, rest)
    ensures Flatten(OnDisk(a, [id] + rest)) == FileLines(a, id) + Flatten(OnDisk(a, rest))
  {
    assert OnDisk(a, [id] + rest) == [FileLines(a, id)] + OnDisk(a, rest);
    FlattenAppend([FileLines(a, id)], OnDisk(a, rest));
    FlattenOne(FileLines(a, id));
  }

  lemma KeysButOne(a: set<nat>, b: set<nat>, id: nat)
    requires a - {id} == b - {id} && id in b
    ensures a == if id in a then b else b - {id}
  {
    forall x | x in a || x in b ensures x == id || (x in a && x in b) {
      assert x == id || (x in a - {id} <==> x in a);
      assert x == id || (x in b - {id} <==> x in b);
    }
  }

  lemma SameButOne(a: map<nat, Bytes>, b: map<nat, Bytes>, id: nat)
    requires a.Keys == b.Keys && a - {id} == b - {id}
    ensures id in b ==> b == a[id := b[id]]
  {
    OthersSame(a, b, id);
  }

  lemma SameOthers(a: set<nat>, b: set<nat>, id: nat)
    requires a - {id} == b - {id}
    ensures a + {id} == b + {id}
  {
    assert a + {id} == (a - {id}) + {id} && b + {id} == (b - {id}) + {id};
  }

  lemma OthersSame(a: map<nat, Bytes>, b: map<nat, Bytes>, id: nat)
    requires a - {id} == b - {id}
    ensures forall i | i in a && i != id :: i in b && a[i] == b[i]
  {
    forall i | i in a && i != id ensures i in b && a[i] == b[i] {
      assert i in a - {id};
      assert (a - {id})[i] == (b - {id})[i];
    }
  }

  lemma {:induction false} LeastOf(s: set<nat>) returns (m: nat)
    requires s != {}
    ensures m in s && forall x | x in s :: m <= x
  {
    var any :| any in s;
    m := any;
    var smaller := set y | y in s && y < any;
    if smaller != {} {
      assert any !in smaller;
      m := LeastOf(smaller);
    }
    assert forall x | x in s :: x in smaller || any <= x;
  }

  /** There is one increasing list of a set of ids. */
  lemma {:induction false} IncreasingUnique(a: seq<nat>, b: seq<nat>, keys: set<nat>)
    requires Listed(a, keys) && Listed(b, keys)
    ensures a == b
    decreases |a|
  {
    assert forall i | 0 <= i < |a| :: a[i] in keys;
    assert forall i | 0 <= i < |b| :: b[i] in keys;
    if a != [] && b != [] {
      SameFirst(a, b, keys);
      assert a == [a[0]] + a[1..] && b == [b[0]] + b[1..];
      TailOf(a[0], a[1..], keys);
      TailOf(b[0], b[1..], keys);
      IncreasingUnique(a[1..], b[1..], keys - {a[0]});
    }
  }

  lemma SameFirst(a: seq<nat>, b: seq<nat>, keys: set<nat>)
    requires Listed(a, keys) && Listed(b, keys) && a != [] && b != []
    ensures a[0] == b[0]
  {
    assert a[0] in a && b[0] in b;
    var i :| 0 <= i < |a| && a[i] == b[0];
    var j :| 0 <= j < |b| && b[j] == a[0];
  }

  /** The files behind the first one. */
  lemma TailOf(id: nat, rest: seq<nat>, keys: set<nat>)
    requires Listed([id] + rest, keys)
    ensures id in keys && id !in rest && Listed(rest, keys - {id})
    ensures forall x | x in rest :: x in keys && x > id
  {
    var all := [id] + rest;
    assert all[0] in all;
    forall i, j | 0 <= i < j < |rest| ensures rest[i] < rest[j] {
      assert all[i + 1] < all[j + 1];
    }
    forall i | 0 <= i < |rest| ensures id < rest[i] && rest[i] in keys {
      assert all[0] < all[i + 1] && all[i + 1] in all;
    }
    forall x | x in keys - {id} ensures x in rest {
      assert x in all;
    }
  }

  class MultiFileEventBatch {
    const fs: FileSystem
    var fileMaxEvents: nat
    var fileMaxSize: nat
    var oldestBatch: FileEventBatch?
    var oldBatches: seq<nat>
    var newestBatch: FileEventBatch
    var newestBatchId: nat

    ghost function OldestRepr(): set<object>
      reads this
    {
      if oldestBatch == null then {} else var o: FileEventBatch := oldestBatch; {o}
    }

    ghost function Repr(): set<object>
      reads this
    {
      {this, fs, newestBatch} + OldestRepr()
    }

    /** The ids of all files in use, the oldest first. */
    ghost function Ids(): seq<nat>
      reads this, oldestBatch
    {
      (if oldestBatch != null then [oldestBatch.path] else []) + oldBatches + [newestBatchId]
    }

    /**
     Every file of the directory is accounted for, and the open ones are described. The
     newest one need not be open, after its opening has failed.
     */
    ghost predicate Sound()
      reads this, Repr()
    {
      && newestBatch.fs == fs && newestBatch.path == newestBatchId && newestBatch.Sound()
      && !newestBatch.finalized
      && newestBatch.maxCount == fileMaxEvents && newestBatch.maxSize == fileMaxSize
      && (oldestBatch != null ==>
            && oldestBatch != newestBatch && oldestBatch.fs == fs && oldestBatch.Sound()
            && oldestBatch.isOpen && oldestBatch.finalized)
      && Listed(Ids(), InUse())
    }

    /** The files of the directory and the newest one. */
    ghost function InUse(): set<nat>
      reads `newestBatchId, fs
    {
      fs.files.Keys + {newestBatchId}
    }

    /** Also the newest file is open and is written where it ends. */
    ghost predicate Valid()
      reads this, Repr()
    {
      Sound() && newestBatch.isOpen && newestBatch.Valid()
    }

    /** Where the open and closed files stand in the directory. */
    lemma IdsInOrder()
      requires Sound()
      ensures forall id | id in oldBatches :: id in fs.files && id < newestBatchId
      ensures forall id | id in fs.files :: id <= newestBatchId
      ensures newestBatch.isOpen ==> newestBatchId in fs.files
      ensures oldestBatch != null ==> oldestBatch.path in fs.files && oldestBatch.path < newestBatchId
      ensures oldestBatch != null ==> forall id | id in oldBatches :: oldestBatch.path < id
      ensures oldestBatch != null ==>
                Listed(oldBatches + [newestBatchId], InUse() - {oldestBatch.path})
    {
      hide Listed, OnDisk, FileEventBatch.Valid, Clean;
      if oldestBatch == null {
        assert Ids() == oldBatches + [newestBatchId];
        InitOf(oldBatches, newestBatchId, InUse());
      } else {
        var rest := oldBatches + [newestBatchId];
        assert Ids() == [oldestBatch.path] + rest;
        TailOf(oldestBatch.path, rest, InUse());
        InitOf(oldBatches, newestBatchId, InUse() - {oldestBatch.path});
        assert newestBatchId in rest by { assert rest[|oldBatches|] == newestBatchId; }
        assert forall id | id in oldBatches :: id in rest;
        forall id | id in fs.files ensures id <= newestBatchId {
          if id != oldestBatch.path { assert id in InUse() - {oldestBatch.path}; }
        }
      }
    }

    ghost function Contents(): Queue
      reads this, Repr()
      requires Sound()
    {
      Queue(if oldestBatch != null then Some(oldestBatch.Events()) else None,
            OnDisk(fs.files, oldBatches), newestBatch.Events())
    }

    ghost function LimitsNow(): Limits
      reads this
    {
      Limits(fileMaxEvents, fileMaxSize)
    }

    /** Not the whole newest file goes while it is being written. */
    ghost predicate Awaited(list: EventList)
      reads this, Repr()
      requires Sound()
    {
      oldestBatch == null && newestBatch.streamAtEnd ==>
        list.count < |newestBatch.Events()| || newestBatch.Events() == []
    }

    ghost predicate InFlightNow(list: EventList)
      reads this, Repr()
      requires Sound()
    {
      InFlight(Contents(), list) && Awaited(list)
    }

    constructor (fs: FileSystem, maxEvents: nat, maxSize: nat)
      modifies fs
      ensures this.fs == fs && fileMaxEvents == maxEvents && fileMaxSize == maxSize
      ensures oldestBatch == null && fresh(newestBatch)
      ensures if newestBatch.isOpen then fs.failures == old(fs.failures) else fs.failures > old(fs.failures)
      ensures Sound() && (newestBatch.isOpen ==> Valid())
      ensures newestBatch.isOpen ==> forall ids | Listed(ids, old(fs.files.Keys)) ::
                Pending(Contents()) == Flatten(OnDisk(old(fs.files), ids))
      ensures !newestBatch.isOpen ==> fs.files == old(fs.files) && forall ids | Listed(ids, fs.files.Keys) ::
                Contents() == Queue(None, OnDisk(fs.files, if ids == [] then [] else ids[..|ids| - 1]), [])
    {
      hide Split, Join, OnDisk, Listed, Flatten, Clean;
      this.fs := fs;
      fileMaxEvents, fileMaxSize := maxEvents, maxSize;
      oldestBatch := null;
      var ids := GetBatches(fs.files.Keys);
      var last, closed := 0, [];
      if ids != [] {
        last := ids[|ids| - 1];
        closed := ids[..|ids| - 1];
      }
      newestBatchId := last;
      oldBatches := closed;
      var newest := new FileEventBatch(fs, last);
      newest.SetLimit(maxEvents, maxSize);
      newestBatch := newest;
      new;
      if newest.isOpen {
        ghost var before := old(fs.files);
        NoLines();
        assert newestBatch.Events() == FileLines(before, newestBatchId);
        Opened(before, ids);
      } else {
        NotOpened(ids);
      }
    }

    /** The same where the newest file could not be opened: its events are not reached. */
    lemma NotOpened(ids: seq<nat>)
      requires newestBatch.fs == fs && newestBatch.Valid() && !newestBatch.isOpen
      requires newestBatch.path == newestBatchId && oldestBatch == null && !newestBatch.finalized
      requires newestBatch.maxCount == fileMaxEvents && newestBatch.maxSize == fileMaxSize
      requires Listed(ids, fs.files.Keys)
      requires if ids == [] then oldBatches == [] && newestBatchId == 0
               else ids == oldBatches + [newestBatchId]
      ensures Sound()
      ensures forall x | Listed(x, fs.files.Keys) ::
                Contents() == Queue(None, OnDisk(fs.files, if x == [] then [] else x[..|x| - 1]), [])
    {
      hide Split, Join, OnDisk, Clean;
      assert Ids() == oldBatches + [newestBatchId];
      if ids == [] {
        assert fs.files.Keys == {} by { assert forall id | id in fs.files.Keys :: id in ids; }
      } else {
        InitOf(oldBatches, newestBatchId, fs.files.Keys);
        assert InUse() == fs.files.Keys;
      }
      newestBatch.ClosedHasNoEvents();
      forall x | Listed(x, fs.files.Keys) ensures x == ids {
        IncreasingUnique(x, ids, fs.files.Keys);
      }
    }

    /** The state a directory listing is opened into. */
    lemma Opened(before: map<nat, Bytes>, ids: seq<nat>)
      requires newestBatch.fs == fs && newestBatch.Valid() && newestBatch.isOpen
      requires newestBatch.path == newestBatchId && oldestBatch == null && !newestBatch.finalized
      requires newestBatch.maxCount == fileMaxEvents && newestBatch.maxSize == fileMaxSize
      requires Listed(ids, before.Keys)
      requires if ids == [] then oldBatches == [] && newestBatchId == 0
               else ids == oldBatches + [newestBatchId]
      requires fs.files == before[newestBatchId := Join(FileLines(before, newestBatchId))]
      requires newestBatch.Events() == FileLines(before, newestBatchId)
      ensures Valid()
      ensures forall x | Listed(x, before.Keys) ::
                Pending(Contents()) == Flatten(OnDisk(before, x))
    {
      hide Split, Join, OnDisk, Flatten;
      assert Ids() == oldBatches + [newestBatchId];
      if ids == [] {
        assert before == map[] by {
          assert forall id | id in before :: id in ids;
        }
      } else {
        InitOf(oldBatches, newestBatchId, before.Keys);
      }
      assert InUse() == fs.files.Keys;
      assert Valid();
      OnDiskSame(before, fs.files, oldBatches);
      OnDiskAppend(before, oldBatches, newestBatchId);
      forall x | Listed(x, before.Keys)
        ensures Pending(Contents()) == Flatten(OnDisk(before, x))
      {
        IncreasingUnique(x, ids, before.Keys);
      }
    }

    method OpenBatch(id: nat, write: bool) returns (ev: FileEventBatch)
      modifies fs
      ensures fresh(ev) && ev.fs == fs && ev.path == id && ev.Valid() && ev.finalized == !write
      ensures ev.maxCount == fileMaxEvents && ev.maxSize == fileMaxSize
      ensures if ev.isOpen then fs.failures == old(fs.failures) else fs.failures > old(fs.failures)
      ensures ev.isOpen ==> fs.files == old(fs.files)[id :=
                              Join(Split(if id in old(fs.files) then old(fs.files)[id] else []))]
      ensures ev.isOpen ==> ev.Events() == Split(if id in old(fs.files) then old(fs.files)[id] else [])
      ensures !ev.isOpen ==> fs.files == old(fs.files)
    {
      hide Split, Join, OnDisk, Listed, Clean;
      ev := new FileEventBatch(fs, id);
      ev.SetLimit(fileMaxEvents, fileMaxSize);
      if !write {
        ev.SetFinalized();
      }
    }

    /**
     Closes empty files until the oldest one with events is open. The events of a file that
     cannot be opened are lost: it is taken for empty and deleted.
     */
    method CheckOldestBatch() returns (ghost lost: seq<Bytes>)
      requires Sound()
      modifies this`oldestBatch, this`oldBatches, fs
      ensures oldestBatch == old(oldestBatch) || oldestBatch == null || fresh(oldestBatch)
      ensures old(oldestBatch) != null ==> oldestBatch == old(oldestBatch)
      ensures Sound() && (old(Valid()) ==> Valid()) && Contents().newest == old(Contents().newest)
      ensures fs.failures >= old(fs.failures) && (fs.failures == old(fs.failures) ==> lost == [])
      ensures lost + Pending(Contents()) == Pending(old(Contents()))
      ensures fs.failures == old(fs.failures) ==> Contents() == CheckOldest(old(Contents()))
      ensures oldestBatch == null ==> oldBatches == []
    {
      hide Split, Join, OnDisk, Listed, Flatten, Clean, MultiFileEventBatch.Ids, MultiFileEventBatch.InUse;
      hide FileEventBatch.Sound, FileEventBatch.Valid;
      lost := [];
      if oldestBatch != null { return; }
      ghost var closed, rest := Contents().closed, Contents().newest;
      while oldBatches != []
        invariant oldestBatch == null && Sound() && (old(Valid()) ==> Valid())
        invariant Contents().newest == old(Contents().newest)
        invariant fs.failures >= old(fs.failures) && (fs.failures == old(fs.failures) ==> lost == [])
        invariant lost + Flatten(Contents().closed) == Flatten(closed)
        invariant fs.failures == old(fs.failures) ==> PopEmpty(Contents().closed) == PopEmpty(closed)
        decreases |oldBatches|
      {
        ghost var todo := Contents().closed;
        assert |todo| == |oldBatches|;
        FlattenFirst(todo);
        var done, gone := OpenNextBatch();
        Associative(lost, todo[0], Flatten(todo[1..]));
        if done {
          break;
        }
        lost := lost + gone;
      }
    }

    /** Opens the first closed file; deletes it again if it shows no events. */
    method OpenNextBatch() returns (found: bool, ghost gone: seq<Bytes>)
      requires oldestBatch == null && oldBatches != [] && Sound()
      modifies this`oldestBatch, this`oldBatches, fs
      ensures fs.failures >= old(fs.failures)
      ensures oldBatches == old(oldBatches)[1..]
      ensures found ==> oldestBatch != null && fresh(oldestBatch)
      ensures !found ==> oldestBatch == null
      ensures Sound() && (old(Valid()) ==> Valid()) && Contents().newest == old(Contents().newest)
      ensures |old(Contents().closed)| > 0 && Contents().closed == old(Contents().closed)[1..]
      ensures found ==> oldestBatch.Events() == old(Contents().closed)[0] != []
      ensures !found ==> gone == old(Contents().closed)[0]
      ensures !found && fs.failures == old(fs.failures) ==> gone == []
    {
      hide Split, Join, OnDisk, Listed, Clean;
      var fr := oldBatches[0];
      ghost var before, rest := fs.files, oldBatches[1..];
      assert Ids() == [fr] + (rest + [newestBatchId]);
      assert oldBatches == [fr] + rest;
      TailOf(fr, rest + [newestBatchId], InUse());
      InitOf(rest, newestBatchId, InUse() - {fr});
      OnDiskFirst(before, fr, rest);
      gone := FileLines(before, fr);
      oldBatches := oldBatches[1..];
      oldestBatch := OpenBatch(fr, false);
      assert fs.files.Keys == before.Keys;
      if oldestBatch.HasEvents() {
        FirstTaken(before, fr);
        found := true;
        return;
      }
      var path := oldestBatch.path;
      oldestBatch := null;
      fs.Remove(path);
      assert fs.files.Keys == before.Keys - {fr};
      FirstTaken(before, fr);
      found := false;
    }

    /** The first closed file has become the oldest one, or is gone. */
    lemma FirstTaken(before: map<nat, Bytes>, fr: nat)
      requires newestBatch.fs == fs && newestBatch.path == newestBatchId && newestBatch.Sound() && !newestBatch.finalized
      requires newestBatch.maxCount == fileMaxEvents && newestBatch.maxSize == fileMaxSize
      requires Listed([fr] + (oldBatches + [newestBatchId]), before.Keys + {newestBatchId})
      requires oldestBatch != null ==>
                 && oldestBatch != newestBatch && oldestBatch.fs == fs && oldestBatch.path == fr && oldestBatch.Sound()
                 && oldestBatch.isOpen && oldestBatch.finalized
      requires fs.files.Keys == if oldestBatch != null then before.Keys else before.Keys - {fr}
      requires fr < newestBatchId && forall id | id in oldBatches :: id in before && id in fs.files && fs.files[id] == before[id]
      ensures Sound() && Contents().closed == OnDisk(before, oldBatches) && Contents().newest == newestBatch.Events()
    {
      hide Split, Join, OnDisk, Listed, Clean;
      var rest := oldBatches + [newestBatchId];
      OnDiskSame(before, fs.files, oldBatches);
      if oldestBatch != null {
        assert Ids() == [fr] + rest;
      } else {
        TailOf(fr, rest, before.Keys + {newestBatchId});
        assert Ids() == rest;
        assert InUse() == (before.Keys + {newestBatchId}) - {fr};
      }
    }

    /** All that an add needs, also after earlier opens or writes have failed. */
    ghost predicate Usable()
      reads this, fs, newestBatch
    {
      newestBatch.fs == fs && newestBatch.Usable()
    }

    lemma SoundIsUsable()
      requires Sound()
      ensures Usable()
    {
    }

    /** The newest file could not be opened. */
    ghost predicate Disconnected()
      reads this, fs, newestBatch
    {
      && newestBatch.fs == fs && newestBatch.Sound() && !newestBatch.isOpen && !newestBatch.finalized
      && newestBatch.maxCount == fileMaxEvents && newestBatch.maxSize == fileMaxSize
    }

    /** A write to the newest file has failed, and the next one goes behind its end. */
    ghost predicate Overrun()
      reads this, Repr()
    {
      Sound() && newestBatch.isOpen && newestBatch.streamAtEnd && newestBatch.pos > newestBatch.fileSize
    }

    /** An add to what the newest file is, or to the one that takes its place. */
    ghost predicate Addable(size: nat)
      reads this, Repr()
    {
      Valid() || (Sound() && newestBatch.isOpen && !HasRoom(Contents().newest, size, fileMaxEvents, fileMaxSize))
    }

    /**
     The files, opened again after any add, hold what was pending and the event if it was
     accepted, whatever has failed. Behind a failed write the event is stored after a hole,
     unless it goes to a new file. While the newest file is not open, events that fit a
     file are refused.
     */
    method AddEvent(json: Bytes) returns (ok: bool)
      requires Usable() && IsJson(json)
      modifies Repr()
      ensures unchanged(this`fileMaxEvents) && unchanged(this`fileMaxSize)
      ensures fresh(Repr() - old(Repr()))
      ensures Usable() && fs.failures >= old(fs.failures)
      ensures old(Addable(|Serialize(json)|)) ==>
                && Sound() && (fs.failures == old(fs.failures) ==> Valid())
                && (Contents(), ok) ==
                   TryAdd(old(Contents()), Serialize(json), LimitsNow(), fs.failures == old(fs.failures))
      ensures old(Addable(|Serialize(json)|)) ==> forall l | old(InFlight(Contents(), l)) :: InFlight(Contents(), l)
      ensures old(Valid()) && fs.failures == old(fs.failures) ==> forall l | old(InFlightNow(l)) :: InFlightNow(l)
      ensures old(Addable(|json| + 2)) ==> forall ids | Listed(ids, fs.files.Keys) ::
                Flatten(OnDisk(fs.files, ids)) == Pending(old(Contents())) + if ok then [json + [13, 10]] else []
      ensures old(Addable(|json| + 2)) && ok ==>
                fs.files == old(fs.files)[newestBatchId :=
                  (if newestBatchId in old(fs.files) then old(fs.files)[newestBatchId] else []) + (json + [13, 10])]
      ensures old(Overrun() && !Addable(|json| + 2)) && fs.failures == old(fs.failures) ==>
                && ok && newestBatch == old(newestBatch)
                && fs.files == old(fs.files)[newestBatchId := old(fs.files[newestBatchId])
                     + (Zeros(old(newestBatch.pos - newestBatch.fileSize)) + (json + [13, 10]))]
      ensures old(Sound() && !newestBatch.isOpen) && HasRoom([], |json| + 2, fileMaxEvents, fileMaxSize) ==>
                !ok && Sound() && !newestBatch.isOpen && Contents() == old(Contents()) && fs.files == old(fs.files)
    {
      hide Split, Join, OnDisk, Listed, Serialize, Flatten, HasRoom, Pending, Rotate, InFlight, Clean, Zeros;
      hide FileEventBatch.Valid, FileEventBatch.Sound;
      var data := Serialize(json);
      SerializeAddsLineEnd(json);
      ghost var q, m := if Sound() then Contents() else Queue(None, [], []), LimitsNow();
      ghost var addable := Addable(|data|);
      RotateKeepsPending(q);
      AddAppends(q, data, m);
      SoundNewest();
      var can := newestBatch.CanAddEvent(|data|);
      if !can {
        RotateNewest();
      }
      ok := StoreEvent(data);
      if addable {
        TryAddAppends(q, data, m, fs.failures == old(fs.failures));
        DirectoryHoldsPending();
        forall l | old(InFlight(Contents(), l)) ensures InFlight(Contents(), l) {
          TryAddKeepsInFlight(q, data, m, fs.failures == old(fs.failures), l);
        }
      }
    }

    lemma SoundNewest()
      ensures Sound() && !newestBatch.isOpen ==> Contents().newest == []
      ensures Sound() ==> newestBatch.Sound() && Contents().newest == newestBatch.Events()
    {
      hide Listed, OnDisk, Split, Clean;
    }

    lemma DirectoryHoldsPending()
      requires Sound() && (newestBatch.isOpen || newestBatchId !in fs.files)
      ensures forall ids | Listed(ids, fs.files.Keys) :: Flatten(OnDisk(fs.files, ids)) == Pending(Contents())
    {
      hide Listed, OnDisk, Flatten, Pending;
      forall ids | Listed(ids, fs.files.Keys) ensures Flatten(OnDisk(fs.files, ids)) == Pending(Contents()) {
        ReopenFindsPending(ids);
      }
    }

    /** Appends to the newest file as it is. */
    method StoreEvent(data: Bytes) returns (ok: bool)
      requires Usable() && IsLine(data)
      modifies newestBatch, fs
      ensures Usable() && fs.failures >= old(fs.failures) && (ok ==> fs.failures == old(fs.failures))
      ensures old(Valid()) ==> Sound() && (fs.failures == old(fs.failures) ==> Valid())
      ensures old(Valid()) && fs.failures == old(fs.failures) ==>
                (ok <==> HasRoom(old(Contents()).newest, |data|, fileMaxEvents, fileMaxSize))
      ensures old(Valid()) ==>
                var q := old(Contents()); Contents() == if ok then q.(newest := q.newest + [data]) else q
      ensures old(Valid()) && fs.failures == old(fs.failures) ==> forall l | old(InFlightNow(l)) :: InFlightNow(l)
      ensures old(Valid()) && ok ==>
                fs.files == old(fs.files)[newestBatchId := old(fs.files[newestBatchId]) + data]
      ensures old(Overrun()) && ok ==>
                fs.files == old(fs.files)[newestBatchId := old(fs.files[newestBatchId])
                  + (Zeros(old(newestBatch.pos - newestBatch.fileSize)) + data)]
      ensures old(Overrun() && HasRoom(Contents().newest, |data|, fileMaxEvents, fileMaxSize)) ==>
                (ok <==> fs.failures == old(fs.failures))
      ensures old(Sound() && !newestBatch.isOpen) ==>
                !ok && Sound() && Contents() == old(Contents()) && fs.failures == old(fs.failures)
      ensures old(Disconnected()) ==> !ok && Disconnected() && fs.files == old(fs.files)
      ensures newestBatch.isOpen == old(newestBatch.isOpen)
    {
      hide Split, Join, OnDisk, Listed, HasRoom, Clean, Zeros;
      ghost var before, ids := fs.files, Ids();
      if Sound() { IdsInOrder(); }
      ok := newestBatch.AddEvent(data);
      SameButOne(before, fs.files, newestBatch.path);
      if old(Valid()) {
        OthersSame(before, fs.files, newestBatchId);
        assert Ids() == ids;
        OnDiskSame(before, fs.files, oldBatches);
        forall l | old(InFlightNow(l)) && fs.failures == old(fs.failures) ensures InFlightNow(l) {
          assert oldestBatch != null ==> oldestBatch.Events() == old(oldestBatch.Events());
          if oldestBatch == null && ok { HeadsStays(l, old(newestBatch.Events()), data); }
        }
      }
    }

    /** Finalizes the newest file and starts the next one. */
    method RotateNewest()
      requires Usable()
      modifies `oldestBatch, `oldBatches, `newestBatch, `newestBatchId, newestBatch`finalized, fs
      ensures fresh(Repr() - old(Repr()))
      ensures Usable()
      ensures if newestBatch.isOpen then fs.failures == old(fs.failures) else fs.failures > old(fs.failures)
      ensures !newestBatch.isOpen ==> Disconnected() && fs.files == old(fs.files)
      ensures old(Sound() && newestBatch.isOpen) ==>
                && Sound() && Contents() == Rotate(old(Contents())) && newestBatchId !in old(fs.files)
                && (newestBatch.isOpen ==> Valid() && fs.files == old(fs.files)[newestBatchId := []])
      ensures old(Sound() && newestBatch.isOpen) ==> forall l | old(InFlight(Contents(), l)) :: InFlightNow(l)
    {
      hide Split, Join, OnDisk, Listed, Clean;
      ghost var before, ids := fs.files, Ids();
      if Sound() { IdsInOrder(); }
      RetireNewest();
      OnDiskAppend(before, old(oldBatches), newestBatchId);
      OpenNewest();
      if old(Sound() && newestBatch.isOpen) {
        assert before.Keys + {old(newestBatchId)} == before.Keys;
        assert Ids() == ids + [newestBatchId];
        NextBatchStarted(before, ids);
      }
    }

    /** Opens the file behind the newest one; it is empty unless there is such a file already. */
    method OpenNewest()
      modifies `newestBatch, `newestBatchId, fs
      ensures newestBatchId == old(newestBatchId) + 1 && fresh(newestBatch)
      ensures newestBatch.fs == fs && newestBatch.path == newestBatchId && newestBatch.Valid()
      ensures !newestBatch.finalized && newestBatch.maxCount == fileMaxEvents && newestBatch.maxSize == fileMaxSize
      ensures if newestBatch.isOpen then fs.failures == old(fs.failures) else fs.failures > old(fs.failures)
      ensures !newestBatch.isOpen ==> fs.files == old(fs.files)
      ensures newestBatch.isOpen && newestBatchId !in old(fs.files) ==>
                newestBatch.Events() == [] && fs.files == old(fs.files)[newestBatchId := []]
      ensures !newestBatch.isOpen ==> newestBatch.Events() == []
    {
      hide Split, Join;
      newestBatchId := newestBatchId + 1;
      newestBatch := OpenBatch(newestBatchId, true);
      NoLines();
    }

    /** The newest file becomes the oldest one or joins the closed ones. */
    method RetireNewest()
      modifies `oldestBatch, `oldBatches, newestBatch`finalized
      ensures newestBatch.finalized
      ensures if old(oldestBatch) == null && old(oldBatches) == []
              then oldestBatch == newestBatch && oldBatches == []
              else oldestBatch == old(oldestBatch) && oldBatches == old(oldBatches) + [newestBatchId]
      ensures newestBatch.path == newestBatchId ==> Ids() == old(Ids()) + [newestBatchId]
    {
      newestBatch.SetFinalized();
      if oldestBatch == null && oldBatches == [] {
        oldestBatch := newestBatch;
      } else {
        oldBatches := oldBatches + [newestBatchId];
      }
    }

    /** An empty file has been put behind all others, or could not be. */
    lemma NextBatchStarted(before: map<nat, Bytes>, ids: seq<nat>)
      requires newestBatch.fs == fs && newestBatch.path == newestBatchId && newestBatch.Valid()
      requires !newestBatch.finalized && newestBatch.Events() == []
      requires newestBatch.maxCount == fileMaxEvents && newestBatch.maxSize == fileMaxSize
      requires oldestBatch != null ==>
                 && oldestBatch != newestBatch && oldestBatch.fs == fs && oldestBatch.Sound()
                 && oldestBatch.isOpen && oldestBatch.finalized
      requires Listed(ids, before.Keys) && forall id | id in before :: id < newestBatchId
      requires fs.files == (if newestBatch.isOpen then before[newestBatchId := []] else before)
      requires Ids() == ids + [newestBatchId]
      requires forall id | id in oldBatches :: id in before
      ensures Sound() && (newestBatch.isOpen ==> Valid())
      ensures Contents() == Queue(if oldestBatch != null then Some(oldestBatch.Events()) else None,
                                  OnDisk(before, oldBatches), [])
    {
      hide Split, Join, OnDisk, Listed, Clean;
      ExtendIds(ids, newestBatchId, before.Keys);
      assert InUse() == before.Keys + {newestBatchId};
      OnDiskSame(before, fs.files, oldBatches);
    }

    /** A fetch from the newest file also puts right where it is written. */
    method GetEventsForUpload(maxCount: nat, maxSize: nat)
      returns (list: Option<EventList>, ghost lost: seq<Bytes>)
      requires Sound()
      modifies Repr()
      ensures unchanged(this`fileMaxEvents) && unchanged(this`fileMaxSize)
      ensures fresh(Repr() - old(Repr()))
      ensures Sound() && (old(Valid()) || (list.Some? && oldestBatch == null) ==> Valid())
      ensures fs.failures >= old(fs.failures) && (fs.failures == old(fs.failures) ==> lost == [])
      ensures lost + Pending(Contents()) == Pending(old(Contents()))
      ensures fs.failures == old(fs.failures) ==>
                (Contents(), list) == FetchQueue(old(Contents()), maxCount, maxSize)
      ensures list.Some? ==> InFlightNow(list.value)
      ensures list.Some? ==> list.value.count <= maxCount && |list.value.data| <= maxSize
    {
      hide Split, Join, OnDisk, Listed, Flatten, Clean, Pending, CheckOldest, MultiFileEventBatch.InUse;
      lost := CheckOldestBatch();
      CheckOldestKeepsPending(old(Contents()));
      if oldestBatch != null {
        list := oldestBatch.GetEventsForUpload(maxCount, maxSize);
        if list.Some? {
          list := Some(list.value.(more := true));
        }
      } else {
        list := newestBatch.GetEventsForUpload(maxCount, maxSize);
      }
    }

    /** `ok` is false where the source throws: the file could not be opened for reading. */
    method OnEventsUploaded(list: EventList) returns (ok: bool)
      requires Sound() && InFlight(Contents(), list)
      modifies Repr()
      ensures unchanged(this`fileMaxEvents) && unchanged(this`fileMaxSize)
      ensures Repr() <= old(Repr())
      ensures fs.failures >= old(fs.failures)
      ensures fs.failures == old(fs.failures) ==> ok && Sound() && Contents() == Acknowledge(old(Contents()), list)
      ensures fs.failures == old(fs.failures) && old(Valid()) ==> (Valid() <==> old(Awaited(list)))
      ensures !ok ==> fs.files == old(fs.files) && Sound() && Contents() == old(Contents())
    {
      hide Split, Join, OnDisk, Listed, Clean;
      ghost var before, ids := fs.files, Ids();
      IdsInOrder();
      if oldestBatch != null {
        ok := oldestBatch.OnEventsUploaded(list);
        if !ok {
          assert Ids() == ids;
          return;
        }
        OthersSame(before, fs.files, oldestBatch.path);
        ghost var rest := oldBatches + [newestBatchId];
        assert ids == [oldestBatch.path] + rest;
        OnDiskSame(before, fs.files, oldBatches);
        KeysButOne(fs.files.Keys, before.Keys, oldestBatch.path);
        assert InUse() == if oldestBatch.path in fs.files then before.Keys + {newestBatchId}
                          else before.Keys + {newestBatchId} - {oldestBatch.path};
        assert fs.failures == old(fs.failures) ==> (oldestBatch.HasEvents() <==> oldestBatch.fileSize != 0);
        if oldestBatch.fileSize == 0 {
          oldestBatch := null;
          assert Ids() == rest;
        }
      } else {
        ok := newestBatch.OnEventsUploaded(list);
        assert Ids() == ids;
        if !ok { return; }
        assert InUse() == before.Keys + {newestBatchId} by { SameOthers(fs.files.Keys, before.Keys, newestBatchId); }
        OthersSame(before, fs.files, newestBatchId);
        OnDiskSame(before, fs.files, oldBatches);
      }
    }

    predicate HasEvents()
      reads this, Repr()
      requires Sound()
      ensures HasEvents() <==> EventQueue.HasEvents(Contents())
    {
      oldBatches != [] || oldestBatch != null || newestBatch.HasEvents()
    }

    method SetFileLimits(maxEvents: nat, maxSize: nat)
      requires Sound()
      modifies Repr()
      ensures Repr() == old(Repr()) && Sound() && (old(Valid()) ==> Valid()) && Contents() == old(Contents())
      ensures LimitsNow() == Limits(maxEvents, maxSize) && fs.failures == old(fs.failures)
      ensures forall l | old(InFlightNow(l)) :: InFlightNow(l)
    {
      hide Split, Join, OnDisk, Listed, Clean;
      fileMaxSize := maxSize;
      fileMaxEvents := maxEvents;
      if oldestBatch != null {
        oldestBatch.SetLimit(maxEvents, maxSize);
      }
      newestBatch.SetLimit(maxEvents, maxSize);
    }

    /** Opening the directory again finds the queue as it is. */
    lemma ReopenFindsPending(ids: seq<nat>)
      requires Sound() && Listed(ids, fs.files.Keys) && (newestBatch.isOpen || newestBatchId !in fs.files)
      ensures Flatten(OnDisk(fs.files, ids)) == Pending(Contents())
    {
      hide Split, Flatten, OnDisk, Listed, Clean;
      IdsInOrder();
      OnDiskAppend(fs.files, oldBatches, newestBatchId);
      if newestBatch.isOpen {
        assert InUse() == fs.files.Keys;
        IncreasingUnique(ids, Ids(), InUse());
      } else {
        ExtendIds(ids, newestBatchId, fs.files.Keys);
        IncreasingUnique(ids + [newestBatchId], Ids(), InUse());
        OnDiskAppend(fs.files, ids, newestBatchId);
      }
      if oldestBatch != null {
        assert Ids() == [oldestBatch.path] + (oldBatches + [newestBatchId]);
        OnDiskFirst(fs.files, oldestBatch.path, oldBatches + [newestBatchId]);
      } else {
        assert Ids() == oldBatches + [newestBatchId];
      }
    }
  }

  lemma HeadsStays(list: EventList, ls: seq<Bytes>, line: Bytes)
    requires Heads(list, ls)
    ensures Heads(list, ls + [line])
  {
    assert (ls + [line])[..list.count] == ls[..list.count];
  }

  /** The files before the last one. */
  lemma InitOf(init: seq<nat>, id: nat, keys: set<nat>)
    requires Listed(init + [id], keys)
    ensures id in keys && forall x | x in init :: x in keys && x < id
    ensures forall x | x in keys :: x <= id
  {
    var all := init + [id];
    assert all[|init|] in all;
    forall i | 0 <= i < |init| ensures init[i] in keys && init[i] < id {
      assert all[i] in all && all[i] < all[|init|];
    }
    forall x | x in keys ensures x <= id {
      assert x in all;
    }
  }

  lemma ExtendIds(ids: seq<nat>, id: nat, keys: set<nat>)
    requires Listed(ids, keys) && forall x | x in keys :: x < id
    ensures Listed(ids + [id], keys + {id})
  {
    assert forall i | 0 <= i < |ids| :: ids[i] in ids;
    forall x | x in keys + {id} ensures x in ids + [id] {
      if x == id { assert (ids + [id])[|ids|] == id; }
    }
  }

  /** The directory listing, sorted. */
  method GetBatches(keys: set<nat>) returns (ids: seq<nat>)
    ensures Listed(ids, keys)
  {
    ids := [];
    var rest := keys;
    while rest != {}
      invariant rest <= keys && Listed(ids, keys - rest)
      invariant forall i, r | i in ids && r in rest :: i < r
    {
      ghost var least := LeastOf(rest);
      var m :| m in rest && forall x | x in rest :: m <= x;
      ExtendIds(ids, m, keys - rest);
      assert keys - (rest - {m}) == (keys - rest) + {m};
      ids := ids + [m];
      rest := rest - {m};
    }
  }

  // ---- a client ---------------------------------------------------------------------

  datatype Request = Post(json: Bytes) | Poll(maxCount: nat, maxSize: nat) | Confirm | Limit(maxEvents: nat, maxSize: nat)

  function OpOf(r: Request, works: bool): Op {
    match r
    case Post(json) => Op.AddEvent(Serialize(json), works)
    case Poll(maxCount, maxSize) => GetEvents(maxCount, maxSize)
    case Confirm => Uploaded
    case Limit(maxEvents, maxSize) => Op.SetFileLimits(Limits(maxEvents, maxSize))
  }

  /** The objects are where the usage of the queue is, and hold its list in flight. */
  ghost predicate Serves(queue: MultiFileEventBatch, u: Usage, list: Option<EventList>)
    reads queue, queue.Repr()
  {
    && queue.Valid() && Fifo(u) && u.q == queue.Contents() && u.limits == queue.LimitsNow()
    && u.inFlight == list && (list.Some? ==> queue.InFlightNow(list.value))
  }

  lemma ServesAtFirst(queue: MultiFileEventBatch)
    requires queue.Valid()
    ensures Serves(queue, Opening(queue.Contents(), queue.LimitsNow()), None)
  {
    var q := queue.Contents();
    PendingIsLines(q, queue.fs.files, queue.oldBatches);
    OpeningIsFifo(q, queue.LimitsNow());
  }

  lemma PendingIsLines(q: Queue, files: map<nat, Bytes>, ids: seq<nat>)
    requires q.oldest.Some? ==> AllLines(q.oldest.value)
    requires q.closed == OnDisk(files, ids) && AllLines(q.newest)
    ensures AllLines(Pending(q))
  {
    hide IsLine, Split;
    AllLinesFlatten(q.closed);
  }

  lemma {:induction false} AllLinesFlatten(lss: seq<seq<Bytes>>)
    requires forall i | 0 <= i < |lss| :: AllLines(lss[i])
    ensures AllLines(Flatten(lss))
    decreases |lss|
  {
    hide IsLine;
    if lss != [] {
      AllLinesFlatten(lss[1..]);
    }
  }

  /**
   Any one call on the objects is one step of the usage, as long as no call of the system
   fails. An add may fail, if that leaves the newest file written where it ends and not the
   whole of it in flight.
   */
  method Serve(queue: MultiFileEventBatch, r: Request, list: Option<EventList>, ghost u: Usage)
    returns (next: Option<EventList>, sent: Bytes, ghost v: Usage)
    requires Serves(queue, u, list) && (r.Post? ==> IsJson(r.json))
    modifies queue.Repr()
    ensures fresh(queue.Repr() - old(queue.Repr()))
    ensures v == Step(u, OpOf(r, queue.fs.failures == old(queue.fs.failures)))
    ensures queue.fs.failures == old(queue.fs.failures)
            || (r.Post? && queue.Valid() && (list.Some? ==> queue.Awaited(list.value))) ==>
              Serves(queue, v, next) && v.delivered == u.delivered + Split(sent)
  {
    hide Split, Join, OnDisk, Listed, Pending, Add, FetchQueue, Serialize;
    hide FileEventBatch.Sound, FileEventBatch.Valid, FileEventBatch.Events, MultiFileEventBatch.Ids;
    StepKeepsFifo(u, OpOf(r, true));
    StepKeepsFifo(u, OpOf(r, false));
    next, sent := list, [];
    NoLines();
    match r {
      case Post(json) =>
        queue.SoundIsUsable();
        var ok := queue.AddEvent(json);
      case Poll(maxCount, maxSize) =>
        ghost var lost;
        next, lost := queue.GetEventsForUpload(maxCount, maxSize);
      case Confirm =>
        if list.Some? {
          var ok := queue.OnEventsUploaded(list.value);
          next, sent := None, list.value.data;
        }
      case Limit(maxEvents, maxSize) =>
        queue.SetFileLimits(maxEvents, maxSize);
    }
    v := Step(u, OpOf(r, queue.fs.failures == old(queue.fs.failures)));
  }

  /**
   Events posted one after another come back in their order, each as its own text with a
   line end behind it, after those that were pending.
   */
  method PostThenPoll(queue: MultiFileEventBatch, js: seq<Bytes>, maxCount: nat, maxSize: nat)
    returns (list: Option<EventList>)
    requires queue.Valid() && !Stuck(queue.Contents())
    requires forall j | j in js :: NEWLINE !in j && (queue.fileMaxSize == 0 || |j| + 2 <= queue.fileMaxSize)
    modifies queue.Repr()
    ensures queue.fs.failures == old(queue.fs.failures) && maxCount > 0 ==>
              (list.None? <==> old(Pending(queue.Contents())) == [] && js == [])
    ensures queue.fs.failures == old(queue.fs.failures) && list.Some? ==>
              var all := old(Pending(queue.Contents()))
                         + seq(|js|, i requires 0 <= i < |js| => js[i] + [13, 10]);
              list.value.count <= |all| && list.value.data == Join(all[..list.value.count])
  {
    hide Split, Join, OnDisk, Listed, Pending, Add, FetchQueue, Serialize, HasRoom, EventQueue.TryAdd;
    hide MultiFileEventBatch.Sound, MultiFileEventBatch.Contents;
    list := None;
    ghost var p := Pending(queue.Contents());
    var i := 0;
    while i < |js|
      invariant i <= |js| && queue.Valid() && fresh(queue.Repr() - old(queue.Repr()))
      invariant queue.fs.failures == old(queue.fs.failures) && queue.fileMaxSize == old(queue.fileMaxSize)
      invariant !Stuck(queue.Contents())
      invariant Pending(queue.Contents()) == p + seq(i, k requires 0 <= k < i => js[k] + [13, 10])
    {
      assert js[i] in js;
      var ok := Post(queue, js[i]);
      if !ok { return; }
      Appended(p, js, i);
      i := i + 1;
    }
    ghost var q := queue.Contents();
    if maxCount > 0 { FetchMissesExactlyWhenStuck(q, maxCount, maxSize); }
    FetchGivesPrefix(q, maxCount, maxSize);
    ghost var lost;
    list, lost := queue.GetEventsForUpload(maxCount, maxSize);
  }

  lemma Appended(p: seq<Bytes>, js: seq<Bytes>, i: nat)
    requires i < |js|
    ensures p + seq(i, k requires 0 <= k < i => js[k] + [13, 10]) + [js[i] + [13, 10]]
            == p + seq(i + 1, k requires 0 <= k < i + 1 => js[k] + [13, 10])
  {
  }

  /** An event that fits a file is stored unless something fails. */
  method Post(queue: MultiFileEventBatch, json: Bytes) returns (ok: bool)
    requires queue.Valid() && !Stuck(queue.Contents())
    requires NEWLINE !in json && (queue.fileMaxSize == 0 || |json| + 2 <= queue.fileMaxSize)
    modifies queue.Repr()
    ensures queue.fileMaxSize == old(queue.fileMaxSize) && fresh(queue.Repr() - old(queue.Repr()))
    ensures ok <==> queue.fs.failures == old(queue.fs.failures)
    ensures ok ==> queue.Valid() && !Stuck(queue.Contents())
                   && Pending(queue.Contents()) == old(Pending(queue.Contents())) + [json + [13, 10]]
  {
    hide Split, Join, OnDisk, Listed, Pending, Add, Stuck, Serialize, HasRoom, EventQueue.TryAdd;
    hide FileEventBatch.Sound, FileEventBatch.Valid, FileEventBatch.Events, MultiFileEventBatch.Ids;
    queue.SoundIsUsable();
    SerializeAddsLineEnd(json);
    PostedBehind(queue.Contents(), json, queue.LimitsNow());
    ok := queue.AddEvent(json);
  }

  lemma PostedBehind(q: Queue, json: Bytes, m: Limits)
    requires !Stuck(q) && (m.maxSize == 0 || |json| + 2 <= m.maxSize)
    ensures var (q', ok) := TryAdd(q, Serialize(json), m, true);
            ok && !Stuck(q') && Pending(q') == Pending(q) + [json + [13, 10]]
    ensures !TryAdd(q, Serialize(json), m, false).1
  {
    hide Pending;
    SerializeAddsLineEnd(json);
    AddAppends(q, Serialize(json), m);
    AddSticksExactlyWhen(q, Serialize(json), m, true);
  }
}
