/**
 One batch file: newline-terminated events appended at the end, fetched and dropped at
 the front. The class works on bytes, an offset and cached counters; its contract is
 about the sequence of lines in the file.
 */
module FileBatch {
  import opened Basics
  import opened Sequences
  import opened Lines
  import opened Storage

  /** The largest amount `getEventsForUpload` reads. */
  const MAX_READ: nat := 1024 * 1024
  const SCAN_CHUNK: nat := 16 * 1024

  /** Whether a file holding `ls` takes another event of `size` bytes (0 is no limit). */
  predicate HasRoom(ls: seq<Bytes>, size: nat, maxCount: nat, maxSize: nat) {
    && (maxSize == 0 || |Join(ls)| + size <= maxSize)
    && (maxCount == 0 || |ls| + 1 <= maxCount)
  }

  /** Room is counted in bytes and lines of the file. */
  lemma RoomInFile(s: Bytes, size: nat, maxCount: nat, maxSize: nat)
    requires Clean(s)
    ensures HasRoom(Split(s), size, maxCount, maxSize) <==>
              (maxSize == 0 || |s| + size <= maxSize) && (maxCount == 0 || |Split(s)| < maxCount)
  {
  }

  /** The list that is fetched from a file holding `ls`. */
  function Fetch(ls: seq<Bytes>, maxCount: nat, maxSize: nat): Option<EventList> {
    if ls == [] || maxCount == 0 then None
    else
      var k := FitCount(ls, maxCount, Min(maxSize, MAX_READ));
      Some(EventList(Join(ls[..k]), k, k < |ls|))
  }

  /** `list` was fetched from a file that began with the same lines. */
  ghost predicate Heads(list: EventList, ls: seq<Bytes>) {
    list.count <= |ls| && list.data == Join(ls[..list.count])
  }

  class FileEventBatch {
    const fs: FileSystem
    const path: nat
    var isOpen: bool          // fd >= 0
    var pos: nat              // the offset of fd
    var fileSize: nat
    var eventCount: nat
    var streamAtEnd: bool
    var finalized: bool
    var maxCount: nat
    var maxSize: nat

    /** The counters describe the file; the file holds whole events. */
    ghost predicate Sound()
      reads `isOpen, `pos, `fileSize, `eventCount, `streamAtEnd, fs
    {
      && (isOpen ==>
            && path in fs.files
            && fileSize == |fs.files[path]|
            && Clean(fs.files[path])
            && eventCount == |Split(fs.files[path])|)
      && (!isOpen ==> fileSize == 0 && eventCount == 0)
    }

    ghost predicate Valid()
      reads `isOpen, `pos, `fileSize, `eventCount, `streamAtEnd, fs
    {
      Sound() && (isOpen && streamAtEnd ==> pos == fileSize)
    }

    /** The events in the file. */
    ghost function Events(): seq<Bytes>
      reads `isOpen, `pos, `fileSize, `eventCount, `streamAtEnd, fs
      requires Sound()
    {
      if isOpen then Split(fs.files[path]) else []
    }

    constructor (fs: FileSystem, path: nat)
      modifies fs
      ensures this.fs == fs && this.path == path
      ensures Valid() && !finalized && maxCount == 0 && maxSize == 0
      ensures if isOpen then fs.failures == old(fs.failures) else fs.failures > old(fs.failures)
      ensures isOpen ==> fs.files == old(fs.files)[path :=
                           Join(Split(if path in old(fs.files) then old(fs.files)[path] else []))]
      ensures isOpen ==> Events() == Split(if path in old(fs.files) then old(fs.files)[path] else [])
      ensures !isOpen ==> fs.files == old(fs.files)
    {
      this.fs := fs;
      this.path := path;
      pos, fileSize, eventCount := 0, 0, 0;
      streamAtEnd, finalized := false, false;
      maxCount, maxSize := 0, 0;
      new;
      isOpen := fs.Open(path);
      SeekToEndAndGetFileSize();
      CountEventsInFile();
    }

    method SeekToEndAndGetFileSize()
      requires isOpen ==> path in fs.files
      modifies this`pos, this`fileSize, this`streamAtEnd
      ensures streamAtEnd
      ensures isOpen ==> pos == fileSize == |fs.files[path]|
      ensures !isOpen ==> fileSize == 0
    {
      streamAtEnd := true;
      if isOpen {
        pos := |fs.files[path]|;
        fileSize := pos;
      } else {
        fileSize := 0;
      }
    }

    /** Counts the events in 16 KiB chunks and cuts off an unterminated tail. */
    method CountEventsInFile()
      requires isOpen ==> path in fs.files && fileSize == |fs.files[path]|
      requires !isOpen ==> fileSize == 0
      modifies this`pos, this`fileSize, this`streamAtEnd, this`eventCount, fs`files
      ensures Valid()
      ensures !isOpen ==> fs.files == old(fs.files)
      ensures isOpen ==> fs.files == old(fs.files)[path := Join(Split(old(fs.files)[path]))]
      ensures isOpen ==> Events() == Split(old(fs.files)[path])
    {
      hide Split, Join;
      eventCount := 0;
      if !isOpen { return; }
      pos := 0;
      streamAtEnd := false;
      var lastNewline, o := 0, 0;
      ghost var s := fs.files[path];
      SplitTail(s);
      JoinIsClean(Split(s));
      NoLines();
      assert s[..0] == [];
      var buf := fs.Read(path, pos, SCAN_CHUNK);
      pos := pos + |buf|;
      while |buf| > 0
        invariant isOpen && !streamAtEnd && fs.files == old(fs.files) && fileSize == |s|
        invariant o + |buf| == pos <= |s| && buf == s[o..pos]
        invariant |buf| == 0 ==> o == |s|
        invariant eventCount == |Split(s[..o])| && lastNewline == |Join(Split(s[..o]))|
        decreases |s| - o
      {
        eventCount, lastNewline := ScanChunk(s, o, buf, eventCount, lastNewline);
        o := o + |buf|;
        buf := fs.Read(path, pos, SCAN_CHUNK);
        pos := pos + |buf|;
      }
      assert s[..o] == s;
      assert Join(Split(s)) == s[..lastNewline];
      if lastNewline != fileSize {
        fs.Truncate(path, lastNewline);
        fileSize := lastNewline;
      }
      assert fs.files[path] == Join(Split(s));
    }

    lemma ClosedHasNoEvents()
      requires Sound() && !isOpen
      ensures Valid() && Events() == []
    {
    }

    method SetLimit(maxCount: nat, maxSize: nat)
      modifies this`maxCount, this`maxSize
      ensures this.maxCount == maxCount && this.maxSize == maxSize
    {
      this.maxCount := maxCount;
      this.maxSize := maxSize;
    }

    method SetFinalized()
      modifies this`finalized
      ensures finalized
    {
      finalized := true;
    }

    predicate HasEvents()
      reads this, fs
      requires Sound()
      ensures HasEvents() <==> Events() != []
    {
      JoinNonEmpty(Events());
      fileSize != 0
    }

    method CanAddEvent(size: nat) returns (can: bool)
      ensures Sound() ==> (can <==> !finalized && HasRoom(Events(), size, maxCount, maxSize))
    {
      can := !finalized && CanAddEventInt(size);
    }

    predicate CanAddEventInt(size: nat)
      reads this, fs
      ensures Sound() ==>
                (CanAddEventInt(size) <==> HasRoom(Events(), size, maxCount, maxSize))
    {
      && (maxSize == 0 || fileSize + size <= maxSize)
      && (maxCount == 0 || eventCount + 1 <= maxCount)
    }

    /** Sound, though the offset may be past the end after a failed write. */
    ghost predicate Settled()
      reads this, fs
    {
      Sound() && (isOpen && streamAtEnd ==> pos >= fileSize)
    }

    /** All that a call needs, also after earlier writes have failed. */
    ghost predicate Usable()
      reads this, fs
    {
      isOpen ==> path in fs.files
    }

    /**
     Appends one event. The counters stay right exactly when the data is one line. A
     failed write leaves the lines as they were, but then the offset is past the end of
     the file by what had been written of the event, and the next event is stored behind
     a hole of as many zero bytes.
     */
    method AddEvent(data: Bytes) returns (ok: bool)
      requires Usable()
      modifies this`pos, this`fileSize, this`streamAtEnd, this`eventCount, fs
      ensures Usable()
      ensures fs.files.Keys == old(fs.files.Keys) && fs.files - {path} == old(fs.files) - {path}
      ensures fs.failures >= old(fs.failures)
      ensures ok ==> isOpen && !finalized && fs.failures == old(fs.failures)
      ensures old(Sound()) && ok ==> HasRoom(old(Events()), |data|, maxCount, maxSize)
      ensures old(Sound()) && isOpen && !finalized && HasRoom(old(Events()), |data|, maxCount, maxSize) ==>
                (ok <==> fs.failures == old(fs.failures))
      ensures old(Valid()) && ok ==> fs.files[path] == old(fs.files)[path] + data
      ensures old(Valid()) && ok ==> pos == fileSize == |fs.files[path]| && (Valid() <==> IsLine(data))
      ensures old(Valid()) && ok && IsLine(data) ==> Events() == old(Events()) + [data]
      ensures old(Settled()) && !ok ==> Settled() && Events() == old(Events()) && fs.files == old(fs.files)
      ensures old(Valid()) && !ok && isOpen && !finalized && HasRoom(Events(), |data|, maxCount, maxSize) ==>
                fs.failures > old(fs.failures) && streamAtEnd && pos >= fileSize && (Valid() <==> pos == fileSize)
      ensures old(Valid()) && !(isOpen && !finalized && HasRoom(old(Events()), |data|, maxCount, maxSize)) ==>
                !ok && Valid() && fs.failures == old(fs.failures) && streamAtEnd == old(streamAtEnd)
      ensures old(Sound() && isOpen && streamAtEnd && pos > fileSize) && ok && data != [] ==>
                && fs.files[path] == old(fs.files)[path] + (Zeros(old(pos) - old(fileSize)) + data)
                && fileSize < |fs.files[path]|
    {
      hide Split, Join, Zeros, AfterWriting, HasRoom, Resize, FileEventBatch.CanAddEventInt;
      if !isOpen { return false; }
      if finalized { return false; }
      if !CanAddEventInt(|data|) { return false; }
      SeekForWriting();
      ghost var s, start := fs.files[path], pos;
      var o := WriteEvent(data);
      if o < |data| {
        if o > 0 {
          fs.Truncate(path, fileSize);
        }
        if old(Settled()) {
          AfterWritingKeeps(s, start, data[..o]);
          assert fs.files == old(fs.files);
        }
        return false;
      }
      assert data[..o] == data;
      if start >= |s| { AfterWritingKeeps(s, start, data); }
      if old(Valid()) {
        AfterWritingAtEnd(s, data);
        AppendIsSoundExactlyWhen(s, data);
      }
      fileSize := fileSize + o;
      eventCount := eventCount + 1;
      ok := true;
    }

    method SeekForWriting()
      requires isOpen && path in fs.files
      modifies this`pos, this`fileSize, this`streamAtEnd
      ensures streamAtEnd
      ensures old(Sound()) ==> fileSize == old(fileSize) == |fs.files[path]|
      ensures if old(streamAtEnd) then unchanged(this) else pos == fileSize == |fs.files[path]|
    {
      if !streamAtEnd {
        SeekToEndAndGetFileSize();
      }
    }

    /** Writes `data` at the offset until it is all there or a write fails. */
    method WriteEvent(data: Bytes) returns (o: nat)
      requires path in fs.files
      modifies this`pos, fs
      ensures o <= |data| && pos == old(pos) + o
      ensures if o < |data| then fs.failures > old(fs.failures) else fs.failures == old(fs.failures)
      ensures fs.files.Keys == old(fs.files.Keys) && fs.files - {path} == old(fs.files) - {path}
      ensures old(pos) >= |old(fs.files)[path]| ==>
                fs.files == old(fs.files)[path := AfterWriting(old(fs.files)[path], old(pos), data[..o])]
    {
      hide Zeros;
      ghost var s, start := fs.files[path], pos;
      o := 0;
      while o < |data|
        invariant o <= |data| && pos == start + o
        invariant fs.failures == old(fs.failures)
        invariant fs.files.Keys == old(fs.files.Keys) && fs.files - {path} == old(fs.files) - {path}
        invariant start >= |s| ==> fs.files == old(fs.files)[path := AfterWriting(s, start, data[..o])]
      {
        var ret := fs.Write(path, pos, data[o..]);
        if ret < 0 {
          break;
        }
        if start >= |s| { WriteNext(s, start, data, o, ret); }
        o := o + ret;
        pos := pos + ret;
      }
    }

    /** Reading from the start also puts an offset right that a failed write left behind the end. */
    method GetEventsForUpload(maxCount: nat, maxSize: nat) returns (list: Option<EventList>)
      requires Sound()
      modifies this`pos, this`streamAtEnd
      ensures Sound() && (old(Valid()) || list.Some? ==> Valid())
      ensures list == Fetch(Events(), maxCount, maxSize)
      ensures list.Some? ==> list.value.count <= maxCount && |list.value.data| <= maxSize
      ensures list.Some? ==> isOpen && !streamAtEnd && Heads(list.value, Events())
    {
      hide Split, Join;
      if !isOpen || fileSize == 0 || maxCount == 0 {
        JoinNonEmpty(Events());
        return None;
      }
      pos := 0;
      streamAtEnd := false;
      var limit := if maxSize > MAX_READ then MAX_READ else maxSize;
      if limit > fileSize { limit := fileSize; }
      ghost var ls := Events();
      ghost var s := Join(ls);
      JoinNonEmpty(ls);
      var data: Bytes := [];
      var m := fs.Read(path, pos, limit - |data|);
      while |m| > 0
        invariant |data| + |m| <= limit && pos == |data| && !streamAtEnd
        invariant data + m == s[..|data| + |m|]
        invariant |m| == 0 ==> |data| == limit
        decreases limit - |data|
      {
        data := data + m;
        pos := pos + |m|;
        m := fs.Read(path, pos, limit - |data|);
      }
      var n, events := ScanLines(data, ls, maxCount);
      FetchedIsFetch(ls, maxCount, maxSize, data, events);
      list := Some(EventList(data[..n], events, n < fileSize));
    }

    /**
     Drops the events of `list` from the front of the file by copying the rest of the
     file over them through a second descriptor. `ok` is false if that descriptor could
     not be opened (an exception in the source). The offset is left behind the end exactly
     when the whole of an open file goes while the offset counts as being at the end.
     */
    method OnEventsUploaded(list: EventList) returns (ok: bool)
      requires Sound() && Heads(list, Events())
      modifies this`isOpen, this`pos, this`fileSize, this`eventCount, fs
      ensures fs.files.Keys - {path} == old(fs.files.Keys) - {path}
      ensures fs.files - {path} == old(fs.files) - {path}
      ensures fs.failures >= old(fs.failures)
      ensures !ok ==> fs.failures > old(fs.failures) && fs.files == old(fs.files) && Sound() && Events() == old(Events())
      ensures !ok ==> isOpen == old(isOpen) && (old(Valid()) ==> Valid())
      ensures fs.failures == old(fs.failures) ==> ok && Sound() && Events() == old(Events())[list.count..]
      ensures fs.failures == old(fs.failures) && old(Valid()) ==>
                (Valid() <==> finalized || !old(isOpen && streamAtEnd) || list.count < |old(Events())| || old(Events()) == [])
      ensures old(isOpen) && list.count == |old(Events())| && !finalized ==> isOpen && pos == old(pos) && fileSize == 0
      ensures fs.failures == old(fs.failures) && old(isOpen) ==>
                if Events() == [] && finalized then !isOpen && path !in fs.files
                else isOpen && path in fs.files
      ensures isOpen ==> path in fs.files && fileSize == |fs.files[path]|
    {
      hide Split, Join;
      if !isOpen { return true; }
      ghost var ls := Events();
      JoinCut(ls, list.count);
      JoinIsClean(ls[list.count..]);
      JoinNonEmpty(ls[list.count..]);
      if fileSize == |list.data| {
        fileSize := 0;
        eventCount := 0;
        if finalized {
          isOpen := false;
          fs.Remove(path);
        } else {
          fs.Truncate(path, 0);
          NoLines();
          assert fs.files[path] == [];
        }
        return true;
      }
      ok := fs.OpenForReading(path);
      if !ok { return; }
      var n := CopyDown(|list.data|);
      fs.Truncate(path, n);
      fileSize := n;
      eventCount := eventCount - list.count;
    }

    /**
     Copies everything from byte `k` on to the front of the same file in 1 MiB chunks.
     The two offsets move through one file, and no byte is overwritten before it has
     been read, even when some writes fail.
     */
    method CopyDown(k: nat) returns (n: nat)
      requires isOpen && path in fs.files && k <= |fs.files[path]|
      modifies this`pos, fs
      ensures fs.files.Keys == old(fs.files.Keys) && fs.files - {path} == old(fs.files) - {path}
      ensures |fs.files[path]| == |old(fs.files)[path]| && pos == n <= |fs.files[path]| - k
      ensures fs.failures >= old(fs.failures)
      ensures fs.failures == old(fs.failures) ==> fs.files[path][..n] == old(fs.files)[path][k..]
    {
      ghost var s := fs.files[path];
      n := 0;
      pos := 0;
      var inPos := k;
      var buf := fs.Read(path, inPos, MAX_READ);
      inPos := inPos + |buf|;
      ghost var r := 0;                               // bytes taken from the input so far
      while |buf| > 0
        invariant path in fs.files && |fs.files[path]| == |s|
        invariant fs.files.Keys == old(fs.files.Keys) && fs.files - {path} == old(fs.files) - {path}
        invariant n == pos <= r && k + r + |buf| == inPos <= |s|
        invariant buf == s[k + r..inPos] && fs.files[path][inPos..] == s[inPos..]
        invariant |buf| == 0 ==> inPos == |s|
        invariant fs.failures >= old(fs.failures)
        invariant fs.failures == old(fs.failures) ==> n == r && fs.files[path][..n] == s[k..k + n]
        decreases |s| - k - r
      {
        ghost var before := fs.files[path];
        var w := WriteChunk(buf);
        SameTail(fs.files[path], before, pos, inPos);
        if w == |buf| && n == r { SlicesMeet(s, k, k + n, inPos); }
        n := n + w;
        r := r + |buf|;
        buf := fs.Read(path, inPos, MAX_READ);
        SameMiddle(fs.files[path], s, inPos, inPos + |buf|);
        SameTail(fs.files[path], s, inPos, inPos + |buf|);
        inPos := inPos + |buf|;
      }
    }

    /** Writes a buffer at the offset, as far as the writes succeed. */
    method WriteChunk(buf: Bytes) returns (o: nat)
      requires path in fs.files && pos + |buf| <= |fs.files[path]|
      modifies this`pos, fs
      ensures fs.files.Keys == old(fs.files.Keys) && fs.files - {path} == old(fs.files) - {path}
      ensures o <= |buf| && pos == old(pos) + o
      ensures if o < |buf| then fs.failures > old(fs.failures) else fs.failures == old(fs.failures)
      ensures |fs.files[path]| == |old(fs.files)[path]|
      ensures fs.files[path][..pos] == old(fs.files)[path][..old(pos)] + buf[..o]
      ensures fs.files[path][pos..] == old(fs.files)[path][pos..]
    {
      o := 0;
      while o < |buf|
        invariant o <= |buf| && pos == old(pos) + o
        invariant fs.failures == old(fs.failures)
        invariant fs.files.Keys == old(fs.files.Keys) && fs.files - {path} == old(fs.files) - {path}
        invariant |fs.files[path]| == |old(fs.files)[path]|
        invariant fs.files[path][..pos] == old(fs.files)[path][..old(pos)] + buf[..o]
        invariant fs.files[path][pos..] == old(fs.files)[path][pos..]
      {
        ghost var s, done := fs.files[path], old(fs.files)[path][..old(pos)];
        var ret := fs.Write(path, pos, buf[o..]);
        if ret < 0 {
          break;
        }
        OverwriteInside(s, pos, buf[o..][..ret]);
        assert buf[..o] + buf[o..][..ret] == buf[..o + ret];
        Associative(done, buf[..o], buf[o..][..ret]);
        o := o + ret;
        pos := pos + ret;
      }
    }
  }

  lemma SlicesMeet(s: Bytes, i: nat, j: nat, k: nat)
    requires i <= j <= k <= |s|
    ensures s[i..j] + s[j..k] == s[i..k]
  {
  }

  lemma SameMiddle(a: Bytes, b: Bytes, p: nat, q: nat)
    requires |a| == |b| && p <= q <= |a| && a[p..] == b[p..]
    ensures a[p..q] == b[p..q]
  {
    assert a[p..q] == a[p..][..q - p] && b[p..q] == b[p..][..q - p];
  }

  lemma SameTail(a: Bytes, b: Bytes, p: nat, q: nat)
    requires |a| == |b| && p <= q <= |a| && a[p..] == b[p..]
    ensures a[q..] == b[q..]
  {
    assert a[q..] == a[p..][q - p..] && b[q..] == b[p..][q - p..];
  }

  lemma OverwriteInside(s: Bytes, at: nat, b: Bytes)
    requires at + |b| <= |s|
    ensures var t := WriteAt(s, at, b);
            |t| == |s| && t[..at + |b|] == s[..at] + b && t[at + |b|..] == s[at + |b|..]
  {
  }

  /** The file after `b` has been written from offset `start` on, at or behind its end. */
  function AfterWriting(s: Bytes, start: nat, b: Bytes): Bytes
    requires start >= |s|
  {
    if b == [] then s else s + (Zeros(start - |s|) + b)
  }

  lemma AfterWritingAtEnd(s: Bytes, b: Bytes)
    ensures AfterWriting(s, |s|, b) == s + b
  {
  }

  lemma AfterWritingKeeps(s: Bytes, start: nat, b: Bytes)
    requires start >= |s|
    ensures Resize(AfterWriting(s, start, b), |s|) == s
    ensures b == [] ==> AfterWriting(s, start, b) == s
    ensures b != [] ==> AfterWriting(s, start, b) == s + (Zeros(start - |s|) + b)
  {
  }

  lemma WriteNext(s: Bytes, start: nat, data: Bytes, o: nat, ret: nat)
    requires 0 < ret && o + ret <= |data| && start >= |s|
    ensures WriteAt(AfterWriting(s, start, data[..o]), start + o, data[o..][..ret])
            == AfterWriting(s, start, data[..o + ret])
  {
    hide WriteAt, Zeros;
    var gap, chunk := start - |s|, data[o..][..ret];
    assert data[..o] + chunk == data[..o + ret];
    if o == 0 {
      WriteBeyondEnd(s, gap, chunk);
      assert chunk == data[..ret];
    } else {
      var hole := Zeros(gap);
      WriteAtEnd(s + (hole + data[..o]), chunk);
      Associative(s, hole + data[..o], chunk);
      Associative(hole, data[..o], chunk);
    }
  }

  /**
   An event stored behind a hole is read back with the zero bytes in front of it: right
   exactly when there is no hole, that is when the failed write had stored nothing.
   */
  lemma HoleSpoilsNextEventExactlyWhen(s: Bytes, gap: nat, data: Bytes)
    requires Clean(s) && IsLine(data)
    ensures Split(s + (Zeros(gap) + data)) == Split(s) + [Zeros(gap) + data]
    ensures Split(s + (Zeros(gap) + data)) == Split(s) + [data] <==> gap == 0
  {
    var l := Zeros(gap) + data;
    assert l[..|l| - 1] == Zeros(gap) + data[..|data| - 1];
    assert IsLine(l);
    AppendLine(s, l);
    if gap == 0 { assert l == data; }
    assert (Split(s) + [l])[|Split(s)|] == l;
    assert (Split(s) + [data])[|Split(s)|] == data;
    assert |l| == gap + |data|;
  }

  /** One byte of a failed write is enough. */
  lemma HoleExample()
    ensures Split(Zeros(1) + [NEWLINE]) == [[0, NEWLINE]]
  {
    NoLines();
    HoleSpoilsNextEventExactlyWhen([], 1, [NEWLINE]);
    assert [] + (Zeros(1) + [NEWLINE]) == Zeros(1) + [NEWLINE] == [0, NEWLINE];
  }

  /** Text put behind whole lines makes one line more exactly when it is a line. */
  lemma AppendIsSoundExactlyWhen(s: Bytes, data: Bytes)
    requires Clean(s)
    ensures Clean(s + data) && |Split(s + data)| == |Split(s)| + 1 <==> IsLine(data)
    ensures IsLine(data) ==> Split(s + data) == Split(s) + [data]
  {
    hide Split, Join;
    SplitAppend(s, data);
    if IsLine(data) {
      AppendLine(s, data);
    }
    if Clean(s + data) && |Split(data)| == 1 {
      JoinAppend(Split(s), Split(data));
      var l := Split(data)[0];
      assert Split(data) == [l];
      JoinOne(l);
      assert (s + data)[|s|..] == data && (s + l)[|s|..] == l;
      assert l in Split(data);
    }
  }

  lemma AppendLine(s: Bytes, l: Bytes)
    requires Clean(s) && IsLine(l)
    ensures Clean(s + l) && Split(s + l) == Split(s) + [l]
  {
    JoinAppend(Split(s), [l]);
    JoinOne(l);
    JoinIsClean(Split(s) + [l]);
  }

  /** One chunk of the counting scan. */
  method ScanChunk(ghost s: Bytes, o: nat, buf: Bytes, count0: nat, last0: nat)
    returns (count: nat, last: nat)
    requires o + |buf| <= |s| && buf == s[o..o + |buf|]
    requires count0 == |Split(s[..o])| && last0 == |Join(Split(s[..o]))|
    ensures count == |Split(s[..o + |buf|])| && last == |Join(Split(s[..o + |buf|]))|
  {
    hide Split, Join;
    count, last := count0, last0;
    var ptr := 0;
    var f := FindNewline(buf, ptr);
    while f < |buf|
      invariant ptr <= f <= |buf| && f == FindNewline(buf, ptr)
      invariant count == |Split(s[..o + ptr])| && last == |Join(Split(s[..o + ptr]))|
      decreases |buf| - ptr
    {
      SplitUpToNewline(s[..o + ptr], buf[ptr..f]);
      SeenSoFar(s, o, buf, ptr, f);
      SeenSoFar(s, o, buf, f, f + 1);
      assert buf[f..f + 1] == [NEWLINE];
      ptr := f + 1;
      last := o + ptr;
      count := count + 1;
      f := FindNewline(buf, ptr);
    }
    SplitMore(s[..o + ptr], buf[ptr..]);
    SeenSoFar(s, o, buf, ptr, |buf|);
    assert buf[ptr..] == buf[ptr..|buf|];
  }

  lemma SeenSoFar(s: Bytes, o: nat, buf: Bytes, i: nat, k: nat)
    requires o + |buf| <= |s| && buf == s[o..o + |buf|] && i <= k <= |buf|
    ensures s[..o + k] == s[..o + i] + buf[i..k]
  {
  }

  /** The bytes walked over are exactly the list `Fetch` describes. */
  lemma FetchedIsFetch(ls: seq<Bytes>, maxCount: nat, maxSize: nat, data: Bytes, k: nat)
    requires AllLines(ls) && ls != [] && 0 < maxCount && k <= |ls| && k <= maxCount
    requires data <= Join(ls) && |data| == Min(Min(maxSize, MAX_READ), |Join(ls)|)
    requires |Join(ls[..k])| <= |data|
    requires k == |ls| || k == maxCount || |Join(ls[..k + 1])| > |data|
    ensures Fetch(ls, maxCount, maxSize) ==
            Some(EventList(data[..|Join(ls[..k])|], k, |Join(ls[..k])| < |Join(ls)|))
  {
    if k < |ls| { JoinCut(ls, k + 1); }
    FitCountUnique(ls, maxCount, Min(maxSize, MAX_READ), k);
    JoinCut(ls, k);
    JoinAppend(ls[..k], ls[k..]);
    assert ls[..k] + ls[k..] == ls;
    JoinNonEmpty(ls[k..]);
    if k == |ls| { assert ls[..k] == ls; }
    assert Join(ls[..k]) == data[..|Join(ls[..k])|];
  }

  /** The first newline after `e` whole lines ends line `e`, if it has been read at all. */
  lemma NextLine(ls: seq<Bytes>, data: Bytes, e: nat)
    requires AllLines(ls) && data <= Join(ls) && e <= |ls| && |Join(ls[..e])| <= |data|
    ensures e == |ls| ==> FindNewline(data, |Join(ls[..e])|) == |data|
    ensures e < |ls| && |Join(ls[..e + 1])| <= |data| ==>
              FindNewline(data, |Join(ls[..e])|) + 1 == |Join(ls[..e + 1])|
    ensures e < |ls| && |Join(ls[..e + 1])| > |data| ==> FindNewline(data, |Join(ls[..e])|) == |data|
  {
    hide Join, FindNewline;
    if e == |ls| {
      assert ls[..e] == ls;
    } else {
      assert ls[e] in ls;
      LineStep(ls, e);
      FindAt(data, |Join(ls[..e])|, ls[e], Join(ls));
    }
  }

  lemma LineStep(ls: seq<Bytes>, e: nat)
    requires e < |ls|
    ensures Join(ls[..e + 1]) == Join(ls[..e]) + ls[e]
    ensures Join(ls[..e]) + ls[e] <= Join(ls)
  {
    JoinAppend(ls[..e], [ls[e]]);
    JoinOne(ls[e]);
    assert ls[..e] + [ls[e]] == ls[..e + 1];
    JoinCut(ls, e + 1);
  }

  lemma FindAt(data: Bytes, n: nat, l: Bytes, s: Bytes)
    requires n <= |data| && data <= s && IsLine(l) && n + |l| <= |s| && s[n..n + |l|] == l
    ensures n + |l| <= |data| ==> FindNewline(data, n) + 1 == n + |l|
    ensures n + |l| > |data| ==> FindNewline(data, n) == |data|
  {
    var p := n + |l| - 1;
    var f := FindNewline(data, n);
    assert s[p] == s[n..n + |l|][|l| - 1];
    assert forall i | n <= i < p :: s[i] == l[..|l| - 1][i - n];
    assert forall i | n <= i < f :: data[i] == data[n..f][i - n];
  }

  /** Walks over whole lines of a fetched buffer, at most `maxCount` of them. */
  method ScanLines(data: Bytes, ghost ls: seq<Bytes>, maxCount: nat) returns (n: nat, events: nat)
    requires AllLines(ls) && data <= Join(ls) && maxCount > 0
    ensures n <= |data| && events <= |ls| && events <= maxCount
    ensures n == |Join(ls[..events])|
    ensures events == |ls| || events == maxCount || |Join(ls[..events + 1])| > |data|
  {
    n, events := 0, 0;
    while true
      invariant n <= |data| && events <= |ls| && events < maxCount
      invariant n == |Join(ls[..events])|
      decreases |data| - n
    {
      var f := FindNewline(data, n);
      NextLine(ls, data, events);
      if f == |data| {
        break;
      }
      n := f + 1;
      events := events + 1;
      if events == maxCount {
        break;
      }
    }
  }

  /**
   An instance, as a client: the whole file is in flight, an add fails in writing, the
   list is acknowledged, and the next event lands behind a hole no shorter than the old file.
   */
  method AcknowledgedAfterFailedAdd(b: FileEventBatch, first: Bytes, second: Bytes)
    returns (added: bool, ghost calm: bool, addedNext: bool, ghost gap: nat)
    requires b.Valid() && b.isOpen && !b.finalized && 0 < b.fileSize <= MAX_READ
    requires HasRoom(b.Events(), |first|, b.maxCount, b.maxSize) && second != []
    modifies b, b.fs
    ensures !added && calm && addedNext ==>
              && b.path in b.fs.files && b.fs.files[b.path] == Zeros(gap) + second
              && gap >= old(b.fileSize) && !b.Sound()
  {
    hide Split, Join, Zeros, HasRoom;
    ghost var ls := b.Events();
    JoinNonEmpty(ls);
    assert ls[..|ls|] == ls;
    FitCountUnique(ls, |ls|, b.fileSize, |ls|);
    var list := b.GetEventsForUpload(b.eventCount, b.fileSize);
    assert list.Some? && list.value.count == |ls|;
    added := b.AddEvent(first);
    if added { return true, false, false, 0; }
    gap := b.pos;
    ghost var before := b.fs.failures;
    var acknowledged := b.OnEventsUploaded(list.value);
    calm := b.fs.failures == before;
    if calm { assert b.fs.files[b.path] == []; }
    addedNext := b.AddEvent(second);
    assert [] + (Zeros(gap) + second) == Zeros(gap) + second;
  }
}
