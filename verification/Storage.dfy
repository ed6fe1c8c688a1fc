/**
 The storage primitives below the event queue: a file system that may read and write
 less than it is asked to and whose writes may fail, and the lists of events that are
 handed to the uploader.
 */
module Storage {
  import opened Basics

  /** A fetched list of events (VectorBatchedEventList). */
  datatype EventList = EventList(data: Bytes, count: nat, more: bool)

  /** `n` zero bytes: what a file system puts into a hole. */
  function Zeros(n: nat): (z: Bytes)
    ensures |z| == n
  {
    seq(n, _ => 0)
  }

  /** `ftruncate`: cut, or extend with zeros. */
  function Resize(s: Bytes, n: nat): (r: Bytes)
    ensures |r| == n
  {
    if n <= |s| then s[..n] else s + Zeros(n - |s|)
  }

  /** `write` at an offset: overwrite, append, or leave a hole of zeros before. */
  function WriteAt(s: Bytes, at: nat, b: Bytes): (r: Bytes)
    ensures at + |b| >= |s| ==> |r| == at + |b|
    ensures at + |b| <= |s| ==> |r| == |s|
  {
    Resize(s, at) + b + (if at + |b| < |s| then s[at + |b|..] else [])
  }

  lemma WriteAtEnd(s: Bytes, b: Bytes)
    ensures WriteAt(s, |s|, b) == s + b
  {
  }

  /** A write that starts beyond the end puts zeros in front of the data it stores. */
  lemma WriteBeyondEnd(s: Bytes, gap: nat, b: Bytes)
    ensures WriteAt(s, |s| + gap, b) == s + (Zeros(gap) + b)
  {
  }

  /**
   The files of one directory, by batch id. `failures` counts the calls of `open` and
   `write` that have returned an error.
   */
  class FileSystem {
    var files: map<nat, Bytes>
    ghost var failures: nat

    constructor ()
      ensures files == map[] && failures == 0
    {
      files := map[];
      failures := 0;
    }

    /** `open` with O_CREAT: creates an empty file where there is none. */
    method Open(path: nat) returns (ok: bool)
      modifies this
      ensures if ok then failures == old(failures) else failures > old(failures)
      ensures ok ==> files == if path in old(files) then old(files) else old(files)[path := []]
      ensures !ok ==> files == old(files)
    {
      ok := true;
      if path !in files {
        files := files[path := []];
      }
    }

    /** `open` with O_RDONLY. */
    method OpenForReading(path: nat) returns (ok: bool)
      modifies this`failures
      ensures ok ==> path in files
      ensures if ok then failures == old(failures) else failures > old(failures)
    {
      ok := path in files;
      if !ok { failures := failures + 1; }
    }

    /** `read`: any non-empty part of what was asked for, nothing only at the end. */
    method Read(path: nat, at: nat, n: nat) returns (buf: Bytes)
      requires path in files
      ensures |buf| <= n && (buf == [] <==> n == 0 || at >= |files[path]|)
      ensures buf != [] ==> at + |buf| <= |files[path]| && buf == files[path][at..at + |buf|]
    {
      var len := |files[path]|;
      if at >= len {
        buf := [];
      } else {
        var m := if at + n <= len then n else len - at;
        buf := files[path][at..at + m];
      }
    }

    /** `write` of a non-empty buffer: stores some of it, or fails and returns -1. */
    method Write(path: nat, at: nat, buf: Bytes) returns (ret: int)
      requires path in files && buf != []
      modifies this
      ensures ret == -1 || 0 < ret <= |buf|
      ensures ret > 0 ==> failures == old(failures)
      ensures ret > 0 ==> files == old(files)[path := WriteAt(old(files)[path], at, buf[..ret])]
      ensures ret == -1 ==> failures > old(failures) && files == old(files)
    {
      files := files[path := WriteAt(files[path], at, buf)];
      ret := |buf|;
      assert buf[..ret] == buf;
    }

    method Truncate(path: nat, n: nat)
      requires path in files
      modifies this`files
      ensures files == old(files)[path := Resize(old(files)[path], n)]
    {
      files := files[path := Resize(files[path], n)];
    }

    method Remove(path: nat)
      modifies this`files
      ensures files == old(files) - {path}
    {
      files := files - {path};
    }
  }
}
