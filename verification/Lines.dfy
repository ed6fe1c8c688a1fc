/**
 Byte strings read as sequences of newline-terminated lines. A batch file holds one
 event a line; everything the telemetry queue promises is stated about these lines.
 */
module Lines {
  import opened Basics
  import opened Sequences

  const NEWLINE: Byte := 10
  const CARRIAGE_RETURN: Byte := 13

  /** One event as it is stored: a newline at the end and nowhere else. */
  ghost predicate IsLine(l: Bytes) {
    |l| > 0 && l[|l| - 1] == NEWLINE && NEWLINE !in l[..|l| - 1]
  }

  ghost predicate AllLines(ls: seq<Bytes>) {
    forall l | l in ls :: IsLine(l)
  }

  function Join(ls: seq<Bytes>): Bytes { Flatten(ls) }

  /** Position of the first newline at or after `from`, `|s|` if there is none (memchr). */
  function FindNewline(s: Bytes, from: nat): (r: nat)
    requires from <= |s|
    ensures from <= r <= |s|
    ensures NEWLINE !in s[from..r]
    ensures r < |s| ==> s[r] == NEWLINE
    decreases |s| - from
  {
    if from == |s| || s[from] == NEWLINE then from
    else
      var r := FindNewline(s, from + 1);
      assert s[from..r] == [s[from]] + s[from + 1..r];
      r
  }

  /** The complete lines of `s`; bytes after the last newline belong to none of them. */
  function Split(s: Bytes): (ls: seq<Bytes>)
    ensures AllLines(ls)
  {
    Parse(s)
  }

  function Parse(s: Bytes): (ls: seq<Bytes>)
    ensures AllLines(ls)
  {
    var r := FindNewline(s, 0);
    if r == |s| then [] else
      assert s[..r + 1][..r] == s[..r] == s[0..r];
      [s[..r + 1]] + Parse(s[r + 1..])
  }

  /** A file that holds whole events only. */
  ghost predicate Clean(s: Bytes) {
    Join(Split(s)) == s
  }

  lemma JoinAppend(a: seq<Bytes>, b: seq<Bytes>)
    ensures Join(a + b) == Join(a) + Join(b)
  {
    FlattenAppend(a, b);
  }

  lemma JoinOne(l: Bytes)
    ensures Join([l]) == l
  {
    FlattenOne(l);
  }

  /** Dropping or keeping lines moves a byte boundary; the bytes themselves stay. */
  lemma JoinCut(ls: seq<Bytes>, k: nat)
    requires k <= |ls|
    ensures |Join(ls[..k])| <= |Join(ls)|
    ensures Join(ls)[..|Join(ls[..k])|] == Join(ls[..k])
    ensures Join(ls)[|Join(ls[..k])|..] == Join(ls[k..])
  {
    JoinAppend(ls[..k], ls[k..]);
    assert ls[..k] + ls[k..] == ls;
  }

  lemma {:induction false} JoinNonEmpty(ls: seq<Bytes>)
    requires AllLines(ls)
    ensures |Join(ls)| >= |ls|
    ensures Join(ls) == [] <==> ls == []
  {
    if ls != [] {
      assert ls[0] in ls;
      JoinNonEmpty(ls[1..]);
    }
  }

  /** What follows a whole first line is split on its own. */
  lemma SplitFirst(l: Bytes, s: Bytes)
    requires IsLine(l)
    ensures Split(l + s) == [l] + Split(s)
  {
    var t := l + s;
    var r := FindNewline(t, 0);
    var n := |l| - 1;
    assert t[n] == NEWLINE;
    assert forall k | 0 <= k < n :: l[..n][k] == t[k];
    assert r == n;
    assert t[..r + 1] == l && t[r + 1..] == s;
  }

  lemma SplitNone(s: Bytes)
    requires NEWLINE !in s
    ensures Split(s) == []
  {
    assert FindNewline(s, 0) == |s|;
  }

  /** Lines written one after another are read back as exactly those lines. */
  lemma {:induction false} SplitJoin(ls: seq<Bytes>, rest: Bytes)
    requires AllLines(ls)
    ensures Split(Join(ls) + rest) == ls + Split(rest)
  {
    if ls == [] {
      assert Join(ls) + rest == rest;
    } else {
      var l, tail := ls[0], ls[1..];
      SplitJoin(tail, rest);
      Associative(l, Join(tail), rest);
      SplitFirst(l, Join(tail) + rest);
      Associative([l], tail, Split(rest));
      assert ls == [l] + tail;
    }
  }

  lemma NoLines()
    ensures Join([]) == [] && Split([]) == []
  {
  }

  lemma JoinIsClean(ls: seq<Bytes>)
    requires AllLines(ls)
    ensures Clean(Join(ls)) && Split(Join(ls)) == ls
  {
    SplitJoin(ls, []);
    SplitNone([]);
    assert Join(ls) + [] == Join(ls);
    assert ls + [] == ls;
  }

  /** Every byte string is its lines followed by bytes without a newline. */
  lemma {:induction false} SplitTail(s: Bytes)
    ensures Join(Split(s)) <= s
    ensures NEWLINE !in s[|Join(Split(s))|..]
    decreases |s|
  {
    var r := FindNewline(s, 0);
    if r == |s| {
      assert s[0..r] == s;
    } else {
      SplitTail(s[r + 1..]);
      var n := |Join(Split(s[r + 1..]))|;
      assert Split(s)[1..] == Split(s[r + 1..]);
      assert Join(Split(s)) == s[..r + 1] + Join(Split(s[r + 1..]));
      assert s[r + 1..][n..] == s[|Join(Split(s))|..];
    }
  }

  /** Splitting continues after a clean prefix. */
  lemma SplitAppend(a: Bytes, b: Bytes)
    requires Clean(a)
    ensures Split(a + b) == Split(a) + Split(b)
  {
    SplitJoin(Split(a), b);
  }

  /** Reading on without meeting a newline completes no line. */
  lemma SplitMore(a: Bytes, b: Bytes)
    requires NEWLINE !in b
    ensures Split(a + b) == Split(a)
  {
    SplitTail(a);
    var j := Join(Split(a));
    var t := a[|j|..] + b;
    assert a + b == j + t;
    SplitJoin(Split(a), t);
    SplitNone(t);
  }

  /** Reading on up to a newline completes one more line, and the whole is clean. */
  lemma SplitUpToNewline(a: Bytes, b: Bytes)
    requires NEWLINE !in b
    ensures |Split(a + b + [NEWLINE])| == |Split(a)| + 1
    ensures Clean(a + b + [NEWLINE])
    ensures Split(a) <= Split(a + b + [NEWLINE])
  {
    SplitTail(a);
    var j := Join(Split(a));
    var l := a[|j|..] + b + [NEWLINE];
    assert l[..|l| - 1] == a[|j|..] + b;
    assert IsLine(l);
    var ls := Split(a) + [l];
    JoinAppend(Split(a), [l]);
    JoinOne(l);
    assert a + b + [NEWLINE] == j + l == Join(ls);
    JoinIsClean(ls);
  }

  /** The count of lines is the count of newline bytes. */
  function CountNewlines(s: Bytes): nat {
    if s == [] then 0 else (if s[0] == NEWLINE then 1 else 0) + CountNewlines(s[1..])
  }

  lemma {:induction false} CountAppend(a: Bytes, b: Bytes)
    ensures CountNewlines(a + b) == CountNewlines(a) + CountNewlines(b)
  {
    if a == [] {
      assert a + b == b;
    } else {
      CountAppend(a[1..], b);
      assert (a + b)[1..] == a[1..] + b;
    }
  }

  lemma {:induction false} CountNone(s: Bytes)
    requires NEWLINE !in s
    ensures CountNewlines(s) == 0
  {
    if s != [] { CountNone(s[1..]); }
  }

  lemma CountLine(l: Bytes)
    requires IsLine(l)
    ensures CountNewlines(l) == 1
  {
    var n := |l| - 1;
    CountAppend(l[..n], l[n..]);
    CountNone(l[..n]);
    assert l[..n] + l[n..] == l;
    assert l[n..][1..] == [];
  }

  /** The number of lines is the number of newline bytes. */
  lemma {:induction false} SplitCountsNewlines(s: Bytes)
    ensures |Split(s)| == CountNewlines(s)
    decreases |s|
  {
    var r := FindNewline(s, 0);
    if r == |s| {
      assert s[0..r] == s;
      CountNone(s);
    } else {
      SplitCountsNewlines(s[r + 1..]);
      assert s[..r + 1] == Split(s)[0];
      CountLine(s[..r + 1]);
      CountAppend(s[..r + 1], s[r + 1..]);
      assert s == s[..r + 1] + s[r + 1..];
    }
  }

  /** `Join(Split(s))` is the longest prefix of `s` that ends in a newline. */
  lemma TrimIsLongest(s: Bytes, n: nat)
    requires 0 < n <= |s| && s[n - 1] == NEWLINE
    ensures n <= |Join(Split(s))|
  {
    SplitTail(s);
    var j := |Join(Split(s))|;
    assert forall i | j <= i < |s| :: s[i] == s[j..][i - j];
  }

  /**
   How many of the first lines fit into `limit` bytes, at most `maxCount` of them.
   */
  function FitCount(ls: seq<Bytes>, maxCount: nat, limit: nat): (k: nat)
    ensures k <= |ls| && k <= maxCount
  {
    if ls == [] || maxCount == 0 || |ls[0]| > limit then 0
    else 1 + FitCount(ls[1..], maxCount - 1, limit - |ls[0]|)
  }

  /** `FitCount` is the longest admissible prefix: it fits, and no longer one does. */
  lemma {:induction false} FitCountIsLongest(ls: seq<Bytes>, maxCount: nat, limit: nat)
    ensures |Join(ls[..FitCount(ls, maxCount, limit)])| <= limit
    ensures forall k | FitCount(ls, maxCount, limit) < k <= |ls| && k <= maxCount ::
              |Join(ls[..k])| > limit
    decreases ls
  {
    if ls == [] || maxCount == 0 {
    } else if |ls[0]| > limit {
      forall k | 0 < k <= |ls| && k <= maxCount ensures |Join(ls[..k])| > limit {
        assert ls[..k][0] == ls[0];
      }
    } else {
      var f := FitCount(ls[1..], maxCount - 1, limit - |ls[0]|);
      FitCountIsLongest(ls[1..], maxCount - 1, limit - |ls[0]|);
      assert ls[..f + 1][1..] == ls[1..][..f];
      forall k | f + 1 < k <= |ls| && k <= maxCount ensures |Join(ls[..k])| > limit {
        assert ls[..k][1..] == ls[1..][..k - 1];
      }
    }
  }

  lemma FitCountUnique(ls: seq<Bytes>, maxCount: nat, limit: nat, k: nat)
    requires k <= |ls| && k <= maxCount && |Join(ls[..k])| <= limit
    requires k == |ls| || k == maxCount || |Join(ls[..k + 1])| > limit
    ensures k == FitCount(ls, maxCount, limit)
  {
    FitCountIsLongest(ls, maxCount, limit);
    var f := FitCount(ls, maxCount, limit);
    var m := if k < f then k + 1 else f;
    JoinCut(ls[..f], m);
    assert ls[..f][..m] == ls[..m];
  }
}
