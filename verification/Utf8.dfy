/**
 UTF-8 text (section 3 of RFC 3629) as a sequence of encoded characters, and the walks
 over it: forward by the size a lead byte announces, backward over continuation bytes.
 */
module Utf8 {
  import opened Basics
  import opened Sequences

  predicate IsContinuation(b: Byte) { b & 0xC0 == 0x80 }

  function GetCharByteSize(c: Byte): (n: nat)
    ensures 1 <= n <= 4
  {
    if c & 0xF8 == 0xF0 then 4
    else if c & 0xF0 == 0xE0 then 3
    else if c & 0xE0 == 0xC0 then 2
    else 1
  }

  predicate Within(b: Byte, lo: Byte, hi: Byte) { lo <= b <= hi }

  /** The encodings of one character, as the table of RFC 3629 gives them. */
  predicate IsChar(c: Bytes) {
    || (|c| == 1 && Within(c[0], 0x00, 0x7F))
    || (|c| == 2 && Within(c[0], 0xC2, 0xDF) && Within(c[1], 0x80, 0xBF))
    || (|c| == 3 && Within(c[2], 0x80, 0xBF)
        && ((c[0] == 0xE0 && Within(c[1], 0xA0, 0xBF))
            || (Within(c[0], 0xE1, 0xEC) && Within(c[1], 0x80, 0xBF))
            || (c[0] == 0xED && Within(c[1], 0x80, 0x9F))
            || (Within(c[0], 0xEE, 0xEF) && Within(c[1], 0x80, 0xBF))))
    || (|c| == 4 && Within(c[2], 0x80, 0xBF) && Within(c[3], 0x80, 0xBF)
        && ((c[0] == 0xF0 && Within(c[1], 0x90, 0xBF))
            || (Within(c[0], 0xF1, 0xF3) && Within(c[1], 0x80, 0xBF))
            || (c[0] == 0xF4 && Within(c[1], 0x80, 0x8F))))
  }

  ghost predicate AllChars(cs: seq<Bytes>) {
    forall i | 0 <= i < |cs| :: IsChar(cs[i])
  }

  /** The forward walk: each character as long as its first byte says, the last perhaps cut. */
  function Chars(s: Bytes): (cs: seq<Bytes>)
    ensures Flatten(cs) == s
  {
    if s == [] then []
    else
      var n := GetCharByteSize(s[0]);
      if n >= |s| then assert Flatten([s]) == s + Flatten([]); [s]
      else
        assert s == s[..n] + s[n..];
        [s[..n]] + Chars(s[n..])
  }

  ghost predicate Valid(s: Bytes) {
    AllChars(Chars(s))
  }

  /** The byte position in front of character `k`. */
  function Offset(cs: seq<Bytes>, k: nat): nat
    requires k <= |cs|
  {
    |Flatten(cs[..k])|
  }

  // ---- single characters ------------------------------------------------------------

  /** A character is as long as its first byte says, and only the rest continues it. */
  lemma CharShape(c: Bytes)
    requires IsChar(c)
    ensures |c| == GetCharByteSize(c[0]) && !IsContinuation(c[0])
    ensures forall i | 1 <= i < |c| :: IsContinuation(c[i])
    ensures |c| > 1 ==> forall i | 0 <= i < |c| :: c[i] >= 0x80
    ensures |c| == 1 <==> c[0] < 0x80
  {
  }

  lemma ContinuationSize(b: Byte)
    requires IsContinuation(b)
    ensures GetCharByteSize(b) == 1 && !IsChar([b])
  {
  }

  // ---- decoding ---------------------------------------------------------------------

  lemma CharsFirst(c: Bytes, s: Bytes)
    requires IsChar(c)
    ensures Chars(c + s) == [c] + Chars(s)
  {
    CharShape(c);
    assert (c + s)[0] == c[0];
    if s == [] {
      assert c + s == c;
    } else {
      assert (c + s)[..|c|] == c && (c + s)[|c|..] == s;
    }
  }

  /** Encoded characters put one after another are read back as those characters. */
  lemma {:induction false} CharsOfFlatten(cs: seq<Bytes>, rest: Bytes)
    requires AllChars(cs)
    ensures Chars(Flatten(cs) + rest) == cs + Chars(rest)
    decreases |cs|
  {
    hide IsChar, Chars;
    if cs == [] {
      assert Flatten(cs) + rest == rest;
    } else {
      CharsOfFlatten(cs[1..], rest);
      CharsFirst(cs[0], Flatten(cs[1..]) + rest);
      Associative(cs[0], Flatten(cs[1..]), rest);
      Associative([cs[0]], cs[1..], Chars(rest));
      assert cs == [cs[0]] + cs[1..];
    }
  }

  lemma FlattenIsValid(cs: seq<Bytes>)
    requires AllChars(cs)
    ensures Chars(Flatten(cs)) == cs && Valid(Flatten(cs))
  {
    CharsOfFlatten(cs, []);
    assert Flatten(cs) + [] == Flatten(cs);
    assert Chars([]) == [];
  }

  lemma ValidAppend(a: Bytes, b: Bytes)
    requires Valid(a)
    ensures Chars(a + b) == Chars(a) + Chars(b)
    ensures Valid(a + b) <==> Valid(b)
  {
    hide Chars, IsChar;
    CharsOfFlatten(Chars(a), b);
    if Valid(a + b) {
      assert forall i | 0 <= i < |Chars(b)| :: Chars(b)[i] == (Chars(a) + Chars(b))[|Chars(a)| + i];
    }
  }

  // ---- positions --------------------------------------------------------------------

  lemma OffsetStep(cs: seq<Bytes>, k: nat)
    requires k < |cs|
    ensures Offset(cs, k + 1) == Offset(cs, k) + |cs[k]|
    ensures Offset(cs, k + 1) <= |Flatten(cs)|
    ensures Flatten(cs)[Offset(cs, k)..Offset(cs, k + 1)] == cs[k]
  {
    FlattenAppend(cs[..k], [cs[k]]);
    FlattenOne(cs[k]);
    assert cs[..k] + [cs[k]] == cs[..k + 1];
    FlattenCut(cs, k + 1);
  }

  lemma OffsetEnds(cs: seq<Bytes>)
    ensures Offset(cs, 0) == 0 && Offset(cs, |cs|) == |Flatten(cs)|
  {
    assert cs[..|cs|] == cs;
    assert cs[..0] == [];
  }

  lemma {:induction false} OffsetGrows(cs: seq<Bytes>, i: nat, k: nat)
    requires AllChars(cs) && i <= k <= |cs|
    ensures Offset(cs, k) - Offset(cs, i) >= k - i
    decreases k - i
  {
    hide Offset, IsChar;
    if i < k {
      OffsetStep(cs, i);
      CharShape(cs[i]);
      OffsetGrows(cs, i + 1, k);
    }
  }

  /** The bytes of character `k`, one by one. */
  lemma ByteOfChar(cs: seq<Bytes>, k: nat, i: nat)
    requires k < |cs| && i < |cs[k]|
    ensures Offset(cs, k) + i < |Flatten(cs)|
    ensures Flatten(cs)[Offset(cs, k) + i] == cs[k][i]
  {
    OffsetStep(cs, k);
    assert Flatten(cs)[Offset(cs, k)..Offset(cs, k + 1)][i] == cs[k][i];
  }

  /** Text cut at a character boundary. */
  lemma CutAtBoundary(cs: seq<Bytes>, k: nat)
    requires AllChars(cs) && k <= |cs|
    ensures Offset(cs, k) <= |Flatten(cs)|
    ensures Flatten(cs)[..Offset(cs, k)] == Flatten(cs[..k])
    ensures Flatten(cs)[Offset(cs, k)..] == Flatten(cs[k..])
    ensures Chars(Flatten(cs)[..Offset(cs, k)]) == cs[..k]
  {
    hide IsChar, Chars;
    FlattenCut(cs, k);
    FlattenIsValid(cs[..k]);
  }

  /** A byte that continues nothing begins a character. */
  lemma {:induction false} BoundaryAt(cs: seq<Bytes>, p: nat) returns (k: nat)
    requires AllChars(cs) && p <= |Flatten(cs)|
    requires p == |Flatten(cs)| || !IsContinuation(Flatten(cs)[p])
    ensures k <= |cs| && Offset(cs, k) == p
  {
    hide IsChar, IsContinuation;
    OffsetEnds(cs);
    k := 0;
    while Offset(cs, k) < p
      invariant k <= |cs| && Offset(cs, k) <= p
      decreases |cs| - k
    {
      OffsetStep(cs, k);
      CharShape(cs[k]);
      var i := p - Offset(cs, k);
      if i < |cs[k]| {
        ByteOfChar(cs, k, i);
      }
      k := k + 1;
    }
  }

  // ---- the two loops of UTF8Util ----------------------------------------------------

  /** Counts the characters of the first `len` bytes. */
  method GetLength(str: Bytes, len: nat) returns (ret: nat)
    requires len <= |str|
    ensures ret == |Chars(str[..len])|
  {
    hide Chars, GetCharByteSize;
    ret := 0;
    var i := 0;
    ghost var s := str[..len];
    assert s[0..] == s;
    while i < len
      invariant i <= len ==> ret + |Chars(s[i..])| == |Chars(s)|
      invariant i > len ==> ret == |Chars(s)|
      decreases len - i
    {
      var n := GetCharByteSize(str[i]);
      WalkStep(s[i..]);
      if i + n <= len { assert s[i..][n..] == s[i + n..]; }
      i := i + n;
      ret := ret + 1;
    }
    if i == len { WalkEnds(s[i..]); }
  }

  lemma WalkStep(s: Bytes)
    requires s != []
    ensures var n := GetCharByteSize(s[0]);
            |Chars(s)| == 1 + if n <= |s| then |Chars(s[n..])| else 0
  {
  }

  lemma WalkEnds(s: Bytes)
    requires s == []
    ensures Chars(s) == []
  {
  }

  /** The forward walk over any bytes: every character is as long as announced, the last perhaps cut. */
  lemma {:induction false} CharsWalk(s: Bytes, k: nat)
    requires k < |Chars(s)|
    ensures var cs := Chars(s);
            && Offset(cs, k) < |s|
            && var n := GetCharByteSize(s[Offset(cs, k)]);
               if k + 1 < |cs| then |cs[k]| == n else |cs[k]| <= n && Offset(cs, k) + |cs[k]| == |s|
    decreases |s|
  {
    hide GetCharByteSize, Chars, Offset, Flatten;
    if k == 0 {
      WalkFirst(s);
    } else {
      CharsBehindFirst(s, k);
      var n := GetCharByteSize(s[0]);
      CharsWalk(s[n..], k - 1);
      assert s[Offset(Chars(s), k)] == s[n..][Offset(Chars(s[n..]), k - 1)];
    }
  }

  lemma WalkFirst(s: Bytes)
    requires Chars(s) != []
    ensures s != []
    ensures var cs, n := Chars(s), GetCharByteSize(s[0]);
            Offset(cs, 0) == 0 < |s| && if 1 < |cs| then |cs[0]| == n else |cs[0]| <= n && |cs[0]| == |s|
  {
    hide GetCharByteSize;
    OffsetEnds(Chars(s));
  }

  lemma CharsBehindFirst(s: Bytes, k: nat)
    requires 0 < k < |Chars(s)|
    ensures s != []
    ensures var n := GetCharByteSize(s[0]);
            && n < |s| && |Chars(s)| == 1 + |Chars(s[n..])| && Chars(s)[k] == Chars(s[n..])[k - 1]
            && Offset(Chars(s), k) == n + Offset(Chars(s[n..]), k - 1)
  {
    hide GetCharByteSize;
    var n, cs := GetCharByteSize(s[0]), Chars(s);
    var rest := Chars(s[n..]);
    assert cs[..k] == [s[..n]] + rest[..k - 1];
    FlattenAppend([s[..n]], rest[..k - 1]);
    FlattenOne(s[..n]);
  }

  /**
   The byte position behind `utflen` characters of any text; of a text whose last character
   is cut, the end it would have. Beyond the text it is the number of characters.
   */
  method GetBytePosFromUTF(str: Bytes, utflen: nat) returns (ret: nat)
    ensures utflen < |Chars(str)| ==> ret == Offset(Chars(str), utflen)
    ensures utflen == |Chars(str)| ==> ret >= |str| && (Valid(str) ==> ret == |str|)
    ensures utflen > |Chars(str)| ==> ret == |Chars(str)|
  {
    hide Chars, IsChar, Offset, Flatten;
    ghost var cs := Chars(str);
    OffsetEnds(cs);
    if utflen == 0 {
      NoCharsExactlyWhen(str);
      return 0;
    }
    ret := 0;
    var i := 0;
    NoCharsExactlyWhen(str);
    while i < |str|
      invariant ret <= |cs| && ret < utflen
      invariant if ret < |cs| then i == Offset(cs, ret) < |str| else i >= |str|
      decreases |cs| - ret
    {
      CharsWalk(str, ret);
      OffsetStep(cs, ret);
      var c := str[i];
      i := i + GetCharByteSize(c);
      if ret + 1 < |cs| { CharsWalk(str, ret + 1); }
      if Valid(str) {
        CharShape(cs[ret]);
        ByteOfChar(cs, ret, 0);
      }
      ret := ret + 1;
      if utflen == ret {
        return i;
      }
    }
  }

  lemma NoCharsExactlyWhen(s: Bytes)
    ensures Chars(s) == [] <==> s == []
  {
  }

  lemma NotAtEnd(cs: seq<Bytes>, k: nat)
    requires AllChars(cs) && k <= |cs|
    ensures Offset(cs, k) < |Flatten(cs)| <==> k < |cs|
  {
    OffsetEnds(cs);
    OffsetGrows(cs, k, |cs|);
  }
}
