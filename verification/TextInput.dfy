/**
 The text field editor. It keeps UTF-8 bytes and, for caret and selection end, a byte
 position and a character position each. The specification is an editor on characters.
 */
module TextInput {
  import opened Basics
  import opened Sequences
  import opened Utf8

  // ---- the editor on characters -----------------------------------------------------

  /** The caret and the other end of the selection stand in front of a character, or at the end. */
  datatype Editor = Editor(chars: seq<Bytes>, caret: nat, anchor: nat)

  datatype Key = Right | Left | Home | End | Other
  datatype Action = Press | Repeat | Release

  /** The characters of the `spaces` constant, in its order. */
  const SPACES: Bytes :=
    [0x20, 0x2D, 0x5F, 0x23, 0x2F, 0x5C, 0x21, 0x40, 0x24, 0x25, 0x5E,
     0x26, 0x2A, 0x28, 0x29, 0x3B, 0x3A, 0x27, 0x22, 0x3F, 0x2E, 0x2C]

  const BACKSPACE: Byte := 8
  const DELETE: Byte := 127

  /** `strchr` also finds the terminating zero. */
  predicate IsSpace(b: Byte) { b == 0 || b in SPACES }

  predicate SpaceChar(c: Bytes) { |c| == 1 && IsSpace(c[0]) }

  /** Between words stand the end of the text and what is no letter or digit in ASCII, except `+<=>[]{|}~` and the backquote. */
  lemma SpacesExactly(b: Byte)
    ensures IsSpace(b) <==>
              b == 0 || (0x20 <= b < 0x7F
                         && !(0x30 <= b <= 0x39) && !(0x41 <= b <= 0x5A) && !(0x61 <= b <= 0x7A)
                         && b != 0x2B && !(0x3C <= b <= 0x3E) && b != 0x5B && b != 0x5D && b != 0x60 && b < 0x7B)
  {
    hide IsSpace;
    if b < 0x40 { LowSpacesExactly(b); } else { HighSpacesExactly(b); }
  }

  lemma LowSpacesExactly(b: Byte)
    requires b < 0x40
    ensures IsSpace(b) <==>
              b == 0 || (0x20 <= b && !(0x30 <= b <= 0x39) && b != 0x2B && !(0x3C <= b <= 0x3E))
  {
  }

  lemma HighSpacesExactly(b: Byte)
    requires b >= 0x40
    ensures IsSpace(b) <==> b == 0x40 || b == 0x5C || b == 0x5E || b == 0x5F
  {
  }

  function SkipSpaces(cs: seq<Bytes>, k: nat): (r: nat)
    requires k <= |cs|
    ensures k <= r <= |cs|
    ensures r < |cs| ==> !SpaceChar(cs[r])
    decreases |cs| - k
  {
    if k < |cs| && SpaceChar(cs[k]) then SkipSpaces(cs, k + 1) else k
  }

  function SkipWord(cs: seq<Bytes>, k: nat): (r: nat)
    requires k <= |cs|
    ensures k <= r <= |cs|
    ensures r < |cs| ==> SpaceChar(cs[r])
    decreases |cs| - k
  {
    if k < |cs| && !SpaceChar(cs[k]) then SkipWord(cs, k + 1) else k
  }

  function SkipSpacesBack(cs: seq<Bytes>, k: nat): (r: nat)
    requires k <= |cs|
    ensures r <= k
    ensures r > 0 ==> !SpaceChar(cs[r - 1])
  {
    if k > 0 && SpaceChar(cs[k - 1]) then SkipSpacesBack(cs, k - 1) else k
  }

  function SkipWordBack(cs: seq<Bytes>, k: nat): (r: nat)
    requires k <= |cs|
    ensures r <= k
    ensures r > 0 ==> SpaceChar(cs[r - 1])
  {
    if k > 0 && !SpaceChar(cs[k - 1]) then SkipWordBack(cs, k - 1) else k
  }

  predicate InRange(e: Editor) { e.caret <= |e.chars| && e.anchor <= |e.chars| }

  function MoveCaret(e: Editor, caret: nat, shift: bool): Editor {
    Editor(e.chars, caret, if shift then e.anchor else caret)
  }

  function PressKey(e: Editor, key: Key, shift: bool, alt: bool): (r: Editor)
    requires InRange(e)
    ensures InRange(r)
  {
    match key
    case Right =>
      if !shift && e.caret != e.anchor then MoveCaret(e, Max(e.caret, e.anchor), false)
      else if e.caret == |e.chars| then e
      else MoveCaret(e, if alt then SkipWord(e.chars, SkipSpaces(e.chars, e.caret)) else e.caret + 1, shift)
    case Left =>
      if !shift && e.caret != e.anchor then MoveCaret(e, Min(e.caret, e.anchor), false)
      else if e.caret == 0 then e
      else MoveCaret(e, if alt then SkipWordBack(e.chars, SkipSpacesBack(e.chars, e.caret)) else e.caret - 1, shift)
    case Home => MoveCaret(e, 0, shift)
    case End => MoveCaret(e, |e.chars|, shift)
    case Other => e
  }

  lemma PressEnds(e: Editor, shift: bool, alt: bool)
    requires InRange(e)
    ensures PressKey(e, Home, shift, alt) == MoveCaret(e, 0, shift)
    ensures PressKey(e, End, shift, alt) == MoveCaret(e, |e.chars|, shift)
    ensures PressKey(e, Other, shift, alt) == e
  {
  }

  /** The characters between caret and anchor. */
  function Selected(e: Editor): seq<Bytes>
    requires InRange(e)
  {
    e.chars[Min(e.caret, e.anchor)..Max(e.caret, e.anchor)]
  }

  /**
   A plain arrow key drops a selection: caret and anchor meet at that one of them which has
   the selected characters directly in front of it, or directly behind it.
   */
  lemma ArrowDropsSelection(e: Editor, alt: bool)
    requires InRange(e) && e.caret != e.anchor
    ensures var r, x := PressKey(e, Right, false, alt), Selected(e);
            && r.chars == e.chars && r.caret == r.anchor && (r.caret == e.caret || r.caret == e.anchor)
            && |x| <= r.caret && r.chars[r.caret - |x|..r.caret] == x
    ensures var r, x := PressKey(e, Left, false, alt), Selected(e);
            && r.chars == e.chars && r.caret == r.anchor && (r.caret == e.caret || r.caret == e.anchor)
            && r.caret + |x| <= |r.chars| && r.chars[r.caret..r.caret + |x|] == x
  {
  }

  /** With shift a key moves the caret only; without it the anchor goes along. Neither changes the text. */
  lemma AnchorStaysExactlyWithShift(e: Editor, key: Key, shift: bool, alt: bool)
    requires InRange(e)
    ensures var r := PressKey(e, key, shift, alt);
            && r.chars == e.chars && (shift ==> r.anchor == e.anchor)
            && (!shift && !key.Other? && e.caret != e.anchor ==> r.anchor == r.caret)
            && (!shift && e.caret == e.anchor ==> r.anchor == r.caret)
  {
    hide SkipWord, SkipSpaces, SkipWordBack, SkipSpacesBack;
  }

  /** Left and right are opposite, and what shift passes over is what gets selected. */
  lemma ArrowsAreOpposite(e: Editor, shift: bool)
    requires InRange(e) && (shift || e.caret == e.anchor)
    ensures e.caret < |e.chars| ==> PressKey(PressKey(e, Right, shift, false), Left, shift, false) == e
    ensures e.caret > 0 ==> PressKey(PressKey(e, Left, shift, false), Right, shift, false) == e
    ensures e.caret == |e.chars| ==> PressKey(e, Right, shift, false) == e
    ensures e.caret == 0 ==> PressKey(e, Left, shift, false) == e
    ensures e.caret == e.anchor < |e.chars| ==> Selected(PressKey(e, Right, true, false)) == [e.chars[e.caret]]
    ensures e.caret == e.anchor > 0 ==> Selected(PressKey(e, Left, true, false)) == [e.chars[e.caret - 1]]
  {
  }

  /** A word ends here, or the text does. */
  predicate WordEnds(cs: seq<Bytes>, k: nat)
    requires k <= |cs|
  {
    k == |cs| || (k > 0 && !SpaceChar(cs[k - 1]) && SpaceChar(cs[k]))
  }

  /** A word begins here, or the text does. */
  predicate WordBegins(cs: seq<Bytes>, k: nat)
    requires k <= |cs|
  {
    k == 0 || (k < |cs| && SpaceChar(cs[k - 1]) && !SpaceChar(cs[k]))
  }

  /** A word-wise move goes to the nearest end of a word to the right, or beginning of one to the left. */
  lemma WordMovesToNearest(e: Editor, shift: bool)
    requires InRange(e) && (shift || e.caret == e.anchor)
    ensures var r := PressKey(e, Right, shift, true).caret;
            e.caret < |e.chars| ==>
              e.caret < r && WordEnds(e.chars, r) && forall k | e.caret < k < r :: !WordEnds(e.chars, k)
    ensures var r := PressKey(e, Left, shift, true).caret;
            e.caret > 0 ==>
              r < e.caret && WordBegins(e.chars, r) && forall k | r < k < e.caret :: !WordBegins(e.chars, k)
  {
    hide SkipWord, SkipSpaces, SkipWordBack, SkipSpacesBack, WordEnds, WordBegins;
    NearestEnd(e.chars, e.caret);
    NearestBeginning(e.chars, e.caret);
  }

  lemma NearestEnd(cs: seq<Bytes>, k: nat)
    requires k <= |cs|
    ensures var r := SkipWord(cs, SkipSpaces(cs, k));
            k < |cs| ==> k < r && WordEnds(cs, r) && forall i | k < i < r :: !WordEnds(cs, i)
  {
    hide SkipWord, SkipSpaces, SpaceChar;
    SkippedRight(cs, k);
    SkippedRight(cs, SkipSpaces(cs, k));
  }

  lemma NearestBeginning(cs: seq<Bytes>, k: nat)
    requires k <= |cs|
    ensures var r := SkipWordBack(cs, SkipSpacesBack(cs, k));
            k > 0 ==> r < k && WordBegins(cs, r) && forall i | r < i < k :: !WordBegins(cs, i)
  {
    hide SkipWordBack, SkipSpacesBack, SpaceChar;
    SkippedLeft(cs, k);
    SkippedLeft(cs, SkipSpacesBack(cs, k));
  }

  /** What is skipped to the right are spaces, or a word. */
  lemma {:induction false} SkippedRight(cs: seq<Bytes>, k: nat)
    requires k <= |cs|
    ensures forall i | k <= i < SkipSpaces(cs, k) :: SpaceChar(cs[i])
    ensures forall i | k <= i < SkipWord(cs, k) :: !SpaceChar(cs[i])
    decreases |cs| - k
  {
    hide SpaceChar;
    if k < |cs| { SkippedRight(cs, k + 1); }
  }

  lemma {:induction false} SkippedLeft(cs: seq<Bytes>, k: nat)
    requires k <= |cs|
    ensures forall i | SkipSpacesBack(cs, k) <= i < k :: SpaceChar(cs[i])
    ensures forall i | SkipWordBack(cs, k) <= i < k :: !SpaceChar(cs[i])
  {
    hide SpaceChar;
    if k > 0 { SkippedLeft(cs, k - 1); }
  }

  function Insert(e: Editor, cs: seq<Bytes>): Editor
    requires InRange(e)
  {
    var caret := e.caret + |cs|;
    Editor(e.chars[..e.caret] + cs + e.chars[e.caret..], caret, caret)
  }

  function Backspace(e: Editor): Editor
    requires InRange(e)
  {
    if e.caret == 0 then e
    else Editor(e.chars[..e.caret - 1] + e.chars[e.caret..], e.caret - 1, e.caret - 1)
  }

  function DeleteNext(e: Editor): Editor
    requires InRange(e)
  {
    if e.caret == |e.chars| then e
    else Editor(e.chars[..e.caret] + e.chars[e.caret + 1..], e.caret, e.caret)
  }

  function BackspaceTimes(e: Editor, n: nat): Editor
    requires InRange(e)
    decreases n
  {
    if n == 0 then e else BackspaceTimes(Backspace(e), n - 1)
  }

  /** Erasing as many characters as were typed restores the text and the caret. */
  lemma {:induction false} TypeThenErase(e: Editor, cs: seq<Bytes>)
    requires InRange(e)
    ensures BackspaceTimes(Insert(e, cs), |cs|) == if cs == [] then Insert(e, cs) else e.(anchor := e.caret)
    ensures BackspaceTimes(Insert(e, cs), |cs|).chars == e.chars
    decreases |cs|
  {
    InsertNothing(e);
    if cs != [] {
      EraseLast(e, cs);
      TypeThenErase(e, cs[..|cs| - 1]);
    }
  }

  lemma InsertNothing(e: Editor)
    requires InRange(e)
    ensures Insert(e, []) == e.(anchor := e.caret)
  {
    assert e.chars[..e.caret] + [] + e.chars[e.caret..] == e.chars;
  }

  /** A backspace takes back the last of the characters typed. */
  lemma EraseLast(e: Editor, cs: seq<Bytes>)
    requires InRange(e) && cs != []
    ensures Backspace(Insert(e, cs)) == Insert(e, cs[..|cs| - 1])
  {
    var before, after := e.chars[..e.caret], e.chars[e.caret..];
    var typed := before + cs + after;
    assert typed[..e.caret + |cs| - 1] == before + cs[..|cs| - 1];
    assert typed[e.caret + |cs|..] == after;
  }

  /** Typing in front of the caret and deleting behind it undo each other as well. */
  lemma TypeLeftDelete(e: Editor, c: Bytes)
    requires InRange(e)
    ensures DeleteNext(PressKey(Insert(e, [c]), Left, false, false)) == e.(anchor := e.caret)
  {
    var i := Insert(e, [c]);
    assert i.chars[..e.caret] == e.chars[..e.caret];
    assert i.chars[e.caret + 1..] == e.chars[e.caret..];
    assert e.chars[..e.caret] + e.chars[e.caret..] == e.chars;
  }

  // ---- bytes and characters ---------------------------------------------------------

  lemma SpacesAreAscii(b: Byte)
    ensures IsSpace(b) ==> b < 0x80
  {
  }

  /** Only a one-byte character can contain a byte that counts as a space. */
  lemma SpaceByte(c: Bytes, i: nat)
    requires IsChar(c) && i < |c|
    ensures IsSpace(c[i]) <==> SpaceChar(c)
  {
    hide IsSpace;
    CharShape(c);
    SpacesAreAscii(c[i]);
  }

  /** Where the previous character begins. */
  lemma PreviousBoundary(cs: seq<Bytes>, k: nat)
    requires AllChars(cs) && 0 < k <= |cs|
    ensures Offset(cs, k - 1) < Offset(cs, k) <= |Flatten(cs)|
    ensures !IsContinuation(Flatten(cs)[Offset(cs, k - 1)])
    ensures forall j | Offset(cs, k - 1) < j < Offset(cs, k) :: IsContinuation(Flatten(cs)[j])
  {
    hide IsContinuation, IsChar;
    OffsetStep(cs, k - 1);
    CharShape(cs[k - 1]);
    ByteOfChar(cs, k - 1, 0);
    forall j | Offset(cs, k - 1) < j < Offset(cs, k) ensures IsContinuation(Flatten(cs)[j]) {
      ByteOfChar(cs, k - 1, j - Offset(cs, k - 1));
    }
  }

  /** A boundary is the end of the text or begins a character. */
  lemma BoundaryBegins(cs: seq<Bytes>, k: nat)
    requires AllChars(cs) && k <= |cs|
    ensures Offset(cs, k) == |Flatten(cs)| || (Offset(cs, k) < |Flatten(cs)| && !IsContinuation(Flatten(cs)[Offset(cs, k)]))
    ensures Offset(cs, k) == |Flatten(cs)| <==> k == |cs|
    ensures Offset(cs, k) == 0 <==> k == 0
  {
    hide IsContinuation, IsChar;
    OffsetEnds(cs);
    OffsetGrows(cs, 0, k);
    NotAtEnd(cs, k);
    if k < |cs| { PreviousBoundary(cs, k + 1); }
  }

  lemma SameOffsetSameIndex(cs: seq<Bytes>, i: nat, k: nat)
    requires AllChars(cs) && i <= |cs| && k <= |cs|
    ensures Offset(cs, i) == Offset(cs, k) <==> i == k
    ensures Offset(cs, i) < Offset(cs, k) <==> i < k
  {
    hide IsChar;
    if i <= k { OffsetGrows(cs, i, k); } else { OffsetGrows(cs, k, i); }
  }

  /** Whether the byte at a boundary, or the one in front of it, is a space. */
  lemma SpaceAtBoundary(cs: seq<Bytes>, k: nat)
    requires AllChars(cs) && k <= |cs|
    ensures k < |cs| ==> Offset(cs, k) < |Flatten(cs)|
                         && (IsSpace(Flatten(cs)[Offset(cs, k)]) <==> SpaceChar(cs[k]))
    ensures k > 0 ==> 0 < Offset(cs, k) <= |Flatten(cs)|
                      && (IsSpace(Flatten(cs)[Offset(cs, k) - 1]) <==> SpaceChar(cs[k - 1]))
  {
    hide IsSpace, SpaceChar, IsChar, Offset, Flatten;
    if k < |cs| {
      CharShape(cs[k]);
      ByteOfChar(cs, k, 0);
      SpaceByte(cs[k], 0);
    }
    if k > 0 {
      var c := cs[k - 1];
      CharShape(c);
      OffsetStep(cs, k - 1);
      ByteOfChar(cs, k - 1, |c| - 1);
      SpaceByte(c, |c| - 1);
    }
  }

  /** Inside a character no byte is a space. */
  lemma NoSpaceInside(cs: seq<Bytes>, k: nat, p: nat)
    requires AllChars(cs) && k < |cs| && Offset(cs, k) < p < Offset(cs, k + 1)
    ensures p < |Flatten(cs)| && !IsSpace(Flatten(cs)[p]) && !IsSpace(Flatten(cs)[p - 1])
  {
    hide IsSpace, SpaceChar, IsChar;
    OffsetStep(cs, k);
    CharShape(cs[k]);
    var i := p - Offset(cs, k);
    ByteOfChar(cs, k, i);
    ByteOfChar(cs, k, i - 1);
    SpaceByte(cs[k], i);
    SpaceByte(cs[k], i - 1);
    assert !SpaceChar(cs[k]) by { assert |cs[k]| > 1; NotSpaceIfLong(cs[k]); }
  }

  lemma NotSpaceIfLong(c: Bytes)
    requires |c| > 1
    ensures !SpaceChar(c)
  {
  }

  lemma SpaceIsOneByte(cs: seq<Bytes>, k: nat)
    requires k < |cs| && SpaceChar(cs[k])
    ensures Offset(cs, k + 1) == Offset(cs, k) + 1
  {
    OffsetStep(cs, k);
  }

  // ---- alt and backspace ------------------------------------------------------------

  /** The first loop of the word-wise backspace, from byte `d`. */
  function EraseSpaces(t: Bytes, d: nat): (e: nat)
    requires d < |t|
    ensures e <= d
  {
    if d == 0 then 0
    else if d - 1 < 1 || !IsSpace(t[d - 2]) || !IsSpace(t[d - 1]) then d - 1
    else EraseSpaces(t, d - 1)
  }

  /** Its second loop. */
  function EraseWord(t: Bytes, d: nat): (e: nat)
    requires d < |t|
    ensures e <= d
    ensures e == 0 || IsSpace(t[e - 1]) || IsSpace(t[e])
  {
    if d == 0 then 0
    else if d - 1 < 1 || IsSpace(t[d - 2]) || IsSpace(t[d - 1]) then d - 1
    else EraseWord(t, d - 1)
  }

  /** The byte from which a word-wise backspace at byte `p` erases. */
  function EraseStart(t: Bytes, p: nat): (e: nat)
    requires 0 < p <= |t|
    ensures e < p
    ensures e == 0 || IsSpace(t[e - 1]) || IsSpace(t[e])
  {
    EraseWord(t, if IsSpace(t[p - 1]) then EraseSpaces(t, p - 1) else p - 1)
  }

  /** It is a character boundary. */
  lemma EraseStartIsBoundary(cs: seq<Bytes>, p: nat) returns (k: nat)
    requires AllChars(cs) && 0 < p <= |Flatten(cs)|
    ensures k <= |cs| && Offset(cs, k) == EraseStart(Flatten(cs), p)
  {
    hide IsSpace, IsContinuation, IsChar;
    var t := Flatten(cs);
    var e := EraseStart(t, p);
    if e == 0 {
      OffsetEnds(cs);
      k := 0;
    } else if IsSpace(t[e]) {
      SpacesAreAscii(t[e]);
      AsciiIsNoContinuation(t[e]);
      k := BoundaryAt(cs, e);
    } else {
      SpacesAreAscii(t[e - 1]);
      AsciiIsNoContinuation(t[e - 1]);
      k := BoundaryAt(cs, e - 1);
      SpaceAtBoundary(cs, k);
      NotAtEnd(cs, k);
      SpaceIsOneByte(cs, k);
      k := k + 1;
    }
  }

  /** The bytes from `a` to `b` are spaces, or none is. */
  predicate AllSpaces(t: Bytes, a: nat, b: nat)
    requires b <= |t|
  {
    forall i | a <= i < b :: IsSpace(t[i])
  }

  predicate NoSpaces(t: Bytes, a: nat, b: nat)
    requires b <= |t|
  {
    forall i | a <= i < b :: !IsSpace(t[i])
  }

  lemma {:induction false} EraseWordStops(t: Bytes, v: nat, d: nat)
    requires v <= d < |t| && NoSpaces(t, v, d) && (v == 0 || IsSpace(t[v - 1]))
    ensures EraseWord(t, d) == if v < d || v == 0 then v else v - 1
    decreases d
  {
    hide IsSpace;
    if v + 1 < d { EraseWordStops(t, v, d - 1); }
  }

  lemma {:induction false} EraseSpacesStops(t: Bytes, w: nat, d: nat)
    requires 0 < w <= d < |t| && AllSpaces(t, w, d + 1) && !IsSpace(t[w - 1])
    ensures EraseSpaces(t, d) == if w < d then w else w - 1
    decreases d
  {
    hide IsSpace;
    if w + 1 < d { EraseSpacesStops(t, w, d - 1); }
  }

  /**
   Behind a word at bytes `v` to `w` and spaces up to `p`, the word-wise backspace erases
   the word and the spaces, and one byte more exactly when both are at most one byte long.
   */
  lemma ErasesTheWord(t: Bytes, v: nat, w: nat, p: nat)
    requires v < w <= p <= |t|
    requires NoSpaces(t, v, w) && (v == 0 || IsSpace(t[v - 1])) && AllSpaces(t, w, p)
    ensures EraseStart(t, p) == if v > 0 && w - v == 1 && p - w <= 1 then v - 1 else v
  {
    hide IsSpace, EraseSpaces, EraseWord;
    if w < p {
      EraseSpacesStops(t, w, p - 1);
      EraseWordStops(t, v, if w < p - 1 then w else w - 1);
    } else {
      EraseWordStops(t, v, w - 1);
    }
  }

  /** Where only spaces precede the caret, all of them are erased. */
  lemma {:induction false} ErasesLeadingSpaces(t: Bytes, p: nat)
    requires 0 < p <= |t| && AllSpaces(t, 0, p)
    ensures EraseStart(t, p) == 0
  {
    hide IsSpace;
    var d := p - 1;
    while d > 0
      invariant 0 <= d < p && EraseSpaces(t, d) == EraseSpaces(t, p - 1)
    {
      d := d - 1;
    }
  }

  lemma AsciiIsNoContinuation(b: Byte)
    requires b < 0x80
    ensures !IsContinuation(b)
  {
  }

  ghost predicate Ascii(s: Bytes) { forall i | 0 <= i < |s| :: s[i] < 0x80 }

  /** A character position equals its byte position exactly behind ASCII text. */
  lemma {:induction false} OffsetIsIndexExactlyWhen(cs: seq<Bytes>, k: nat)
    requires AllChars(cs) && k <= |cs|
    ensures Offset(cs, k) == k <==> Ascii(Flatten(cs[..k]))
    decreases k
  {
    hide IsChar, Offset;
    OffsetGrows(cs, 0, k);
    OffsetEnds(cs);
    if k == 0 {
      assert cs[..k] == [];
    } else {
      var c := cs[k - 1];
      OffsetIsIndexExactlyWhen(cs, k - 1);
      OffsetStep(cs, k - 1);
      OffsetGrows(cs, 0, k - 1);
      CharShape(c);
      assert cs[..k] == cs[..k - 1] + [c];
      FlattenAppend(cs[..k - 1], [c]);
      FlattenOne(c);
      AsciiAppend(Flatten(cs[..k - 1]), c);
    }
  }

  lemma AsciiAppend(a: Bytes, b: Bytes)
    ensures Ascii(a + b) <==> Ascii(a) && Ascii(b)
  {
    if Ascii(a + b) {
      assert forall i | 0 <= i < |a| :: a[i] == (a + b)[i];
      assert forall i | 0 <= i < |b| :: b[i] == (a + b)[|a| + i];
    }
  }

  // ---- edits of the text ------------------------------------------------------------

  lemma OffsetInPrefix(a: seq<Bytes>, b: seq<Bytes>)
    ensures Offset(a + b, |a|) == |Flatten(a)|
  {
    assert (a + b)[..|a|] == a;
  }

  lemma JoinedChars(a: seq<Bytes>, b: seq<Bytes>)
    requires AllChars(a) && AllChars(b)
    ensures AllChars(a + b) && Flatten(a + b) == Flatten(a) + Flatten(b)
    ensures Chars(Flatten(a) + Flatten(b)) == a + b && Utf8.Valid(Flatten(a) + Flatten(b))
  {
    hide IsChar, Chars;
    FlattenAppend(a, b);
    FlattenIsValid(a + b);
  }

  /** Erasing the bytes between two boundaries erases the characters between them. */
  lemma EraseRange(cs: seq<Bytes>, i: nat, k: nat)
    requires AllChars(cs) && i <= k <= |cs|
    ensures Offset(cs, i) <= Offset(cs, k) <= |Flatten(cs)|
    ensures var t := Flatten(cs)[..Offset(cs, i)] + Flatten(cs)[Offset(cs, k)..];
            Chars(t) == cs[..i] + cs[k..] && Utf8.Valid(t)
    ensures Offset(cs[..i] + cs[k..], i) == Offset(cs, i)
  {
    hide IsChar, Chars;
    OffsetGrows(cs, i, k);
    CutAtBoundary(cs, i);
    CutAtBoundary(cs, k);
    JoinedChars(cs[..i], cs[k..]);
    OffsetInPrefix(cs[..i], cs[k..]);
  }

  /** Inserting valid text at a boundary inserts its characters. */
  lemma InsertAt(cs: seq<Bytes>, k: nat, text: Bytes)
    requires AllChars(cs) && k <= |cs| && Utf8.Valid(text)
    ensures Offset(cs, k) <= |Flatten(cs)|
    ensures var t := Flatten(cs)[..Offset(cs, k)] + text + Flatten(cs)[Offset(cs, k)..];
            Chars(t) == cs[..k] + Chars(text) + cs[k..] && Utf8.Valid(t)
  {
    hide AllChars, Chars, Offset, Flatten, Utf8.Valid;
    CutAtBoundary(cs, k);
    PartsAreChars(cs, k, text);
    JoinedThree(cs[..k], Chars(text), cs[k..]);
  }

  /** The caret goes behind what was inserted. */
  lemma InsertMovesCaret(cs: seq<Bytes>, k: nat, x: seq<Bytes>)
    requires AllChars(cs) && k <= |cs|
    ensures Offset(cs[..k] + x + cs[k..], k + |x|) == Offset(cs, k) + |Flatten(x)|
  {
    hide AllChars, Flatten;
    var after := cs[..k] + x + cs[k..];
    assert after[..k + |x|] == cs[..k] + x;
    FlattenAppend(cs[..k], x);
  }

  lemma PartsAreChars(cs: seq<Bytes>, k: nat, text: Bytes)
    requires AllChars(cs) && k <= |cs| && Utf8.Valid(text)
    ensures AllChars(cs[..k]) && AllChars(Chars(text)) && AllChars(cs[k..])
  {
    hide IsChar, Chars;
  }

  lemma JoinedThree(a: seq<Bytes>, x: seq<Bytes>, b: seq<Bytes>)
    requires AllChars(a) && AllChars(x) && AllChars(b)
    ensures var t := Flatten(a) + Flatten(x) + Flatten(b); Chars(t) == a + x + b && Utf8.Valid(t)
  {
    hide AllChars, Chars, Flatten, Utf8.Valid;
    JoinedChars(a, x);
    JoinedChars(a + x, b);
  }

  /** Text stays valid exactly when what is inserted is valid. */
  lemma InsertIsValidExactlyWhen(cs: seq<Bytes>, k: nat, text: Bytes)
    requires AllChars(cs) && k <= |cs|
    ensures Offset(cs, k) <= |Flatten(cs)|
    ensures Utf8.Valid(Flatten(cs)[..Offset(cs, k)] + text + Flatten(cs)[Offset(cs, k)..])
            <==> Utf8.Valid(text)
  {
    hide IsChar, Chars;
    CutAtBoundary(cs, k);
    var a, b := Flatten(cs[..k]), Flatten(cs[k..]);
    FlattenIsValid(cs[..k]);
    FlattenIsValid(cs[k..]);
    Associative(a, text, b);
    ValidAppend(a, text + b);
    if Utf8.Valid(text + b) {
      ValidInFront(text, cs[k..]);
    } else if Utf8.Valid(text) {
      ValidAppend(text, b);
    }
  }

  /** Valid text in front of valid characters ends where they begin. */
  lemma ValidInFront(text: Bytes, cs: seq<Bytes>)
    requires AllChars(cs) && Utf8.Valid(text + Flatten(cs))
    ensures Utf8.Valid(text)
  {
    hide IsChar, Chars, IsContinuation;
    var t := text + Flatten(cs);
    var all := Chars(t);
    BoundaryBegins(cs, 0);
    OffsetEnds(cs);
    if Flatten(cs) != [] { assert t[|text|] == Flatten(cs)[0]; }
    var k := BoundaryAt(all, |text|);
    CutAtBoundary(all, k);
    assert t[..|text|] == text;
  }

  /** The bytes between two boundaries are the characters between them. */
  lemma SliceOfChars(cs: seq<Bytes>, i: nat, k: nat)
    requires AllChars(cs) && i <= k <= |cs|
    ensures Offset(cs, i) <= Offset(cs, k) <= |Flatten(cs)|
    ensures Flatten(cs)[Offset(cs, i)..Offset(cs, k)] == Flatten(cs[i..k])
    ensures Chars(Flatten(cs[i..k])) == cs[i..k] && Utf8.Valid(Flatten(cs[i..k]))
  {
    hide IsChar, Chars, Flatten;
    OffsetGrows(cs, i, k);
    CutAtBoundary(cs, k);
    var head := cs[..k];
    FlattenCut(head, i);
    assert head[..i] == cs[..i] && head[i..] == cs[i..k];
    FlattenIsValid(cs[i..k]);
  }

  /** The byte `n` from the end announces a character of `n` bytes. */
  predicate SizeFits(t: Bytes, n: nat)
    requires n > 0
  {
    n <= |t| && GetCharByteSize(t[|t| - n]) == n
  }

  /** The first byte of a character, seen from its end, tells its size; no other byte does. */
  lemma LastCharSize(cs: seq<Bytes>, n: nat)
    requires AllChars(cs) && cs != [] && 1 <= n <= |Flatten(cs)|
    ensures n > 1 ==> (SizeFits(Flatten(cs), n) <==> |LastChar(cs)| == n)
    ensures n == 1 ==> SizeFits(Flatten(cs), n)
  {
    hide IsChar, Flatten, Offset, GetCharByteSize, IsContinuation;
    var t, p := Flatten(cs), |Flatten(cs)| - n;
    OffsetEnds(cs);
    var k := CharAround(cs, p);
    var c, i := cs[k], p - Offset(cs, k);
    OffsetStep(cs, k);
    CharShape(c);
    ByteOfChar(cs, k, i);
    SameOffsetSameIndex(cs, k + 1, |cs|);
    if i > 0 {
      ContinuationSize(c[i]);
    }
    var m := |cs| - 1;
    if n > 1 && |cs[m]| == n {
      OffsetStep(cs, m);
      SameOffsetSameIndex(cs, k, m);
      SameOffsetSameIndex(cs, m, k + 1);
    }
  }

  /** The character a byte belongs to. */
  lemma CharAround(cs: seq<Bytes>, p: nat) returns (k: nat)
    requires AllChars(cs) && p < |Flatten(cs)|
    ensures k < |cs| && Offset(cs, k) <= p < Offset(cs, k + 1)
  {
    hide IsChar, Flatten, Offset;
    OffsetEnds(cs);
    k := 0;
    while Offset(cs, k + 1) <= p
      invariant k < |cs| && Offset(cs, k) <= p
      decreases |cs| - k
    {
      k := k + 1;
    }
  }

  function LastChar(cs: seq<Bytes>): Bytes
    requires cs != []
  {
    cs[|cs| - 1]
  }

  lemma NoCharsNoText(cs: seq<Bytes>)
    ensures cs == [] ==> Flatten(cs) == []
  {
  }

  /** How many bytes `Enable` keeps of a text: three, two or one that look like a character. */
  function KeptCount(t: Bytes): (n: nat)
    ensures n <= |t|
  {
    if SizeFits(t, 3) then 3
    else if SizeFits(t, 2) then 2
    else if SizeFits(t, 1) then 1
    else 0
  }

  function Kept(t: Bytes): Bytes { t[|t| - KeptCount(t)..] }

  lemma NothingKept(text: Bytes, t: Bytes)
    requires t == []
    ensures text + [] == text && Kept(t) == []
  {
    hide KeptCount;
  }

  /** The size of the last character tells how much that is. */
  lemma KeptSize(cs: seq<Bytes>)
    requires AllChars(cs) && cs != []
    ensures KeptCount(Flatten(cs)) == if |LastChar(cs)| == 4 then 1 else |LastChar(cs)|
  {
    hide AllChars, IsChar, Flatten, IsContinuation, SizeFits, LastChar;
    LastIsChar(cs);
    LastBytes(cs);
    LastSizeFits(cs, 1);
    LastSizeFits(cs, 2);
    LastSizeFits(cs, 3);
  }

  lemma LastSizeFits(cs: seq<Bytes>, n: nat)
    requires AllChars(cs) && cs != [] && n > 0
    ensures SizeFits(Flatten(cs), n) <==> n == 1 || |LastChar(cs)| == n
  {
    hide IsChar, Flatten;
    LastIsChar(cs);
    LastBytes(cs);
    if n <= |Flatten(cs)| { LastCharSize(cs, n); }
  }

  /** That is the last character, or the last byte of one of four bytes. */
  lemma KeptIsLast(cs: seq<Bytes>)
    requires AllChars(cs) && cs != []
    ensures var k, last := Kept(Flatten(cs)), LastChar(cs);
            && IsChar(last)
            && if |last| == 4 then k == [last[3]] && IsContinuation(last[3]) else k == last
  {
    hide IsChar, Flatten, KeptCount, IsContinuation;
    LastIsChar(cs);
    KeptSize(cs);
    LastBytes(cs);
  }

  lemma LastBytes(cs: seq<Bytes>)
    requires cs != []
    ensures var t, last := Flatten(cs), LastChar(cs);
            && |t| >= |last| && t[|t| - |last|..] == last
            && (|last| > 0 ==> t[|t| - 1..] == [last[|last| - 1]])
  {
    hide Flatten, Offset;
    OffsetEnds(cs);
    OffsetStep(cs, |cs| - 1);
    var t, last := Flatten(cs), LastChar(cs);
    assert t[|t| - |last|..] == last;
  }

  lemma LastIsChar(cs: seq<Bytes>)
    requires AllChars(cs) && cs != []
    ensures IsChar(LastChar(cs)) && 1 <= |LastChar(cs)| <= 4
    ensures |LastChar(cs)| == 4 ==> IsContinuation(LastChar(cs)[3])
  {
  }

  /** What `Enable` keeps of a valid text, put behind another. */
  lemma KeptBytes(cs: seq<Bytes>, text: Bytes)
    requires AllChars(cs) && cs != [] && Utf8.Valid(text)
    ensures var t := text + Kept(Flatten(cs));
            && (Utf8.Valid(t) <==> |LastChar(cs)| != 4)
            && (Utf8.Valid(t) ==> Chars(t) == Chars(text) + [LastChar(cs)])
  {
    hide IsChar, Chars, Flatten, Kept;
    var last := LastChar(cs);
    KeptIsLast(cs);
    if |last| == 4 {
      LoneContinuation(last[3]);
      ValidAppend(text, [last[3]]);
    } else {
      FlattenOne(last);
      JoinedChars(Chars(text), [last]);
    }
  }

  lemma LoneContinuation(b: Byte)
    requires IsContinuation(b)
    ensures !Utf8.Valid([b])
  {
    ContinuationSize(b);
    assert Chars([b]) == [[b]];
  }

  /** A word-wise backspace erased whole characters, from where it should. */
  ghost predicate WordErased(before: Bytes, caret: nat, pos: nat, after: Bytes) {
    var cs := Chars(before);
    && 0 < pos <= |before| && caret <= |cs|
    && exists k | 0 <= k < caret ::
         Offset(cs, k) == EraseStart(before, pos) && Chars(after) == cs[..k] + cs[caret..]
  }

  // ---- the class --------------------------------------------------------------------

  class TextInputHandler {
    var enabled: bool
    var multiline: bool
    var altPressed: bool
    var shiftPressed: bool
    var keepOnce: bool
    var enabledNo: nat
    var currentText: Bytes
    var currentTextPosition: nat
    var currentTextPositionUTF: nat
    var currentTextCopyPosition: nat
    var currentTextCopyPositionUTF: nat

    /** The number of characters in front of a byte. */
    ghost function Index(pos: nat): nat
      reads `currentText
      requires pos <= |currentText|
    {
      |Chars(currentText[..pos])|
    }

    /** Byte `pos` stands in front of character `k`, or at the end. */
    ghost predicate Stands(pos: nat, k: nat)
      reads `currentText
    {
      k <= |Chars(currentText)| && pos == Offset(Chars(currentText), k)
    }

    ghost predicate AtBoundary(pos: nat)
      reads `currentText
    {
      pos <= |currentText| && Stands(pos, Index(pos))
    }

    /** The text is valid, both byte positions are boundaries, and the caret's character position is not behind. */
    ghost predicate Valid()
      reads this
    {
      && Utf8.Valid(currentText)
      && AtBoundary(currentTextPosition) && AtBoundary(currentTextCopyPosition)
      && currentTextPositionUTF >= Index(currentTextPosition)
    }

    /** Both character positions name the places of the byte positions. */
    ghost predicate InStep()
      reads this
      requires Valid()
    {
      && currentTextPositionUTF == Index(currentTextPosition)
      && currentTextCopyPositionUTF == Index(currentTextCopyPosition)
    }

    /** The editor that the bytes are. */
    ghost function Contents(): Editor
      reads this
      requires Valid()
    {
      Editor(Chars(currentText), Index(currentTextPosition), Index(currentTextCopyPosition))
    }

    lemma IndexOf(pos: nat, k: nat)
      requires Utf8.Valid(currentText) && Stands(pos, k)
      ensures AtBoundary(pos) && Index(pos) == k
    {
      hide Chars, IsChar;
      CutAtBoundary(Chars(currentText), k);
    }

    lemma CaretsInRange()
      requires Valid()
      ensures InRange(Contents())
    {
    }

    constructor ()
      ensures Valid() && InStep() && Contents() == Editor([], 0, 0) && !keepOnce && !enabled
    {
      enabled, multiline, altPressed, shiftPressed, keepOnce := false, false, false, false, false;
      enabledNo := 0;
      currentText := [];
      currentTextPosition, currentTextPositionUTF := 0, 0;
      currentTextCopyPosition, currentTextCopyPositionUTF := 0, 0;
    }

    method Update(text: Bytes)
      modifies this
      ensures currentText == text && (Utf8.Valid(text) <==> Valid())
      ensures Valid() ==> InStep() && Contents() == Editor(Chars(text), |Chars(text)|, |Chars(text)|)
      ensures unchanged(`enabled) && unchanged(`multiline) && unchanged(`keepOnce) && unchanged(`enabledNo)
      ensures unchanged(`altPressed) && unchanged(`shiftPressed)
    {
      hide Chars, AllChars, Offset;
      currentText := text;
      currentTextPosition := |currentText|;
      assert text[..|text|] == text;
      currentTextPositionUTF := GetLength(currentText, currentTextPosition);
      currentTextCopyPosition := currentTextPosition;
      currentTextCopyPositionUTF := currentTextPositionUTF;
      OffsetEnds(Chars(text));
    }

    method Disable()
      modifies this
      ensures if old(keepOnce) then currentText == old(currentText) && unchanged(this) else currentText == [] && !enabled
      ensures !old(keepOnce) || old(Valid() && InStep()) ==> Valid() && InStep()
      ensures !old(keepOnce) ==> Contents() == Editor([], 0, 0)
    {
      if !keepOnce {
        currentText := [];
        currentTextPosition, currentTextPositionUTF := 0, 0;
        currentTextCopyPosition, currentTextCopyPositionUTF := 0, 0;
        enabled := false;
      }
    }

    method SetKeepLastCharOnce()
      modifies this`keepOnce
      ensures keepOnce
    {
      keepOnce := true;
    }

    /**
     A field opens. What is kept of the text before is put behind the new text: the last
     character, which goes wrong exactly when that takes four bytes.
     */
    method Enable(text: Bytes, isMultiline: bool)
      modifies this
      ensures enabled && multiline == isMultiline && enabledNo == old(enabledNo) + 1 && !keepOnce
      ensures currentText == text + if old(keepOnce) then Kept(old(currentText)) else []
      ensures Valid() <==> Utf8.Valid(currentText)
      ensures Valid() ==> InStep() && Contents() == Editor(Chars(currentText), |Chars(currentText)|, |Chars(currentText)|)
      ensures old(keepOnce && Utf8.Valid(currentText)) && old(currentText) != [] && Utf8.Valid(text) ==>
                var last := LastChar(old(Chars(currentText)));
                && (Valid() <==> |last| != 4)
                && (Valid() ==> Chars(currentText) == Chars(text) + [last])
    {
      hide Chars, AllChars, Flatten, Offset, GetCharByteSize, Kept;
      enabled := true;
      multiline := isMultiline;
      enabledNo := enabledNo + 1;
      var all := text;
      if keepOnce {
        if |currentText| > 0 {
          all := WithLastChar(text);
          NoCharsNoText(Chars(currentText));
          if Utf8.Valid(currentText) && Utf8.Valid(text) { KeptBytes(Chars(currentText), text); }
        }
        keepOnce := false;
      }
      NothingKept(text, []);
      Update(all);
    }

    method WithLastChar(text: Bytes) returns (all: Bytes)
      requires currentText != []
      ensures all == text + Kept(currentText)
    {
      hide GetCharByteSize;
      var size := |currentText|;
      var kept := 0;
      if size >= 3 && GetCharByteSize(currentText[size - 3]) == 3 {
        kept := 3;
      } else if size >= 2 && GetCharByteSize(currentText[size - 2]) == 2 {
        kept := 2;
      } else if size >= 1 && GetCharByteSize(currentText[size - 1]) == 1 {
        kept := 1;
      }
      all := text + currentText[size - kept..];
    }

    /**
     Text typed or pasted, a backspace or a delete. The result is `false` where the source
     erases in front of the text: at its beginning, with a character position above 0.
     */
    method OnTextInput(text: Bytes) returns (defined: bool)
      requires Valid()
      modifies `currentText, `currentTextPosition, `currentTextPositionUTF
      modifies `currentTextCopyPosition, `currentTextCopyPositionUTF
      ensures defined <==> !(text == [BACKSPACE] && old(currentTextPosition == 0 && currentTextPositionUTF > 0))
      ensures !defined || (text == [BACKSPACE] && old(currentTextPositionUTF) == 0) ==>
                unchanged(this) && Valid() && Contents() == old(Contents())
      ensures text == [BACKSPACE] && old(currentTextPosition) > 0 && !altPressed ==>
                && Valid() && Contents() == Backspace(old(Contents()))
                && currentTextPositionUTF == currentTextCopyPositionUTF == old(currentTextPositionUTF) - 1
                && (InStep() <==> old(currentTextPositionUTF == Index(currentTextPosition)))
      ensures text == [BACKSPACE] && old(currentTextPosition) > 0 && altPressed ==>
                && Valid()
                && WordErased(old(currentText), old(Contents()).caret, old(currentTextPosition), currentText)
                && currentTextPosition == currentTextCopyPosition == EraseStart(old(currentText), old(currentTextPosition))
                && currentTextPositionUTF == currentTextPosition
                && (InStep() <==> Ascii(old(currentText[..EraseStart(currentText, currentTextPosition)])))
      ensures text == [DELETE] ==>
                && Valid() && Contents() == DeleteNext(old(Contents())) && (old(InStep()) ==> InStep())
                && currentTextPositionUTF == old(currentTextPositionUTF)
                && (old(currentTextPosition < |currentText|) ==> currentTextCopyPositionUTF == currentTextPositionUTF)
      ensures text != [BACKSPACE] && text != [DELETE] ==> (Utf8.Valid(currentText) <==> Utf8.Valid(text))
      ensures text != [BACKSPACE] && text != [DELETE] && Utf8.Valid(text) ==>
                && Valid() && Contents() == Insert(old(Contents()), Chars(text))
                && currentTextPositionUTF == currentTextCopyPositionUTF == old(currentTextPositionUTF) + |Chars(text)|
                && (InStep() <==> old(currentTextPositionUTF == Index(currentTextPosition)))
    {
      hide Chars, AllChars, Flatten, Offset, EraseStart, WordErased, Ascii;
      IndexAtStart(currentTextPosition);
      defined := true;
      if |text| == 1 && text[0] == BACKSPACE {
        if currentTextPositionUTF <= 0 { return; }
        if currentTextPosition == 0 { return false; }
        EraseBack();
      } else if |text| == 1 && text[0] == DELETE {
        IndexAtEnd();
        if currentTextPosition >= |currentText| { return; }
        EraseNext();
      } else {
        InsertText(text);
      }
      currentTextCopyPosition := currentTextPosition;
      currentTextCopyPositionUTF := currentTextPositionUTF;
    }

    lemma IndexAtStart(pos: nat)
      requires Utf8.Valid(currentText) && AtBoundary(pos)
      ensures Index(pos) == 0 <==> pos == 0
    {
      hide Chars, AllChars, Offset;
      BoundaryBegins(Chars(currentText), Index(pos));
    }

    lemma IndexAtEnd()
      requires Valid()
      ensures currentTextPosition >= |currentText| <==> Contents().caret == |Chars(currentText)|
    {
      hide Chars, AllChars, Offset;
      BoundaryBegins(Chars(currentText), Index(currentTextPosition));
    }

    method EraseBack()
      requires Valid() && currentTextPosition > 0
      modifies `currentText, `currentTextPosition, `currentTextPositionUTF
      ensures Utf8.Valid(currentText) && AtBoundary(currentTextPosition)
      ensures currentTextPositionUTF >= Index(currentTextPosition)
      ensures !altPressed ==>
                && Editor(Chars(currentText), Index(currentTextPosition), Index(currentTextPosition)) == Backspace(old(Contents()))
                && currentTextPositionUTF == old(currentTextPositionUTF) - 1
      ensures altPressed ==>
                && WordErased(old(currentText), old(Contents()).caret, old(currentTextPosition), currentText)
                && currentTextPosition == currentTextPositionUTF == EraseStart(old(currentText), old(currentTextPosition))
                && (currentTextPositionUTF == Index(currentTextPosition)
                    <==> Ascii(old(currentText[..EraseStart(currentText, currentTextPosition)])))
    {
      hide Chars, AllChars, Flatten, Offset, Ascii, EraseStart;
      ghost var cs, c := Chars(currentText), Index(currentTextPosition);
      BoundaryBegins(cs, c);
      var deleteStart, k := DeleteStart();
      EraseRange(cs, k, c);
      currentText := currentText[..deleteStart] + currentText[currentTextPosition..];
      currentTextPosition := deleteStart;
      IndexOf(deleteStart, k);
      OffsetGrows(Chars(currentText), 0, k);
      OffsetEnds(Chars(currentText));
      CutAtBoundary(Chars(currentText), k);
      OffsetIsIndexExactlyWhen(Chars(currentText), k);
      assert currentText[..deleteStart] == old(currentText)[..deleteStart];
    }

    method DeleteStart() returns (deleteStart: nat, ghost k: nat)
      requires Valid() && currentTextPosition > 0
      modifies `currentTextPositionUTF
      ensures k < Index(currentTextPosition) && Stands(deleteStart, k)
      ensures !altPressed ==> k == Index(currentTextPosition) - 1 && currentTextPositionUTF == old(currentTextPositionUTF) - 1
      ensures altPressed ==> currentTextPositionUTF == deleteStart == EraseStart(currentText, currentTextPosition)
    {
      hide Chars, AllChars, Flatten, Offset, EraseStart, IsSpace, IsContinuation;
      ghost var cs, c := Chars(currentText), Index(currentTextPosition);
      BoundaryBegins(cs, c);
      PreviousBoundary(cs, c);
      deleteStart := currentTextPosition - 1;
      k := c - 1;
      if altPressed {
        deleteStart := EraseStartFrom(deleteStart);
        currentTextPositionUTF := deleteStart;
        k := EraseStartIsBoundary(cs, currentTextPosition);
        SameOffsetSameIndex(cs, k, c);
        PreviousBoundary(cs, k + 1);
      } else {
        currentTextPositionUTF := currentTextPositionUTF - 1;
      }
      deleteStart := PreviousChar(deleteStart, k + 1);
    }

    method EraseStartFrom(from: nat) returns (d: nat)
      requires from < |currentText|
      ensures d == EraseStart(currentText, from + 1)
    {
      d := from;
      if IsSpace(currentText[d]) {
        d := EraseSpacesFrom(d);
      }
      d := EraseWordFrom(d);
    }

    method EraseSpacesFrom(from: nat) returns (d: nat)
      requires from < |currentText|
      ensures d == EraseSpaces(currentText, from)
    {
      d := from;
      while d > 0
        invariant d <= from && EraseSpaces(currentText, d) == EraseSpaces(currentText, from)
      {
        d := d - 1;
        if d < 1 || !IsSpace(currentText[d - 1]) || !IsSpace(currentText[d]) {
          break;
        }
      }
    }

    method EraseWordFrom(from: nat) returns (d: nat)
      requires from < |currentText|
      ensures d == EraseWord(currentText, from)
    {
      d := from;
      while d > 0
        invariant d <= from && EraseWord(currentText, d) == EraseWord(currentText, from)
      {
        d := d - 1;
        if d < 1 || IsSpace(currentText[d - 1]) || IsSpace(currentText[d]) {
          break;
        }
      }
    }

    method EraseNext()
      requires Valid() && currentTextPosition < |currentText|
      modifies `currentText
      ensures Utf8.Valid(currentText) && AtBoundary(currentTextPosition)
      ensures Index(currentTextPosition) == old(Index(currentTextPosition))
      ensures Chars(currentText) == DeleteNext(old(Contents())).chars
    {
      hide Chars, AllChars, Flatten, Offset;
      ghost var cs, c := Chars(currentText), Index(currentTextPosition);
      NotAtEnd(cs, c);
      var deleteEnd := NextChar(currentTextPosition, c);
      EraseRange(cs, c, c + 1);
      currentText := currentText[..currentTextPosition] + currentText[deleteEnd..];
      IndexOf(currentTextPosition, c);
    }

    method InsertText(text: Bytes)
      requires Valid()
      modifies `currentText, `currentTextPosition, `currentTextPositionUTF
      ensures Utf8.Valid(currentText) <==> Utf8.Valid(text)
      ensures Utf8.Valid(text) ==>
                && AtBoundary(currentTextPosition)
                && Editor(Chars(currentText), Index(currentTextPosition), Index(currentTextPosition))
                   == Insert(old(Contents()), Chars(text))
                && currentTextPositionUTF == old(currentTextPositionUTF) + |Chars(text)|
    {
      hide Chars, AllChars, Flatten, Offset;
      ghost var cs, c := Chars(currentText), Index(currentTextPosition);
      InsertIsValidExactlyWhen(cs, c, text);
      currentText := currentText[..currentTextPosition] + text + currentText[currentTextPosition..];
      currentTextPosition := currentTextPosition + |text|;
      assert text[..|text|] == text;
      var length := GetLength(text, |text|);
      currentTextPositionUTF := currentTextPositionUTF + length;
      if Utf8.Valid(text) {
        InsertAt(cs, c, text);
        InsertMovesCaret(cs, c, Chars(text));
        IndexOf(currentTextPosition, c + |Chars(text)|);
      }
    }

    /** The selected text, or all of it. */
    method GetCopyText() returns (r: Bytes)
      requires Valid()
      ensures Utf8.Valid(r)
      ensures var e := Contents();
              Chars(r) == if e.caret == e.anchor then e.chars
                          else e.chars[Min(e.caret, e.anchor)..Max(e.caret, e.anchor)]
      ensures r == if currentTextPosition == currentTextCopyPosition then currentText
                   else currentText[Min(currentTextPosition, currentTextCopyPosition)
                                    ..Max(currentTextPosition, currentTextCopyPosition)]
    {
      hide Chars, AllChars, Flatten, Offset;
      ghost var e := Contents();
      SameOffsetSameIndex(e.chars, e.caret, e.anchor);
      if currentTextCopyPosition != currentTextPosition {
        var start := Min(currentTextPosition, currentTextCopyPosition);
        var end := Max(currentTextPosition, currentTextCopyPosition);
        SliceOfChars(e.chars, Min(e.caret, e.anchor), Max(e.caret, e.anchor));
        r := currentText[start..end];
      } else {
        r := currentText;
      }
    }

    /**
     The game moves the caret. Beyond the text the byte position becomes the number of
     characters, which need not be a boundary, and the character position stays beyond.
     */
    method SetCursorPosition(pos: int)
      requires Valid()
      modifies `currentTextPosition, `currentTextPositionUTF, `currentTextCopyPosition, `currentTextCopyPositionUTF
      ensures pos <= |Chars(currentText)| ==>
                && Valid() && (old(InStep()) || !shiftPressed ==> InStep())
                && Contents() == MoveCaret(old(Contents()), if pos < 0 then |Chars(currentText)| else pos, shiftPressed)
      ensures pos > |Chars(currentText)| ==>
                && currentTextPositionUTF == pos && currentTextPosition == |Chars(currentText)|
                && (Valid() <==> AtBoundary(|Chars(currentText)|)) && (Valid() ==> !InStep())
    {
      hide Chars, AllChars, Flatten, Offset;
      ghost var cs := Chars(currentText);
      OffsetEnds(cs);
      OffsetGrows(cs, 0, |cs|);
      if pos < 0 {
        currentTextPosition := |currentText|;
        assert currentText[..|currentText|] == currentText;
        currentTextPositionUTF := GetLength(currentText, currentTextPosition);
        IndexOf(currentTextPosition, |cs|);
      } else {
        currentTextPositionUTF := pos;
        currentTextPosition := GetBytePosFromUTF(currentText, pos);
        if pos <= |cs| { IndexOf(currentTextPosition, pos); }
        if currentTextPosition <= |currentText| { IndexFits(currentTextPosition); }
      }
      if !shiftPressed {
        currentTextCopyPosition := currentTextPosition;
        currentTextCopyPositionUTF := currentTextPositionUTF;
      }
    }

    lemma IndexFits(pos: nat)
      requires pos <= |currentText|
      ensures AtBoundary(pos) ==> Index(pos) <= |Chars(currentText)|
    {
    }

    /** One key press; on a release only the modifiers are taken over. */
    method OnKeyPressed(key: Key, action: Action, shift: bool, alt: bool)
      requires Valid()
      modifies this
      ensures Valid() && currentText == old(currentText) && (old(InStep()) ==> InStep())
      ensures shiftPressed == shift && altPressed == alt
      ensures Contents() == if action.Release? then old(Contents())
                            else PressKey(old(Contents()), key, shift, alt)
      ensures key.Left? && !action.Release? && !alt && old(Contents()).caret == old(Contents()).anchor > 0 ==>
                currentTextPositionUTF == old(currentTextPositionUTF) - 1
    {
      hide Chars, AllChars, Flatten, Offset, PressKey;
      PressEnds(Contents(), shift, alt);
      shiftPressed := shift;
      altPressed := alt;
      if action.Release? { return; }
      ghost var cs := Chars(currentText);
      OffsetEnds(cs);
      var moved := true;
      match key {
        case Right =>
          moved := GoRight();
        case Left =>
          moved := GoLeft();
        case Home =>
          currentTextPosition := 0;
          currentTextPositionUTF := 0;
          IndexOf(0, 0);
        case End =>
          currentTextPosition := |currentText|;
          assert currentText[..|currentText|] == currentText;
          currentTextPositionUTF := GetLength(currentText, currentTextPosition);
          IndexOf(currentTextPosition, |cs|);
        case Other =>
          return;
      }
      if moved && !shiftPressed {
        currentTextCopyPosition := currentTextPosition;
        currentTextCopyPositionUTF := currentTextPositionUTF;
      }
    }

    /** `moved` is false where the source returns at once. */
    method GoRight() returns (moved: bool)
      requires Valid()
      modifies `currentTextPosition, `currentTextPositionUTF, `currentTextCopyPosition, `currentTextCopyPositionUTF
      ensures Valid() && (old(InStep()) ==> InStep())
      ensures var e := PressKey(old(Contents()), Right, shiftPressed, altPressed);
              && Contents() == (if moved then e.(anchor := old(Contents()).anchor) else e)
              && (moved ==> e == MoveCaret(old(Contents()), e.caret, shiftPressed))
      ensures moved && old(currentTextPositionUTF == Index(currentTextPosition)) ==>
                currentTextPositionUTF == Index(currentTextPosition)
    {
      hide Chars, AllChars, Flatten, Offset, SkipSpaces, SkipWord;
      ghost var cs, i, j := Chars(currentText), Index(currentTextPosition), Index(currentTextCopyPosition);
      SameOffsetSameIndex(cs, i, j);
      BoundaryBegins(cs, i);
      if !shiftPressed && currentTextPosition != currentTextCopyPosition {
        CollapseTo(Max(currentTextPosition, currentTextCopyPosition), Max(i, j));
        return false;
      }
      if currentTextPosition >= |currentText| { return false; }
      if altPressed {
        WordRight();
      } else {
        var next := NextChar(currentTextPosition, i);
        currentTextPosition := next;
        currentTextPositionUTF := currentTextPositionUTF + 1;
        IndexOf(next, i + 1);
      }
      moved := true;
    }

    method GoLeft() returns (moved: bool)
      requires Valid()
      modifies `currentTextPosition, `currentTextPositionUTF, `currentTextCopyPosition, `currentTextCopyPositionUTF
      ensures Valid() && (old(InStep()) ==> InStep())
      ensures var e := PressKey(old(Contents()), Left, shiftPressed, altPressed);
              && Contents() == (if moved then e.(anchor := old(Contents()).anchor) else e)
              && (moved ==> e == MoveCaret(old(Contents()), e.caret, shiftPressed))
      ensures moved && old(currentTextPositionUTF == Index(currentTextPosition)) ==>
                currentTextPositionUTF == Index(currentTextPosition)
      ensures !altPressed && old(Contents()).caret == old(Contents()).anchor > 0 ==>
                currentTextPositionUTF == old(currentTextPositionUTF) - 1
    {
      hide Chars, AllChars, Flatten, Offset, SkipSpacesBack, SkipWordBack;
      ghost var cs, i, j := Chars(currentText), Index(currentTextPosition), Index(currentTextCopyPosition);
      SameOffsetSameIndex(cs, i, j);
      BoundaryBegins(cs, i);
      if !shiftPressed && currentTextPosition != currentTextCopyPosition {
        CollapseTo(Min(currentTextPosition, currentTextCopyPosition), Min(i, j));
        return false;
      }
      if currentTextPosition <= 0 { return false; }
      if altPressed {
        WordLeft();
      } else {
        PreviousBoundary(cs, i);
        var prev := PreviousChar(currentTextPosition - 1, i);
        currentTextPosition := prev;
        currentTextPositionUTF := currentTextPositionUTF - 1;
        IndexOf(prev, i - 1);
      }
      moved := true;
    }

    /** Both ends of the selection go to byte `pos`, which is character `k`. */
    method CollapseTo(pos: nat, ghost k: nat)
      requires Utf8.Valid(currentText) && Stands(pos, k)
      modifies `currentTextPosition, `currentTextPositionUTF, `currentTextCopyPosition, `currentTextCopyPositionUTF
      ensures Valid() && InStep() && Contents() == Editor(Chars(currentText), k, k)
    {
      hide Chars, IsChar, Offset;
      CutAtBoundary(Chars(currentText), k);
      IndexOf(pos, k);
      currentTextPosition := pos;
      currentTextPositionUTF := GetLength(currentText, currentTextPosition);
      currentTextCopyPosition := currentTextPosition;
      currentTextCopyPositionUTF := currentTextPositionUTF;
    }

    /** From a boundary over continuation bytes to the next one. */
    method NextChar(pos: nat, ghost k: nat) returns (next: nat)
      requires Utf8.Valid(currentText) && Stands(pos, k) && pos < |currentText|
      ensures Stands(next, k + 1)
    {
      hide Chars, IsChar, Offset, IsContinuation;
      ghost var cs := Chars(currentText);
      BoundaryBegins(cs, k);
      PreviousBoundary(cs, k + 1);
      BoundaryBegins(cs, k + 1);
      next := pos + 1;
      while next < |currentText| && IsContinuation(currentText[next])
        invariant pos < next <= Offset(cs, k + 1)
      {
        next := next + 1;
      }
    }

    /** Back over continuation bytes to where character `k - 1` begins. */
    method PreviousChar(from: nat, ghost k: nat) returns (start: nat)
      requires Utf8.Valid(currentText) && 0 < k <= |Chars(currentText)|
      requires Offset(Chars(currentText), k - 1) <= from < Offset(Chars(currentText), k)
      ensures Stands(start, k - 1)
    {
      hide Chars, IsChar, Offset, IsContinuation;
      ghost var cs := Chars(currentText);
      PreviousBoundary(cs, k);
      start := from;
      while start > 0 && IsContinuation(currentText[start])
        invariant Offset(cs, k - 1) <= start <= from
      {
        start := start - 1;
      }
    }

    /** The word-wise move: over spaces, then over the word behind them. */
    method WordRight()
      requires Utf8.Valid(currentText) && AtBoundary(currentTextPosition)
      requires currentTextPosition < |currentText|
      modifies `currentTextPosition, `currentTextPositionUTF
      ensures AtBoundary(currentTextPosition) && currentTextPositionUTF == Index(currentTextPosition)
      ensures var cs := Chars(currentText);
              Index(currentTextPosition) == SkipWord(cs, SkipSpaces(cs, old(Index(currentTextPosition))))
    {
      hide Chars, IsChar, Offset, IsSpace, SpaceChar;
      ghost var cs, k := Chars(currentText), Index(currentTextPosition);
      SpaceAtBoundary(cs, k);
      NotAtEnd(cs, k);
      if IsSpace(currentText[currentTextPosition]) {
        k := SpacesRight(k);
      }
      k := LettersRight(k);
      IndexOf(currentTextPosition, k);
      currentTextPositionUTF := GetLength(currentText, currentTextPosition);
    }

    method SpacesRight(ghost from: nat) returns (ghost k: nat)
      requires Utf8.Valid(currentText) && Stands(currentTextPosition, from)
      requires from < |Chars(currentText)| && SpaceChar(Chars(currentText)[from])
      modifies `currentTextPosition
      ensures Stands(currentTextPosition, k) && k == SkipSpaces(Chars(currentText), from)
    {
      hide Chars, IsChar, Offset, IsSpace, SpaceChar;
      ghost var cs := Chars(currentText);
      k := from;
      NotAtEnd(cs, k);
      while currentTextPosition < |currentText|
        invariant k < |cs| && currentTextPosition == Offset(cs, k) < |currentText| && SpaceChar(cs[k])
        invariant SkipSpaces(cs, k) == SkipSpaces(cs, from)
        decreases |currentText| - currentTextPosition
      {
        SpaceIsOneByte(cs, k);
        currentTextPosition := currentTextPosition + 1;
        k := k + 1;
        SpaceAtBoundary(cs, k);
        NotAtEnd(cs, k);
        if currentTextPosition >= |currentText| || !IsSpace(currentText[currentTextPosition]) {
          break;
        }
      }
    }

    method LettersRight(ghost from: nat) returns (ghost k: nat)
      requires Utf8.Valid(currentText) && Stands(currentTextPosition, from)
      requires from < |Chars(currentText)| ==> !SpaceChar(Chars(currentText)[from])
      modifies `currentTextPosition
      ensures Stands(currentTextPosition, k) && k == SkipWord(Chars(currentText), from)
    {
      hide Chars, IsChar, Offset, IsSpace, SpaceChar;
      ghost var cs := Chars(currentText);
      k := from;
      NotAtEnd(cs, k);
      if k < |cs| { PreviousBoundary(cs, k + 1); }
      while currentTextPosition < |currentText|
        invariant k <= |cs| && SkipWord(cs, k) == SkipWord(cs, from)
        invariant if currentTextPosition < |currentText|
                  then k < |cs| && !SpaceChar(cs[k]) && Offset(cs, k) <= currentTextPosition < Offset(cs, k + 1)
                  else k == |cs| && currentTextPosition == Offset(cs, k)
        decreases |currentText| - currentTextPosition
      {
        currentTextPosition := currentTextPosition + 1;
        if currentTextPosition == Offset(cs, k + 1) {
          k := k + 1;
          SpaceAtBoundary(cs, k);
          NotAtEnd(cs, k);
          if k < |cs| { PreviousBoundary(cs, k + 1); }
        } else {
          NoSpaceInside(cs, k, currentTextPosition);
        }
        if currentTextPosition >= |currentText| || IsSpace(currentText[currentTextPosition]) {
          break;
        }
      }
    }

    method WordLeft()
      requires Utf8.Valid(currentText) && AtBoundary(currentTextPosition)
      requires currentTextPosition > 0
      modifies `currentTextPosition, `currentTextPositionUTF
      ensures AtBoundary(currentTextPosition) && currentTextPositionUTF == Index(currentTextPosition)
      ensures var cs := Chars(currentText);
              Index(currentTextPosition) == SkipWordBack(cs, SkipSpacesBack(cs, old(Index(currentTextPosition))))
    {
      hide Chars, IsChar, Offset, IsSpace, SpaceChar;
      ghost var cs, k := Chars(currentText), Index(currentTextPosition);
      SpaceAtBoundary(cs, k);
      BoundaryBegins(cs, k);
      if IsSpace(currentText[currentTextPosition - 1]) {
        k := SpacesLeft(k);
      }
      k := LettersLeft(k);
      IndexOf(currentTextPosition, k);
      currentTextPositionUTF := GetLength(currentText, currentTextPosition);
    }

    method SpacesLeft(ghost from: nat) returns (ghost k: nat)
      requires Utf8.Valid(currentText) && Stands(currentTextPosition, from)
      requires from > 0 && SpaceChar(Chars(currentText)[from - 1])
      modifies `currentTextPosition
      ensures Stands(currentTextPosition, k) && k == SkipSpacesBack(Chars(currentText), from)
    {
      hide Chars, IsChar, Offset, IsSpace, SpaceChar;
      ghost var cs := Chars(currentText);
      k := from;
      BoundaryBegins(cs, k);
      while currentTextPosition > 0
        invariant 0 < k <= |cs| && 0 < currentTextPosition == Offset(cs, k) <= |currentText| && SpaceChar(cs[k - 1])
        invariant SkipSpacesBack(cs, k) == SkipSpacesBack(cs, from)
        decreases currentTextPosition
      {
        SpaceIsOneByte(cs, k - 1);
        currentTextPosition := currentTextPosition - 1;
        k := k - 1;
        SpaceAtBoundary(cs, k);
        BoundaryBegins(cs, k);
        if currentTextPosition < 1 || !IsSpace(currentText[currentTextPosition - 1]) {
          break;
        }
      }
    }

    method LettersLeft(ghost from: nat) returns (ghost k: nat)
      requires Utf8.Valid(currentText) && Stands(currentTextPosition, from)
      requires from > 0 ==> !SpaceChar(Chars(currentText)[from - 1])
      modifies `currentTextPosition
      ensures Stands(currentTextPosition, k) && k == SkipWordBack(Chars(currentText), from)
    {
      hide Chars, IsChar, Offset, IsSpace, SpaceChar;
      ghost var cs := Chars(currentText);
      k := from;
      BoundaryBegins(cs, k);
      if k > 0 { PreviousBoundary(cs, k); }
      while currentTextPosition > 0
        invariant k <= |cs| && SkipWordBack(cs, k) == SkipWordBack(cs, from)
        invariant if currentTextPosition > 0
                  then k > 0 && !SpaceChar(cs[k - 1])
                       && Offset(cs, k - 1) < currentTextPosition <= Offset(cs, k) <= |currentText|
                  else k == 0 && currentTextPosition == Offset(cs, k)
        decreases currentTextPosition
      {
        currentTextPosition := currentTextPosition - 1;
        if currentTextPosition == Offset(cs, k - 1) {
          k := k - 1;
          SpaceAtBoundary(cs, k);
          BoundaryBegins(cs, k);
          if k > 0 { PreviousBoundary(cs, k); }
        } else {
          NoSpaceInside(cs, k - 1, currentTextPosition);
        }
        if currentTextPosition < 1 || IsSpace(currentText[currentTextPosition - 1]) {
          break;
        }
      }
    }
  }

  // ---- a client ---------------------------------------------------------------------

  /** The text that `h` shows, and where the caret is, in bytes and in characters. */
  twostate predicate Restored(h: TextInputHandler)
    reads h
  {
    && h.currentText == old(h.currentText)
    && h.currentTextPosition == h.currentTextCopyPosition == old(h.currentTextPosition)
    && h.currentTextPositionUTF == h.currentTextCopyPositionUTF == old(h.currentTextPositionUTF)
  }

  /** Typing a text and pressing backspace for each of its characters changes no byte and no position. */
  method TypeAndErase(h: TextInputHandler, text: Bytes)
    requires h.Valid() && !h.altPressed && Utf8.Valid(text) && text != [BACKSPACE] && text != [DELETE]
    modifies h
    ensures h.Valid() && Restored(h)
  {
    hide Chars, AllChars, Flatten, Offset, Utf8.Valid, WordErased, EraseStart, Ascii;
    ghost var e, cs := h.Contents(), Chars(text);
    assert InRange(e) by { h.CaretsInRange(); }
    var n := GetLength(text, |text|);
    assert text[..|text|] == text;
    var defined := h.OnTextInput(text);
    var i := 0;
    assert cs[..n] == cs;
    while i < n
      invariant i <= n == |cs| && h.Valid() && !h.altPressed && h.Contents() == Insert(e, cs[..n - i])
      invariant h.currentTextPositionUTF == h.currentTextCopyPositionUTF == old(h.currentTextPositionUTF) + n - i
    {
      EraseLast(e, cs[..n - i]);
      assert cs[..n - i][..n - i - 1] == cs[..n - i - 1];
      h.IndexAtStart(h.currentTextPosition);
      defined := h.OnTextInput([BACKSPACE]);
      i := i + 1;
    }
    assert cs[..0] == [];
    InsertNothing(e);
    SameBytes(old(h.currentText), h.currentText);
  }

  /** The same for one character typed, left of which the caret goes in order to delete it. */
  method TypeLeftAndDelete(h: TextInputHandler, c: Bytes)
    requires h.Valid() && IsChar(c) && c != [BACKSPACE] && c != [DELETE]
    modifies h
    ensures h.Valid() && Restored(h)
  {
    hide Chars, AllChars, Flatten, Offset, IsChar, Utf8.Valid, WordErased, EraseStart, Ascii;
    ghost var e := h.Contents();
    assert InRange(e) by { h.CaretsInRange(); }
    assert Utf8.Valid(c) && Chars(c) == [c] by { OneChar(c); }
    var defined := h.OnTextInput(c);
    h.OnKeyPressed(Left, Press, false, false);
    TypeLeftDelete(e, c);
    h.IndexAtEnd();
    defined := h.OnTextInput([DELETE]);
    SameBytes(old(h.currentText), h.currentText);
  }

  /** A plain arrow key drops the selection and leaves its text directly in front of the caret, or behind it. */
  method CopyThenArrow(h: TextInputHandler, key: Key, alt: bool) returns (copied: Bytes)
    requires h.Valid() && h.currentTextPosition != h.currentTextCopyPosition && (key.Left? || key.Right?)
    modifies h
    ensures h.Valid() && h.currentText == old(h.currentText) && h.currentTextPosition == h.currentTextCopyPosition
    ensures var caret := h.currentTextPosition;
            && (caret == old(h.currentTextPosition) || caret == old(h.currentTextCopyPosition))
            && (key.Right? ==> |copied| <= caret <= |h.currentText| && h.currentText[caret - |copied|..caret] == copied)
            && (key.Left? ==> caret + |copied| <= |h.currentText| && h.currentText[caret..caret + |copied|] == copied)
  {
    hide Chars, AllChars, Flatten, Offset;
    ghost var e := h.Contents();
    assert InRange(e) by { h.CaretsInRange(); }
    SameOffsetSameIndex(e.chars, e.caret, e.anchor);
    copied := h.GetCopyText();
    h.OnKeyPressed(key, Press, false, alt);
  }

  /** With shift, or without a selection, Left takes Right back and Right takes Left back. */
  method ArrowAndBack(h: TextInputHandler, right: bool, shift: bool)
    requires h.Valid() && h.InStep() && (shift || h.currentTextPosition == h.currentTextCopyPosition)
    requires if right then h.currentTextPosition < |h.currentText| else h.currentTextPosition > 0
    modifies h
    ensures h.Valid() && h.InStep() && h.currentText == old(h.currentText)
    ensures h.currentTextPosition == old(h.currentTextPosition) && h.currentTextPositionUTF == old(h.currentTextPositionUTF)
    ensures h.currentTextCopyPosition == old(h.currentTextCopyPosition)
    ensures h.currentTextCopyPositionUTF == old(h.currentTextCopyPositionUTF)
  {
    hide Chars, AllChars, Flatten, Offset, PressKey;
    ghost var e := h.Contents();
    assert InRange(e) by { h.CaretsInRange(); }
    SameOffsetSameIndex(e.chars, e.caret, e.anchor);
    h.IndexAtStart(h.currentTextPosition);
    h.IndexAtEnd();
    ArrowsAreOpposite(e, shift);
    h.OnKeyPressed(if right then Right else Left, Press, shift, false);
    h.OnKeyPressed(if right then Left else Right, Press, shift, false);
  }

  lemma SameBytes(s: Bytes, t: Bytes)
    ensures Chars(s) == Chars(t) ==> s == t
  {
    hide Chars;
    assert Flatten(Chars(s)) == s && Flatten(Chars(t)) == t;
  }

  lemma OneChar(c: Bytes)
    requires IsChar(c)
    ensures Utf8.Valid(c) && Chars(c) == [c]
  {
    hide IsChar, Chars;
    FlattenOne(c);
    FlattenIsValid([c]);
  }

  // ---- instances --------------------------------------------------------------------

  /** An accented letter, a space and two letters. */
  const SAMPLE: Bytes := [0xC3, 0xA9, 0x20, 0x61, 0x62]

  lemma SampleChars()
    ensures Utf8.Valid(SAMPLE) && Chars(SAMPLE) == [[0xC3, 0xA9], [0x20], [0x61], [0x62]]
  {
    hide Chars, Flatten;
    var e, s, a, b: Bytes := [0xC3, 0xA9], [0x20], [0x61], [0x62];
    WalkEnds([]);
    CharsFirst(b, []);
    CharsFirst(a, b);
    CharsFirst(s, a + b);
    CharsFirst(e, s + (a + b));
    assert b + [] == b && e + (s + (a + b)) == SAMPLE;
    assert Chars(SAMPLE) == [e, s, a, b];
  }

  lemma SampleJoined(a: Bytes, b: Bytes, rest: seq<Bytes>)
    ensures Flatten([a, b]) == a + b && Offset([a, b] + rest, 2) == |a| + |b|
  {
    assert [a, b][1..] == [b];
    FlattenOne(b);
    assert ([a, b] + rest)[..2] == [a, b];
  }

  lemma SampleErasedFrom()
    ensures EraseStart(SAMPLE, 5) == 3 && !Ascii(SAMPLE[..3])
  {
    hide EraseStart;
    ErasesTheWord(SAMPLE, 3, 5, 5);
    assert SAMPLE[..3][0] == 0xC3;
  }

  lemma SampleErased(t: Bytes)
    requires WordErased(SAMPLE, 4, 5, t)
    ensures t == [0xC3, 0xA9, 0x20] && |Chars(t)| == 2
  {
    hide Chars, Flatten, Offset, EraseStart, IsChar, Ascii;
    SampleErasedFrom();
    SampleChars();
    var cs := Chars(SAMPLE);
    var k :| 0 <= k < 4 && Offset(cs, k) == 3 && Chars(t) == cs[..k] + cs[4..];
    SampleJoined(cs[0], cs[1], cs[2..]);
    assert [cs[0], cs[1]] + cs[2..] == cs;
    SameOffsetSameIndex(cs, k, 2);
    assert Chars(t) == [cs[0], cs[1]];
  }

  /** A word-wise backspace leaves byte 3 and character position 3 behind two characters. */
  method WordEraseScenario() returns (h: TextInputHandler)
    ensures fresh(h) && h.Valid() && !h.InStep()
    ensures h.currentText == [0xC3, 0xA9, 0x20] && h.currentTextPositionUTF == 3
    ensures h.Contents().caret == h.Contents().anchor == 2
  {
    hide Chars, AllChars, Flatten, Offset, Ascii, EraseStart, WordErased, Utf8.Valid;
    SampleChars();
    SampleErasedFrom();
    h := new TextInputHandler();
    h.Update(SAMPLE);
    h.OnKeyPressed(Other, Press, false, true);
    OffsetEnds(Chars(SAMPLE));
    assert h.currentTextPosition == 5;
    var defined := h.OnTextInput([BACKSPACE]);
    SampleErased(h.currentText);
    OffsetEnds(Chars(h.currentText));
    h.IndexOf(3, 2);
  }

  /** Going left to the beginning then leaves character position 1: a backspace is not defined there. */
  method EraseInFrontScenario() returns (h: TextInputHandler, defined: bool)
    ensures fresh(h) && h.Valid() && !h.InStep() && !defined
    ensures h.currentText == [0xC3, 0xA9, 0x20] && h.currentTextPosition == 0 && h.currentTextPositionUTF == 1
  {
    hide Chars, AllChars, Flatten, Offset, Utf8.Valid;
    h := WordEraseScenario();
    h.OnKeyPressed(Left, Press, false, false);
    h.OnKeyPressed(Left, Press, false, false);
    h.IndexAtStart(h.currentTextPosition);
    defined := h.OnTextInput([BACKSPACE]);
  }

  const EMOJI: Bytes := [0xF0, 0x9F, 0x98, 0x80]

  /** The four bytes of an emoji are a valid text; what is kept of it is not. */
  lemma KeptEmojiExample()
    ensures Utf8.Valid(EMOJI) && Kept(EMOJI) == [0x80] && !Utf8.Valid([0x80])
  {
    hide Chars, Flatten, Kept;
    FlattenOne(EMOJI);
    assert AllChars([EMOJI]);
    FlattenIsValid([EMOJI]);
    KeptIsLast([EMOJI]);
    LoneContinuation(0x80);
  }

  const EURO: Bytes := [0xE2, 0x82, 0xAC]

  lemma EuroOffsets()
    ensures Utf8.Valid(EURO) && Chars(EURO) == [EURO]
    ensures forall k | 0 <= k <= 1 :: Offset([EURO], k) != 1
  {
    hide Chars, Flatten;
    FlattenOne(EURO);
    assert Utf8.Valid(EURO) && Chars(EURO) == [EURO] by { FlattenIsValid([EURO]); }
    OffsetEnds([EURO]);
  }

  /** One euro sign, and a caret set to character 2: byte 1 is inside it. */
  method CursorBeyondTextScenario() returns (h: TextInputHandler)
    ensures fresh(h) && h.currentText == EURO && Utf8.Valid(EURO)
    ensures h.currentTextPosition == 1 && !h.AtBoundary(1) && !h.Valid()
  {
    hide Chars, Offset, Flatten, Utf8.Valid;
    EuroOffsets();
    h := new TextInputHandler();
    h.Update(EURO);
    h.SetCursorPosition(2);
  }
}
