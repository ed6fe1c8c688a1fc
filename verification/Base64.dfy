/**
 Base 64 (sections 3.2 and 4 of RFC 4648): an encoder that writes its output by index,
 and a decoder that reads symbols four by four, passing over skip characters.
 */
module Base64 {
  import opened Basics
  import opened Sequences

  const PAD: Byte := 0x3D
  const PAD_VALUE: Byte := 64
  const NO_VALUE: Byte := 255

  // ---- the alphabet -----------------------------------------------------------------

  /** `A` to `Z`, `a` to `z`, `0` to `9`, `+` and `/`. */
  function Symbol(n: Byte): Byte
    requires n < 64
  {
    if n < 26 then n + 0x41
    else if n < 52 then n - 26 + 0x61
    else if n < 62 then n - 52 + 0x30
    else if n == 62 then 0x2B
    else 0x2F
  }

  /** What a character stands for: a value below 64, 64 for the pad, 255 for none. */
  function Value(b: Byte): Byte {
    if 0x41 <= b <= 0x5A then b - 0x41
    else if 0x61 <= b <= 0x7A then b - 0x61 + 26
    else if 0x30 <= b <= 0x39 then b - 0x30 + 52
    else if b == 0x2B then 62
    else if b == 0x2F then 63
    else if b == PAD then PAD_VALUE
    else NO_VALUE
  }

  lemma SymbolsAndValues(n: Byte, b: Byte)
    ensures n < 64 ==> Value(Symbol(n)) == n
    ensures Value(b) < 64 ==> Symbol(Value(b)) == b
    ensures Value(b) <= 64 || Value(b) == NO_VALUE
    ensures Value(b) == PAD_VALUE <==> b == PAD
  {
  }

  /** Table 1 of RFC 4648. */
  const TABLE: Bytes := [
    0x41, 0x42, 0x43, 0x44, 0x45, 0x46, 0x47, 0x48, 0x49, 0x4A, 0x4B, 0x4C, 0x4D, 0x4E, 0x4F, 0x50,
    0x51, 0x52, 0x53, 0x54, 0x55, 0x56, 0x57, 0x58, 0x59, 0x5A, 0x61, 0x62, 0x63, 0x64, 0x65, 0x66,
    0x67, 0x68, 0x69, 0x6A, 0x6B, 0x6C, 0x6D, 0x6E, 0x6F, 0x70, 0x71, 0x72, 0x73, 0x74, 0x75, 0x76,
    0x77, 0x78, 0x79, 0x7A, 0x30, 0x31, 0x32, 0x33, 0x34, 0x35, 0x36, 0x37, 0x38, 0x39, 0x2B, 0x2F]

  /** The symbols stand in the order of the table. */
  lemma SymbolsAreTheTable()
    ensures TABLE == [
      Symbol(0), Symbol(1), Symbol(2), Symbol(3), Symbol(4), Symbol(5), Symbol(6), Symbol(7),
      Symbol(8), Symbol(9), Symbol(10), Symbol(11), Symbol(12), Symbol(13), Symbol(14), Symbol(15),
      Symbol(16), Symbol(17), Symbol(18), Symbol(19), Symbol(20), Symbol(21), Symbol(22), Symbol(23),
      Symbol(24), Symbol(25), Symbol(26), Symbol(27), Symbol(28), Symbol(29), Symbol(30), Symbol(31),
      Symbol(32), Symbol(33), Symbol(34), Symbol(35), Symbol(36), Symbol(37), Symbol(38), Symbol(39),
      Symbol(40), Symbol(41), Symbol(42), Symbol(43), Symbol(44), Symbol(45), Symbol(46), Symbol(47),
      Symbol(48), Symbol(49), Symbol(50), Symbol(51), Symbol(52), Symbol(53), Symbol(54), Symbol(55),
      Symbol(56), Symbol(57), Symbol(58), Symbol(59), Symbol(60), Symbol(61), Symbol(62), Symbol(63)]
  {
  }

  lemma IntOfByte(a: Byte, b: Byte)
    ensures 0 <= a as int < 256
    ensures a as int == b as int ==> a == b
  {
  }

  // ---- encoding ---------------------------------------------------------------------

  function Sextet0(i0: Byte): Byte { (i0 >> 2) & 0x3F }
  function Sextet1(i0: Byte, i1: Byte): Byte { ((i0 & 3) << 4) | ((i1 >> 4) & 0xF) }
  function Sextet2(i1: Byte, i2: Byte): Byte { ((i1 & 0xF) << 2) | ((i2 >> 6) & 3) }
  function Sextet3(i2: Byte): Byte { i2 & 0x3F }

  lemma SextetsFit(i0: Byte, i1: Byte, i2: Byte)
    ensures Sextet0(i0) < 64 && Sextet1(i0, i1) < 64 && Sextet2(i1, i2) < 64 && Sextet3(i2) < 64
  {
  }

  /** The four values of three bytes. */
  function Sextets(i0: Byte, i1: Byte, i2: Byte): (v: Bytes)
    ensures |v| == 4 && forall k | 0 <= k < 4 :: v[k] < 64
  {
    SextetsFit(i0, i1, i2);
    [Sextet0(i0), Sextet1(i0, i1), Sextet2(i1, i2), Sextet3(i2)]
  }

  /** The values of a text, where a last block of one or two bytes gives two or three of them. */
  function Pack(s: Bytes): (v: Bytes)
    ensures forall k | 0 <= k < |v| :: v[k] < 64
  {
    if s == [] then []
    else if |s| == 1 then Sextets(s[0], 0, 0)[..2]
    else if |s| == 2 then Sextets(s[0], s[1], 0)[..3]
    else Sextets(s[0], s[1], s[2]) + Pack(s[3..])
  }

  function Spell(v: Bytes): (t: Bytes)
    requires forall k | 0 <= k < |v| :: v[k] < 64
    ensures |t| == |v| && forall k | 0 <= k < |v| :: t[k] == Symbol(v[k])
  {
    seq(|v|, k requires 0 <= k < |v| => Symbol(v[k]))
  }

  /** The pads after a text of `n` bytes. */
  function Padding(n: nat): Bytes {
    if n % 3 == 1 then [PAD, PAD] else if n % 3 == 2 then [PAD] else []
  }

  function Encode(s: Bytes, padded: bool): Bytes {
    Spell(Pack(s)) + if padded then Padding(|s|) else []
  }

  // ---- the encoding by bits ---------------------------------------------------------

  /** Three bytes, the first one highest. */
  function Bits(a: Byte, b: Byte, c: Byte): bv24 {
    ((a as bv24) << 16) | ((b as bv24) << 8) | (c as bv24)
  }

  /** Six of them, the first ones highest. */
  function SixBits(n: bv24, j: nat): Byte
    requires j < 4
  {
    if j == 0 then (n >> 18) as Byte
    else if j == 1 then ((n >> 12) & 0x3F) as Byte
    else if j == 2 then ((n >> 6) & 0x3F) as Byte
    else (n & 0x3F) as Byte
  }

  /** The bytes of block `i`, where zeros stand for those behind the end. */
  function Block(s: Bytes, i: nat): bv24
    requires i * 3 < |s|
  {
    Bits(s[i * 3], if i * 3 + 1 < |s| then s[i * 3 + 1] else 0, if i * 3 + 2 < |s| then s[i * 3 + 2] else 0)
  }

  lemma SextetsAreSixBits(a: Byte, b: Byte, c: Byte)
    ensures forall j | 0 <= j < 4 :: Sextets(a, b, c)[j] == SixBits(Bits(a, b, c), j)
  {
  }

  /** Four values below 64, the first one highest. */
  function FourValues(v0: Byte, v1: Byte, v2: Byte, v3: Byte): bv24 {
    ((v0 as bv24) << 18) | ((v1 as bv24) << 12) | ((v2 as bv24) << 6) | (v3 as bv24)
  }

  /** Eight of the bits. */
  function EightBits(n: bv24, j: nat): Byte
    requires j < 3
  {
    if j == 0 then (n >> 16) as Byte else if j == 1 then ((n >> 8) & 0xFF) as Byte else (n & 0xFF) as Byte
  }

  /** A group of four gives three bytes, or the first one or two of them where pads stand for its last values. */
  lemma TripleIsEightBits(v0: Byte, v1: Byte, v2: Byte, v3: Byte)
    requires v0 < 64 && v1 < 64 && v2 < 64 && v3 < 64
    ensures var n := FourValues(v0, v1, v2, v3);
            && Triple(v0, v1, v2, v3) == [EightBits(n, 0), EightBits(n, 1), EightBits(n, 2)]
            && Triple(v0, v1, v2, 64) == [EightBits(n, 0), EightBits(n, 1)]
            && Triple(v0, v1, 64, 64) == [EightBits(n, 0)]
  {
    hide EightBits, FourValues;
    FirstEightBits(v0, v1, v2, v3);
    NextEightBits(v0, v1, v2, v3);
    LastEightBits(v0, v1, v2, v3);
  }

  lemma FirstEightBits(v0: Byte, v1: Byte, v2: Byte, v3: Byte)
    requires v0 < 64 && v1 < 64 && v2 < 64 && v3 < 64
    ensures EightBits(FourValues(v0, v1, v2, v3), 0) == (v0 << 2) | ((v1 >> 4) & 3)
  {
  }

  lemma NextEightBits(v0: Byte, v1: Byte, v2: Byte, v3: Byte)
    requires v0 < 64 && v1 < 64 && v2 < 64 && v3 < 64
    ensures EightBits(FourValues(v0, v1, v2, v3), 1) == ((v1 & 0xF) << 4) | ((v2 >> 2) & 0xF)
  {
  }

  lemma LastEightBits(v0: Byte, v1: Byte, v2: Byte, v3: Byte)
    requires v0 < 64 && v1 < 64 && v2 < 64 && v3 < 64
    ensures EightBits(FourValues(v0, v1, v2, v3), 2) == ((v2 & 3) << 6) | v3
  {
  }

  /**
   Where each character of an encoding comes from: six bits of its block, highest first, or a
   pad where the block has no bits left.
   */
  lemma {:induction false} EncodedAt(s: Bytes, padded: bool, i: nat, j: nat)
    requires i * 3 < |s| && j < 4 && (padded || i * 3 + j <= |s|)
    ensures i * 4 + j < |Encode(s, padded)|
    ensures Encode(s, padded)[i * 4 + j] == if i * 3 + j <= |s| then Symbol(SixBits(Block(s, i), j)) else PAD
    decreases i
  {
    hide Symbol, Sextets, Pack, Spell, Bits, SixBits, Encode;
    if i > 0 {
      EncodeStep(s, padded);
      EncodedAt(s[3..], padded, i - 1, j);
      SameBlock(s, i);
    } else {
      SextetsAreSixBits(s[0], if |s| > 1 then s[1] else 0, if |s| > 2 then s[2] else 0);
      if |s| >= 3 {
        EncodeStep(s, padded);
      } else {
        EncodeLast(s, padded);
        LastBlockAt(Sextets(s[0], if |s| > 1 then s[1] else 0, 0), |s|, padded);
      }
    }
  }

  lemma SameBlock(s: Bytes, i: nat)
    requires 0 < i && i * 3 < |s|
    ensures Block(s, i) == Block(s[3..], i - 1)
  {
    hide Bits;
  }

  /** The length for which the output is allocated. */
  function EncodedLength(n: nat, padded: bool): nat {
    if padded then (n + 2) / 3 * 4 else n / 3 * 4 + if n % 3 == 0 then 0 else 1 + n % 3
  }

  lemma {:induction false} PackLength(s: Bytes)
    ensures |Pack(s)| == EncodedLength(|s|, false)
    decreases |s|
  {
    hide Sextet0, Sextet1, Sextet2, Sextet3, Symbol;
    if |s| >= 3 {
      PackLength(s[3..]);
    }
  }

  lemma EncodeLength(s: Bytes, padded: bool)
    ensures |Encode(s, padded)| == EncodedLength(|s|, padded)
    ensures |Encode(s, padded)| % 4 == if padded || |s| % 3 == 0 then 0 else 1 + |s| % 3
  {
    hide Pack;
    PackLength(s);
  }

  /** One block of three bytes, then the rest. */
  lemma EncodeStep(s: Bytes, padded: bool)
    requires |s| >= 3
    ensures Encode(s, padded) == Spell(Sextets(s[0], s[1], s[2])) + Encode(s[3..], padded)
  {
    hide Sextets, Symbol, Pack;
    PackStep(s);
    SpellAppend(Sextets(s[0], s[1], s[2]), Pack(s[3..]));
    SamePadding(|s|);
    Associative(Spell(Sextets(s[0], s[1], s[2])), Spell(Pack(s[3..])), if padded then Padding(|s|) else []);
  }

  lemma SpellAppend(v: Bytes, w: Bytes)
    requires forall k | 0 <= k < |v| :: v[k] < 64
    requires forall k | 0 <= k < |w| :: w[k] < 64
    ensures Spell(v + w) == Spell(v) + Spell(w)
  {
    hide Symbol;
  }

  lemma SamePadding(n: nat)
    requires n >= 3
    ensures Padding(n) == Padding(n - 3)
  {
  }

  /** The characters of a last block of `left` bytes. */
  function LastBlock(v: Bytes, left: nat, padded: bool): Bytes
    requires |v| == 4 && forall k | 0 <= k < 4 :: v[k] < 64
  {
    [Symbol(v[0]), Symbol(v[1])]
    + (if left > 1 then [Symbol(v[2])] else if padded then [PAD] else [])
    + (if left > 2 then [Symbol(v[3])] else if padded then [PAD] else [])
  }

  lemma LastBlockAt(v: Bytes, left: nat, padded: bool)
    requires |v| == 4 && (forall k | 0 <= k < 4 :: v[k] < 64) && 1 <= left <= 3
    ensures var t := LastBlock(v, left, padded);
            && |t| == (if padded then 4 else left + 1)
            && t[0] == Symbol(v[0]) && t[1] == Symbol(v[1])
            && (|t| > 2 ==> t[2] == if left > 1 then Symbol(v[2]) else PAD)
            && (|t| > 3 ==> t[3] == if left > 2 then Symbol(v[3]) else PAD)
  {
    hide Symbol;
  }

  lemma EncodeLast(s: Bytes, padded: bool)
    requires 1 <= |s| <= 3
    ensures var v := Sextets(s[0], if |s| > 1 then s[1] else 0, if |s| > 2 then s[2] else 0);
            Encode(s, padded) == LastBlock(v, |s|, padded)
  {
    hide Sextets, Symbol;
    var v := Sextets(s[0], if |s| > 1 then s[1] else 0, if |s| > 2 then s[2] else 0);
    if |s| == 3 {
      assert s[3..] == [];
      assert Pack(s) == v;
    }
    assert Encode(s, padded) == Spell(v[..|s| + 1]) + if padded then Padding(|s|) else [];
  }

  /** Where block `i` of a text of `n` bytes begins and ends, in the text and in the output. */
  lemma BlockBounds(n: nat, i: nat, padded: bool)
    requires i < (n + 2) / 3
    ensures if i + 1 < (n + 2) / 3 then i * 3 + 3 < n && i * 4 + 4 <= EncodedLength(n, padded)
            else 1 <= n - i * 3 <= 3 && EncodedLength(n, padded) == i * 4 + if padded then 4 else n - i * 3 + 1
  {
  }

  lemma EncodeNothing(padded: bool)
    ensures Encode([], padded) == []
  {
  }

  method EncodeBytes(input: Bytes, padded: bool) returns (result: Bytes)
    ensures result == Encode(input, padded)
  {
    hide Encode, EncodedLength, Spell, Padding, Sextets, LastBlock;
    var n := |input|;
    var blockCount := (n + 2) / 3;
    var outp := new Byte[EncodedLength(n, padded)];
    EncodeLength(input, padded);
    assert input[0..] == input;
    if blockCount == 0 { EncodeNothing(padded); }
    var i := 0;
    while i < blockCount
      invariant i <= blockCount && (i < blockCount ==> i * 3 <= n && i * 4 <= outp.Length)
      invariant i < blockCount ==> outp[..i * 4] + Encode(input[i * 3..], padded) == Encode(input, padded)
      invariant i == blockCount ==> outp[..] == Encode(input, padded)
    {
      BlockBounds(n, i, padded);
      var i0 := input[i * 3];
      var i1 := if n > i * 3 + 1 then input[i * 3 + 1] else 0;
      var i2 := if n > i * 3 + 2 then input[i * 3 + 2] else 0;
      var n0, n1, n2, n3 := Split(i0, i1, i2);
      ghost var done, rest := outp[..i * 4], input[i * 3..];
      if i != blockCount - 1 {
        WriteBlock(outp, i * 4, n0, n1, n2, n3);
        EncodeStep(rest, padded);
        assert rest[3..] == input[i * 3 + 3..];
        Associative(done, Spell(Sextets(i0, i1, i2)), Encode(rest[3..], padded));
      } else {
        WriteLastBlock(outp, i * 4, n - i * 3, padded, n0, n1, n2, n3);
        EncodeLast(rest, padded);
      }
      i := i + 1;
    }
    result := outp[..];
  }

  method Split(i0: Byte, i1: Byte, i2: Byte) returns (n0: Byte, n1: Byte, n2: Byte, n3: Byte)
    ensures Sextets(i0, i1, i2) == [n0, n1, n2, n3]
    ensures n0 < 64 && n1 < 64 && n2 < 64 && n3 < 64
  {
    n0 := (i0 >> 2) & 0x3F;
    n1 := ((i0 & 3) << 4) | ((i1 >> 4) & 0xF);
    n2 := ((i1 & 0xF) << 2) | ((i2 >> 6) & 3);
    n3 := i2 & 0x3F;
  }

  method WriteBlock(outp: array<Byte>, at: nat, n0: Byte, n1: Byte, n2: Byte, n3: Byte)
    requires at + 4 <= outp.Length && n0 < 64 && n1 < 64 && n2 < 64 && n3 < 64
    modifies outp
    ensures outp[..at + 4] == old(outp[..at]) + Spell([n0, n1, n2, n3])
  {
    hide Symbol;
    outp[at] := Symbol(n0);
    outp[at + 1] := Symbol(n1);
    outp[at + 2] := Symbol(n2);
    outp[at + 3] := Symbol(n3);
  }

  /** The block of the last `left` bytes ends the output. */
  method WriteLastBlock(outp: array<Byte>, at: nat, left: nat, padded: bool, n0: Byte, n1: Byte, n2: Byte, n3: Byte)
    requires 1 <= left <= 3 && outp.Length == at + if padded then 4 else left + 1
    requires n0 < 64 && n1 < 64 && n2 < 64 && n3 < 64
    modifies outp
    ensures outp[..] == old(outp[..at]) + LastBlock([n0, n1, n2, n3], left, padded)
  {
    hide Symbol, LastBlock;
    outp[at] := Symbol(n0);
    outp[at + 1] := Symbol(n1);
    WriteOrPad(outp, at + 2, left > 1, padded, n2);
    WriteOrPad(outp, at + 3, left > 2, padded, n3);
    LastBlockAt([n0, n1, n2, n3], left, padded);
    assert outp[at..] == LastBlock([n0, n1, n2, n3], left, padded);
    assert outp[..at] == old(outp[..at]);
    assert outp[..] == outp[..at] + outp[at..];
  }

  method WriteOrPad(outp: array<Byte>, at: nat, present: bool, padded: bool, n: Byte)
    requires n < 64 && (present || padded ==> at < outp.Length)
    modifies outp
    ensures present ==> outp[at] == Symbol(n)
    ensures !present && padded ==> outp[at] == PAD
    ensures forall k | 0 <= k < outp.Length && (k == at ==> !present && !padded) :: outp[k] == old(outp[k])
  {
    hide Symbol;
    if present {
      outp[at] := Symbol(n);
    } else if padded {
      outp[at] := PAD;
    }
  }

  // ---- what decoding means ----------------------------------------------------------

  datatype Result = Ok(data: Bytes) | UnexpectedEnd | InvalidPad | InvalidCharacter(at: nat)

  /** `strchr` also finds the zero that ends the list of skip characters. */
  predicate Skipped(skip: Bytes, b: Byte) { b == 0 || b in skip }

  predicate Acceptable(skip: Bytes, b: Byte) { Value(b) != NO_VALUE || Skipped(skip, b) }

  /** The position of the first character, from `p` on, that is neither a symbol nor skipped. */
  function FirstUnreadable(t: Bytes, skip: Bytes, p: nat): (q: nat)
    requires p <= |t|
    ensures p <= q <= |t|
    ensures forall k | p <= k < q :: Acceptable(skip, t[k])
    ensures q < |t| ==> !Acceptable(skip, t[q])
    decreases |t| - p
  {
    if p == |t| || !Acceptable(skip, t[p]) then p else FirstUnreadable(t, skip, p + 1)
  }

  function ValueOrNothing(b: Byte): Bytes { if Value(b) == NO_VALUE then [] else [Value(b)] }

  /** The values of the symbols and pads of a text, in order. */
  function Symbols(t: Bytes): Bytes {
    if t == [] then [] else Symbols(t[..|t| - 1]) + ValueOrNothing(t[|t| - 1])
  }

  /** A pad among the first two of four, or a symbol behind a pad. */
  predicate MisplacedAt(v: Bytes, k: nat)
    requires k < |v|
  {
    (v[k] == PAD_VALUE && k % 4 < 2) || (k % 4 == 3 && v[k - 1] == PAD_VALUE && v[k] != PAD_VALUE)
  }

  ghost predicate PadMisplaced(v: Bytes) {
    exists k | 0 <= k < |v| :: MisplacedAt(v, k)
  }

  /** One symbol alone behind the last group of four, or only skipped characters behind it. */
  predicate CutShort(t: Bytes) {
    || |Symbols(t)| % 4 == 1
    || (|Symbols(t)| % 4 == 0 && t != [] && Value(t[|t| - 1]) == NO_VALUE)
  }

  /** The bytes of one group. */
  function Triple(i0: Byte, i1: Byte, i2: Byte, i3: Byte): Bytes {
    [(i0 << 2) | ((i1 >> 4) & 3)]
    + (if i2 != PAD_VALUE then [((i1 & 0xF) << 4) | ((i2 >> 2) & 0xF)] else [])
    + (if i2 != PAD_VALUE && i3 != PAD_VALUE then [((i2 & 3) << 6) | i3] else [])
  }

  /** The bytes of a list of values, where missing ones at the end count as pads. */
  function Unpack(v: Bytes): Bytes {
    if |v| < 2 then []
    else
      Triple(v[0], v[1], if |v| > 2 then v[2] else PAD_VALUE, if |v| > 3 then v[3] else PAD_VALUE)
      + if |v| > 4 then Unpack(v[4..]) else []
  }

  /** The first thing wrong with a text, or its bytes. */
  ghost function Decode(t: Bytes, skip: Bytes): Result {
    var p := FirstUnreadable(t, skip, 0);
    var v := Symbols(t[..p]);
    if PadMisplaced(v) then InvalidPad
    else if p < |t| then InvalidCharacter(p)
    else if CutShort(t) then UnexpectedEnd
    else Ok(Unpack(v))
  }

  /** In whole groups of four the pads are the last one or the last two of their group, or none. */
  lemma WellPaddedExactlyWhen(v: Bytes)
    requires |v| % 4 == 0
    ensures !PadMisplaced(v) <==>
              forall g: nat | g * 4 < |v| ::
                v[g * 4] != 64 && v[g * 4 + 1] != 64 && (v[g * 4 + 2] == 64 ==> v[g * 4 + 3] == 64)
  {
    if PadMisplaced(v) {
      var k :| 0 <= k < |v| && MisplacedAt(v, k);
      var g: nat := k / 4;
      assert v[g * 4] == 64 || v[g * 4 + 1] == 64 || (v[g * 4 + 2] == 64 && v[g * 4 + 3] != 64);
    } else {
      forall g: nat | g * 4 < |v|
        ensures v[g * 4] != 64 && v[g * 4 + 1] != 64 && (v[g * 4 + 2] == 64 ==> v[g * 4 + 3] == 64)
      {
        assert !MisplacedAt(v, g * 4) && !MisplacedAt(v, g * 4 + 1) && !MisplacedAt(v, g * 4 + 3);
      }
    }
  }

  /** What one character alone gives: a zero is passed over also where no list of skip characters names it. */
  lemma OneCharacterAlone(b: Byte, skip: Bytes)
    ensures Decode([b], skip) ==
              if b == 0x3D then InvalidPad
              else if Value(b) < 64 || b == 0 || b in skip then UnexpectedEnd
              else InvalidCharacter(0)
  {
    hide Value;
    SymbolsAndValues(0, b);
    var t := [b];
    SymbolsStep(t, 0);
    assert t[..0] == [] && t[..1] == t;
    if Acceptable(skip, b) { assert FirstUnreadable(t, skip, 0) == 1; } else { assert FirstUnreadable(t, skip, 0) == 0; }
    if Value(b) == PAD_VALUE { assert MisplacedAt(Symbols(t), 0); }
  }

  lemma SymbolsStep(t: Bytes, p: nat)
    requires p < |t|
    ensures Symbols(t[..p + 1]) == Symbols(t[..p]) + ValueOrNothing(t[p])
  {
    assert t[..p + 1][..p] == t[..p];
  }

  lemma {:induction false} SymbolsPrefix(t: Bytes, p: nat, q: nat)
    requires p <= q <= |t|
    ensures Symbols(t[..p]) <= Symbols(t[..q])
    decreases q - p
  {
    hide Symbols;
    if p < q {
      SymbolsPrefix(t, p, q - 1);
      SymbolsStep(t, q - 1);
    }
  }

  lemma {:induction false} SymbolsAppend(a: Bytes, b: Bytes)
    ensures Symbols(a + b) == Symbols(a) + Symbols(b)
    decreases |b|
  {
    if b == [] {
      assert a + b == a;
    } else {
      assert (a + b)[..|a + b| - 1] == a + b[..|b| - 1];
      SymbolsAppend(a, b[..|b| - 1]);
      Associative(Symbols(a), Symbols(b[..|b| - 1]), ValueOrNothing(b[|b| - 1]));
    }
  }

  lemma MisplacedInPrefix(v: Bytes, w: Bytes)
    requires v <= w && PadMisplaced(v)
    ensures PadMisplaced(w)
  {
    hide MisplacedAt;
    var k :| 0 <= k < |v| && MisplacedAt(v, k);
    assert MisplacedAt(w, k) by { SameMisplaced(v, w, k); }
  }

  lemma SameMisplaced(v: Bytes, w: Bytes, k: nat)
    requires v <= w && k < |v|
    ensures MisplacedAt(v, k) <==> MisplacedAt(w, k)
  {
    if k > 0 { assert v[k - 1] == w[k - 1]; }
  }

  /** One more value is misplaced, or what was misplaced before. */
  lemma MisplacedStep(v: Bytes, x: Byte)
    ensures PadMisplaced(v + [x]) <==> PadMisplaced(v) || MisplacedAt(v + [x], |v|)
  {
    hide MisplacedAt;
    if PadMisplaced(v) { MisplacedInPrefix(v, v + [x]); }
    if PadMisplaced(v + [x]) && !MisplacedAt(v + [x], |v|) {
      var k :| 0 <= k < |v + [x]| && MisplacedAt(v + [x], k);
      SameMisplaced(v, v + [x], k);
    }
  }

  lemma UnpackStep(v: Bytes)
    ensures v == [] ==> Unpack(v) == []
    ensures |v| >= 4 ==> Unpack(v) == Triple(v[0], v[1], v[2], v[3]) + Unpack(v[4..])
  {
    hide Triple;
  }

  /** Whole groups of values are unpacked one after another. */
  lemma {:induction false} UnpackAppend(v: Bytes, w: Bytes)
    requires |v| % 4 == 0
    ensures Unpack(v + w) == Unpack(v) + Unpack(w)
    decreases |v|
  {
    hide Triple, Unpack;
    UnpackStep(v);
    if v == [] {
      assert v + w == w;
    } else {
      UnpackAppend(v[4..], w);
      UnpackStep(v + w);
      assert (v + w)[4..] == v[4..] + w;
      Associative(Triple(v[0], v[1], v[2], v[3]), Unpack(v[4..]), Unpack(w));
    }
  }

  // ---- round trips ------------------------------------------------------------------

  lemma {:induction false} SymbolsOfClean(t: Bytes)
    requires forall k | 0 <= k < |t| :: Value(t[k]) != NO_VALUE
    ensures |Symbols(t)| == |t| && forall k | 0 <= k < |t| :: Symbols(t)[k] == Value(t[k])
    decreases |t|
  {
    hide Value;
    if t != [] { SymbolsOfClean(t[..|t| - 1]); }
  }

  function PadValues(n: nat): Bytes {
    if n % 3 == 1 then [PAD_VALUE, PAD_VALUE] else if n % 3 == 2 then [PAD_VALUE] else []
  }

  lemma SymbolsOfEncode(s: Bytes, padded: bool)
    ensures forall k | 0 <= k < |Encode(s, padded)| :: Value(Encode(s, padded)[k]) != NO_VALUE
    ensures |Symbols(Encode(s, padded))| == |Encode(s, padded)|
    ensures Symbols(Encode(s, padded)) == Pack(s) + if padded then PadValues(|s|) else []
  {
    hide Value, Symbol, Symbols, Pack;
    var t, v := Encode(s, padded), Pack(s) + if padded then PadValues(|s|) else [];
    forall k | 0 <= k < |t| ensures Value(t[k]) == v[k] <= PAD_VALUE {
      if k < |Pack(s)| { SymbolsAndValues(v[k], t[k]); } else { SymbolsAndValues(0, t[k]); }
    }
    SymbolsOfClean(t);
  }

  /** Behind the values of a last block only the last two places of a group are left. */
  lemma LastGroup(n: nat, packed: nat, k: nat)
    requires packed == EncodedLength(n, false) && n % 3 != 0
    requires packed <= k < packed + 3 - n % 3
    ensures k % 4 >= 2
  {
    var q := n / 3;
    PlaceInGroup(q, k - 4 * q, k);
  }

  lemma PlaceInGroup(q: nat, c: int, k: nat)
    requires k == 4 * q + c && 0 <= c < 4
    ensures k % 4 == c
  {
    assert k / 4 == q;
  }

  lemma EncodeIsWellPadded(s: Bytes, padded: bool)
    ensures !PadMisplaced(Pack(s) + if padded then PadValues(|s|) else [])
  {
    hide Pack;
    PackLength(s);
    var p := Pack(s);
    var v := p + if padded then PadValues(|s|) else [];
    forall k | 0 <= k < |v| ensures !MisplacedAt(v, k) {
      if k < |p| {
        assert v[k] == p[k] < 64;
        if k > 0 { assert v[k - 1] == p[k - 1] < 64; }
      } else {
        assert v[k] == PAD_VALUE;
        assert padded && |s| % 3 != 0 && k < |p| + 3 - |s| % 3;
        LastGroup(|s|, |p|, k);
      }
    }
  }

  lemma PackStep(s: Bytes)
    requires |s| >= 3
    ensures Pack(s) == Sextets(s[0], s[1], s[2]) + Pack(s[3..])
  {
    hide Sextets;
  }

  lemma UnpackPackTail(s: Bytes, padded: bool)
    requires |s| <= 2
    ensures Unpack(Pack(s) + if padded then PadValues(|s|) else []) == s
  {
    hide Sextets, Triple;
    if s != [] {
      var v := Sextets(s[0], if |s| > 1 then s[1] else 0, 0);
      TripleOfSextets(s[0], if |s| > 1 then s[1] else 0, 0);
      var w := Pack(s) + if padded then PadValues(|s|) else [];
      assert |w| == if padded then 4 else |s| + 1;
      assert w[0] == v[0] && w[1] == v[1];
      if |s| == 2 { assert w[2] == v[2]; }
      assert Unpack(w) == Triple(w[0], w[1], if |w| > 2 then w[2] else PAD_VALUE, PAD_VALUE);
    }
  }

  lemma TripleOfSextets(i0: Byte, i1: Byte, i2: Byte)
    ensures var v := Sextets(i0, i1, i2);
            && Triple(v[0], v[1], v[2], v[3]) == [i0, i1, i2]
            && (i2 == 0 ==> Triple(v[0], v[1], v[2], PAD_VALUE) == [i0, i1])
            && (i1 == 0 ==> Triple(v[0], v[1], PAD_VALUE, PAD_VALUE) == [i0])
  {
  }

  lemma {:induction false} UnpackPack(s: Bytes, padded: bool)
    ensures Unpack(Pack(s) + if padded then PadValues(|s|) else []) == s
    decreases |s|
  {
    hide Sextets, Triple, Pack, Unpack;
    var pads := if padded then PadValues(|s|) else [];
    if |s| >= 3 {
      var block, rest := Sextets(s[0], s[1], s[2]), Pack(s[3..]);
      UnpackPack(s[3..], padded);
      PackStep(s);
      TripleOfSextets(s[0], s[1], s[2]);
      Associative(block, rest, pads);
      UnpackStep(block + (rest + pads));
      assert (block + (rest + pads))[4..] == rest + pads;
      assert s == [s[0], s[1], s[2]] + s[3..];
    } else {
      UnpackPackTail(s, padded);
    }
  }

  ghost predicate Readable(t: Bytes, skip: Bytes) {
    forall k | 0 <= k < |t| :: Acceptable(skip, t[k])
  }

  /**
   A text with the symbols of an encoding, and only skipped characters between them, decodes
   to what was encoded, except exactly when skipped characters follow a whole last group.
   */
  lemma RoundTripExactlyWhen(s: Bytes, padded: bool, t: Bytes, skip: Bytes)
    requires Readable(t, skip) && Symbols(t) == Symbols(Encode(s, padded))
    ensures Decode(t, skip) ==
            if (padded || |s| % 3 == 0) && t != [] && Value(t[|t| - 1]) == NO_VALUE
            then UnexpectedEnd else Ok(s)
  {
    hide Symbols, Value, Pack, Unpack, Encode, PadMisplaced, Acceptable, PadValues, Decode;
    SymbolsOfEncode(s, padded);
    EncodeIsWellPadded(s, padded);
    EncodeLength(s, padded);
    UnpackPack(s, padded);
    ReadableDecode(t, skip);
  }

  /** Decoding undoes encoding. */
  lemma RoundTrip(s: Bytes, padded: bool, skip: Bytes)
    ensures Decode(Encode(s, padded), skip) == Ok(s)
  {
    hide Symbols, Value, Pack, Encode, Decode;
    SymbolsOfEncode(s, padded);
    RoundTripExactlyWhen(s, padded, Encode(s, padded), skip);
  }

  /** A line end behind a padded encoding. */
  lemma TrailingLineEndExample(s: Bytes)
    requires s != []
    ensures Decode(Encode(s, true) + [0x0D, 0x0A], [0x0D, 0x0A]) == UnexpectedEnd
  {
    hide Symbols, Pack, Encode, Decode;
    var e, crlf: Bytes := Encode(s, true), [0x0D, 0x0A];
    SymbolsOfEncode(s, true);
    GapSymbols(crlf, crlf, 0, 2);
    NothingRead(crlf, crlf);
    assert crlf[..2] == crlf && crlf[..0] == [];
    SymbolsAppend(e, crlf);
    assert Symbols(e) + [] == Symbols(e);
    RoundTripExactlyWhen(s, true, e + crlf, crlf);
  }

  /** Behind whole groups, a second text is decoded as if it stood alone. */
  lemma DecodeAppend(x: Bytes, y: Bytes, skip: Bytes)
    requires Readable(x, skip) && Readable(y, skip)
    requires Decode(x, skip).Ok? && Decode(y, skip).Ok? && |Symbols(x)| % 4 == 0
    ensures Decode(x + y, skip) == Ok(Decode(x, skip).data + Decode(y, skip).data)
  {
    hide Symbols, Value, Unpack, Acceptable, PadMisplaced, Decode, CutShort;
    ReadableDecode(x, skip);
    ReadableDecode(y, skip);
    ReadableDecode(x + y, skip);
    SymbolsAppend(x, y);
    UnpackAppend(Symbols(x), Symbols(y));
    MisplacedInOneOf(Symbols(x), Symbols(y));
    CutShortAppend(x, y);
  }

  lemma WholeGroups(a: nat, b: nat)
    requires a % 4 == 0
    ensures (a + b) % 4 == b % 4
  {
    PlaceInGroup(a / 4 + b / 4, b % 4, a + b);
  }

  lemma CutShortAppend(x: Bytes, y: Bytes)
    requires |Symbols(x)| % 4 == 0 && !CutShort(x) && !CutShort(y)
    ensures !CutShort(x + y)
  {
    hide Symbols, Value;
    SymbolsAppend(x, y);
    WholeGroups(|Symbols(x)|, |Symbols(y)|);
    if y == [] { assert x + y == x; } else { assert (x + y)[|x + y| - 1] == y[|y| - 1]; }
  }

  lemma ReadableDecode(t: Bytes, skip: Bytes)
    requires Readable(t, skip)
    ensures Decode(t, skip) == if PadMisplaced(Symbols(t)) then InvalidPad
                               else if CutShort(t) then UnexpectedEnd else Ok(Unpack(Symbols(t)))
  {
    hide Symbols, Value, Unpack, Acceptable, PadMisplaced, CutShort;
    assert FirstUnreadable(t, skip, 0) == |t|;
    assert t[..|t|] == t;
  }

  lemma MisplacedInOneOf(v: Bytes, w: Bytes)
    requires |v| % 4 == 0 && !PadMisplaced(v) && !PadMisplaced(w)
    ensures !PadMisplaced(v + w)
  {
    forall k | 0 <= k < |v + w| ensures !MisplacedAt(v + w, k) {
      if k < |v| {
        SameMisplaced(v, v + w, k);
      } else {
        WholeGroups(|v|, k - |v|);
        assert !MisplacedAt(w, k - |v|);
        if k > |v| { assert (v + w)[k - 1] == w[k - 1 - |v|]; }
      }
    }
  }

  lemma WholeEncoding(s: Bytes, skip: Bytes)
    ensures Readable(Encode(s, true), skip) && |Symbols(Encode(s, true))| % 4 == 0
  {
    hide Symbols, Value, Encode, Pack, PadValues;
    SymbolsOfEncode(s, true);
    EncodeLength(s, true);
  }

  /** Two padded encodings one after the other decode to both texts. */
  lemma ConcatenatedEncodings(a: Bytes, b: Bytes, skip: Bytes)
    ensures Decode(Encode(a, true) + Encode(b, true), skip) == Ok(a + b)
  {
    hide Symbols, Readable, Encode, Decode;
    WholeEncoding(a, skip);
    WholeEncoding(b, skip);
    RoundTrip(a, true, skip);
    RoundTrip(b, true, skip);
    DecodeAppend(Encode(a, true), Encode(b, true), skip);
  }

  /** No bits are set that no byte uses (section 3.5 of RFC 4648). */
  predicate Canonical(v: Bytes) {
    && (|v| % 4 == 2 ==> v[|v| - 1] & 0xF == 0)
    && (|v| % 4 == 3 ==> v[|v| - 1] & 3 == 0)
  }

  /** Packing what was unpacked gives the values back exactly when they are canonical. */
  lemma {:induction false} RepackExactlyWhen(v: Bytes)
    requires |v| % 4 != 1 && forall k | 0 <= k < |v| :: v[k] < 64
    ensures Pack(Unpack(v)) == v <==> Canonical(v)
    decreases |v|
  {
    hide Sextets, Triple, Canonical, Pack, Unpack;
    if v == [] {
      UnpackStep(v);
      PackNothing();
      CanonicalTail(v, v);
    } else if |v| < 4 {
      RepackTail(v);
    } else {
      var rest := v[4..];
      RepackExactlyWhen(rest);
      UnpackStep(v);
      SextetsOfTriple(v[0], v[1], v[2], v[3]);
      var b := Triple(v[0], v[1], v[2], v[3]);
      assert (b + Unpack(rest))[3..] == Unpack(rest);
      PackStep(Unpack(v));
      assert Pack(Unpack(v)) == v[..4] + Pack(Unpack(rest));
      assert v == v[..4] + rest;
      assert (v[..4] + Pack(Unpack(rest)))[4..] == Pack(Unpack(rest));
      CanonicalTail(v, rest);
    }
  }

  lemma PackNothing()
    ensures Pack([]) == []
  {
  }

  lemma CanonicalTail(v: Bytes, rest: Bytes)
    requires if v == [] then rest == [] else |v| >= 4 && rest == v[4..]
    ensures Canonical(v) <==> Canonical(rest)
    ensures Canonical([])
  {
  }

  lemma SextetsOfTriple(n0: Byte, n1: Byte, n2: Byte, n3: Byte)
    requires n0 < 64 && n1 < 64 && n2 < 64 && n3 < 64
    ensures var b := Triple(n0, n1, n2, n3);
            |b| == 3 && Sextets(b[0], b[1], b[2]) == [n0, n1, n2, n3]
  {
  }

  lemma TailBits(n0: Byte, n1: Byte, n2: Byte)
    requires n0 < 64 && n1 < 64 && n2 <= 64
    ensures var b := Triple(n0, n1, n2, PAD_VALUE);
            if n2 == PAD_VALUE
            then |b| == 1 && Sextets(b[0], 0, 0)[..2] == [n0, n1 & 0x30]
            else |b| == 2 && Sextets(b[0], b[1], 0)[..3] == [n0, n1, n2 & 0x3C]
    ensures n1 & 0x30 == n1 <==> n1 & 0xF == 0
    ensures n2 < 64 ==> (n2 & 0x3C == n2 <==> n2 & 3 == 0)
  {
    hide Sextet0, Sextet1, Sextet2, Sextet3;
    var b := Triple(n0, n1, n2, PAD_VALUE);
    SharedBits(n0, n1, n2);
    SharedBits(n0, n1, 0);
    assert n2 == PAD_VALUE ==> |b| == 1 && b[0] == (n0 << 2) | ((n1 >> 4) & 3);
    assert n2 != PAD_VALUE ==> |b| == 2;
  }

  /** The bits of two bytes made of three values. */
  lemma SharedBits(n0: Byte, n1: Byte, n2: Byte)
    requires n0 < 64 && n1 < 64 && n2 <= 64
    ensures var b0, b1 := (n0 << 2) | ((n1 >> 4) & 3), ((n1 & 0xF) << 4) | ((n2 >> 2) & 0xF);
            && Sextet0(b0) == n0 && Sextet1(b0, 0) == n1 & 0x30
            && Sextet1(b0, b1) == n1 && (n2 < 64 ==> Sextet2(b1, 0) == n2 & 0x3C)
    ensures n1 & 0x30 == n1 <==> n1 & 0xF == 0
    ensures n2 < 64 ==> (n2 & 0x3C == n2 <==> n2 & 3 == 0)
  {
  }

  lemma RepackTail(v: Bytes)
    requires 2 <= |v| <= 3 && forall k | 0 <= k < |v| :: v[k] < 64
    ensures Pack(Unpack(v)) == v <==> Canonical(v)
  {
    hide Sextets, Triple;
    TailBits(v[0], v[1], if |v| > 2 then v[2] else PAD_VALUE);
  }

  /** A text of symbols alone is what encoding its bytes gives exactly when it is canonical. */
  lemma ReencodesExactlyWhen(t: Bytes, skip: Bytes)
    requires forall k | 0 <= k < |t| :: Value(t[k]) < PAD_VALUE
    ensures Decode(t, skip).Ok? <==> |t| % 4 != 1
    ensures Decode(t, skip).Ok? ==>
              (Encode(Decode(t, skip).data, false) == t <==> Canonical(Symbols(t)))
  {
    hide Symbols, Value, Pack, Unpack, Canonical, Symbol;
    SymbolsOfClean(t);
    ReadableDecode(t, skip);
    var v := Symbols(t);
    assert !PadMisplaced(v);
    if |t| % 4 != 1 {
      RepackExactlyWhen(v);
      SpellValues(t, v);
      var again := Pack(Unpack(v));
      assert Encode(Unpack(v), false) == Spell(again);
      SymbolsOfEncode(Unpack(v), false);
      assert Spell(again) == t ==> again == v by { assert again + [] == again; }
    }
  }

  lemma SpellValues(t: Bytes, v: Bytes)
    requires |v| == |t| && forall k | 0 <= k < |t| :: Value(t[k]) < PAD_VALUE && v[k] == Value(t[k])
    ensures Spell(v) == t
  {
    hide Value, Symbol;
    forall k | 0 <= k < |t| ensures Spell(v)[k] == t[k] {
      SymbolsAndValues(0, t[k]);
    }
  }

  // ---- the decoder ------------------------------------------------------------------

  /** From `p` to `q` every character is passed over. */
  ghost predicate Gap(t: Bytes, skip: Bytes, p: nat, q: nat) {
    p <= q <= |t| && forall k | p <= k < q :: Value(t[k]) == NO_VALUE && Skipped(skip, t[k])
  }

  lemma {:induction false} GapSymbols(t: Bytes, skip: Bytes, p: nat, q: nat)
    requires Gap(t, skip, p, q)
    ensures Symbols(t[..q]) == Symbols(t[..p])
    decreases q - p
  {
    hide Symbols, Value, Skipped;
    if p < q {
      GapSymbols(t, skip, p, q - 1);
      SymbolsStep(t, q - 1);
    }
  }

  /** The text is acceptable up to `p`, and no pad is misplaced there. */
  ghost predicate GoodPrefix(t: Bytes, skip: Bytes, p: nat) {
    && p <= |t|
    && (forall k | 0 <= k < p :: Acceptable(skip, t[k]))
    && !PadMisplaced(Symbols(t[..p]))
  }

  lemma GoodAcrossGap(t: Bytes, skip: Bytes, p: nat, q: nat)
    requires GoodPrefix(t, skip, p) && Gap(t, skip, p, q)
    ensures GoodPrefix(t, skip, q)
  {
    hide Symbols, Value, Skipped, PadMisplaced;
    GapSymbols(t, skip, p, q);
  }

  /** Reading a symbol: the prefix stays good, or the pad is misplaced in the whole text. */
  lemma GoodStep(t: Bytes, skip: Bytes, p: nat)
    requires GoodPrefix(t, skip, p) && p < |t| && Value(t[p]) != NO_VALUE
    ensures var v := Symbols(t[..p]);
            && Symbols(t[..p + 1]) == v + [Value(t[p])]
            && (GoodPrefix(t, skip, p + 1) <==> !MisplacedAt(v + [Value(t[p])], |v|))
            && (MisplacedAt(v + [Value(t[p])], |v|) ==> Decode(t, skip) == InvalidPad)
  {
    hide Symbols, Value, Skipped, PadMisplaced, MisplacedAt;
    var v, x := Symbols(t[..p]), Value(t[p]);
    SymbolsStep(t, p);
    MisplacedStep(v, x);
    if MisplacedAt(v + [x], |v|) {
      var q := FirstUnreadable(t, skip, 0);
      assert p < q;
      SymbolsPrefix(t, p + 1, q);
      MisplacedInPrefix(v + [x], Symbols(t[..q]));
    }
  }

  lemma BadCharacter(t: Bytes, skip: Bytes, q: nat)
    requires GoodPrefix(t, skip, q) && q < |t| && !Acceptable(skip, t[q])
    ensures Decode(t, skip) == InvalidCharacter(q)
  {
    hide Symbols, Value, Skipped, PadMisplaced, Acceptable;
    assert FirstUnreadable(t, skip, 0) == q;
  }

  lemma GoodToTheEnd(t: Bytes, skip: Bytes)
    requires GoodPrefix(t, skip, |t|)
    ensures Decode(t, skip) == if CutShort(t) then UnexpectedEnd else Ok(Unpack(Symbols(t)))
  {
    hide Symbols, Value, Skipped, PadMisplaced, Acceptable;
    assert FirstUnreadable(t, skip, 0) == |t|;
    assert t[..|t|] == t;
  }

  lemma EndsInGap(t: Bytes, skip: Bytes, p: nat)
    requires GoodPrefix(t, skip, |t|) && Gap(t, skip, p, |t|)
    requires |Symbols(t[..p])| % 4 == 1 || (|Symbols(t[..p])| % 4 == 0 && p < |t|)
    ensures Decode(t, skip) == UnexpectedEnd
  {
    hide Symbols, Value, Decode, GoodPrefix;
    assert t[..|t|] == t;
    GapSymbols(t, skip, p, |t|);
    GoodToTheEnd(t, skip);
  }

  datatype Slot = Read(value: Byte, next: nat) | Ended | Failed(error: Result)

  /** What one group of four leaves: its values are the first `m` slots, and pads stand for the rest. */
  ghost predicate GroupRead(t: Bytes, skip: Bytes, p: nat, next: nat, slots: Bytes, m: nat) {
    && |slots| == 4 && p < next <= |t| && GoodPrefix(t, skip, next) && 2 <= m <= 4
    && Symbols(t[..next]) == Symbols(t[..p]) + slots[..m]
    && (m == 4 ==> Value(t[next - 1]) != NO_VALUE)
    && (m < 4 ==> next == |t| && forall k | m <= k < 4 :: slots[k] == PAD_VALUE)
  }

  lemma NothingRead(t: Bytes, skip: Bytes)
    ensures GoodPrefix(t, skip, 0) && Symbols(t[..0]) == [] && Unpack([]) == []
  {
  }

  lemma UnpackGroup(slots: Bytes, m: nat)
    requires |slots| == 4 && 2 <= m <= 4
    requires forall k | m <= k < 4 :: slots[k] == PAD_VALUE
    ensures Unpack(slots[..m]) == Triple(slots[0], slots[1], slots[2], slots[3])
  {
    hide Triple;
  }

  lemma GroupUnpacked(v: Bytes, slots: Bytes, m: nat)
    requires |v| % 4 == 0 && |slots| == 4 && 2 <= m <= 4
    requires forall k | m <= k < 4 :: slots[k] == PAD_VALUE
    ensures Unpack(v + slots[..m]) == Unpack(v) + Triple(slots[0], slots[1], slots[2], slots[3])
  {
    hide Triple, Unpack;
    UnpackAppend(v, slots[..m]);
    UnpackGroup(slots, m);
  }

  /** Storing one more entry of the reverse table. */
  lemma LoadStep(i: Byte, b: Byte)
    requires i < 64
    ensures b as int == Symbol(i) as int <==> Value(b) == i
  {
    hide Symbol, Value;
    IntOfByte(b, Symbol(i));
    SymbolsAndValues(i, b);
  }

  lemma LoadEnd(b: Byte)
    ensures b as int == PAD as int <==> Value(b) == PAD_VALUE
    ensures Value(b) < 64 || Value(b) == PAD_VALUE || Value(b) == NO_VALUE
  {
    hide Value;
    SymbolsAndValues(0, b);
    IntOfByte(b, PAD);
  }

  class Codec {
    const reverseTable: array<Byte>
    var reverseTableInitialized: bool

    ghost predicate Loaded()
      reads reverseTable
    {
      reverseTable.Length == 256 && forall b: Byte :: reverseTable[b as int] == Value(b)
    }

    ghost predicate Valid()
      reads this, reverseTable
    {
      reverseTable.Length == 256 && (reverseTableInitialized ==> Loaded())
    }

    constructor ()
      ensures Valid() && fresh(reverseTable)
    {
      reverseTable := new Byte[256];
      reverseTableInitialized := false;
    }

    method InitReverseTable()
      requires Valid()
      modifies this, reverseTable
      ensures Valid() && reverseTableInitialized
    {
      hide Value, Symbol;
      forall k | 0 <= k < 256 { reverseTable[k] := NO_VALUE; }
      var i: Byte := 0;
      while i < 64
        invariant i <= 64
        invariant forall b: Byte :: reverseTable[b as int] == if Value(b) < i then Value(b) else NO_VALUE
        decreases 64 - i
      {
        reverseTable[Symbol(i) as int] := i;
        forall b: Byte ensures reverseTable[b as int] == if Value(b) < i + 1 then Value(b) else NO_VALUE {
          LoadStep(i, b);
        }
        i := i + 1;
      }
      reverseTable[PAD as int] := PAD_VALUE;
      forall b: Byte ensures reverseTable[b as int] == Value(b) {
        LoadEnd(b);
      }
      reverseTableInitialized := true;
    }

    /** The next symbol from `p` on, for slot `n` behind a slot that holds `prev`. */
    method ReadSlot(input: Bytes, skip: Bytes, p: nat, n: nat, prev: Byte) returns (s: Slot)
      requires Loaded() && n < 4 && p <= |input| && GoodPrefix(input, skip, p)
      requires var v := Symbols(input[..p]);
               if |v| % 4 == n then n == 3 ==> prev == v[|v| - 1] else p == |input| && n >= 2
      requires n == 0 ==> p < |input|
      ensures s.Failed? ==> s.error == Decode(input, skip)
      ensures s.Ended? ==> n >= 2 && GoodPrefix(input, skip, |input|)
                           && Symbols(input[..|input|]) == Symbols(input[..p])
      ensures s.Read? ==>
                && p < s.next <= |input| && GoodPrefix(input, skip, s.next)
                && Value(input[s.next - 1]) != NO_VALUE
                && Symbols(input[..s.next]) == Symbols(input[..p]) + [s.value]
    {
      hide Symbols, Decode, GoodPrefix, Value, Skipped;
      var q := p;
      while true
        invariant Gap(input, skip, p, q)
        decreases |input| - q
      {
        GoodAcrossGap(input, skip, p, q);
        GapSymbols(input, skip, p, q);
        if q >= |input| {
          if n < 2 {
            EndsInGap(input, skip, p);
            return Failed(UnexpectedEnd);
          }
          return Ended;
        }
        var value := reverseTable[input[q] as int];
        if value != NO_VALUE {
          GoodStep(input, skip, q);
          if (value == PAD_VALUE && n < 2) || (n == 3 && prev == PAD_VALUE && value != PAD_VALUE) {
            return Failed(InvalidPad);
          }
          return Read(value, q + 1);
        }
        if !Skipped(skip, input[q]) {
          BadCharacter(input, skip, q);
          return Failed(InvalidCharacter(q));
        }
        q := q + 1;
      }
    }

    method ReadGroup(input: Bytes, skip: Bytes, p: nat, i: array<Byte>)
      returns (failed: bool, error: Result, next: nat, ghost m: nat)
      requires Loaded() && i.Length == 4 && i != reverseTable
      requires p < |input| && GoodPrefix(input, skip, p) && |Symbols(input[..p])| % 4 == 0
      modifies i
      ensures failed ==> error == Decode(input, skip)
      ensures !failed ==> GroupRead(input, skip, p, next, i[..], m)
    {
      hide Symbols, Decode, GoodPrefix, Value, Skipped;
      failed, error, next, m := false, UnexpectedEnd, p, 0;
      ghost var v := Symbols(input[..p]);
      for n := 0 to 4
        invariant m <= n && next <= |input| && GoodPrefix(input, skip, next)
        invariant if n == 0 then next == p else p < next
        invariant Symbols(input[..next]) == v + i[..m]
        invariant m == n > 0 ==> Value(input[next - 1]) != NO_VALUE
        invariant m < n ==> next == |input| && 2 <= m && forall k | m <= k < n :: i[k] == PAD_VALUE
      {
        var s := ReadSlot(input, skip, next, n, if n > 0 then i[n - 1] else 0);
        match s {
          case Failed(e) =>
            failed, error := true, e;
            return;
          case Ended =>
            i[n] := PAD_VALUE;
            next := |input|;
          case Read(value, after) =>
            i[n] := value;
            next := after;
            m := m + 1;
        }
      }
    }

    method PushGroup(output: Bytes, i0: Byte, i1: Byte, i2: Byte, i3: Byte) returns (longer: Bytes)
      ensures longer == output + Triple(i0, i1, i2, i3)
    {
      var first, second, third := (i0 << 2) | ((i1 >> 4) & 3), ((i1 & 0xF) << 4) | ((i2 >> 2) & 0xF), ((i2 & 3) << 6) | i3;
      longer := output + [first];
      if i2 != PAD_VALUE {
        longer := longer + [second];
        Associative(output, [first], [second]);
      }
      if i2 != PAD_VALUE && i3 != PAD_VALUE {
        longer := longer + [third];
        Associative(output, [first] + [second], [third]);
      }
    }

    method DecodeBytes(input: Bytes, skip: Bytes) returns (r: Result)
      requires Valid()
      modifies this, reverseTable
      ensures Valid() && r == Decode(input, skip)
    {
      hide Symbols, Unpack, Decode, GoodPrefix, Triple, Value;
      if !reverseTableInitialized { InitReverseTable(); }
      var output: Bytes := [];
      var i := new Byte[4];
      var p := 0;
      NothingRead(input, skip);
      while p < |input|
        invariant Valid() && reverseTableInitialized
        invariant p <= |input| && GoodPrefix(input, skip, p)
        invariant output == Unpack(Symbols(input[..p]))
        invariant if |Symbols(input[..p])| % 4 == 0 then p == 0 || Value(input[p - 1]) != NO_VALUE
                  else p == |input| && |Symbols(input[..p])| % 4 >= 2
        decreases |input| - p
      {
        var failed, error, next, m := ReadGroup(input, skip, p, i);
        if failed { return error; }
        output := PushGroup(output, i[0], i[1], i[2], i[3]);
        GroupUnpacked(Symbols(input[..p]), i[..], m);
        p := next;
      }
      assert input[..p] == input;
      GoodToTheEnd(input, skip);
      return Ok(output);
    }
  }
}
