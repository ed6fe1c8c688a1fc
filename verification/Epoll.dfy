/**
 `epoll` over `kqueue`. What is watched of a descriptor is a word of twelve bits, kept in
 the kernel as the presence of twelve user filters.
 */
module Epoll {
  import opened Basics

  const VAL_BITS: nat := 12
  /** Keys have 20 bits. */
  const KEY_END: bv32 := 0x100000
  const VAL_END: bv16 := 0x1000

  const ENOENT: int := 2
  const EBADF: int := 9
  const EINVAL: int := 22

  // ---- words as filters -------------------------------------------------------------

  function Bit(i: nat): (b: bv16)
    requires i <= VAL_BITS
    ensures 1 <= b <= 0x1000
  {
    1 << i
  }

  lemma BitStep(i: nat)
    requires i < VAL_BITS
    ensures Bit(i) <= 0x800 && Bit(i + 1) == Bit(i) << 1
    ensures Bit(0) == 1 && Bit(12) == 0x1000
  {
  }

  lemma SameBit(i: nat, j: nat)
    requires i < VAL_BITS && j < VAL_BITS && Bit(i) == Bit(j)
    ensures i == j
  {
  }

  predicate HasBit(val: bv16, i: nat)
    requires i < VAL_BITS
  {
    val & Bit(i) != 0
  }

  /** The identifier of the filter for bit `i` of the word of `key`. */
  function Mark(key: bv32, i: nat): bv32
    requires i < VAL_BITS
  {
    key | ((Bit(i) as bv32) << 20)
  }

  /** Different descriptors and different bits have different filters. */
  lemma MarksDiffer(key: bv32, i: nat, other: bv32, j: nat)
    requires key < KEY_END && other < KEY_END && i < VAL_BITS && j < VAL_BITS
    requires Mark(key, i) == Mark(other, j)
    ensures key == other && i == j
  {
    hide Mark, Bit;
    MarkParts(key, i);
    MarkParts(other, j);
    Widened(Bit(i), Bit(j));
    SameBit(i, j);
  }

  lemma Widened(a: bv16, b: bv16)
    ensures a as bv32 == b as bv32 ==> a == b
    ensures a <= 0x800 ==> a as bv32 <= 0x800
  {
  }

  /** Key and bit can be read off the identifier. */
  lemma MarkParts(key: bv32, i: nat)
    requires key < KEY_END && i < VAL_BITS
    ensures Mark(key, i) & 0xFFFFF == key && Mark(key, i) >> 20 == Bit(i) as bv32
  {
    hide Bit;
    BitStep(i);
    Widened(Bit(i), Bit(i));
    JoinedParts(key, Bit(i) as bv32);
  }

  lemma JoinedParts(k: bv32, b: bv32)
    requires k < KEY_END && b <= 0x800
    ensures (k | (b << 20)) & 0xFFFFF == k && (k | (b << 20)) >> 20 == b
  {
  }

  /** The filters left when the first `i` bits of `val` are saved under `key`. */
  function SaveBits(user: set<bv32>, key: bv32, val: bv16, i: nat): set<bv32>
    requires i <= VAL_BITS
  {
    if i == 0 then user
    else
      var before := SaveBits(user, key, val, i - 1);
      if HasBit(val, i - 1) then before + {Mark(key, i - 1)} else before - {Mark(key, i - 1)}
  }

  function Save(user: set<bv32>, key: bv32, val: bv16): set<bv32> {
    SaveBits(user, key, val, VAL_BITS)
  }

  function SetBit(w: bv16, i: nat): bv16
    requires i < VAL_BITS
  {
    w | Bit(i)
  }

  function Ones(i: nat): bv16
    requires i <= VAL_BITS
  {
    Bit(i) - 1
  }

  /** The first `i` bits of a word. */
  function Low(val: bv16, i: nat): bv16
    requires i <= VAL_BITS
  {
    val & Ones(i)
  }

  /** The first `i` bits of the word whose filters are there. */
  function LoadBits(user: set<bv32>, key: bv32, i: nat): bv16
    requires i <= VAL_BITS
  {
    if i == 0 then 0
    else
      var w := LoadBits(user, key, i - 1);
      if Mark(key, i - 1) in user then SetBit(w, i - 1) else w
  }

  function Load(user: set<bv32>, key: bv32): bv16 {
    LoadBits(user, key, VAL_BITS)
  }

  /** Which filters saving leaves. */
  lemma {:induction false} SavedFilters(user: set<bv32>, key: bv32, val: bv16, i: nat, m: bv32)
    requires key < KEY_END && i <= VAL_BITS
    ensures m in SaveBits(user, key, val, i) <==>
            if exists j :: 0 <= j < i && m == Mark(key, j)
            then exists j :: 0 <= j < i && m == Mark(key, j) && HasBit(val, j)
            else m in user
    decreases i
  {
    hide Bit, HasBit, Mark;
    if i > 0 {
      SavedFilters(user, key, val, i - 1, m);
      if m == Mark(key, i - 1) {
        forall j | 0 <= j < i && m == Mark(key, j) ensures j == i - 1 {
          MarksDiffer(key, i - 1, key, j);
        }
      }
    }
  }

  lemma SavedBit(user: set<bv32>, key: bv32, val: bv16, j: nat)
    requires key < KEY_END && j < VAL_BITS
    ensures Mark(key, j) in Save(user, key, val) <==> HasBit(val, j)
  {
    hide Bit, HasBit, Mark, SaveBits;
    SavedFilters(user, key, val, VAL_BITS, Mark(key, j));
    forall k | 0 <= k < VAL_BITS && Mark(key, j) == Mark(key, k) ensures k == j {
      MarksDiffer(key, j, key, k);
    }
  }

  /** Reading bit by bit what was saved gives the low bits back. */
  lemma {:induction false} SavedLowBits(user: set<bv32>, key: bv32, val: bv16, i: nat)
    requires key < KEY_END && i <= VAL_BITS
    ensures LoadBits(Save(user, key, val), key, i) == Low(val, i)
    decreases i
  {
    hide Bit, Mark, Save, Low, HasBit, SetBit;
    if i > 0 {
      SavedLowBits(user, key, val, i - 1);
      SavedBit(user, key, val, i - 1);
      LowStep(val, i - 1);
    } else {
      LowEnds(val);
    }
  }

  lemma LowStep(val: bv16, i: nat)
    requires i < VAL_BITS
    ensures (if HasBit(val, i) then SetBit(Low(val, i), i) else Low(val, i)) == Low(val, i + 1)
  {
    hide HasBit, SetBit, Low, Bit;
    if HasBit(val, i) { LowStepSet(val, i); } else { LowStepClear(val, i); }
  }

  lemma LowStepSet(val: bv16, i: nat)
    requires i < VAL_BITS && HasBit(val, i)
    ensures SetBit(Low(val, i), i) == Low(val, i + 1)
  {
    hide Bit, Ones;
    OneMore(val, i);
    BitsOfTwo(val, Ones(i), Bit(i));
  }

  lemma LowStepClear(val: bv16, i: nat)
    requires i < VAL_BITS && !HasBit(val, i)
    ensures Low(val, i) == Low(val, i + 1)
  {
    hide Bit, Ones;
    OneMore(val, i);
    BitsOfTwo(val, Ones(i), Bit(i));
  }

  lemma OneMore(val: bv16, i: nat)
    requires i < VAL_BITS
    ensures Ones(i + 1) == Ones(i) | Bit(i)
    ensures val & Bit(i) == 0 || val & Bit(i) == Bit(i)
  {
  }

  lemma BitsOfTwo(val: bv16, a: bv16, b: bv16)
    ensures val & (a | b) == (val & a) | (val & b)
    ensures (val & a) | 0 == val & a
  {
  }

  lemma LowEnds(val: bv16)
    ensures Low(val, 0) == 0
    ensures val < VAL_END ==> Low(val, VAL_BITS) == val
  {
    hide Bit;
    BitStep(0);
  }

  /** Loading after saving returns the saved word. */
  lemma LoadAfterSave(user: set<bv32>, key: bv32, val: bv16)
    requires key < KEY_END && val < VAL_END
    ensures Load(Save(user, key, val), key) == val
  {
    hide Save, LoadBits, Low;
    SavedLowBits(user, key, val, VAL_BITS);
    LowEnds(val);
  }

  /** Saving for one descriptor changes what is loaded for no other. */
  lemma NoInterference(user: set<bv32>, key: bv32, val: bv16, other: bv32)
    requires key < KEY_END && other < KEY_END && key != other
    ensures Load(Save(user, key, val), other) == Load(user, other)
  {
    hide Bit, Mark, SaveBits, LoadBits, HasBit;
    forall j | 0 <= j < VAL_BITS ensures Mark(other, j) in Save(user, key, val) <==> Mark(other, j) in user {
      SavedFilters(user, key, val, VAL_BITS, Mark(other, j));
      forall k | 0 <= k < VAL_BITS ensures Mark(other, j) != Mark(key, k) {
        if Mark(other, j) == Mark(key, k) { MarksDiffer(other, j, key, k); }
      }
    }
    SameLoad(Save(user, key, val), user, other, VAL_BITS);
  }

  lemma {:induction false} SameLoad(a: set<bv32>, b: set<bv32>, key: bv32, i: nat)
    requires i <= VAL_BITS
    requires forall j | 0 <= j < i :: Mark(key, j) in a <==> Mark(key, j) in b
    ensures LoadBits(a, key, i) == LoadBits(b, key, i)
    decreases i
  {
    hide Bit, Mark, SetBit;
    if i > 0 { SameLoad(a, b, key, i - 1); }
  }

  // ---- changes to the kernel queue --------------------------------------------------

  datatype Action = Add | Delete
  datatype Change = Change(ident: bv32, action: Action)

  /** A list of changes is applied until one deletes a filter that is not there. */
  function Apply(user: set<bv32>, cs: seq<Change>): (set<bv32>, bool) {
    if cs == [] then (user, true)
    else
      var (before, ok) := Apply(user, cs[..|cs| - 1]);
      var c := cs[|cs| - 1];
      if !ok then (before, false)
      else if c.action.Add? then (before + {c.ident}, true)
      else (before - {c.ident}, c.ident in before)
  }

  /** The changes that save the first `i` bits: every filter is added, the absent ones deleted again. */
  function Changes(key: bv32, val: bv16, i: nat): (cs: seq<Change>)
    requires i <= VAL_BITS
    ensures i <= |cs| <= 2 * i
  {
    if i == 0 then []
    else
      Changes(key, val, i - 1) + [Change(Mark(key, i - 1), Add)]
      + if HasBit(val, i - 1) then [] else [Change(Mark(key, i - 1), Delete)]
  }

  lemma ApplyOne(user: set<bv32>, cs: seq<Change>, c: Change)
    requires Apply(user, cs).1
    ensures Apply(user, cs + [c]) ==
            var before := Apply(user, cs).0;
            if c.action.Add? then (before + {c.ident}, true) else (before - {c.ident}, c.ident in before)
  {
    assert (cs + [c])[..|cs + [c]| - 1] == cs;
  }

  /** Applied to any queue, the changes all succeed and leave the saved bits. */
  lemma {:induction false} ChangesSave(user: set<bv32>, key: bv32, val: bv16, i: nat)
    requires i <= VAL_BITS
    ensures Apply(user, Changes(key, val, i)) == (SaveBits(user, key, val, i), true)
    decreases i
  {
    hide Bit, HasBit, Mark, Apply;
    if i == 0 {
      ApplyNothing(user);
    } else {
      ChangesSave(user, key, val, i - 1);
      var m, cs := Mark(key, i - 1), Changes(key, val, i - 1);
      var before := SaveBits(user, key, val, i - 1);
      ApplyOne(user, cs, Change(m, Add));
      if !HasBit(val, i - 1) {
        ApplyOne(user, cs + [Change(m, Add)], Change(m, Delete));
        assert (before + {m}) - {m} == before - {m};
      } else {
        assert cs + [Change(m, Add)] + [] == cs + [Change(m, Add)];
      }
    }
  }

  lemma ApplyNothing(user: set<bv32>)
    ensures Apply(user, []) == (user, true)
  {
  }

  // ---- epoll_ctl on words -----------------------------------------------------------

  const REGISTERED: bv16 := 0x1
  const STATE_IN: bv16 := 0x2
  const STATE_OUT: bv16 := 0x4
  const STATE_RDHUP: bv16 := 0x8
  const STATE_PRI: bv16 := 0x10
  const ISFIFO: bv16 := 0x40
  const ISSOCK: bv16 := 0x80

  const EPOLLIN: bv32 := 0x1
  const EPOLLPRI: bv32 := 0x2
  const EPOLLOUT: bv32 := 0x4
  const EPOLLERR: bv32 := 0x8
  const EPOLLHUP: bv32 := 0x10
  const EPOLLRDHUP: bv32 := 0x2000
  const EPOLLET: bv32 := 0x8000_0000
  const ALLOWED: bv32 := EPOLLIN | EPOLLOUT | EPOLLHUP | EPOLLRDHUP | EPOLLERR | EPOLLPRI | EPOLLET

  datatype Op = CtlAdd | CtlDel | CtlMod | CtlOther
  datatype FileType = Fifo | Socket | OtherFile
  datatype Receipt = Receipt(error: bool, data: int)

  /**
   What the kernel does during one call: errors (or 0) of loading and of the two savings, the
   outcome of changing the read and write filters, and the file's type, unless that fails.
   */
  datatype Kernel = Kernel(loadError: nat, saveError: nat, ret: int, errno: int,
                           read: Receipt, write: Receipt, stat: Option<FileType>, againError: nat)

  /** `fd2` is the bit pattern of the descriptor. */
  datatype Call = Call(op: Op, fd2: bv32, events: Option<bv32>, kernel: Kernel)

  datatype Status = Done | Failed(errno: int)

  /** What a word says of a descriptor. */
  datatype Interest = Unregistered | Registered(input: bool, output: bool, hangUp: bool, urgent: bool)

  function InterestOf(w: bv16): Interest {
    if w & REGISTERED == 0 then Unregistered
    else Registered(w & STATE_IN != 0, w & STATE_OUT != 0, w & STATE_RDHUP != 0, w & STATE_PRI != 0)
  }

  function Asked(events: bv32): Interest {
    Registered(events & EPOLLIN != 0, events & EPOLLOUT != 0, events & EPOLLRDHUP != 0, events & EPOLLPRI != 0)
  }

  function SetFlag(w: bv16, on: bool, flag: bv16): bv16 { if on then w | flag else w }
  function PutFlag(w: bv16, on: bool, flag: bv16): bv16 { if on then w | flag else w & !flag }

  function TypeBits(stat: FileType): bv16 {
    match stat
    case Fifo => ISFIFO
    case Socket => ISSOCK
    case OtherFile => 0
  }

  predicate BadEvents(c: Call) {
    (c.events.None? && !c.op.CtlDel?) || (c.events.Some? && c.events.value & !ALLOWED != 0)
  }

  /** Negative, or too large for a key. */
  predicate BadDescriptor(fd: bv32)
    ensures BadDescriptor(fd) <==> fd >= KEY_END
  {
    fd & 0x8000_0000 != 0 || fd & !((1 << 20) - 1) != 0
  }

  predicate IsRegistered(w: bv16) { w & REGISTERED != 0 }

  /** The error of a call that gets no further than looking at the word. */
  function EarlyError(w: bv16, c: Call): (e: Option<int>)
    ensures e.None? ==> c.fd2 < KEY_END && !c.op.CtlOther? && (c.events.None? ==> c.op.CtlDel?)
  {
    if BadEvents(c) then Some(EINVAL)
    else if BadDescriptor(c.fd2) then Some(EBADF)
    else if c.kernel.loadError != 0 then Some(-(c.kernel.loadError as int))
    else if c.op.CtlOther? then Some(EINVAL)
    else if !c.op.CtlAdd? && !IsRegistered(w) then Some(ENOENT)
    else if c.kernel.saveError != 0 then Some(-(c.kernel.saveError as int))
    else None
  }

  /** The word saved first. */
  function NewWord(w: bv16, op: Op, events: Option<bv32>): (n: bv16)
    requires !op.CtlOther? && (events.None? ==> op.CtlDel?)
    ensures w < VAL_END ==> n < VAL_END
  {
    match op
    case CtlAdd =>
      var ev := events.value;
      SetFlag(SetFlag(SetFlag(SetFlag(REGISTERED,
        ev & EPOLLIN != 0, STATE_IN),
        ev & EPOLLOUT != 0, STATE_OUT),
        ev & EPOLLRDHUP != 0, STATE_RDHUP),
        ev & EPOLLPRI != 0, STATE_PRI)
    case CtlMod =>
      var ev := events.value;
      PutFlag(PutFlag(PutFlag(PutFlag(w,
        ev & EPOLLIN != 0, STATE_IN),
        ev & EPOLLOUT != 0, STATE_OUT),
        ev & EPOLLRDHUP != 0, STATE_RDHUP),
        ev & EPOLLPRI != 0, STATE_PRI)
    case CtlDel => 0
  }

  /** The error of a call that fails behind its first saving. */
  function LateError(k: Kernel): (e: Option<int>)
    ensures e.None? ==> k.stat.Some?
  {
    if k.ret < 0 then Some(k.errno)
    else if k.ret != 2 then Some(EINVAL)
    else if !k.read.error then Some(EINVAL)
    else if k.read.data != 0 then Some(k.read.data)
    else if !k.write.error then Some(EINVAL)
    else if k.write.data != EINVAL && k.write.data != 0 then Some(k.write.data)
    else if k.stat.None? then Some(k.errno)
    else if k.againError != 0 then Some(-(k.againError as int))
    else None
  }

  /** The word a call leaves for its own descriptor, and its status. */
  function CtlWord(w: bv16, c: Call): (bv16, Status) {
    match EarlyError(w, c)
    case Some(e) => (w, Failed(e))
    case None =>
      var n := NewWord(w, c.op, c.events);
      match LateError(c.kernel)
      case Some(e) => (n, Failed(e))
      case None => (n | TypeBits(c.kernel.stat.value), Done)
  }

  /**
   A call succeeds exactly when it is one of the three operations on a descriptor below 2^20
   and on events that exist, is not refused for want of a registration, can load and save, and
   the kernel answers for both filters: with no error for the read filter, and with none but
   22, which it gives for files that cannot be watched for writing, for the other.
   */
  lemma CtlSucceedsExactlyWhen(w: bv16, c: Call)
    ensures CtlWord(w, c).1 == Done <==>
              && (c.op.CtlAdd? || ((c.op.CtlMod? || c.op.CtlDel?) && w & 1 != 0))
              && (if c.events.Some? then c.events.value & 0x7FFF_DFE0 == 0 else c.op.CtlDel?)
              && c.fd2 < 0x10_0000
              && c.kernel.loadError == 0 && c.kernel.saveError == 0 && c.kernel.againError == 0
              && c.kernel.ret == 2 && c.kernel.stat.Some?
              && c.kernel.read.error && c.kernel.read.data == 0
              && c.kernel.write.error && (c.kernel.write.data == 0 || c.kernel.write.data == 22)
  {
    hide NewWord, TypeBits, EarlyError;
    SavesExactlyWhen(w, c);
  }

  lemma SavesExactlyWhen(w: bv16, c: Call)
    ensures EarlyError(w, c).None? <==>
              && (c.op.CtlAdd? || ((c.op.CtlMod? || c.op.CtlDel?) && w & 1 != 0))
              && (if c.events.Some? then c.events.value & 0x7FFF_DFE0 == 0 else c.op.CtlDel?)
              && c.fd2 < 0x10_0000 && c.kernel.loadError == 0 && c.kernel.saveError == 0
  {
    hide BadEvents, BadDescriptor, IsRegistered;
    BadEventsExactlyWhen(c);
    RegisteredBit(w);
  }

  lemma BadEventsExactlyWhen(c: Call)
    ensures BadEvents(c) <==> if c.events.Some? then c.events.value & 0x7FFF_DFE0 != 0 else !c.op.CtlDel?
  {
    assert !ALLOWED == 0x7FFF_DFE0;
  }

  lemma RegisteredBit(w: bv16)
    ensures IsRegistered(w) <==> w & 1 != 0
  {
  }

  /** The errors of calls that the kernel, or looking at the file, makes fail behind the first saving. */
  lemma LateFailureIs(w: bv16, c: Call)
    requires EarlyError(w, c).None?
    ensures var k, status := c.kernel, CtlWord(w, c).1;
            && (k.ret < 0 ==> status == Failed(k.errno))
            && (k.ret >= 0 && k.ret != 2 ==> status == Failed(22))
            && (k.ret == 2 && !k.read.error ==> status == Failed(22))
            && (k.ret == 2 && k.read.error && k.read.data != 0 ==> status == Failed(k.read.data))
            && (k.ret == 2 && k.read.error && k.read.data == 0 ==>
                  && (!k.write.error ==> status == Failed(22))
                  && (k.write.error && k.write.data != 0 && k.write.data != 22 ==> status == Failed(k.write.data))
                  && (k.write.error && (k.write.data == 0 || k.write.data == 22) && k.stat.None? ==> status == Failed(k.errno)))
  {
    hide NewWord, TypeBits, EarlyError;
  }

  /** The bits of events and words. */
  lemma InterestBits(ev: bv32, w: bv16)
    ensures Asked(ev) == Registered(ev & 1 != 0, ev & 4 != 0, ev & 0x2000 != 0, ev & 2 != 0)
    ensures w & 1 != 0 ==> InterestOf(w) == Registered(w & 2 != 0, w & 4 != 0, w & 8 != 0, w & 16 != 0)
    ensures w & 1 == 0 ==> InterestOf(w) == Unregistered
    ensures TypeBits(Fifo) == 0x40 && TypeBits(Socket) == 0x80 && TypeBits(OtherFile) == 0
  {
  }

  lemma CtlWordFits(w: bv16, c: Call)
    requires w < VAL_END
    ensures CtlWord(w, c).0 < VAL_END
  {
    hide NewWord;
  }

  // ---- runs -------------------------------------------------------------------------

  /** A call on the kernel queue. */
  function Ctl(user: set<bv32>, c: Call): (set<bv32>, Status) {
    var w := Load(user, c.fd2);
    var (n, status) := CtlWord(w, c);
    (if EarlyError(w, c).Some? then user else Save(user, c.fd2, n), status)
  }

  function Run(user: set<bv32>, cs: seq<Call>): set<bv32>
    decreases |cs|
  {
    if cs == [] then user else Ctl(Run(user, cs[..|cs| - 1]), cs[|cs| - 1]).0
  }

  lemma {:induction false} LoadFits(user: set<bv32>, key: bv32, i: nat)
    requires i <= VAL_BITS
    ensures LoadBits(user, key, i) < VAL_END
    decreases i
  {
    hide Mark, Bit, SetBit;
    if i > 0 {
      LoadFits(user, key, i - 1);
      SetBitFits(LoadBits(user, key, i - 1), i - 1);
    }
  }

  lemma SetBitFits(w: bv16, i: nat)
    requires w < VAL_END && i < VAL_BITS
    ensures SetBit(w, i) < VAL_END
  {
    hide Bit;
    BitStep(i);
    FitsTogether(w, Bit(i));
  }

  lemma FitsTogether(a: bv16, b: bv16)
    requires a < VAL_END && b < VAL_END
    ensures a | b < VAL_END
  {
  }

  /** A call changes its own descriptor's word, and no other. */
  lemma CtlChangesOneWord(user: set<bv32>, c: Call, fd: bv32)
    requires fd < KEY_END
    ensures Load(Ctl(user, c).0, fd) == if c.fd2 == fd then CtlWord(Load(user, fd), c).0 else Load(user, fd)
  {
    hide Save, LoadBits, NewWord, LateError, CtlWord;
    var w := Load(user, c.fd2);
    LoadFits(user, c.fd2, VAL_BITS);
    CtlWordFits(w, c);
    if EarlyError(w, c).None? {
      if c.fd2 == fd {
        LoadAfterSave(user, fd, CtlWord(w, c).0);
      } else {
        NoInterference(user, c.fd2, CtlWord(w, c).0, fd);
      }
    } else {
      EarlyKeeps(w, c);
    }
  }

  lemma EarlyKeeps(w: bv16, c: Call)
    requires EarlyError(w, c).Some?
    ensures CtlWord(w, c).0 == w
  {
    hide EarlyError;
  }

  /** What a call asks for. */
  function Requested(c: Call): Interest
    requires c.events.None? ==> c.op.CtlDel?
  {
    if c.op.CtlDel? then Unregistered else Asked(c.events.value)
  }

  /**
   Whether a call gets as far as saving: it is well formed, names a registered descriptor
   unless it adds one, and the kernel queue can be read and written.
   */
  predicate TakesEffect(i: Interest, c: Call) {
    && (c.events.None? ==> c.op.CtlDel?)
    && (c.events.Some? ==> c.events.value & !ALLOWED == 0)
    && c.fd2 < KEY_END && !c.op.CtlOther?
    && (i.Unregistered? ==> c.op.CtlAdd?)
    && c.kernel.loadError == 0 && c.kernel.saveError == 0
  }

  /** What is watched of a descriptor: what the last call on it asked for that took effect. */
  function LastRequest(start: Interest, cs: seq<Call>, fd: bv32): Interest
    decreases |cs|
  {
    if cs == [] then start
    else
      var before, c := LastRequest(start, cs[..|cs| - 1], fd), cs[|cs| - 1];
      if c.fd2 == fd && TakesEffect(before, c) then Requested(c) else before
  }

  lemma CtlInterest(w: bv16, c: Call)
    ensures InterestOf(CtlWord(w, c).0) == if TakesEffect(InterestOf(w), c) then Requested(c) else InterestOf(w)
    ensures CtlWord(w, c).1.Done? ==> TakesEffect(InterestOf(w), c)
  {
    hide LateError, NewWord, TypeBits, Asked;
    if EarlyError(w, c).None? {
      NewInterest(w, c.op, c.events);
      if c.kernel.stat.Some? {
        TypeIsNoInterest(NewWord(w, c.op, c.events), c.kernel.stat.value);
      }
    }
  }

  lemma NewInterest(w: bv16, op: Op, events: Option<bv32>)
    requires !op.CtlOther? && (events.None? ==> op.CtlDel?)
    requires !op.CtlAdd? ==> w & REGISTERED != 0
    ensures InterestOf(NewWord(w, op, events)) == if op.CtlDel? then Unregistered else Asked(events.value)
  {
  }

  lemma TypeIsNoInterest(w: bv16, stat: FileType)
    ensures InterestOf(w | TypeBits(stat)) == InterestOf(w)
  {
  }

  /**
   Over any run of calls on any descriptors, failed ones included, the loaded word of each
   descriptor says what the last call on it asked for that took effect.
   */
  lemma {:induction false} RunsAgreeWithLastRequest(user: set<bv32>, cs: seq<Call>, fd: bv32)
    requires fd < KEY_END
    ensures InterestOf(Load(Run(user, cs), fd)) == LastRequest(InterestOf(Load(user, fd)), cs, fd)
    decreases |cs|
  {
    hide Load, Ctl, CtlWord, InterestOf, TakesEffect, Requested;
    if cs != [] {
      var before, c := cs[..|cs| - 1], cs[|cs| - 1];
      RunsAgreeWithLastRequest(user, before, fd);
      CtlChangesOneWord(Run(user, before), c, fd);
      CtlInterest(Load(Run(user, before), fd), c);
    }
  }

  /** A call that fails is remembered exactly when it fails late and asked for something new. */
  lemma FailureIsRememberedExactlyWhen(w: bv16, c: Call)
    requires CtlWord(w, c).1.Failed?
    ensures InterestOf(CtlWord(w, c).0) != InterestOf(w)
            <==> EarlyError(w, c).None? && Requested(c) != InterestOf(w)
  {
    hide LateError, NewWord, Asked;
    CtlInterest(w, c);
    if EarlyError(w, c).Some? { EarlyKeeps(w, c); }
  }

  /** A deletion that fails because a filter is gone, and has forgotten the descriptor all the same. */
  lemma FailedDeletionExample(fd: bv32)
    requires fd < KEY_END
    ensures var k := Kernel(0, 0, 2, 0, Receipt(true, ENOENT), Receipt(true, 0), Some(OtherFile), 0);
            var (w, status) := CtlWord(REGISTERED | STATE_IN, Call(CtlDel, fd, None, k));
            status == Failed(ENOENT) && InterestOf(w) == Unregistered
  {
  }

  /** Adding resets the type bits, modifying keeps those of an earlier file, deleting leaves them. */
  lemma TypeBitsAfter(w: bv16, c: Call)
    requires CtlWord(w, c).1.Done?
    ensures CtlWord(w, c).0 & (ISFIFO | ISSOCK)
            == TypeBits(c.kernel.stat.value) | if c.op.CtlMod? then w & (ISFIFO | ISSOCK) else 0
    ensures c.op.CtlDel? ==> (CtlWord(w, c).0 == 0 <==> c.kernel.stat.value.OtherFile?)
  {
    hide LateError, EarlyError;
    NewTypeBits(w, c.op, c.events, c.kernel.stat.value);
  }

  lemma NewTypeBits(w: bv16, op: Op, events: Option<bv32>, stat: FileType)
    requires !op.CtlOther? && (events.None? ==> op.CtlDel?)
    ensures (NewWord(w, op, events) | TypeBits(stat)) & (ISFIFO | ISSOCK)
            == TypeBits(stat) | if op.CtlMod? then w & (ISFIFO | ISSOCK) else 0
  {
  }

  /** Saving twice under one key is saving the second word. */
  lemma SaveTwice(user: set<bv32>, key: bv32, v: bv16, w: bv16)
    requires key < KEY_END
    ensures Save(Save(user, key, v), key, w) == Save(user, key, w)
  {
    hide Mark, HasBit, SaveBits;
    forall m: bv32 ensures m in Save(Save(user, key, v), key, w) <==> m in Save(user, key, w) {
      SavedFilters(Save(user, key, v), key, w, VAL_BITS, m);
      SavedFilters(user, key, v, VAL_BITS, m);
      SavedFilters(user, key, w, VAL_BITS, m);
    }
  }

  lemma KeyMask(key: bv32, val: bv16)
    ensures key & !((1 << 20) - 1) != 0 <==> key >= KEY_END
    ensures val & !((1 << 12) - 1) != 0 <==> val >= VAL_END
  {
  }

  class KQueue {
    /** The identifiers of the user filters. */
    var user: set<bv32>

    constructor ()
      ensures user == {}
    {
      user := {};
    }

    /** `kevent` with changes alone. */
    method ApplyChanges(kev: array<Change>, n: nat) returns (r: int)
      requires n <= kev.Length
      modifies this
      ensures Apply(old(user), kev[..n]).1 ==> r == 0 && user == Apply(old(user), kev[..n]).0
      ensures !Apply(old(user), kev[..n]).1 ==> r == -ENOENT
    {
      hide Apply;
      ApplyNothing(user);
      for k := 0 to n
        invariant Apply(old(user), kev[..k]) == (user, true)
      {
        ApplyOne(old(user), kev[..k], kev[k]);
        assert kev[..k + 1] == kev[..k] + [kev[k]];
        if kev[k].action.Add? {
          user := user + {kev[k].ident};
        } else if kev[k].ident in user {
          user := user - {kev[k].ident};
        } else {
          assert kev[..n][..k + 1] == kev[..k + 1];
          FailureStays(old(user), kev[..n], k + 1);
          return -ENOENT;
        }
      }
      return 0;
    }

    /** `error` is what `kevent` reports when it cannot change the queue at all. */
    method SaveState(key: bv32, val: bv16, error: nat) returns (r: int)
      modifies this
      ensures r == if key >= KEY_END || val >= VAL_END then -EINVAL else -(error as int)
      ensures user == if r == 0 then Save(old(user), key, val) else old(user)
    {
      hide HasBit, Mark, Bit;
      KeyMask(key, val);
      if key & !((1 << 20) - 1) != 0 || val & !((1 << 12) - 1) != 0 {
        return -EINVAL;
      }
      var kev, n := SavingChanges(key, val);
      if error != 0 { return -(error as int); }
      ChangesSave(user, key, val, VAL_BITS);
      r := ApplyChanges(kev, n);
    }

    method SavingChanges(key: bv32, val: bv16) returns (kev: array<Change>, n: nat)
      ensures fresh(kev) && n <= kev.Length && kev[..n] == Changes(key, val, VAL_BITS)
    {
      hide HasBit, Mark, Bit;
      kev := new Change[VAL_BITS * 2](_ => Change(0, Add));
      n := 0;
      for i := 0 to VAL_BITS
        invariant n == |Changes(key, val, i)| <= 2 * i && kev[..n] == Changes(key, val, i)
      {
        var kevKey := Mark(key, i);
        ghost var before := Changes(key, val, i);
        kev[n] := Change(kevKey, Add);
        n := n + 1;
        assert kev[..n] == before + [Change(kevKey, Add)];
        if !HasBit(val, i) {
          kev[n] := Change(kevKey, Delete);
          n := n + 1;
          assert kev[..n] == before + [Change(kevKey, Add)] + [Change(kevKey, Delete)];
        }
      }
    }

    /** `kevent` with receipts: 0 for a filter that is there, an error for one that is not. */
    method Receipts(kev: array<bv32>) returns (data: array<int>)
      ensures fresh(data) && data.Length == kev.Length
      ensures forall i | 0 <= i < kev.Length :: data[i] == if kev[i] in user then 0 else ENOENT
    {
      data := new int[kev.Length](i requires 0 <= i < kev.Length reads this, kev =>
        if kev[i] in user then 0 else ENOENT);
    }

    method LoadState(key: bv32, error: nat) returns (r: int, val: bv16)
      ensures r == if key >= KEY_END then -EINVAL else -(error as int)
      ensures r == 0 ==> val == Load(user, key)
    {
      hide Mark, Bit, SetBit;
      val := 0;
      KeyMask(key, 0);
      if key & !((1 << 20) - 1) != 0 {
        return -EINVAL, 0;
      }
      var kev := new bv32[VAL_BITS];
      for i := 0 to VAL_BITS
        invariant forall j | 0 <= j < i :: kev[j] == Mark(key, j)
      {
        kev[i] := Mark(key, i);
      }
      if error != 0 { return -(error as int), 0; }
      var data := Receipts(kev);
      for i := 0 to VAL_BITS
        invariant val == LoadBits(user, key, i)
      {
        if data[i] == 0 {
          val := SetBit(val, i);
        }
      }
      r := 0;
    }

    /** A failed call leaves the word it saved before it failed. */
    method EpollCtl(c: Call) returns (r: Status)
      modifies this
      ensures user == Ctl(old(user), c).0 && r == Ctl(old(user), c).1
    {
      hide Load, Save, NewWord, EarlyError, LateError;
      var flags;
      r, flags := NextFlags(c);
      if r.Failed? { return; }
      var e := SaveState(c.fd2, flags, c.kernel.saveError);
      if e < 0 { return Failed(e); }
      r := RegisterAndStat(c, flags);
      if LateError(c.kernel).None? {
        SaveTwice(old(user), c.fd2, flags, flags | TypeBits(c.kernel.stat.value));
      }
    }

    /** The first part: checks, and the word to save. */
    method NextFlags(c: Call) returns (r: Status, flags: bv16)
      ensures r.Failed? ==> EarlyError(Load(user, c.fd2), c) == Some(r.errno)
      ensures r.Done? ==>
                var w := Load(user, c.fd2);
                && c.fd2 < KEY_END && !c.op.CtlOther? && (c.events.None? ==> c.op.CtlDel?)
                && flags == NewWord(w, c.op, c.events) < VAL_END
                && EarlyError(w, c) == if c.kernel.saveError != 0 then Some(-(c.kernel.saveError as int)) else None
    {
      hide Load, NewWord, IsRegistered, BadDescriptor;
      flags := 0;
      if BadEvents(c) { return Failed(EINVAL), 0; }
      if BadDescriptor(c.fd2) { return Failed(EBADF), 0; }
      var e;
      e, flags := LoadState(c.fd2, c.kernel.loadError);
      if e < 0 { return Failed(e), 0; }
      WordFits(user, c.fd2);
      if !c.op.CtlMod? && !c.op.CtlOther? { NewWordAlone(flags, c.op, c.events); }
      match c.op {
        case CtlAdd =>
          flags := AddFlags(c.events.value);
        case CtlDel =>
          if !IsRegistered(flags) { return Failed(ENOENT), 0; }
          flags := 0;
        case CtlMod =>
          if !IsRegistered(flags) { return Failed(ENOENT), 0; }
          flags := ModFlags(flags, c.events.value);
        case CtlOther =>
          return Failed(EINVAL), 0;
      }
      r := Done;
    }

    /** The second part, behind the first saving of `word`. */
    method RegisterAndStat(c: Call, word: bv16) returns (r: Status)
      requires c.fd2 < KEY_END && word < VAL_END
      modifies this
      ensures LateError(c.kernel).Some? ==> r == Failed(LateError(c.kernel).value) && user == old(user)
      ensures LateError(c.kernel).None? ==>
                r.Done? && user == Save(old(user), c.fd2, word | TypeBits(c.kernel.stat.value))
    {
      hide Save, LateError, TypeBits;
      r := CheckReceipts(c.kernel);
      if r.Failed? { return; }
      if c.kernel.stat.None? { return Failed(c.kernel.errno); }
      var flags := AddType(word, c.kernel.stat.value);
      var e := SaveState(c.fd2, flags, c.kernel.againError);
      if e < 0 { return Failed(e); }
      return Done;
    }

    method AddType(word: bv16, stat: FileType) returns (flags: bv16)
      requires word < VAL_END
      ensures flags == word | TypeBits(stat) < VAL_END
    {
      TypeBitsFit(word, stat);
      flags := word;
      match stat {
        case Fifo => flags := flags | ISFIFO;
        case Socket => flags := flags | ISSOCK;
        case OtherFile =>
      }
    }

    method AddFlags(events: bv32) returns (flags: bv16)
      ensures flags == NewWord(0, CtlAdd, Some(events))
    {
      hide SetFlag;
      flags := SetIf(REGISTERED, events & EPOLLIN != 0, STATE_IN);
      flags := SetIf(flags, events & EPOLLOUT != 0, STATE_OUT);
      flags := SetIf(flags, events & EPOLLRDHUP != 0, STATE_RDHUP);
      flags := SetIf(flags, events & EPOLLPRI != 0, STATE_PRI);
    }

    method ModFlags(w: bv16, events: bv32) returns (flags: bv16)
      ensures flags == NewWord(w, CtlMod, Some(events))
    {
      hide PutFlag;
      flags := SetOrClear(w, events & EPOLLIN != 0, STATE_IN);
      flags := SetOrClear(flags, events & EPOLLOUT != 0, STATE_OUT);
      flags := SetOrClear(flags, events & EPOLLRDHUP != 0, STATE_RDHUP);
      flags := SetOrClear(flags, events & EPOLLPRI != 0, STATE_PRI);
    }

    /** The two macros named SET_FLAG. */
    method SetIf(w: bv16, on: bool, flag: bv16) returns (flags: bv16)
      ensures flags == SetFlag(w, on, flag)
    {
      flags := w;
      if on { flags := flags | flag; }
    }

    method SetOrClear(w: bv16, on: bool, flag: bv16) returns (flags: bv16)
      ensures flags == PutFlag(w, on, flag)
    {
      flags := w;
      if on { flags := flags | flag; } else { flags := flags & !flag; }
    }

    /** What changing the read and write filters reports. */
    method CheckReceipts(k: Kernel) returns (r: Status)
      ensures r.Done? && k.stat.Some? ==> LateError(k) == if k.againError != 0 then Some(-(k.againError as int)) else None
      ensures r.Done? && k.stat.None? ==> LateError(k) == Some(k.errno)
      ensures r.Failed? ==> LateError(k) == Some(r.errno)
    {
      if k.ret < 0 { return Failed(k.errno); }
      if k.ret != 2 { return Failed(EINVAL); }
      var kev := new Receipt[2][k.read, k.write];
      for i := 0 to 2
        invariant i > 0 ==> k.read.error && k.read.data == 0
        invariant i > 1 ==> k.write.error && (k.write.data == 0 || k.write.data == EINVAL)
      {
        if !kev[i].error { return Failed(EINVAL); }
        if !(i == 1 && kev[i].data == EINVAL) {
          if kev[i].data != 0 { return Failed(kev[i].data); }
        }
      }
      return Done;
    }
  }

  lemma WordFits(user: set<bv32>, key: bv32)
    ensures Load(user, key) < VAL_END
  {
    hide LoadBits;
    LoadFits(user, key, VAL_BITS);
  }

  /** Adding and deleting do not look at the word before. */
  lemma NewWordAlone(w: bv16, op: Op, events: Option<bv32>)
    requires !op.CtlOther? && (events.None? ==> op.CtlDel?) && !op.CtlMod?
    ensures NewWord(w, op, events) == if op.CtlDel? then 0 else NewWord(0, CtlAdd, events)
  {
  }

  lemma TypeBitsFit(w: bv16, stat: FileType)
    requires w < VAL_END
    ensures w | TypeBits(stat) < VAL_END && w | 0 == w
  {
    FitsTogether(w, TypeBits(stat));
  }

  lemma {:induction false} FailureStays(user: set<bv32>, cs: seq<Change>, k: nat)
    requires k <= |cs| && !Apply(user, cs[..k]).1
    ensures !Apply(user, cs).1
    decreases |cs|
  {
    if k == |cs| {
      assert cs[..k] == cs;
    } else {
      assert cs[..|cs| - 1][..k] == cs[..k];
      FailureStays(user, cs[..|cs| - 1], k);
    }
  }
}
