/**
 Host objects made on first use: a statically initialised mutex, condition variable or
 read-write lock gets its host object by a compare-and-swap race among any number of
 threads. The word they race for holds the pointer, or, before that, an initialiser.
 */
module LazyInit {

  type Thread = nat
  type Pointer = nat

  datatype Kind = Mutex | Cond | RwLock

  /** The bits of a mutex word that are an initialiser's type on 32-bit targets. */
  const TYPE_BIT: nat := 0x4000                    // 1 << 14

  /** Whether the word is a pointer already; `lp64` tells the two memory layouts apart. */
  predicate IsInitialized(kind: Kind, lp64: bool, v: nat) {
    if kind.Mutex? && !lp64 then v - v / TYPE_BIT % 4 * TYPE_BIT != 0 else v != 0
  }

  /** All static initialisers count as not initialised. */
  lemma InitializersAreNotPointers(lp64: bool)
    ensures !IsInitialized(Mutex, lp64, 0) && !IsInitialized(Cond, lp64, 0) && !IsInitialized(RwLock, lp64, 0)
    ensures !lp64 ==> !IsInitialized(Mutex, lp64, 0x4000) && !IsInitialized(Mutex, lp64, 0x8000)
  {
  }

  /**
   Where the pointer lives inside a bionic object on 64-bit targets: aligned to eight
   bytes, behind the four bytes of the initialiser, within the object.
   */
  function PayloadPointer(p: nat): (r: nat)
    requires p % 4 == 0
    ensures r % 8 == 0 && p + 4 <= r && r + 8 <= p + 20
  {
    (p + 11) / 8 * 8
  }

  datatype MutexType = Normal | Recursive | ErrorCheck

  const RECURSIVE_INIT: nat := 0x4000
  const ERRORCHECK_INIT: nat := 0x8000

  function TypeOf(init: nat): MutexType {
    if init == RECURSIVE_INIT then Recursive else if init == ERRORCHECK_INIT then ErrorCheck else Normal
  }

  /** Where a thread stands in `to_host` and the initialiser it calls. */
  datatype Pc =
    | Looked(seen: nat)                            // no pointer seen
    | Named(seen: nat, init: nat)                  // the initialiser read, again from the object
    | Built(seen: nat, obj: Pointer)               // host object made, swap to come
    | Lost(found: nat, obj: Pointer)               // another thread was first
    | Returned(obj: Pointer)
    | Aborted                                      // handle_runtime_error

  /**
   `header` is the first word of the object, where 64-bit targets keep the initialiser; on
   32-bit ones it is the raced word itself. `live` are the host objects allocated, `leaked`
   those of them whose word has been overwritten, `types` what they were made as. `due` is
   the type that the initialiser or the last initialising call has asked for.
   */
  datatype State = State(kind: Kind, lp64: bool, header: nat, payload: nat, live: set<Pointer>, leaked: set<Pointer>,
                         types: map<Pointer, MutexType>, due: MutexType, threads: map<Thread, Pc>)

  datatype Step =
    | Look(t: Thread)
    | Name(t: Thread)
    | Build(t: Thread, obj: Pointer)
    | Swap(t: Thread)
    | Discard(t: Thread)
    | Init(obj: Pointer, asked: MutexType)         // pthread_mutex_init and the like
    | Destroy

  /** What a thread reads as the initialiser; only mutexes have one. */
  function Initializer(s: State): nat {
    if !s.kind.Mutex? then 0 else if s.lp64 then s.header else s.payload
  }

  predicate Ready(s: State, v: nat) { IsInitialized(s.kind, s.lp64, v) }

  /** `malloc` gives an address that is in use nowhere and looks like a pointer. */
  predicate Fresh(s: State, obj: Pointer) { obj !in s.live && Ready(s, obj) }

  predicate Quiet(s: State) { forall t | t in s.threads :: s.threads[t].Returned? }

  predicate Enabled(s: State, step: Step) {
    match step
    case Look(t) => t !in s.threads || s.threads[t].Returned?
    case Name(t) => t in s.threads && s.threads[t].Looked?
    case Build(t, obj) => t in s.threads && s.threads[t].Named? && Fresh(s, obj)
    case Swap(t) => t in s.threads && s.threads[t].Built?
    case Discard(t) => t in s.threads && s.threads[t].Lost?
    case Init(obj, _) => Quiet(s) && Fresh(s, obj)
    case Destroy => Quiet(s)
  }

  function Apply(s: State, step: Step): State
    requires Enabled(s, step)
  {
    match step
    case Look(t) =>
      s.(threads := s.threads[t := if Ready(s, s.payload) then Returned(s.payload) else Looked(s.payload)])
    case Name(t) =>
      s.(threads := s.threads[t := Named(s.threads[t].seen, Initializer(s))])
    case Build(t, obj) =>
      s.(live := s.live + {obj}, types := s.types[obj := TypeOf(s.threads[t].init)],
         threads := s.threads[t := Built(s.threads[t].seen, obj)])
    case Swap(t) =>
      var pc := s.threads[t];
      if s.payload == pc.seen then s.(payload := pc.obj, threads := s.threads[t := Returned(pc.obj)])
      else s.(threads := s.threads[t := Lost(s.payload, pc.obj)])
    case Discard(t) =>
      var pc := s.threads[t];
      s.(live := s.live - {pc.obj},
         threads := s.threads[t := if Ready(s, pc.found) then Returned(pc.found) else Aborted])
    case Init(obj, asked) =>                       // stores without looking
      s.(payload := obj, live := s.live + {obj}, leaked := s.leaked + ({s.payload} * s.live),
         types := s.types[obj := asked], due := asked, threads := map[])
    case Destroy =>
      if Ready(s, s.payload) then
        var u := s.(live := s.live - {s.payload}, payload := 0, threads := map[]);
        u.(due := TypeOf(Initializer(u)))
      else s.(threads := map[])
  }

  // ---- what every step keeps --------------------------------------------------------

  predicate Owns(pc: Pc) { pc.Built? || pc.Lost? }

  ghost predicate ThreadHolds(s: State, pc: Pc) {
    match pc
    case Looked(seen) => !Ready(s, seen) && (!Ready(s, s.payload) ==> seen == s.payload)
    case Named(seen, _) => !Ready(s, seen) && (!Ready(s, s.payload) ==> seen == s.payload)
    case Built(seen, obj) =>
      !Ready(s, seen) && (!Ready(s, s.payload) ==> seen == s.payload)
      && obj in s.live && obj != s.payload && Ready(s, obj)
    case Lost(found, obj) =>
      found == s.payload && Ready(s, found) && obj in s.live && obj != s.payload
    case Returned(obj) => obj == s.payload && Ready(s, obj)
    case Aborted => false
  }

  ghost predicate Inv(s: State) {
    && (forall t | t in s.threads :: ThreadHolds(s, s.threads[t]))
    && (forall t, u | t in s.threads && u in s.threads && t != u
                      && Owns(s.threads[t]) && Owns(s.threads[u]) ::
          s.threads[t].obj != s.threads[u].obj)
    && (Ready(s, s.payload) <==> s.payload in s.live)
    && s.leaked <= s.live && s.payload !in s.leaked
    && (forall o | o in s.live :: Ready(s, o))
    && (forall t | t in s.threads && Owns(s.threads[t]) :: s.threads[t].obj !in s.leaked)
    && (forall o | o in s.live ::
          o == s.payload || o in s.leaked || exists t :: t in s.threads && Owns(s.threads[t]) && s.threads[t].obj == o)
  }

  /** As long as the word is no pointer, what a thread has read or built is of the type that is due. */
  ghost predicate TypeHolds(s: State, pc: Pc) {
    match pc
    case Named(_, init) => Ready(s, s.payload) || TypeOf(init) == s.due
    case Built(_, obj) => obj in s.types && (Ready(s, s.payload) || s.types[obj] == s.due)
    case _ => true
  }

  ghost predicate Typed(s: State) {
    && (forall t | t in s.threads :: TypeHolds(s, s.threads[t]))
    && (if Ready(s, s.payload) then s.payload in s.types && s.types[s.payload] == s.due
        else TypeOf(Initializer(s)) == s.due)
  }

  /** Memory nothing has been done with: a static initialiser, or any words at all. */
  function Initial(kind: Kind, lp64: bool, header: nat, word: nat): State {
    var s := State(kind, lp64, header, word, {}, {}, map[], Normal, map[]);
    s.(due := TypeOf(Initializer(s)))
  }

  lemma LookKeepsInv(s: State, t: Thread)
    requires Inv(s) && Enabled(s, Look(t))
    ensures Inv(Apply(s, Look(t)))
  {
    hide IsInitialized;
    var s' := Apply(s, Look(t));
    forall o | o in s'.live && o != s'.payload && o !in s'.leaked
      ensures exists u :: u in s'.threads && Owns(s'.threads[u]) && s'.threads[u].obj == o
    {
      var u :| u in s.threads && Owns(s.threads[u]) && s.threads[u].obj == o;
      assert u in s'.threads && s'.threads[u] == s.threads[u];
    }
  }

  lemma NameKeepsInv(s: State, t: Thread)
    requires Inv(s) && Enabled(s, Name(t))
    ensures Inv(Apply(s, Name(t)))
  {
    hide IsInitialized;
    var s' := Apply(s, Name(t));
    assert ThreadHolds(s, s.threads[t]);
    forall o | o in s'.live && o != s'.payload && o !in s'.leaked
      ensures exists u :: u in s'.threads && Owns(s'.threads[u]) && s'.threads[u].obj == o
    {
      var u :| u in s.threads && Owns(s.threads[u]) && s.threads[u].obj == o;
      assert s'.threads[u] == s.threads[u];
    }
  }

  lemma BuildKeepsInv(s: State, t: Thread, obj: Pointer)
    requires Inv(s) && Enabled(s, Build(t, obj))
    ensures Inv(Apply(s, Build(t, obj)))
  {
    hide IsInitialized;
    var s' := Apply(s, Build(t, obj));
    forall u | u in s.threads && Owns(s.threads[u]) ensures s.threads[u].obj != obj {
      assert ThreadHolds(s, s.threads[u]);
    }
    forall o | o in s'.live && o != s'.payload && o !in s'.leaked
      ensures exists u :: u in s'.threads && Owns(s'.threads[u]) && s'.threads[u].obj == o
    {
      if o == obj {
        assert s'.threads[t].obj == o;
      } else {
        var u :| u in s.threads && Owns(s.threads[u]) && s.threads[u].obj == o;
        assert s'.threads[u] == s.threads[u];
      }
    }
  }

  lemma SwapKeepsInv(s: State, t: Thread)
    requires Inv(s) && Enabled(s, Swap(t))
    ensures Inv(Apply(s, Swap(t)))
  {
    hide IsInitialized;
    var s' := Apply(s, Swap(t));
    assert ThreadHolds(s, s.threads[t]);
    forall o | o in s'.live && o != s'.payload && o !in s'.leaked
      ensures exists u :: u in s'.threads && Owns(s'.threads[u]) && s'.threads[u].obj == o
    {
      var u :| u in s.threads && Owns(s.threads[u]) && s.threads[u].obj == o;
      assert s'.threads[u].obj == o;
    }
  }

  lemma DiscardKeepsInv(s: State, t: Thread)
    requires Inv(s) && Enabled(s, Discard(t))
    ensures Inv(Apply(s, Discard(t)))
  {
    hide IsInitialized;
    var s' := Apply(s, Discard(t));
    assert ThreadHolds(s, s.threads[t]);
    forall o | o in s'.live && o != s'.payload && o !in s'.leaked
      ensures exists u :: u in s'.threads && Owns(s'.threads[u]) && s'.threads[u].obj == o
    {
      var u :| u in s.threads && Owns(s.threads[u]) && s.threads[u].obj == o;
      assert s'.threads[u] == s.threads[u];
    }
  }

  lemma StepKeepsInv(s: State, step: Step)
    requires Inv(s) && Enabled(s, step)
    ensures Inv(Apply(s, step))
  {
    match step
    case Look(t) => LookKeepsInv(s, t);
    case Name(t) => NameKeepsInv(s, t);
    case Build(t, obj) => BuildKeepsInv(s, t, obj);
    case Swap(t) => SwapKeepsInv(s, t);
    case Discard(t) => DiscardKeepsInv(s, t);
    case Init(obj, asked) => QuietIsSingle(s); InitMakesInv(s, obj, asked);
    case Destroy => DestroyKeepsInv(s);
  }

  /** With no thread in the race there is one object, or none, besides those leaked. */
  lemma QuietIsSingle(s: State)
    requires Inv(s) && Quiet(s)
    ensures s.live == s.leaked + if Ready(s, s.payload) then {s.payload} else {}
  {
    hide IsInitialized;
  }

  /** Initialisation gives a sound object over any word; a pointer that was there is leaked. */
  lemma InitMakesInv(s: State, obj: Pointer, asked: MutexType)
    requires Enabled(s, Init(obj, asked)) && s.leaked <= s.live <= s.leaked + {s.payload}
    requires forall o | o in s.live :: Ready(s, o)
    ensures Inv(Apply(s, Init(obj, asked))) && Typed(Apply(s, Init(obj, asked)))
    ensures Apply(s, Init(obj, asked)).leaked == s.live
  {
    hide IsInitialized;
  }

  lemma DestroyKeepsInv(s: State)
    requires Inv(s) && Enabled(s, Destroy)
    ensures Inv(Apply(s, Destroy))
  {
    QuietIsSingle(s);
    assert forall t | t in s.threads :: ThreadHolds(s, s.threads[t]);
    assert !IsInitialized(s.kind, s.lp64, 0);
  }

  lemma StepKeepsTyped(s: State, step: Step)
    requires Inv(s) && Typed(s) && Enabled(s, step)
    ensures Typed(Apply(s, step))
  {
    hide TypeOf, Owns;
    if step.Destroy? {
      assert !IsInitialized(s.kind, s.lp64, 0);
    } else {
      hide IsInitialized;
      if step.Swap? { assert ThreadHolds(s, s.threads[step.t]) && TypeHolds(s, s.threads[step.t]); }
      if step.Name? || step.Build? || step.Discard? { assert ThreadHolds(s, s.threads[step.t]); }
      forall t | t in s.threads && t in Apply(s, step).threads ensures TypeHolds(Apply(s, step), Apply(s, step).threads[t]) {
        assert ThreadHolds(s, s.threads[t]) && TypeHolds(s, s.threads[t]);
      }
    }
  }

  ghost predicate Runs(s: State, steps: seq<Step>, t: State)
    decreases |steps|
  {
    if steps == [] then s == t
    else Enabled(s, steps[0]) && Runs(Apply(s, steps[0]), steps[1..], t)
  }

  lemma {:induction false} RunsKeepInv(s: State, steps: seq<Step>, t: State)
    requires Inv(s) && Runs(s, steps, t)
    ensures Inv(t) && (Typed(s) ==> Typed(t))
    decreases |steps|
  {
    hide Inv, Typed;
    if steps != [] {
      StepKeepsInv(s, steps[0]);
      if Typed(s) { StepKeepsTyped(s, steps[0]); }
      RunsKeepInv(Apply(s, steps[0]), steps[1..], t);
    }
  }

  /** An object is used from its static initialiser on, or from the call that initialises it. */
  ghost predicate RunsFrom(word: nat, steps: seq<Step>, s: State) {
    && Runs(Initial(s.kind, s.lp64, s.header, word), steps, s)
    && (!IsInitialized(s.kind, s.lp64, word) || (steps != [] && steps[0].Init?))
  }

  ghost predicate Reachable(s: State) { exists word, steps :: RunsFrom(word, steps, s) }

  lemma ReachableInv(s: State)
    requires Reachable(s)
    ensures Inv(s) && Typed(s)
  {
    hide Inv, Typed;
    var word: nat, steps: seq<Step> :| RunsFrom(word, steps, s);
    var a := Initial(s.kind, s.lp64, s.header, word);
    if steps != [] && steps[0].Init? {
      InitMakesInv(a, steps[0].obj, steps[0].asked);
      RunsKeepInv(Apply(a, steps[0]), steps[1..], s);
    } else {
      InitializerIsInv(s.kind, s.lp64, s.header, word);
      RunsKeepInv(a, steps, s);
    }
  }

  lemma InitializerIsInv(kind: Kind, lp64: bool, header: nat, word: nat)
    requires !IsInitialized(kind, lp64, word)
    ensures Inv(Initial(kind, lp64, header, word)) && Typed(Initial(kind, lp64, header, word))
  {
  }

  // ---- theorems ---------------------------------------------------------------------

  /** All threads that have returned hold the same live object, and none has given up. */
  lemma AllReturnTheSame(s: State, t: Thread, u: Thread)
    requires Reachable(s) && t in s.threads && u in s.threads
    ensures !s.threads[t].Aborted?
    ensures s.threads[t].Returned? && s.threads[u].Returned? ==>
              s.threads[t].obj == s.threads[u].obj && s.threads[t].obj in s.live
  {
    ReachableInv(s);
    assert ThreadHolds(s, s.threads[t]) && ThreadHolds(s, s.threads[u]);
  }

  /** When the race is over exactly one of the objects made is still allocated, besides those leaked. */
  lemma OneObjectSurvives(s: State, t: Thread)
    requires Reachable(s) && Quiet(s) && t in s.threads
    ensures s.threads[t].obj !in s.leaked && s.live == s.leaked + {s.threads[t].obj}
  {
    ReachableInv(s);
    QuietIsSingle(s);
    assert ThreadHolds(s, s.threads[t]);
  }

  /**
   The mutex all threads get has the type of the initialiser, or of the last initialising
   call, although each thread reads the initialiser again after its look at the word, which
   on 32-bit targets may hold another thread's pointer by then.
   */
  lemma SurvivorHasItsType(s: State, t: Thread)
    requires Reachable(s) && t in s.threads && s.threads[t].Returned?
    ensures s.threads[t].obj in s.types && s.types[s.threads[t].obj] == s.due
  {
    ReachableInv(s);
    assert ThreadHolds(s, s.threads[t]);
  }

  /** Only initialising and destroying change what is due. */
  lemma {:induction false} DueStays(s: State, steps: seq<Step>, u: State)
    requires Runs(s, steps, u) && forall step | step in steps :: !step.Init? && !step.Destroy?
    ensures u.due == s.due && u.header == s.header && u.kind == s.kind && u.lp64 == s.lp64
    decreases |steps|
  {
    if steps != [] { DueStays(Apply(s, steps[0]), steps[1..], u); }
  }

  /** A statically initialised mutex: every thread gets the type that its initialiser names, and a normal one by default. */
  lemma StaticTypeIsKept(lp64: bool, header: nat, word: nat, steps: seq<Step>, u: State, t: Thread)
    requires !IsInitialized(Mutex, lp64, word) && Runs(Initial(Mutex, lp64, header, word), steps, u)
    requires forall step | step in steps :: !step.Init? && !step.Destroy?
    requires t in u.threads && u.threads[t].Returned?
    ensures var initializer := if lp64 then header else word;
            && u.threads[t].obj in u.types
            && (initializer == 0x4000 ==> u.types[u.threads[t].obj] == Recursive)
            && (initializer == 0x8000 ==> u.types[u.threads[t].obj] == ErrorCheck)
            && (initializer != 0x4000 && initializer != 0x8000 ==> u.types[u.threads[t].obj] == Normal)
  {
    hide Runs, IsInitialized;
    var a := Initial(Mutex, lp64, header, word);
    DueStays(a, steps, u);
    assert RunsFrom(word, steps, u);
    SurvivorHasItsType(u, t);
  }

  /** Destroying a mutex in use makes its next use forget the type exactly on 32-bit targets. */
  lemma DestroyForgetsExactlyWhen(s: State)
    requires Inv(s) && Enabled(s, Destroy) && s.kind.Mutex? && Ready(s, s.payload)
    ensures Apply(s, Destroy).due == if s.lp64 then TypeOf(s.header) else Normal
  {
  }

  /** A returned object stays the object, and stays allocated, until it is destroyed. */
  lemma {:induction false} ReturnedObjectStays(s: State, t: Thread, steps: seq<Step>, u: State)
    requires Inv(s) && Runs(s, steps, u) && t in s.threads && s.threads[t].Returned?
    requires forall step | step in steps :: !step.Destroy? && !step.Init?
    ensures u.payload == s.threads[t].obj && u.payload in u.live
    decreases |steps|
  {
    hide IsInitialized;
    assert ThreadHolds(s, s.threads[t]);
    if steps != [] {
      var s' := Apply(s, steps[0]);
      StepKeepsInv(s, steps[0]);
      PayloadStays(s, t, steps[0]);
      ReturnedObjectStays(s', t, steps[1..], u);
    }
  }

  lemma PayloadStays(s: State, t: Thread, step: Step)
    requires Inv(s) && Enabled(s, step) && !step.Destroy? && !step.Init? && t in s.threads && s.threads[t].Returned?
    ensures var s' := Apply(s, step);
            t in s'.threads && s'.threads[t] == s.threads[t] && s'.payload == s.payload
  {
    hide IsInitialized;
    assert ThreadHolds(s, s.threads[t]);
    if step.Swap? { assert ThreadHolds(s, s.threads[step.t]); }
  }

  /** A swap fails exactly when another thread has been first. */
  lemma SwapLosesExactlyWhen(s: State, t: Thread)
    requires Reachable(s) && Enabled(s, Swap(t))
    ensures Apply(s, Swap(t)).threads[t].Lost? <==> Ready(s, s.payload)
  {
    ReachableInv(s);
    assert ThreadHolds(s, s.threads[t]);
  }

  /** No step initialises a word that holds a live object. */
  ghost predicate Careful(s: State, steps: seq<Step>)
    decreases |steps|
  {
    steps == [] || (Enabled(s, steps[0]) && (steps[0].Init? ==> !Ready(s, s.payload))
                    && Careful(Apply(s, steps[0]), steps[1..]))
  }

  /** A run leaks an object exactly when it initialises one that is in use. */
  lemma {:induction false} NothingLeaksExactlyWhen(s: State, steps: seq<Step>, u: State)
    requires Inv(s) && Runs(s, steps, u)
    ensures s.leaked <= u.leaked
    ensures u.leaked == s.leaked <==> Careful(s, steps)
    decreases |steps|
  {
    hide Inv;
    if steps != [] {
      StepKeepsInv(s, steps[0]);
      NothingLeaksExactlyWhen(Apply(s, steps[0]), steps[1..], u);
      StepLeaksExactlyWhen(s, steps[0]);
    }
  }

  lemma StepLeaksExactlyWhen(s: State, step: Step)
    requires Inv(s) && Enabled(s, step)
    ensures s.leaked <= Apply(s, step).leaked
    ensures Apply(s, step).leaked == s.leaked <==> !(step.Init? && Ready(s, s.payload))
  {
    hide IsInitialized;
    if step.Init? && Ready(s, s.payload) { assert s.payload in Apply(s, step).leaked; }
  }
}
