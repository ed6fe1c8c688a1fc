/**
 A run of the event manager in which a flush meets events in flight: two events are uploaded
 and kept, two others lost.
 */
module RefilledRun {
  import opened Basics
  import opened Sequences
  import opened Lines
  import opened Storage
  import opened EventQueue
  import opened Buffered
  import opened EventManager

  const A: Bytes := [65, NEWLINE]
  const B: Bytes := [66, NEWLINE]
  const C: Bytes := [67, NEWLINE]
  const D: Bytes := [68, NEWLINE]

  const NO_FILES: Queue := Queue(None, [], [])

  /** A manager with room for two events in memory, no limits, and only normal events. */
  function Small2(files: Queue, mem: seq<Bytes>, main: MainTask, accepted: Bag): Manager {
    Manager([], 0, Buffer(files, mem, 2), Limits(0, 0), NO_FILES, Limits(0, 0), main, RealtimeIdle,
            Books(multiset{}, multiset{}, multiset{}, multiset{}), Books(accepted, multiset{}, multiset{}, multiset{}))
  }

  function AddPlain(line: Bytes): Step { Step.Add(Event(line, false, false), []) }

  lemma {:induction false} RunsMore(s: Manager, steps: seq<Step>, t: Manager, l: Step) returns (more: seq<Step>)
    requires EventManager.Runs(s, steps, t) && Legal(t, l)
    ensures more == steps + [l] && EventManager.Runs(s, more, Apply(t, l))
    decreases |steps|
  {
    hide Enabled, Acknowledgeable, Apply;
    more := steps + [l];
    if steps == [] {
      assert EventManager.Runs(Apply(t, l), [], Apply(t, l));
      assert more == [l];
    } else {
      var rest := RunsMore(Apply(s, steps[0]), steps[1..], t, l);
      assert more[1..] == rest;
    }
  }

  /**
   Two events from memory are sent, a flush moves them to a file, two more come, and the
   answer takes these: the first two are uploaded and still pending, the others are lost.
   */
  lemma RefilledExample() returns (steps: seq<Step>, t: Manager)
    ensures EventManager.Runs(Start(Buffer(NO_FILES, [], 2), NO_FILES, 0, Limits(0, 0), Limits(0, 0)), steps, t)
    ensures forall l | l in steps && l.Add? :: l.io == []
    ensures t.otherBooks.uploaded == t.otherBooks.repeated == multiset{A, B} && t.otherBooks.lost == multiset{C, D}
    ensures AllPending(t.normal) == [A, B]
  {
    hide EventManager.Runs, Apply, Legal, Pending;
    var s := Small2(NO_FILES, [], MainIdle, multiset{});
    assert Start(Buffer(NO_FILES, [], 2), NO_FILES, 0, Limits(0, 0), Limits(0, 0)) == s by { NothingAtStart(); }
    NoSteps(s);
    BagsGrow();
    var a := AddedInMemory(NO_FILES, [], MainIdle, multiset{}, A);
    steps := RunsMore(s, [], s, AddPlain(A));
    var b := AddedInMemory(NO_FILES, [A], MainIdle, multiset{A}, B);
    steps := RunsMore(s, steps, a, AddPlain(B));
    var c, main := BothSent();
    steps := RunsMore(s, steps, b, MainFetchNormal(2, 100));
    var d := BothFlushed(main);
    steps := RunsMore(s, steps, c, AddPlain(C));
    var e := AddedInMemory(Queue(None, [], [A, B]), [C], main, multiset{A, B, C}, D);
    steps := RunsMore(s, steps, d, AddPlain(D));
    t := OthersTaken(main);
    steps := RunsMore(s, steps, e, MainAnswer(true));
  }

  lemma NothingAtStart()
    ensures multiset(AllPending(Buffer(NO_FILES, [], 2))) == multiset(Pending(NO_FILES)) == multiset{}
  {
    hide Pending;
    OnlyNewest([]);
    assert AllPending(Buffer(NO_FILES, [], 2)) == [];
  }

  lemma BagsGrow()
    ensures multiset{} + multiset{A} == multiset{A} && multiset{A} + multiset{B} == multiset{A, B}
    ensures multiset{A, B, C} + multiset{D} == multiset{A, B, C, D}
    ensures [A] + [B] == [A, B] && [C] + [D] == [C, D] && [] + [A] == [A]
  {
  }

  lemma NoSteps(s: Manager)
    ensures EventManager.Runs(s, [], s)
  {
  }

  lemma AddedInMemory(files: Queue, mem: seq<Bytes>, main: MainTask, accepted: Bag, line: Bytes) returns (t: Manager)
    requires |mem| < 2 && IsLine(line)
    ensures Legal(Small2(files, mem, main, accepted), AddPlain(line))
    ensures t == Apply(Small2(files, mem, main, accepted), AddPlain(line))
              == Small2(files, mem + [line], main, accepted + multiset{line})
  {
    hide IsLine;
    t := Small2(files, mem + [line], main, accepted + multiset{line});
  }

  lemma BothSent() returns (t: Manager, main: MainTask)
    ensures main == NormalSending(MemoryList(Some(EventList(A + B, 2, false))))
    ensures Legal(Small2(NO_FILES, [A, B], MainIdle, multiset{A, B}), MainFetchNormal(2, 100))
    ensures t == Apply(Small2(NO_FILES, [A, B], MainIdle, multiset{A, B}), MainFetchNormal(2, 100))
              == Small2(NO_FILES, [A, B], main, multiset{A, B})
  {
    main := NormalSending(MemoryList(Some(EventList(A + B, 2, false))));
    t := Small2(NO_FILES, [A, B], main, multiset{A, B});
    var ls := [A, B];
    assert ls[1..] == [B] && ls[..2] == ls;
    assert FitCount([B], 1, 98) == 1;
    assert FitCount(ls, 2, 100) == 2;
    FlattenOne(B);
    assert Join(ls) == A + B;
  }

  lemma BothFlushed(main: MainTask) returns (t: Manager)
    ensures Legal(Small2(NO_FILES, [A, B], main, multiset{A, B}), AddPlain(C))
    ensures t == Apply(Small2(NO_FILES, [A, B], main, multiset{A, B}), AddPlain(C))
              == Small2(Queue(None, [], [A, B]), [C], main, multiset{A, B, C})
  {
    hide TryForward, Dropped;
    t := Small2(Queue(None, [], [A, B]), [C], main, multiset{A, B, C});
    FlushOfTwo();
    assert multiset{A, B} + multiset{C} == multiset{A, B, C};
  }

  lemma FlushOfTwo()
    ensures TryForward(NO_FILES, [A, B], Limits(0, 0), []) == Queue(None, [], [A, B])
    ensures Dropped([A, B], Limits(0, 0), []) == []
  {
    var m, ls := Limits(0, 0), [A, B];
    assert ls[1..] == [B];
    assert EventQueue.Add(NO_FILES, A, m).0 == Queue(None, [], [A]);
    assert [A] + [B] == ls && EventQueue.Add(Queue(None, [], [A]), B, m).0 == Queue(None, [], ls);
    assert TryForward(Queue(None, [], [A]), [B], m, []) == Queue(None, [], [A, B]);
    assert Dropped([B], m, []) == [];
  }

  lemma OthersTaken(main: MainTask) returns (t: Manager)
    requires main == NormalSending(MemoryList(Some(EventList(A + B, 2, false))))
    ensures var s := Small2(Queue(None, [], [A, B]), [C, D], main, multiset{A, B, C, D});
            Legal(s, MainAnswer(true)) && t == Apply(s, MainAnswer(true))
    ensures t.otherBooks.uploaded == t.otherBooks.repeated == multiset{A, B} && t.otherBooks.lost == multiset{C, D}
    ensures AllPending(t.normal) == [A, B]
  {
    hide ListLines, Pending, Taken, BufferUploaded, Join, Apply, Legal, Enabled, Acknowledgeable, Split, IsLine, Target;
    var s := Small2(Queue(None, [], [A, B]), [C, D], main, multiset{A, B, C, D});
    var list := EventList(A + B, 2, false);
    TwoTaken(list, s.normal);
    TwoNamed(s);
    t := Apply(s, MainAnswer(true));
    AnswerBooks(s);
    SplitOfTwo();
    BagsDiffer(ListLines(A + B), multiset([C, D]));
    OnlyNewest([A, B]);
  }

  lemma TwoNamed(s: Manager)
    requires s.main.NormalSending? && s.main.blist.MemoryList? && MemoryCount(s.main.blist) <= |s.normal.mem|
    ensures Legal(s, MainAnswer(true)) && Acknowledgeable(s, MainAnswer(true))
  {
  }

  lemma TwoTaken(list: EventList, b: Buffer)
    requires list.count == 2 && b == Buffer(Queue(None, [], [A, B]), [C, D], 2)
    ensures var l := MemoryList(Some(list));
            Taken(b, l) == [C, D] && BufferUploaded(b, l) == Buffer(Queue(None, [], [A, B]), [], 2)
  {
  }

  lemma BagsDiffer(sent: Bag, taken: Bag)
    requires sent == multiset{A, B} && taken == multiset([C, D])
    ensures multiset{} + sent == multiset{A, B} && multiset{} + (sent - taken) == multiset{A, B}
    ensures multiset{} + (taken - sent) == multiset{C, D}
  {
    assert A[0] == 65 && B[0] == 66 && C[0] == 67 && D[0] == 68;
    assert taken == multiset{C, D};
  }

  lemma AnswerBooks(s: Manager)
    requires Enabled(s, MainAnswer(true)) && s.main.NormalSending? && Acknowledgeable(s, MainAnswer(true))
    ensures var l, t := s.main.blist, Apply(s, MainAnswer(true));
            var taken, sent := multiset(Taken(s.normal, l)), ListLines(Data(l));
            && t.normal == BufferUploaded(s.normal, l) && t.otherBooks.uploaded == s.otherBooks.uploaded + sent
            && t.otherBooks.lost == s.otherBooks.lost + (taken - sent)
            && t.otherBooks.repeated == s.otherBooks.repeated + (sent - taken)
  {
    hide ListLines, Taken, BufferUploaded, Target, Data;
  }

  lemma OnlyNewest(ls: seq<Bytes>)
    ensures Pending(Queue(None, [], ls)) == ls
  {
  }

  lemma SplitOfTwo()
    ensures ListLines(A + B) == multiset{A, B}
  {
    hide Split;
    assert IsLine(A) && IsLine(B) && AllLines([A, B]);
    FlattenOne(B);
    assert [A, B][1..] == [B];
    assert Join([A, B]) == A + B;
    JoinIsClean([A, B]);
  }
}
