/** Every step of every run of the credit-based pipeline keeps the invariant. */
module CreditSafety {
  import opened FilterSpec
  import opened RingBuffers
  import opened Children
  import opened Sums
  import opened CreditPipeline
  import opened CreditInvariant

  lemma LiftOne(cfg: Config, s: State, t: State, i: int)
    requires |s.stages| == cfg.n && Stages(cfg, s) && Links(cfg, s) && Streams(cfg, s)
    requires 0 <= i < cfg.n && |t.stages| == cfg.n && t.stages == s.stages[i := t.stages[i]] && t.mem == s.mem
    requires Local(cfg, i, t.stages[i]) && Commands(cfg, i, t.stages[i])
    requires i > 0 ==>
               (&& Link(cfg, i - 1, s.stages[i - 1], t.stages[i])
                && Stream(cfg, i - 1, s.stages[i - 1], t.stages[i], s.mem))
    requires i < cfg.n - 1 ==>
               (&& Link(cfg, i, t.stages[i], s.stages[i + 1])
                && Stream(cfg, i, t.stages[i], s.stages[i + 1], s.mem))
    ensures Stages(cfg, t) && Links(cfg, t) && Streams(cfg, t)
  {
    hide Local, Commands, Link, Stream;
  }

  lemma LiftCounts(cfg: Config, s: State, t: State, i: int)
    requires RingInv(cfg, s) && Conserved(cfg, s) && MutexInv(s)
    requires 0 <= i < |s.stages| == |t.stages| && t.stages == s.stages[i := t.stages[i]] && t.ring == s.ring
    requires Owned(t.stages[i]) == Owned(s.stages[i]) && Critical(t.stages[i].pc) == Critical(s.stages[i].pc)
    requires forall k :: Debt(k, t.stages[i]) == Debt(k, s.stages[i])
    ensures RingInv(cfg, t) && Conserved(cfg, t) && MutexInv(t)
  {
    hide Owned, Debt, Fifo, Critical;
    SumUpdate(Debt, s.stages, i, t.stages[i]);
    UnionUpdate(Owned, s.stages, i, t.stages[i]);
    var q := multiset(Queued(s.ring));
    Transfer(Union(Owned, s.stages), Union(Owned, t.stages), Owned(s.stages[i]), Owned(t.stages[i]), q, q);
  }

  lemma SameOwned(m: Stage, m': Stage)
    requires Holds(m') == Holds(m) && m'.localOffs == m.localOffs
    ensures Owned(m') == Owned(m)
  {
  }

  lemma Neighbours(cfg: Config, s: State, i: int)
    requires |s.stages| == cfg.n && Links(cfg, s) && Streams(cfg, s) && 0 <= i < cfg.n - 1
    ensures Link(cfg, i, s.stages[i], s.stages[i + 1]) && Stream(cfg, i, s.stages[i], s.stages[i + 1], s.mem)
  {
    hide Link, Stream;
  }

  // ----- the kinds of thread steps -----

  lemma NextOwn(cfg: Config, s: State, i: int)
    requires 0 <= i < |s.stages| && OwnReady(s.stages[i])
    ensures Enabled(s, Thread(i))
    ensures Next(cfg, s, Thread(i)) == s.(stages := s.stages[i := OwnNext(i, s.exit, s.mem, s.stages[i])])
  {
  }

  lemma NextRing(cfg: Config, s: State, i: int)
    requires 0 <= i < |s.stages| && RingReady(s.stages[i], s.ring)
    ensures Enabled(s, Thread(i))
    ensures var (m', ring') := RingNext(i, s.stages[i], s.ring);
            Next(cfg, s, Thread(i)) == s.(stages := s.stages[i := m'], ring := ring')
  {
  }

  lemma NextPrev(cfg: Config, s: State, i: int)
    requires 0 < i < |s.stages| && PrevReady(s.stages[i - 1], s.stages[i])
    ensures Enabled(s, Thread(i))
    ensures var (a', m') := PrevNext(|s.stages|, i, s.stages[i - 1], s.stages[i]);
            Next(cfg, s, Thread(i)) == s.(stages := s.stages[i - 1 := a'][i := m'])
  {
  }

  lemma OwnStep(cfg: Config, s: State, i: int)
    requires Inv(cfg, s) && 0 <= i < cfg.n && OwnReady(s.stages[i])
    ensures Inv(cfg, Next(cfg, s, Thread(i)))
  {
    hide Local, Commands, Link, Stream, Links, Streams, RingInv, Conserved, MutexInv, Owned, Debt, Critical,
         OwnNext, OwnReady, SameOwner, Next, Enabled, Holds;
    NextOwn(cfg, s, i);
    var m := s.stages[i];
    var t := Next(cfg, s, Thread(i));
    OwnKeepsLocal(cfg, i, s.exit, s.mem, m);
    OwnKeepsCommands(cfg, i, s.exit, s.mem, m);
    if i > 0 {
      Neighbours(cfg, s, i - 1);
      OwnKeepsLeft(cfg, i, s.exit, s.mem, s.stages[i - 1], m);
    }
    if i < cfg.n - 1 {
      Neighbours(cfg, s, i);
      OwnKeepsOwner(cfg, i, s.exit, s.mem, m);
      SameOwnerKeeps(cfg, i, m, t.stages[i], s.stages[i + 1], s.mem);
    }
    LiftOne(cfg, s, t, i);
    OwnKeepsCounts(cfg, i, s.exit, s.mem, m);
    SameOwned(m, t.stages[i]);
    LiftCounts(cfg, s, t, i);
  }

  // ----- the ring -----

  lemma RingRoom(cfg: Config, s: State, i: int)
    requires |s.stages| == cfg.n && RingInv(cfg, s) && Conserved(cfg, s) && 0 <= i < cfg.n
    ensures s.stages[i].pc == PopTake ==> s.ring.used > 0
    ensures s.stages[i].pc == PushPut ==> s.ring.used < |s.ring.buffer|
  {
    if s.stages[i].pc == PopTake {
      SumAtLeast(Debt, s.stages, i);
    } else if s.stages[i].pc == PushPut {
      var held := Union(Owned, s.stages);
      UnionHas(Owned, s.stages, i);
      OwnsWhatItHolds(s.stages[i]);
      assert held[s.stages[i].localOffs] > 0;
      assert |multiset(Queued(s.ring)) + held| == |cfg.offsets|;
      assert |held| > 0;
    }
  }

  lemma RingStepStages(cfg: Config, s: State, i: int)
    requires Inv(cfg, s) && 0 <= i < cfg.n && RingReady(s.stages[i], s.ring)
    ensures var t := Next(cfg, s, Thread(i)); Stages(cfg, t) && Links(cfg, t) && Streams(cfg, t)
  {
    hide Local, Commands, Link, Stream, Links, Streams, RingInv, Conserved, MutexInv, RingNext, RingReady,
         SameReader, SameOwner, Next, Enabled;
    NextRing(cfg, s, i);
    var m := s.stages[i];
    var t := Next(cfg, s, Thread(i));
    RingKeepsLocal(cfg, i, m, s.ring);
    RingKeepsViews(cfg, i, m, s.ring);
    if i > 0 {
      Neighbours(cfg, s, i - 1);
      SameReaderKeeps(cfg, i - 1, s.stages[i - 1], m, t.stages[i], s.mem);
    }
    if i < cfg.n - 1 {
      Neighbours(cfg, s, i);
      SameOwnerKeeps(cfg, i, m, t.stages[i], s.stages[i + 1], s.mem);
    }
    LiftOne(cfg, s, t, i);
  }

  lemma RingStepAccounts(cfg: Config, s: State, i: int)
    requires Inv(cfg, s) && 0 <= i < cfg.n && RingReady(s.stages[i], s.ring)
    ensures var t := Next(cfg, s, Thread(i)); RingInv(cfg, t) && Conserved(cfg, t) && MutexInv(t)
  {
    hide Stages, Links, Streams, Owned, Debt, RingNext, RingReady, Fifo, Next, Enabled, Queue, Critical;
    NextRing(cfg, s, i);
    var m := s.stages[i];
    var t := Next(cfg, s, Thread(i));
    RingRoom(cfg, s, i);
    RingEffect(i, m, s.ring);
    RingMovesMutex(i, m, s.ring);
    SumUpdate(Debt, s.stages, i, t.stages[i]);
    UnionUpdate(Owned, s.stages, i, t.stages[i]);
    FifoShape(t.ring);
    Transfer(Union(Owned, s.stages), Union(Owned, t.stages), Owned(m), Owned(t.stages[i]),
             multiset(Queued(s.ring)), multiset(Queued(t.ring)));
  }

  // ----- the previous slot -----

  lemma PrevStepStages(cfg: Config, s: State, i: int)
    requires ValidConfig(cfg) && Inv(cfg, s) && 0 < i < cfg.n && PrevReady(s.stages[i - 1], s.stages[i])
    ensures var t := Next(cfg, s, Thread(i)); Stages(cfg, t) && Links(cfg, t) && Streams(cfg, t)
  {
    hide Local, Commands, Link, Stream, RingInv, Conserved, MutexInv, PrevNext, PrevReady, SameReader, SameOwner,
         Next, Enabled, ValidConfig;
    NextPrev(cfg, s, i);
    var a, m := s.stages[i - 1], s.stages[i];
    var t := Next(cfg, s, Thread(i));
    Neighbours(cfg, s, i - 1);
    PrevKeepsReader(cfg, i, a, m);
    PrevKeepsOwner(cfg, i, a, m);
    PrevKeepsCommands(cfg, i, a, m);
    PrevKeepsLink(cfg, i, a, m);
    PrevKeepsStream(cfg, i, a, m, s.mem);
    if i > 1 {
      Neighbours(cfg, s, i - 2);
      SameReaderKeeps(cfg, i - 2, s.stages[i - 2], a, t.stages[i - 1], s.mem);
    }
    if i < cfg.n - 1 {
      Neighbours(cfg, s, i);
      SameOwnerKeeps(cfg, i, m, t.stages[i], s.stages[i + 1], s.mem);
    }
    forall j | 0 <= j < cfg.n - 1
      ensures Link(cfg, j, t.stages[j], t.stages[j + 1]) && Stream(cfg, j, t.stages[j], t.stages[j + 1], t.mem)
    {
      if j != i - 2 && j != i - 1 && j != i {
        Neighbours(cfg, s, j);
      }
    }
  }

  lemma PrevStepAccounts(cfg: Config, s: State, i: int)
    requires Inv(cfg, s) && 0 < i < cfg.n && PrevReady(s.stages[i - 1], s.stages[i])
    ensures var t := Next(cfg, s, Thread(i)); RingInv(cfg, t) && Conserved(cfg, t) && MutexInv(t)
  {
    hide Local, Commands, Link, Stream, Links, Streams, Owned, Debt, Critical, PrevNext, PrevReady, Fifo, Next,
        Enabled, Queue;
    NextPrev(cfg, s, i);
    var a, m := s.stages[i - 1], s.stages[i];
    var t := Next(cfg, s, Thread(i));
    var half := s.stages[i - 1 := t.stages[i - 1]];
    assert t.stages == half[i := t.stages[i]];
    Neighbours(cfg, s, i - 1);
    PrevKeepsRest(cfg.n, i, a, m);
    PrevKeepsOwned(cfg, i, a, m);
    SumUpdate(Debt, s.stages, i - 1, t.stages[i - 1]);
    SumUpdate(Debt, half, i, t.stages[i]);
    UnionUpdate(Owned, s.stages, i - 1, t.stages[i - 1]);
    UnionUpdate(Owned, half, i, t.stages[i]);
    Balance(Union(Owned, s.stages), Union(Owned, half), Union(Owned, t.stages),
            Owned(a), Owned(t.stages[i - 1]), Owned(m), Owned(t.stages[i]));
  }

  // ----- the children -----

  /** A buffer in one party's hands is in no other place. */
  lemma HeldOnce(cfg: Config, s: State, i: int)
    requires Distinct(cfg.offsets) && |s.stages| == cfg.n && Conserved(cfg, s) && 0 <= i < cfg.n && Holds(s.stages[i])
    ensures s.stages[i].localOffs !in Queued(s.ring)
    ensures forall j :: 0 <= j < cfg.n && j != i && Holds(s.stages[j])
              ==> s.stages[j].localOffs != s.stages[i].localOffs
  {
    hide Owned, Holds, Queue;
    var x := s.stages[i].localOffs;
    DistinctOnce(cfg.offsets, x);
    assert (multiset(Queued(s.ring)) + Union(Owned, s.stages))[x] <= 1;
    UnionHas(Owned, s.stages, i);
    OwnsWhatItHolds(s.stages[i]);
    assert multiset(Queued(s.ring))[x] == 0;
    forall j | 0 <= j < cfg.n && j != i
      ensures Holds(s.stages[j]) ==> s.stages[j].localOffs != x
    {
      OwnsWhatItHolds(s.stages[j]);
      if j < i {
        UnionHasBoth(Owned, s.stages, j, i);
      } else {
        UnionHasBoth(Owned, s.stages, i, j);
      }
      assert (Owned(s.stages[i]) + Owned(s.stages[j]))[x] <= 1;
    }
  }

  lemma HeldApart(cfg: Config, s: State, i: int)
    requires Distinct(cfg.offsets) && |s.stages| == cfg.n && Conserved(cfg, s) && 0 <= i < cfg.n && Holds(s.stages[i])
    ensures forall j :: 0 <= j < cfg.n && j != i && HasPre(s.stages[j])
              ==> s.stages[j].localOffs != s.stages[i].localOffs
    ensures forall j :: 0 <= j < cfg.n && j != i && HasPost(cfg, j, s.stages[j]) ==>
                        s.stages[j].localOffs != s.stages[i].localOffs
  {
    hide Conserved;
    HeldOnce(cfg, s, i);
  }

  lemma ActStep(cfg: Config, s: State, i: int)
    requires ValidConfig(cfg) && Inv(cfg, s) && 0 <= i < cfg.n && ChildReady(s.stages[i])
        && s.stages[i].slot.child == CAct
    ensures var t := Next(cfg, s, Child(i)); Stages(cfg, t) && Links(cfg, t) && Streams(cfg, t)
  {
    hide Local, Commands, Link, Links, Stream, Streams, RingInv, Conserved, MutexInv, Holds, HasPre, HasPost,
        ChildNext, ChildMem, ChildReady;
    var m := s.stages[i];
    var t := Next(cfg, s, Child(i));
    ActHere(cfg, i, s.mem, m);
    HeldApart(cfg, s, i);
    ChildKeepsLocal(cfg, i, s.mem, m);
    ChildKeepsCommands(cfg, i, s.mem, m);
    Neighbours(cfg, s, i);
    ActKeepsLinks(cfg, i, s.mem, m, m, s.stages[i + 1]);
    ActKeepsRight(cfg, i, s.mem, m, s.stages[i + 1]);
    if i > 0 {
      Neighbours(cfg, s, i - 1);
      ActKeepsLinks(cfg, i, s.mem, s.stages[i - 1], m, m);
      ActKeepsLeft(cfg, i, s.mem, s.stages[i - 1], m);
    }
    forall j | 0 <= j < cfg.n - 1
      ensures Link(cfg, j, t.stages[j], t.stages[j + 1]) && Stream(cfg, j, t.stages[j], t.stages[j + 1], t.mem)
    {
      if j != i - 1 && j != i {
        ActElsewhere(cfg, s, i, j);
      }
    }
    StagesAfter(cfg, s, t, i);
    LinksFrom(cfg, t);
  }

  lemma StagesAfter(cfg: Config, s: State, t: State, i: int)
    requires Stages(cfg, s) && 0 <= i < |s.stages| == |t.stages| && t.stages == s.stages[i := t.stages[i]]
    requires Local(cfg, i, t.stages[i]) && Commands(cfg, i, t.stages[i])
    ensures Stages(cfg, t)
  {
    hide Local, Commands;
  }

  lemma LinksFrom(cfg: Config, t: State)
    requires |t.stages| == cfg.n
    requires forall j :: 0 <= j < cfg.n - 1 ==>
               Link(cfg, j, t.stages[j], t.stages[j + 1]) && Stream(cfg, j, t.stages[j], t.stages[j + 1], t.mem)
    ensures Links(cfg, t) && Streams(cfg, t)
  {
    hide Link, Stream;
  }

  lemma ActElsewhere(cfg: Config, s: State, i: int, j: int)
    requires ValidConfig(cfg) && Inv(cfg, s) && 0 <= i < cfg.n && ChildReady(s.stages[i])
        && s.stages[i].slot.child == CAct
    requires 0 <= j < cfg.n - 1 && j != i - 1 && j != i
    ensures var t := Next(cfg, s, Child(i));
            && t.stages[j] == s.stages[j] && t.stages[j + 1] == s.stages[j + 1]
            && Link(cfg, j, s.stages[j], s.stages[j + 1]) && Stream(cfg, j, s.stages[j], s.stages[j + 1], t.mem)
  {
    hide Local, Commands, Link, Links, Streams, RingInv, Conserved, MutexInv, Holds, HasPre, HasPost, ChildNext,
        InFlight;
    var m := s.stages[i];
    ActHere(cfg, i, s.mem, m);
    HeldApart(cfg, s, i);
    Neighbours(cfg, s, j);
    InFlightFrame(cfg, j, s.stages[j], s.stages[j + 1], s.mem, m.localOffs, Answer(cfg, i, s.mem, m).content);
  }

  lemma ChildKeepsCommands(cfg: Config, i: int, mem: map<int, int>, m: Stage)
    requires Commands(cfg, i, m) && ChildReady(m)
    ensures Commands(cfg, i, ChildNext(cfg, i, mem, m))
  {
    ChildKeepsRest(cfg, i, mem, m);
  }

  lemma QuietChildStep(cfg: Config, s: State, i: int)
    requires Inv(cfg, s) && 0 <= i < cfg.n && ChildReady(s.stages[i]) && s.stages[i].slot.child != CAct
    ensures var t := Next(cfg, s, Child(i)); Stages(cfg, t) && Links(cfg, t) && Streams(cfg, t)
  {
    hide Local, Commands, Link, Links, Stream, Streams, RingInv, Conserved, MutexInv, ChildNext, ChildReady,
         SameReader, SameOwner;
    var m := s.stages[i];
    var t := Next(cfg, s, Child(i));
    ChildKeepsLocal(cfg, i, s.mem, m);
    ChildKeepsCommands(cfg, i, s.mem, m);
    ChildKeepsViews(cfg, i, s.mem, m);
    Neighbours(cfg, s, i);
    SameOwnerKeeps(cfg, i, m, t.stages[i], s.stages[i + 1], s.mem);
    if i > 0 {
      Neighbours(cfg, s, i - 1);
      SameReaderKeeps(cfg, i - 1, s.stages[i - 1], m, t.stages[i], s.mem);
    }
    LiftOne(cfg, s, t, i);
  }

  lemma ChildStep(cfg: Config, s: State, i: int)
    requires ValidConfig(cfg) && Inv(cfg, s) && 0 <= i < cfg.n && ChildReady(s.stages[i])
    ensures Inv(cfg, Next(cfg, s, Child(i)))
  {
    hide Stages, Links, Streams, RingInv, Conserved, MutexInv, Owned, Debt, Critical, ChildNext, ChildMem, ChildReady,
        Holds;
    var m := s.stages[i];
    var t := Next(cfg, s, Child(i));
    if m.slot.child == CAct {
      ActStep(cfg, s, i);
    } else {
      QuietChildStep(cfg, s, i);
    }
    ChildKeepsRest(cfg, i, s.mem, m);
    SameOwned(m, t.stages[i]);
    LiftCounts(cfg, s, t, i);
  }

  // ----- all steps, all runs -----

  lemma ThreadStep(cfg: Config, s: State, i: int)
    requires ValidConfig(cfg) && Inv(cfg, s) && Enabled(s, Thread(i))
    ensures Inv(cfg, Next(cfg, s, Thread(i)))
  {
    hide Stages, Links, Streams, RingInv, Conserved, MutexInv, OwnNext, RingNext, PrevNext, ValidConfig;
    var m := s.stages[i];
    if OwnPc(m.pc) {
      OwnStep(cfg, s, i);
    } else if RingPc(m.pc) {
      RingStepStages(cfg, s, i);
      RingStepAccounts(cfg, s, i);
    } else {
      PrevStepStages(cfg, s, i);
      PrevStepAccounts(cfg, s, i);
    }
  }

  lemma ChildIndex(cfg: Config, s: State, i: int)
    requires Inv(cfg, s) && Enabled(s, Child(i))
    ensures 0 <= i < cfg.n && |s.stages| == cfg.n && ChildReady(s.stages[i])
  {
    hide Stages, Links, Streams, RingInv, Conserved, MutexInv;
  }

  lemma RaiseExitKeepsInv(cfg: Config, s: State)
    requires Inv(cfg, s) && !s.exit
    ensures Inv(cfg, Next(cfg, s, RaiseExit))
  {
    hide Local, Commands, Link, Stream, Fifo, Critical, Owned, Debt;
    var t := Next(cfg, s, RaiseExit);
    assert Stages(cfg, t) && Links(cfg, t) && Streams(cfg, t);
  }

  /** Whatever thread, child or caller moves, the invariant is kept. */
  lemma StepKeepsInv(cfg: Config, s: State, step: Step)
    requires ValidConfig(cfg) && Inv(cfg, s) && Enabled(s, step)
    ensures Inv(cfg, Next(cfg, s, step))
  {
    match step
    case RaiseExit => RaiseExitKeepsInv(cfg, s);
    case Child(i) =>
      ChildIndex(cfg, s, i);
      hide Inv, Enabled, Next, ChildReady, ValidConfig;
      ChildStep(cfg, s, i);
    case Thread(i) => ThreadStep(cfg, s, i);
  }

  lemma InvLength(cfg: Config, s: State)
    requires Inv(cfg, s)
    ensures |s.stages| == cfg.n >= 2
  {
  }

  lemma InitLocal(cfg: Config, i: int)
    requires cfg.n >= 2 && 0 <= i < cfg.n
    ensures Local(cfg, i, InitStage(i)) && Commands(cfg, i, InitStage(i)) && Owned(InitStage(i)) == multiset{}
    ensures !Critical(InitStage(i).pc) && forall k :: Debt(k, InitStage(i)) == 0
  {
  }

  lemma InitNeighbours(cfg: Config, i: int)
    requires cfg.n >= 2 && 0 <= i < cfg.n - 1
    ensures Link(cfg, i, InitStage(i), InitStage(i + 1)) && Stream(cfg, i, InitStage(i), InitStage(i + 1), cfg.memory)
  {
    hide Passes;
    assert StageOut(cfg.act, i, []) == [];
    assert InFlight(cfg, i, InitStage(i), InitStage(i + 1), cfg.memory) == [];
  }

  lemma InitInv(cfg: Config)
    requires ValidConfig(cfg)
    ensures Inv(cfg, Init(cfg))
  {
    hide Local, Commands, Link, Stream, Owned, Debt, Critical;
    var s := Init(cfg);
    forall i | 0 <= i < cfg.n
      ensures Local(cfg, i, s.stages[i]) && Commands(cfg, i, s.stages[i]) && Owned(s.stages[i]) == multiset{}
      ensures Debt(cfg.n - i, s.stages[i]) == 0 && !Critical(s.stages[i].pc)
    {
      InitLocal(cfg, i);
    }
    forall i | 0 <= i < cfg.n - 1
      ensures Link(cfg, i, s.stages[i], s.stages[i + 1]) && Stream(cfg, i, s.stages[i], s.stages[i + 1], s.mem)
    {
      InitNeighbours(cfg, i);
    }
    SumZero(Debt, s.stages);
    UnionEmpty(Owned, s.stages);
    FullQueue(cfg.offsets);
  }

  lemma {:induction false} RunKeepsInv(cfg: Config, s: State, steps: seq<Step>, t: State)
    requires ValidConfig(cfg) && Inv(cfg, s) && Leads(cfg, s, steps, t)
    ensures Inv(cfg, t)
    decreases |steps|
  {
    hide Inv, Enabled, Next, ValidConfig;
    if steps != [] {
      StepKeepsInv(cfg, s, steps[0]);
      RunKeepsInv(cfg, Next(cfg, s, steps[0]), steps[1..], t);
    }
  }

  lemma ReachableInv(cfg: Config, s: State)
    requires ValidConfig(cfg) && Reachable(cfg, s)
    ensures Inv(cfg, s)
  {
    hide Inv, Init;
    InitInv(cfg);
    var steps :| Leads(cfg, Init(cfg), steps, s);
    RunKeepsInv(cfg, Init(cfg), steps, s);
  }
}
