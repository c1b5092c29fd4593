/** Deadlock freedom, termination of the shutdown, and when both fail. */
module PipelineLiveness {
  import opened FilterSpec
  import opened RingBuffers
  import opened Children
  import opened Sums
  import opened Pipeline
  import opened PipelineInvariant
  import opened PipelineSafety
  import opened PipelineTheorems

  // ----- deadlock freedom -----

  /** Waiting for something that only another module can bring, or finished. */
  predicate Idle(m: Module, ring: Ring) {
    m.pc == Done || (m.pc == TakeNew && m.newCmd == 0) || (m.pc == PopWait && ring.sem == 0)
  }

  /** A thread that waits for its child: one of the two can move. */
  lemma ChildAnswers(cfg: Config, i: int, m: Module)
    requires 0 <= i < cfg.n - 1 && Local(cfg, i, m) && !HasQuit(m)
    requires m.pc == AwaitResult || m.pc == StopChildAwait
    ensures OwnReady(m) || ChildReady(m)
  {
  }

  lemma AwaitingHasChild(cfg: Config, i: int, m: Module)
    requires 0 <= i < cfg.n && Local(cfg, i, m)
    ensures i == cfg.n - 1 ==> !SendPc(m.pc) && m.pc != AwaitResult && m.pc != StopChildAwait && m.pc != Start
  {
  }

  lemma MutexMoves(cfg: Config, s: State, i: int)
    requires Inv(cfg, s) && 0 <= i < cfg.n && (RingPc(s.mods[i].pc))
    requires s.mods[i].pc == PopWait ==> s.ring.sem > 0
    ensures exists step :: Moves(cfg, s, step)
  {
    hide Modules, Links, Streams, Conserved, Ids, OwnReady, SendReady;
    var j := if s.ring.mutex == -1 then i else s.ring.mutex;
    if !RingReady(s.mods[i], s.ring) {
      assert s.mods[i].pc == PopLock || s.mods[i].pc == PushLock || Critical(s.mods[i].pc);
    }
    HolderReady(cfg, s, j);
    if RingReady(s.mods[i], s.ring) {
      assert Moves(cfg, s, Thread(i));
    } else {
      assert Moves(cfg, s, Thread(j));
    }
  }

  /** Whoever is in the critical section can leave it. */
  lemma HolderReady(cfg: Config, s: State, j: int)
    requires RingInv(cfg, s) && Conserved(cfg, s) && |s.mods| == cfg.n && 0 <= j < cfg.n
    ensures Critical(s.mods[j].pc) ==> RingReady(s.mods[j], s.ring)
  {
    RingRoom(cfg, s, j);
  }

  /** Follow the credits down the chain: a module that is not idle can move, or a later one can. */
  lemma {:induction false} Progress(cfg: Config, s: State, i: int)
    requires ValidConfig(cfg) && Inv(cfg, s) && NoneQuit(s) && 0 <= i < cfg.n && !Idle(s.mods[i], s.ring)
    ensures exists step :: Moves(cfg, s, step)
    decreases cfg.n - i
  {
    hide Inv, NoneQuit, ValidConfig, Enabled, RingReady, OwnReady;
    InvLength(cfg, s);
    var m := s.mods[i];
    if RingPc(m.pc) {
      MutexMoves(cfg, s, i);
    } else if m.pc == Start {
      StartMoves(cfg, s, i);
    } else if OwnPc(m.pc) {
      OwnMoves(cfg, s, i);
    } else {
      LastSends(cfg, s, i);
      if SendReady(m, s.mods[i + 1]) {
        NextSend(cfg, s, i);
        assert Moves(cfg, s, Thread(i));
      } else {
        NoCreditMeansBusy(cfg, s, i);
        Progress(cfg, s, i + 1);
      }
    }
  }

  lemma StartMoves(cfg: Config, s: State, i: int)
    requires ValidConfig(cfg) && Inv(cfg, s) && 0 <= i < cfg.n && s.mods[i].pc == Start
    ensures exists step :: Moves(cfg, s, step)
  {
    hide Modules, Links, Streams, RingInv, Conserved, MutexInv;
    IdsFit(cfg, s);
    assert Moves(cfg, s, Thread(i));
  }

  lemma OwnMoves(cfg: Config, s: State, i: int)
    requires ValidConfig(cfg) && Inv(cfg, s) && NoneQuit(s) && 0 <= i < cfg.n && OwnPc(s.mods[i].pc)
    requires !Idle(s.mods[i], s.ring)
    ensures exists step :: Moves(cfg, s, step)
  {
    hide Local, Commands, Links, Streams, RingInv, Conserved, MutexInv, Ids, ChildReady;
    var m := s.mods[i];
    AwaitingHasChild(cfg, i, m);
    if m.pc == AwaitResult || m.pc == StopChildAwait {
      ChildAnswers(cfg, i, m);
      assert Moves(cfg, s, Thread(i)) || Moves(cfg, s, Child(i));
    } else {
      assert Moves(cfg, s, Thread(i));
    }
  }

  lemma LastSends(cfg: Config, s: State, i: int)
    requires Inv(cfg, s) && 0 <= i < cfg.n && !RingPc(s.mods[i].pc) && !OwnPc(s.mods[i].pc) && s.mods[i].pc != Start
    requires s.mods[i].pc != Done
    ensures SendPc(s.mods[i].pc) && i < cfg.n - 1 && |s.mods| == cfg.n
  {
    hide Local, Commands, Links, Streams, RingInv, Conserved, MutexInv, Ids;
    AwaitingHasChild(cfg, i, s.mods[i]);
  }

  lemma NoCreditMeansBusy(cfg: Config, s: State, i: int)
    requires Inv(cfg, s) && 0 <= i < cfg.n - 1 && SendPc(s.mods[i].pc) && !SendReady(s.mods[i], s.mods[i + 1])
    ensures !Idle(s.mods[i + 1], s.ring)
  {
    hide Commands, Streams, RingInv, Conserved, MutexInv, Ids;
    assert Link(s.mods[i], s.mods[i + 1]);
    assert Local(cfg, i + 1, s.mods[i + 1]);
  }

  /** STOP sent and STOP seen go together, so "finished" propagates both ways along a chain of idle modules. */
  lemma IdleNeighbours(cfg: Config, s: State, i: int)
    requires Inv(cfg, s) && 0 <= i < cfg.n - 1 && Idle(s.mods[i], s.ring) && Idle(s.mods[i + 1], s.ring)
    ensures s.mods[i].pc == Done <==> s.mods[i + 1].pc == Done
  {
    hide Commands, Streams, RingInv, Conserved, MutexInv, Ids, SlotInv, SlotFields, ResultInv, QuitIn, HasQuit;
    assert Link(s.mods[i], s.mods[i + 1]);
    assert Local(cfg, i + 1, s.mods[i + 1]);
  }

  lemma {:induction false} IdleAlike(cfg: Config, s: State, i: int)
    requires Inv(cfg, s) && 0 <= i < cfg.n && forall j :: 0 <= j < cfg.n ==> Idle(s.mods[j], s.ring)
    ensures s.mods[i].pc == Done <==> s.mods[0].pc == Done
    decreases i
  {
    hide Inv, Idle;
    InvLength(cfg, s);
    if i > 0 {
      IdleNeighbours(cfg, s, i - 1);
      IdleAlike(cfg, s, i - 1);
    }
  }

  lemma IdleOwnsNothing(cfg: Config, i: int, m: Module, ring: Ring)
    requires 0 <= i < cfg.n && Local(cfg, i, m) && Idle(m, ring) && m.pc != Done
    ensures Owned(m) == multiset{} && forall k :: Debt(k, m) == 0
    ensures m.pc == (if i == 0 then PopWait else TakeNew)
  {
  }

  /** If every module is idle, all are finished: otherwise all buffers are in the ring and the source's pop proceeds. */
  lemma AllIdleAllDone(cfg: Config, s: State)
    requires ValidConfig(cfg) && Inv(cfg, s) && forall i :: 0 <= i < cfg.n ==> Idle(s.mods[i], s.ring)
    ensures AllDone(s)
  {
    InvLength(cfg, s);
    forall i | 0 <= i < cfg.n ensures s.mods[i].pc == Done <==> s.mods[0].pc == Done {
      IdleAlike(cfg, s, i);
    }
    hide Local, Commands, Links, Streams, RingInv, Conserved, MutexInv, Ids, Owned, Debt;
    if s.mods[0].pc != Done {
      forall i | 0 <= i < cfg.n
        ensures Owned(s.mods[i]) == multiset{} && Debt(cfg.n - i, s.mods[i]) == 0
      {
        IdleOwnsNothing(cfg, i, s.mods[i], s.ring);
      }
      IdleOwnsNothing(cfg, 0, s.mods[0], s.ring);
      EmptyHandsFullRing(cfg, s);
      assert false;
    }
  }

  lemma EmptyHandsFullRing(cfg: Config, s: State)
    requires |s.mods| == cfg.n && RingInv(cfg, s) && Conserved(cfg, s)
    requires forall i :: 0 <= i < cfg.n ==> Owned(s.mods[i]) == multiset{} && Debt(cfg.n - i, s.mods[i]) == 0
    ensures s.ring.sem == |cfg.offsets|
  {
    hide Owned, Debt, Fifo;
    SumZero(Debt, s.mods);
    UnionEmpty(Owned, s.mods);
    assert |multiset(Queued(s.ring))| == |multiset(cfg.offsets)|;
  }

  /** In every reachable state in which some thread has not exited and no child has quit, a thread or a child can move,
      whether or not the exit flag is raised. */
  lemma NoDeadlock(cfg: Config, s: State)
    requires ValidConfig(cfg) && Reachable(cfg, s) && NoneQuit(s) && !AllDone(s)
    ensures !Stuck(cfg, s)
  {
    hide Inv, Reachable, NoneQuit, Enabled, Idle, AllDone;
    ReachableInv(cfg, s);
    InvLength(cfg, s);
    if i :| 0 <= i < cfg.n && !Idle(s.mods[i], s.ring) {
      Progress(cfg, s, i);
    } else {
      AllIdleAllDone(cfg, s);
    }
  }

  // ----- the measure -----

  function Pos(x: int): nat { if x < 0 then 0 else x }

  /** Steps left to the child and to the semaphores between it and its thread. */
  function ChildRank(s: Slot): nat {
    if s.semJob > 0 then 7
    else match s.child
      case CSwitch => 6
      case CFetch => 5
      case CAct => 4
      case CSet => 3
      case CPost => 2
      case CQuitPost => 2
      case CStopSet => 3
      case CStopPost => 2
      case _ => 0
  }

  /** Steps left to a thread at distance `k` from the end of the chain, including what its messages cause downstream.
      `extra` is the cost of the source's next look at the exit flag. */
  function ThreadRank(k: int, extra: int, pc: Pc): int {
    match pc
    case Start => 30 * k
    case Test => 30 * k - 3
    case Fetch => 60 * k + 5
    case PopWait => 60 * k + 4
    case PopLock => 60 * k + 3
    case PopTake => 60 * k + 2
    case PopUnlock => 60 * k + 1
    case TakeNew => 0
    case ReadCmd => 30 * k - 1
    case ReadOffs => 30 * k - 2
    case PostResult => 30 * k - 3
    case SetCmd => extra + 30 * k - 4
    case SetOffs => extra + 30 * k - 5
    case PostJob => extra + 30 * k - 6
    case AwaitResult => extra + 30 * k - 14
    case CheckResult => 30 * k - 15
    case AwaitCredit => extra + 30 * k - 16
    case SendCmd => extra + 30 * k - 17
    case SendOffs => extra + 30 * k - 18
    case PostNew => extra + 30 * k - 19
    case Deliver => 30 * k - 5
    case PushLock => 30 * k - 20
    case PushPut => 30 * k - 21
    case PushUnlock => 30 * k - 22
    case PushPost => 30 * k - 23
    case StopCredit => 30 * k - 4
    case StopSend => 30 * k - 5
    case StopPost => 30 * k - 6
    case StopChildCmd => 20
    case StopChildPost => 19
    case StopChildAwait => 11
    case Done => 0
  }

  /** A module's share of the steps that are left: thread, unread message, child. */
  function Rank(n: int, k: int, m: Module): nat {
    Pos(ThreadRank(k, if k == n then 30 * k else 0, m.pc)) + (if m.newCmd > 0 then Pos(30 * k)
        else 0) + ChildRank(m.slot)
  }

  ghost function RankOf(n: int): (int, Module) -> nat {
    (k, m) => Rank(n, k, m)
  }

  /** An upper bound on the number of steps that are left once the exit flag is set. */
  ghost function Measure(s: State): nat {
    Sum(RankOf(|s.mods|), s.mods)
  }

  lemma OrderDescends(cfg: Config, i: int, mem: map<int, int>, m: Module)
    requires 0 <= i < cfg.n && Local(cfg, i, m) && OwnReady(m) && OrderPc(m.pc)
    ensures Rank(cfg.n, cfg.n - i, OwnNext(cfg, i, true, mem, m)) < Rank(cfg.n, cfg.n - i, m)
  {
  }

  lemma MailboxDescends(cfg: Config, i: int, mem: map<int, int>, m: Module)
    requires 0 <= i < cfg.n && RoleOk(cfg.n, i, m.pc) && OwnReady(m) && MailboxPc(m.pc) && m.newCmd <= 1
    ensures Rank(cfg.n, cfg.n - i, OwnNext(cfg, i, true, mem, m)) < Rank(cfg.n, cfg.n - i, m)
  {
    hide ChildRank;
  }

  lemma LoopDescends(cfg: Config, i: int, mem: map<int, int>, m: Module)
    requires 0 <= i < cfg.n && RoleOk(cfg.n, i, m.pc) && OwnReady(m)
    requires m.pc.Test? || m.pc.Fetch? || m.pc.Deliver?
    ensures Rank(cfg.n, cfg.n - i, OwnNext(cfg, i, true, mem, m)) < Rank(cfg.n, cfg.n - i, m)
  {
    hide ChildRank, Read;
  }

  lemma StopDescends(cfg: Config, i: int, mem: map<int, int>, m: Module)
    requires 0 <= i < cfg.n - 1 && SlotInv(m) && OwnReady(m) && !OrderPc(m.pc) && !MailboxPc(m.pc)
    requires !(m.pc.Test? || m.pc.Fetch? || m.pc.Deliver?)
    ensures Rank(cfg.n, cfg.n - i, OwnNext(cfg, i, true, mem, m)) < Rank(cfg.n, cfg.n - i, m)
  {
  }

  lemma OtherDescends(cfg: Config, i: int, mem: map<int, int>, m: Module)
    requires 0 <= i < cfg.n && Local(cfg, i, m) && OwnReady(m) && !OrderPc(m.pc) && m.newCmd <= 1
    ensures Rank(cfg.n, cfg.n - i, OwnNext(cfg, i, true, mem, m)) < Rank(cfg.n, cfg.n - i, m)
  {
    hide Rank, OwnNext, SlotInv, SlotFields, ResultInv, QuitIn;
    if MailboxPc(m.pc) {
      MailboxDescends(cfg, i, mem, m);
    } else if m.pc.Test? || m.pc.Fetch? || m.pc.Deliver? {
      LoopDescends(cfg, i, mem, m);
    } else {
      StopDescends(cfg, i, mem, m);
    }
  }

  lemma RingDescends(cfg: Config, i: int, m: Module, r: Ring)
    requires 0 <= i < cfg.n && Local(cfg, i, m) && RingReady(m, r)
    ensures Rank(cfg.n, cfg.n - i, RingNext(i, m, r).0) < Rank(cfg.n, cfg.n - i, m)
  {
  }

  /** The sender's own steps left, at distance `k` from the end of a chain of `n`. */
  function ThreadPart(n: int, k: int, pc: Pc): nat {
    Pos(ThreadRank(k, if k == n then 30 * k else 0, pc))
  }

  function MailPart(k: int, newCmd: nat): nat {
    if newCmd > 0 then Pos(30 * k) else 0
  }

  lemma RankParts(n: int, k: int, m: Module)
    ensures Rank(n, k, m) == ThreadPart(n, k, m.pc) + MailPart(k, m.newCmd) + ChildRank(m.slot)
  {
    hide Pos, ThreadRank, ChildRank;
  }

  /** A sender moves on by one step; posting costs it what the message then counts in the mailbox. */
  lemma SendPart(n: int, i: int, m: Module, b: Module)
    requires 0 <= i < n - 1 && SendReady(m, b)
    ensures var posted := if m.pc.PostNew? || m.pc.StopPost? then 30 * (n - i - 1) else 0;
            ThreadPart(n, n - i, SendNext(i, m, b).0.pc) + posted < ThreadPart(n, n - i, m.pc)
  {
  }

  lemma SendKeepsRest(i: int, m: Module, b: Module)
    requires SendReady(m, b)
    ensures var (m', b') := SendNext(i, m, b);
            && m'.newCmd == m.newCmd && m'.slot == m.slot && b'.pc == b.pc && b'.slot == b.slot
            && b'.newCmd == b.newCmd + if m.pc.PostNew? || m.pc.StopPost? then 1 else 0
  {
  }

  lemma SendDescends(cfg: Config, i: int, m: Module, b: Module)
    requires 0 <= i < cfg.n - 1 && Local(cfg, i, m) && SendReady(m, b) && Link(m, b)
    ensures var (m', b') := SendNext(i, m, b);
            Rank(cfg.n, cfg.n - i, m') + Rank(cfg.n, cfg.n - i - 1, b')
            < Rank(cfg.n, cfg.n - i, m) + Rank(cfg.n, cfg.n - i - 1, b)
  {
    hide Rank, ThreadPart, ChildRank, SendNext, SendReady, Local, Link;
    var (m', b') := SendNext(i, m, b);
    SendPart(cfg.n, i, m, b);
    SendKeepsRest(i, m, b);
    RankParts(cfg.n, cfg.n - i, m);
    RankParts(cfg.n, cfg.n - i, m');
    RankParts(cfg.n, cfg.n - i - 1, b);
    RankParts(cfg.n, cfg.n - i - 1, b');
  }

  lemma ChildDescends(cfg: Config, i: int, mem: map<int, int>, m: Module)
    requires 0 <= i < cfg.n && Local(cfg, i, m) && ChildReady(m)
    ensures Rank(cfg.n, cfg.n - i, ChildNext(cfg, i, mem, m)) < Rank(cfg.n, cfg.n - i, m)
  {
  }

  lemma StartDescends(cfg: Config, i: int, m: Module, m': Module)
    requires 0 <= i < cfg.n && m.pc == Start && m' == m.(id := m'.id, pc := if i == 0 then Test else TakeNew)
    ensures Rank(cfg.n, cfg.n - i, m') < Rank(cfg.n, cfg.n - i, m)
  {
  }

  lemma RankUpdate(s: State, i: int, m: Module)
    requires 0 <= i < |s.mods|
    ensures Measure(s.(mods := s.mods[i := m])) + Rank(|s.mods|, |s.mods| - i, s.mods[i])
         == Measure(s) + Rank(|s.mods|, |s.mods| - i, m)
  {
    hide Rank;
    SumUpdate(RankOf(|s.mods|), s.mods, i, m);
  }

  lemma OwnStepDescends(cfg: Config, s: State, i: int)
    requires Inv(cfg, s) && s.exit && 0 <= i < cfg.n && OwnReady(s.mods[i])
    ensures Measure(Next(cfg, s, Thread(i))) < Measure(s)
  {
    hide Local, Commands, Links, Streams, RingInv, Conserved, MutexInv, Ids, OwnReady, OwnNext, Measure, Rank, Next,
         Enabled;
    NextOwn(cfg, s, i);
    var m := s.mods[i];
    OwnTokens(cfg, s, i);
    if OrderPc(m.pc) {
      OrderDescends(cfg, i, s.mem, m);
    } else {
      OtherDescends(cfg, i, s.mem, m);
    }
    RankUpdate(s, i, OwnNext(cfg, i, true, s.mem, m));
    MeasureIgnores(s, Next(cfg, s, Thread(i)), s.(mods := s.mods[i := OwnNext(cfg, i, true, s.mem, m)]));
  }

  lemma OwnTokens(cfg: Config, s: State, i: int)
    requires Inv(cfg, s) && 0 <= i < cfg.n
    ensures s.mods[i].newCmd <= 1
  {
    hide Local, Commands, Link, Streams, RingInv, Conserved, MutexInv, Ids, ExitInv;
    MailboxToken(cfg, s, i);
  }

  /** The measure only looks at the modules. */
  lemma MeasureIgnores(s: State, t: State, u: State)
    requires t.mods == u.mods
    ensures Measure(t) == Measure(u)
  {
  }

  lemma RingStepDescends(cfg: Config, s: State, i: int)
    requires Inv(cfg, s) && 0 <= i < cfg.n && RingReady(s.mods[i], s.ring)
    ensures Measure(Next(cfg, s, Thread(i))) < Measure(s)
  {
    hide Local, Commands, Links, Streams, RingInv, Conserved, MutexInv, Ids, RingReady, RingNext, Measure, Rank, Next,
         Enabled;
    NextRing(cfg, s, i);
    var m' := RingNext(i, s.mods[i], s.ring).0;
    RingDescends(cfg, i, s.mods[i], s.ring);
    RankUpdate(s, i, m');
    MeasureIgnores(s, Next(cfg, s, Thread(i)), s.(mods := s.mods[i := m']));
  }

  lemma SendStepDescends(cfg: Config, s: State, i: int)
    requires Inv(cfg, s) && 0 <= i < cfg.n - 1 && SendReady(s.mods[i], s.mods[i + 1])
    ensures Measure(Next(cfg, s, Thread(i))) < Measure(s)
  {
    hide Local, Commands, Link, Streams, RingInv, Conserved, MutexInv, Ids, SendReady, SendNext, Measure, Rank, Next,
         Enabled;
    NextSend(cfg, s, i);
    var (m', b') := SendNext(i, s.mods[i], s.mods[i + 1]);
    LinkAt(cfg, s, i);
    SendDescends(cfg, i, s.mods[i], s.mods[i + 1]);
    RankUpdate(s, i, m');
    RankUpdate(s.(mods := s.mods[i := m']), i + 1, b');
  }

  lemma ChildStepDescends(cfg: Config, s: State, i: int)
    requires Inv(cfg, s) && 0 <= i < cfg.n && ChildReady(s.mods[i])
    ensures Measure(Next(cfg, s, Child(i))) < Measure(s)
  {
    hide Local, Commands, Links, Streams, RingInv, Conserved, MutexInv, Ids, ChildReady, ChildNext, ChildMem, Measure,
        Rank;
    var m' := ChildNext(cfg, i, s.mem, s.mods[i]);
    ChildDescends(cfg, i, s.mem, s.mods[i]);
    RankUpdate(s, i, m');
    MeasureIgnores(s, Next(cfg, s, Child(i)), s.(mods := s.mods[i := m']));
  }

  lemma StartStepDescends(cfg: Config, s: State, i: int)
    requires Inv(cfg, s) && 0 <= i < cfg.n && s.mods[i].pc == Start && s.processCnt < cfg.processMax
    ensures Measure(Next(cfg, s, Thread(i))) < Measure(s)
  {
    hide Local, Commands, Links, Streams, RingInv, Conserved, MutexInv, Ids, Measure, Rank;
    var t := Next(cfg, s, Thread(i));
    StartDescends(cfg, i, s.mods[i], t.mods[i]);
    RankUpdate(s, i, t.mods[i]);
    MeasureIgnores(s, t, s.(mods := s.mods[i := t.mods[i]]));
  }

  /** Once the exit flag is set, every step of any thread or child brings the end nearer. */
  lemma StepDescends(cfg: Config, s: State, step: Step)
    requires Inv(cfg, s) && s.exit && Enabled(cfg, s, step)
    ensures Measure(Next(cfg, s, step)) < Measure(s)
  {
    match step
    case RaiseExit =>
      hide Inv, Measure, Next;
    case Child(i) =>
      ChildIndex(cfg, s, i);
      hide Inv, Measure, Next, Enabled, ChildReady;
      ChildStepDescends(cfg, s, i);
    case Thread(i) =>
      ThreadStepDescends(cfg, s, i);
  }

  lemma ThreadStepDescends(cfg: Config, s: State, i: int)
    requires Inv(cfg, s) && s.exit && Enabled(cfg, s, Thread(i))
    ensures Measure(Next(cfg, s, Thread(i))) < Measure(s)
  {
    hide Modules, Links, Streams, RingInv, Conserved, MutexInv, Ids, Measure, Next;
    if s.mods[i].pc == Start {
      StartStepDescends(cfg, s, i);
    } else if OwnPc(s.mods[i].pc) {
      OwnStepDescends(cfg, s, i);
    } else if RingPc(s.mods[i].pc) {
      RingStepDescends(cfg, s, i);
    } else {
      SendStepDescends(cfg, s, i);
    }
  }

  lemma {:induction false} BoundedRun(cfg: Config, s: State, steps: seq<Step>, t: State)
    requires ValidConfig(cfg) && Inv(cfg, s) && s.exit && Leads(cfg, s, steps, t)
    ensures |steps| + Measure(t) <= Measure(s) && Inv(cfg, t) && t.exit
    decreases |steps|
  {
    hide Inv, Measure, Enabled, ValidConfig;
    if steps != [] {
      StepKeepsInv(cfg, s, steps[0]);
      StepDescends(cfg, s, steps[0]);
      ExitStays(cfg, s, steps[0]);
      hide Next;
      BoundedRun(cfg, Next(cfg, s, steps[0]), steps[1..], t);
    }
  }

  lemma ExitStays(cfg: Config, s: State, step: Step)
    requires Enabled(cfg, s, step) && s.exit
    ensures Next(cfg, s, step).exit
  {
  }

  // ----- how a run ends -----

  lemma DoneNotQuit(cfg: Config, s: State)
    requires Inv(cfg, s) && AllDone(s)
    ensures NoneQuit(s)
  {
    hide Commands, Links, Streams, RingInv, Conserved, MutexInv, Ids;
    forall i | 0 <= i < |s.mods| ensures !HasQuit(s.mods[i]) {
      assert Local(cfg, i, s.mods[i]);
    }
  }

  lemma QuitWhenMinusOne(cfg: Config, s: State)
    requires Inv(cfg, s)
    ensures NoneQuit(s) <==> forall i :: 0 <= i < cfg.n - 1 ==> !QuitIn(cfg, i, s.mods[i].log)
  {
    hide Commands, Links, Streams, RingInv, Conserved, MutexInv, Ids, QuitIn, SlotInv, SlotFields, ResultInv;
    forall i | 0 <= i < cfg.n ensures HasQuit(s.mods[i]) <==> i < cfg.n - 1 && QuitIn(cfg, i, s.mods[i].log) {
      assert Local(cfg, i, s.mods[i]);
    }
  }

  lemma Appended(steps: seq<Step>, more: seq<Step>)
    requires steps != []
    ensures (steps + more)[0] == steps[0] && (steps + more)[1..] == steps[1..] + more
  {
  }

  lemma {:induction false} LeadsOn(cfg: Config, s: State, steps: seq<Step>, t: State, more: seq<Step>, u: State)
    requires Leads(cfg, s, steps, t) && Leads(cfg, t, more, u)
    ensures Leads(cfg, s, steps + more, u)
    decreases |steps|
  {
    hide Enabled, Next;
    if steps == [] {
      assert steps + more == more;
    } else {
      Appended(steps, more);
      LeadsOn(cfg, Next(cfg, s, steps[0]), steps[1..], t, more, u);
    }
  }

  /** Where a run can end, before or after the exit flag: a reachable state in which no thread and no child can move has
      all threads exited if and only if no action of any child has returned -1. */
  lemma EndIsCleanIffNoneQuit(cfg: Config, s: State)
    requires ValidConfig(cfg) && Reachable(cfg, s) && Stuck(cfg, s)
    ensures |s.mods| == cfg.n
    ensures AllDone(s) <==> forall i :: 0 <= i < cfg.n - 1 ==> !QuitIn(cfg, i, s.mods[i].log)
  {
    hide Inv, Stuck, Reachable, QuitIn, NoneQuit;
    ReachableInv(cfg, s);
    InvLength(cfg, s);
    QuitWhenMinusOne(cfg, s);
    if AllDone(s) {
      DoneNotQuit(cfg, s);
    } else if NoneQuit(s) {
      hide AllDone;
      NoDeadlock(cfg, s);
    }
  }

  ghost predicate NeverMinusOne(cfg: Config) {
    forall i: int, h: seq<int> :: cfg.act(i, h).status != -1
  }

  lemma {:induction false} NeverQuits(cfg: Config, i: int, log: seq<int>)
    requires NeverMinusOne(cfg)
    ensures !QuitIn(cfg, i, log)
    decreases |log|
  {
    if log != [] {
      NeverQuits(cfg, i, log[..|log| - 1]);
    }
  }

  lemma {:induction false} RunToEnd(cfg: Config, s: State) returns (steps: seq<Step>, t: State)
    requires ValidConfig(cfg) && Inv(cfg, s) && s.exit
    ensures Leads(cfg, s, steps, t) && Stuck(cfg, t)
    decreases Measure(s)
  {
    hide Inv, Measure, Enabled, ValidConfig, Next;
    if step :| Moves(cfg, s, step) {
      StepKeepsInv(cfg, s, step);
      StepDescends(cfg, s, step);
      ExitStays(cfg, s, step);
      var rest;
      rest, t := RunToEnd(cfg, Next(cfg, s, step));
      steps := [step] + rest;
      assert steps[1..] == rest;
    } else {
      steps, t := [], s;
    }
  }

  lemma ReachableOn(cfg: Config, s: State, steps: seq<Step>, t: State)
    requires Reachable(cfg, s) && Leads(cfg, s, steps, t)
    ensures Reachable(cfg, t)
  {
    var before :| Leads(cfg, Init(cfg), before, s);
    LeadsOn(cfg, Init(cfg), before, s, steps, t);
  }

  /** After the exit flag is set, no run is longer than `Measure`, and a run that goes on as long as it can reaches a
      state in which nothing can move. */
  lemma ShutdownTerminates(cfg: Config, s: State)
    requires ValidConfig(cfg) && Reachable(cfg, s) && s.exit
    ensures forall steps, t :: Leads(cfg, s, steps, t) ==> |steps| + Measure(t) <= Measure(s)
    ensures exists steps, t :: Leads(cfg, s, steps, t) && Stuck(cfg, t)
  {
    hide Inv, Stuck, Measure, Leads, ValidConfig;
    ReachableInv(cfg, s);
    forall steps, t | Leads(cfg, s, steps, t) ensures |steps| + Measure(t) <= Measure(s) {
      BoundedRun(cfg, s, steps, t);
    }
    var steps, t := RunToEnd(cfg, s);
  }

  /** Shutdown: from any reachable state with the exit flag set, a run that cannot go on has delivered the whole
      filtered stream, returned every buffer and stopped every child. */
  lemma ShutdownCompletes(cfg: Config, s: State, steps: seq<Step>, t: State)
    requires ValidConfig(cfg) && NeverMinusOne(cfg) && Reachable(cfg, s) && s.exit
    requires Leads(cfg, s, steps, t) && Stuck(cfg, t)
    ensures AllDone(t) && |t.mods| == cfg.n
    ensures Delivered(t) == ChainOut(cfg.act, cfg.n - 2, Captured(t))
    ensures Shape(t.ring.buffer, t.ring.start, t.ring.used) && multiset(Queued(t.ring)) == multiset(cfg.offsets)
    ensures forall i :: 0 <= i < cfg.n - 1 ==> t.mods[i].slot.child == CExited
  {
    hide Stuck, QuitIn, Leads, ValidConfig;
    ReachableOn(cfg, s, steps, t);
    EndIsCleanIffNoneQuit(cfg, t);
    forall i | 0 <= i < cfg.n - 1 ensures !QuitIn(cfg, i, t.mods[i].log) {
      NeverQuits(cfg, i, t.mods[i].log);
    }
    DeliveryIsFilter(cfg, t);
    BuffersConserved(cfg, t);
    forall i | 0 <= i < cfg.n - 1 ensures t.mods[i].slot.child == CExited {
      StopOnce(cfg, t, i);
    }
  }

  // ----- a child that quits is fatal -----

  /** Only the child itself changes whether it has quit. */
  lemma ThreadLeavesChild(cfg: Config, i: int, exit: bool, mem: map<int, int>, m: Module, b: Module, r: Ring)
    ensures OwnReady(m) ==> HasQuit(OwnNext(cfg, i, exit, mem, m)) == HasQuit(m)
    ensures RingReady(m, r) ==> HasQuit(RingNext(i, m, r).0) == HasQuit(m)
    ensures SendReady(m, b) ==> HasQuit(SendNext(i, m, b).0) == HasQuit(m) && HasQuit(SendNext(i, m, b).1) == HasQuit(b)
  {
    hide Take, Put, WrapIndex, Read;
  }

  lemma ChildStaysQuit(cfg: Config, i: int, mem: map<int, int>, m: Module)
    requires ChildReady(m) && HasQuit(m)
    ensures HasQuit(ChildNext(cfg, i, mem, m))
  {
    hide Answer, Read;
  }

  lemma QuitStays(cfg: Config, s: State, step: Step, i: int)
    requires Enabled(cfg, s, step) && 0 <= i < |s.mods| && HasQuit(s.mods[i])
    ensures |Next(cfg, s, step).mods| == |s.mods| && HasQuit(Next(cfg, s, step).mods[i])
  {
    match step
    case RaiseExit =>
      hide HasQuit;
    case Child(j) =>
      hide HasQuit, ChildReady, ChildNext, ChildMem;
      if j == i {
        ChildStaysQuit(cfg, i, s.mem, s.mods[i]);
      }
    case Thread(j) =>
      ThreadStaysQuit(cfg, s, j, i);
  }

  lemma ThreadStaysQuit(cfg: Config, s: State, j: int, i: int)
    requires Enabled(cfg, s, Thread(j)) && 0 <= i < |s.mods| && HasQuit(s.mods[i])
    ensures |Next(cfg, s, Thread(j)).mods| == |s.mods| && HasQuit(Next(cfg, s, Thread(j)).mods[i])
  {
    var m := s.mods[j];
    var b := if j + 1 < |s.mods| then s.mods[j + 1] else m;
    ThreadLeavesChild(cfg, j, s.exit, s.mem, m, b, s.ring);
    PcIsOne(m, b, s.ring);
    if m.pc == Start {
      assert HasQuit(m.(id := s.processCnt, pc := if j == 0 then Test else TakeNew)) == HasQuit(m);
    }
    hide HasQuit, OwnReady, OwnNext, RingReady, RingNext, SendReady, SendNext, OwnPc, RingPc, SendPc;
  }

  /** A location belongs to one kind of action. */
  lemma PcIsOne(m: Module, b: Module, r: Ring)
    ensures OwnReady(m) ==> OwnPc(m.pc) && !RingPc(m.pc) && m.pc != Start
    ensures RingReady(m, r) ==> RingPc(m.pc) && !OwnPc(m.pc) && m.pc != Start
    ensures SendReady(m, b) ==> !RingPc(m.pc) && !OwnPc(m.pc) && m.pc != Start
  {
  }

  lemma {:induction false} QuitPersists(cfg: Config, s: State, i: int, steps: seq<Step>, t: State)
    requires 0 <= i < |s.mods| && HasQuit(s.mods[i]) && Leads(cfg, s, steps, t)
    ensures |t.mods| == |s.mods| && HasQuit(t.mods[i])
    decreases |steps|
  {
    hide Enabled, Next, HasQuit;
    if steps != [] {
      QuitStays(cfg, s, steps[0], i);
      QuitPersists(cfg, Next(cfg, s, steps[0]), i, steps[1..], t);
    }
  }

  /** Once an action of some child returned -1, no continuation of the run ends with all threads exited. */
  lemma QuitIsFatal(cfg: Config, s: State, i: int, steps: seq<Step>, t: State)
    requires ValidConfig(cfg) && Reachable(cfg, s) && 0 <= i < |s.mods| - 1 && QuitIn(cfg, i, s.mods[i].log)
    requires Leads(cfg, s, steps, t)
    ensures !AllDone(t)
  {
    hide Inv, HasQuit, ValidConfig, QuitIn, Leads;
    ReachableInv(cfg, s);
    InvLength(cfg, s);
    QuitAt(cfg, s, i);
    QuitPersists(cfg, s, i, steps, t);
    ReachableOn(cfg, s, steps, t);
    ReachableInv(cfg, t);
    if AllDone(t) {
      DoneNotQuit(cfg, t);
      assert false;
    }
  }

  lemma QuitAt(cfg: Config, s: State, i: int)
    requires Inv(cfg, s) && 0 <= i < cfg.n - 1
    ensures |s.mods| == cfg.n && (HasQuit(s.mods[i]) <==> QuitIn(cfg, i, s.mods[i].log))
  {
    hide Commands, Links, Streams, RingInv, Conserved, MutexInv, Ids, QuitIn, SlotInv, SlotFields, ResultInv;
    assert Local(cfg, i, s.mods[i]);
  }
}
