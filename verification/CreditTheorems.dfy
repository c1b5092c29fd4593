/** The results about all runs of the credit-based pipeline. */
module CreditTheorems {
  import opened FilterSpec
  import opened RingBuffers
  import opened Children
  import opened Sums
  import opened CreditPipeline
  import opened CreditInvariant
  import opened CreditSafety

  // ----- delivery: the same sequential filter -----

  /** The packets that the first child captured without reporting an error. */
  ghost function Captured(cfg: Config, s: State): seq<int>
    requires s.stages != []
  {
    StageOut(cfg.act, 0, s.stages[0].log)
  }

  function Delivered(s: State): seq<int>
    requires s.stages != []
  {
    s.stages[|s.stages| - 1].log
  }

  lemma NoneInFlight(cfg: Config, i: int, a: Stage, b: Stage, mem: map<int, int>)
    requires a.pc == Done && b.pc == Done
    ensures InFlight(cfg, i, a, b, mem) == []
  {
    hide Passes;
  }

  lemma LogPrefix(cfg: Config, s: State, i: int)
    requires Inv(cfg, s) && 0 < i < cfg.n
    ensures s.stages[i].log <= StageOut(cfg.act, i - 1, s.stages[i - 1].log)
    ensures AllDone(s) ==> s.stages[i].log == StageOut(cfg.act, i - 1, s.stages[i - 1].log)
  {
    hide Stages, Links, Streams, InFlight, StageOut, RingInv, Conserved, MutexInv;
    Neighbours(cfg, s, i - 1);
    if AllDone(s) {
      NoneInFlight(cfg, i - 1, s.stages[i - 1], s.stages[i], s.mem);
    }
  }

  /** The captured packets, then what each later stage was given. */
  ghost function Logs(cfg: Config, s: State): (logs: seq<seq<int>>)
    requires s.stages != []
    ensures |logs| == |s.stages| && logs[0] == Captured(cfg, s)
    ensures forall i :: 0 < i < |logs| ==> logs[i] == s.stages[i].log
  {
    seq(|s.stages|, i requires 0 <= i < |s.stages| => if i == 0 then Captured(cfg, s) else s.stages[i].log)
  }

  lemma LogsFit(cfg: Config, s: State)
    requires Inv(cfg, s)
    ensures |s.stages| == cfg.n
    ensures forall i :: 0 < i < cfg.n ==> Fed(cfg.act, Logs(cfg, s), i)
    ensures AllDone(s) ==> forall i :: 0 < i < cfg.n ==> FedAll(cfg.act, Logs(cfg, s), i)
  {
    hide Inv, StageOut, AllDone;
    InvLength(cfg, s);
    forall i | 0 < i < cfg.n
      ensures Fed(cfg.act, Logs(cfg, s), i)
      ensures AllDone(s) ==> FedAll(cfg.act, Logs(cfg, s), i)
    {
      LogPrefix(cfg, s, i);
    }
  }

  /** In every reachable state the finish thread has received, in order, a prefix of what the sequential filter makes
      of the captured packets; all of it once every thread has exited. */
  lemma DeliveryIsFilter(cfg: Config, s: State)
    requires ValidConfig(cfg) && Reachable(cfg, s)
    ensures |s.stages| == cfg.n
    ensures Delivered(s) <= ChainOut(cfg.act, cfg.n - 2, Captured(cfg, s))
    ensures AllDone(s) ==> Delivered(s) == ChainOut(cfg.act, cfg.n - 2, Captured(cfg, s))
  {
    hide Inv, Fed, FedAll, ChainOut, StageOut, Reachable, ValidConfig, AllDone;
    ReachableInv(cfg, s);
    InvLength(cfg, s);
    LogsFit(cfg, s);
    LastLog(cfg.act, Logs(cfg, s));
    if AllDone(s) {
      LastAllLog(cfg.act, Logs(cfg, s));
    }
  }

  /** For filters that judge each packet on its own and leave it alone: the finish thread receives, in order, the
      captured packets that every middle stage passed; all of them once every thread has exited. */
  lemma DeliveredWherePassed(cfg: Config, s: State, verdict: (int, int) -> int)
    requires ValidConfig(cfg) && Reachable(cfg, s) && Stateless(cfg.act, verdict)
    ensures |s.stages| == cfg.n
    ensures Delivered(s) <= Kept(verdict, cfg.n - 2, Captured(cfg, s))
    ensures AllDone(s) ==> Delivered(s) == Kept(verdict, cfg.n - 2, Captured(cfg, s))
  {
    hide Reachable, AllDone, Stateless, ChainOut, Kept, StageOut;
    DeliveryIsFilter(cfg, s);
    ChainKeeps(cfg.act, verdict, cfg.n - 2, Captured(cfg, s));
  }

  // ----- ring, tokens, buffers, commands -----

  /** Thread `i` is between lock and unlock. */
  predicate InRing(s: State, i: int) {
    0 <= i < |s.stages| && Critical(s.stages[i].pc)
  }

  /** The ring refines a FIFO queue here as well: the semaphore plus the operations caught between semaphore and
      counter equals `used`, poppers find an offset, pushers find room, one thread at a time is inside. */
  lemma RingIsQueue(cfg: Config, s: State)
    requires ValidConfig(cfg) && Reachable(cfg, s)
    ensures Fifo(s.ring) && |s.ring.buffer| == |cfg.offsets|
    ensures s.ring.sem + Sum(Debt, s.stages) == s.ring.used
    ensures forall i :: 0 <= i < |s.stages| && s.stages[i].pc == PopTake ==> s.ring.used > 0
    ensures forall i :: 0 <= i < |s.stages| && s.stages[i].pc == PushPut ==> s.ring.used < |s.ring.buffer|
    ensures forall i, j :: InRing(s, i) && InRing(s, j) ==> i == j
  {
    hide Stages, Links, Streams, Reachable, Debt, Fifo, Critical;
    ReachableInv(cfg, s);
    forall i | 0 <= i < |s.stages|
      ensures s.stages[i].pc == PopTake ==> s.ring.used > 0
      ensures s.stages[i].pc == PushPut ==> s.ring.used < |s.ring.buffer|
    {
      RingRoom(cfg, s, i);
    }
  }

  /** The next thread reads only while the slot is out of everybody else's hands: the previous thread waits for its
      credit, its child waits for a job, and the fields describe the packet whose action ran last. */
  lemma SlotStableWhileRead(cfg: Config, s: State, i: int)
    requires ValidConfig(cfg) && Reachable(cfg, s) && 0 <= i < |s.stages| - 1
    ensures var a, b := s.stages[i], s.stages[i + 1];
            && Count(OwnsSlot(a.pc)) + a.slot.semJob + Count(Active(a.slot.child)) + a.slot.semResult
               + Count(Reading(b.pc)) + a.sem + Count(Stopping(b.pc)) == 1
            && (Reading(b.pc) ==> (a.pc == AwaitCredit || a.pc == Done) && !Active(a.slot.child) && a.slot.semJob == 0)
            && (Reading(b.pc) && b.pc != ReadCmd ==>
                  && a.slot.cmd == JOB && a.slot.offs == a.localOffs
                  && a.slot.cmdResult == cfg.act(i, a.log).status)
            && (OwnsSlot(a.pc) ==> !Active(a.slot.child) && !Reading(b.pc))
  {
    ReachableInv(cfg, s);
    InvLength(cfg, s);
    PairFacts(cfg, s, i);
  }

  lemma PairFacts(cfg: Config, s: State, i: int)
    requires Inv(cfg, s) && 0 <= i < cfg.n - 1
    ensures |s.stages| == cfg.n
    ensures Link(cfg, i, s.stages[i], s.stages[i + 1]) && Local(cfg, i, s.stages[i])
        && Local(cfg, i + 1, s.stages[i + 1])
    ensures Commands(cfg, i, s.stages[i])
  {
    hide Link, Links, Local, Commands, Streams, RingInv, Conserved, MutexInv;
    Neighbours(cfg, s, i);
    assert 0 <= i + 1 < |s.stages|;
  }

  lemma DoneOwnsNothing(m: Stage)
    requires m.pc == Done
    ensures Owned(m) == multiset{}
  {
  }

  /** No packet is duplicated or lost: each offset is in exactly one place, and back in the ring at the end. */
  lemma BuffersConserved(cfg: Config, s: State)
    requires ValidConfig(cfg) && Reachable(cfg, s)
    ensures Shape(s.ring.buffer, s.ring.start, s.ring.used)
    ensures forall x :: x in cfg.offsets ==> (multiset(Queued(s.ring)) + Union(Owned, s.stages))[x] == 1
    ensures forall x :: x !in cfg.offsets ==> (multiset(Queued(s.ring)) + Union(Owned, s.stages))[x] == 0
    ensures AllDone(s) ==> multiset(Queued(s.ring)) == multiset(cfg.offsets)
  {
    hide Stages, Links, Streams, RingInv, MutexInv, Reachable, Owned;
    ReachableInv(cfg, s);
    forall x ensures (multiset(Queued(s.ring)) + Union(Owned, s.stages))[x] == if x in cfg.offsets then 1 else 0 {
      DistinctOnce(cfg.offsets, x);
    }
    if AllDone(s) {
      forall i | 0 <= i < |s.stages| ensures Owned(s.stages[i]) == multiset{} {
        DoneOwnsNothing(s.stages[i]);
      }
      UnionEmpty(Owned, s.stages);
    }
  }

  /** Each child gets JOBs and then at most one STOP. The next thread stops exactly after it took the STOP, when every
      earlier packet has left the link. */
  lemma StopAfterEveryPacket(cfg: Config, s: State, i: int)
    requires ValidConfig(cfg) && Reachable(cfg, s) && 0 <= i < |s.stages| - 1
    ensures forall k :: 0 <= k < |s.stages[i].orders| - 1 ==> s.stages[i].orders[k] == JOB
    ensures s.stages[i].pc == Done <==> STOP in s.stages[i].orders
    ensures Stopping(s.stages[i + 1].pc) ==>
              (&& s.stages[i].pc == Done && s.stages[i].slot.child == CExited
               && InFlight(cfg, i, s.stages[i], s.stages[i + 1], s.mem) == [])
  {
    ReachableInv(cfg, s);
    InvLength(cfg, s);
    PairFacts(cfg, s, i);
    StopFacts(cfg, i, s.stages[i], s.stages[i + 1], s.mem);
  }

  lemma StopFacts(cfg: Config, i: int, a: Stage, b: Stage, mem: map<int, int>)
    requires 0 <= i < cfg.n - 1 && Local(cfg, i, a) && Local(cfg, i + 1, b) && Commands(cfg, i, a) && Link(cfg, i, a, b)
    ensures forall k :: 0 <= k < |a.orders| - 1 ==> a.orders[k] == JOB
    ensures a.pc == Done <==> STOP in a.orders
    ensures Stopping(b.pc) ==> a.pc == Done && a.slot.child == CExited && InFlight(cfg, i, a, b, mem) == []
  {
    hide Passes;
  }

  // ----- deadlock freedom -----

  /** Finished, or waiting for something that only another party can bring. */
  predicate Idle(s: State, i: int)
    requires 0 <= i < |s.stages|
  {
    || s.stages[i].pc == Done
    || (s.stages[i].pc == PopWait && s.ring.sem == 0)
    || (i > 0 && s.stages[i].pc == AwaitPrev && s.stages[i - 1].slot.semResult == 0)
  }

  lemma MutexMoves(cfg: Config, s: State, i: int)
    requires RingInv(cfg, s) && Conserved(cfg, s) && MutexInv(s) && |s.stages| == cfg.n && 0 <= i < cfg.n
    requires RingPc(s.stages[i].pc) && (s.stages[i].pc == PopWait ==> s.ring.sem > 0)
    ensures exists step :: Moves(s, step)
  {
    var j := if s.ring.mutex == -1 then i else s.ring.mutex;
    HolderReady(cfg, s, i);
    HolderReady(cfg, s, j);
    hide RingInv, Conserved, WrapIndex, OwnReady, PrevReady;
    if RingReady(s.stages[i], s.ring) {
      assert Moves(s, Thread(i));
    } else {
      assert Moves(s, Thread(j));
    }
  }

  lemma HolderReady(cfg: Config, s: State, j: int)
    requires RingInv(cfg, s) && Conserved(cfg, s) && |s.stages| == cfg.n && 0 <= j < cfg.n
    ensures Critical(s.stages[j].pc) ==> RingReady(s.stages[j], s.ring)
  {
    RingRoom(cfg, s, j);
  }

  /** A thread that waits for its credit: its child can move, or the next thread has something to do. */
  lemma CreditComes(cfg: Config, s: State, i: int)
    requires Inv(cfg, s) && 0 <= i < cfg.n - 1 && s.stages[i].pc == AwaitCredit && s.stages[i].sem == 0
    ensures |s.stages| == cfg.n
    ensures ChildReady(s.stages[i]) || !Idle(s, i + 1)
  {
    hide Inv, Commands;
    PairFacts(cfg, s, i);
  }

  lemma LastWaits(cfg: Config, i: int, m: Stage)
    requires 0 <= i < cfg.n && Local(cfg, i, m)
    ensures m.pc == AwaitCredit ==> i < cfg.n - 1
    ensures PrevPc(m.pc) ==> i > 0
  {
  }

  lemma ThreadMoves(cfg: Config, s: State, i: int)
    requires 0 <= i < cfg.n && |s.stages| == cfg.n && Local(cfg, i, s.stages[i]) && !Idle(s, i)
    requires !RingPc(s.stages[i].pc) && !(s.stages[i].pc == AwaitCredit && s.stages[i].sem == 0)
    ensures Moves(s, Thread(i))
  {
    hide Local;
    LastWaits(cfg, i, s.stages[i]);
  }

  lemma {:induction false} Progress(cfg: Config, s: State, i: int)
    requires Inv(cfg, s) && 0 <= i < cfg.n && |s.stages| == cfg.n && !Idle(s, i)
    ensures exists step :: Moves(s, step)
    decreases cfg.n - i
  {
    LocalAt(cfg, s, i);
    var m := s.stages[i];
    if RingPc(m.pc) {
      hide Stages, Links, Streams, Local, RingInv, Conserved, MutexInv, Enabled;
      MutexMoves(cfg, s, i);
    } else if m.pc == AwaitCredit && m.sem == 0 {
      LastWaits(cfg, i, m);
      hide Inv, Local, Idle, ChildReady;
      CreditComes(cfg, s, i);
      if ChildReady(m) {
        assert Moves(s, Child(i));
      } else {
        Progress(cfg, s, i + 1);
      }
    } else {
      hide Inv, Local, Idle, Enabled;
      ThreadMoves(cfg, s, i);
    }
  }

  /** Between idle threads with a resting child, "finished" propagates both ways. */
  lemma IdleNeighbours(cfg: Config, s: State, i: int)
    requires Inv(cfg, s) && 0 <= i < cfg.n - 1 && |s.stages| == cfg.n
    requires Idle(s, i) && Idle(s, i + 1) && !ChildReady(s.stages[i])
    ensures s.stages[i].pc == Done <==> s.stages[i + 1].pc == Done
  {
    hide Inv, Commands;
    PairFacts(cfg, s, i);
  }

  lemma {:induction false} IdleAlike(cfg: Config, s: State, i: int)
    requires Inv(cfg, s) && 0 <= i < cfg.n && |s.stages| == cfg.n
    requires forall j :: 0 <= j < cfg.n ==> Idle(s, j) && !ChildReady(s.stages[j])
    ensures s.stages[i].pc == Done <==> s.stages[0].pc == Done
    decreases i
  {
    hide Inv, Idle, ChildReady;
    if i > 0 {
      IdleNeighbours(cfg, s, i - 1);
      IdleAlike(cfg, s, i - 1);
    }
  }

  lemma IdleOwnsNothing(cfg: Config, s: State, i: int)
    requires |s.stages| == cfg.n && 0 <= i < cfg.n && Local(cfg, i, s.stages[i]) && Idle(s, i) && s.stages[i].pc != Done
    ensures Owned(s.stages[i]) == multiset{} && forall k :: Debt(k, s.stages[i]) == 0
    ensures i == 0 ==> s.stages[0].pc == PopWait && s.ring.sem == 0
  {
  }

  lemma EmptyHandsFullRing(cfg: Config, s: State)
    requires |s.stages| == cfg.n && RingInv(cfg, s) && Conserved(cfg, s)
    requires forall i :: 0 <= i < cfg.n ==> Owned(s.stages[i]) == multiset{} && Debt(cfg.n - i, s.stages[i]) == 0
    ensures s.ring.sem == |cfg.offsets|
  {
    hide Owned, Debt, Fifo;
    SumZero(Debt, s.stages);
    UnionEmpty(Owned, s.stages);
    assert |multiset(Queued(s.ring))| == |multiset(cfg.offsets)|;
  }

  lemma AllIdleAllDone(cfg: Config, s: State)
    requires ValidConfig(cfg) && Inv(cfg, s) && |s.stages| == cfg.n
    requires forall i :: 0 <= i < cfg.n ==> Idle(s, i) && !ChildReady(s.stages[i])
    ensures AllDone(s)
  {
    forall i | 0 <= i < cfg.n ensures s.stages[i].pc == Done <==> s.stages[0].pc == Done {
      IdleAlike(cfg, s, i);
    }
    hide Local, Commands, Links, Streams, RingInv, Conserved, MutexInv, Owned, Debt, Idle, ChildReady;
    if s.stages[0].pc != Done {
      forall i | 0 <= i < cfg.n
        ensures Owned(s.stages[i]) == multiset{} && Debt(cfg.n - i, s.stages[i]) == 0
      {
        assert Local(cfg, i, s.stages[i]);
        IdleOwnsNothing(cfg, s, i);
      }
      IdleOwnsNothing(cfg, s, 0);
      EmptyHandsFullRing(cfg, s);
      assert false;
    }
  }

  /** In every reachable state in which some thread has not exited, a thread or a child can move, whether or not the
      exit flag is raised; when all threads have, all children have too. */
  lemma NoDeadlock(cfg: Config, s: State)
    requires ValidConfig(cfg) && Reachable(cfg, s)
    ensures !AllDone(s) ==> !Stuck(s)
    ensures AllDone(s) ==> forall i :: 0 <= i < |s.stages| - 1 ==> s.stages[i].slot.child == CExited
  {
    hide Inv, Reachable, ValidConfig, Idle, ChildReady;
    ReachableInv(cfg, s);
    InvLength(cfg, s);
    if !AllDone(s) {
      if i :| 0 <= i < cfg.n && !Idle(s, i) {
        Progress(cfg, s, i);
      } else if i :| 0 <= i < cfg.n && ChildReady(s.stages[i]) {
        assert Moves(s, Child(i));
      } else {
        AllIdleAllDone(cfg, s);
      }
    } else {
      forall i | 0 <= i < |s.stages| - 1 ensures s.stages[i].slot.child == CExited {
        StopAfterEveryPacket(cfg, s, i);
      }
    }
  }

  // ----- termination -----

  function Pos(x: int): nat { if x < 0 then 0 else x }

  /** The packet or STOP in a slot at distance `k` from the end: child steps left, then the next stage's work. */
  function SlotRank(k: int, s: Slot): int {
    if s.semJob > 0 then 30 * k - 23
    else if s.semResult > 0 then 30 * k - 29
    else match s.child
      case CSwitch => 30 * k - 24
      case CFetch => 30 * k - 25
      case CAct => 30 * k - 26
      case CSet => 30 * k - 27
      case CPost => 30 * k - 28
      case CStopSet => 30 * k - 27
      case CStopPost => 30 * k - 28
      case _ => 0
  }

  function ThreadRank(k: int, extra: int, pc: Pc): int {
    match pc
    case Test => 30 * k
    case PopWait => 60 * k + 4
    case PopLock => 60 * k + 3
    case PopTake => 60 * k + 2
    case PopUnlock => 60 * k + 1
    case AwaitPrev => 0
    case ReadCmd => 30 * k
    case ReadOffs => 30 * k - 1
    case ReadResult => 30 * k - 2
    case CreditDrop => 30 * k - 3
    case CreditPass => 30 * k - 3
    case SetCmd => extra + 30 * k - 4
    case SetOffs => extra + 30 * k - 5
    case PostJob => extra + 30 * k - 6
    case AwaitCredit => extra + 10
    case Deliver => 30 * k - 10
    case PushLock => 30 * k - 11
    case PushPut => 30 * k - 12
    case PushUnlock => 30 * k - 13
    case PushPost => 30 * k - 14
    case StopCmd => 30 * k - 1
    case StopPost => 30 * k - 2
    case Done => 0
  }

  function Rank(n: int, k: int, m: Stage): nat {
    Pos(ThreadRank(k, if k == n then 30 * k else 0, m.pc)) + Pos(SlotRank(k, m.slot))
  }

  ghost function RankOf(n: int): (int, Stage) -> nat {
    (k, m) => Rank(n, k, m)
  }

  /** An upper bound on the number of steps that are left once the exit flag is set. */
  ghost function Measure(s: State): nat {
    Sum(RankOf(|s.stages|), s.stages)
  }

  lemma OwnDescends(cfg: Config, i: int, mem: map<int, int>, m: Stage)
    requires 0 <= i < cfg.n && Local(cfg, i, m) && OwnReady(m)
    ensures Rank(cfg.n, cfg.n - i, OwnNext(i, true, mem, m)) < Rank(cfg.n, cfg.n - i, m)
  {
    hide Read, Passes;
  }

  lemma RingDescends(cfg: Config, i: int, m: Stage, r: Ring)
    requires 0 <= i < cfg.n && Local(cfg, i, m) && RingReady(m, r)
    ensures Rank(cfg.n, cfg.n - i, RingNext(i, m, r).0) < Rank(cfg.n, cfg.n - i, m)
  {
    hide Put, Take, WrapIndex, Passes;
  }

  /** Taking the result: the credit counts on in the thread that took it. */
  lemma AwaitPrevDescends(cfg: Config, i: int, a: Stage, m: Stage)
    requires 0 < i < cfg.n && Local(cfg, i - 1, a) && PrevReady(a, m) && Link(cfg, i - 1, a, m) && m.pc == AwaitPrev
    ensures var (a', m') := PrevNext(cfg.n, i, a, m);
            Rank(cfg.n, cfg.n - i + 1, a') + Rank(cfg.n, cfg.n - i, m')
            < Rank(cfg.n, cfg.n - i + 1, a) + Rank(cfg.n, cfg.n - i, m)
  {
    hide Passes, ResultInv, SlotFields;
  }

  lemma ReadDescends(n: int, i: int, a: Stage, m: Stage)
    requires 0 < i < n && RoleOk(n, i, m.pc) && PrevReady(a, m) && m.pc != AwaitPrev
    ensures var (a', m') := PrevNext(n, i, a, m);
            a'.pc == a.pc && a'.slot == a.slot && Rank(n, n - i, m') < Rank(n, n - i, m)
  {
    hide SlotRank;
  }

  lemma PrevDescends(cfg: Config, i: int, a: Stage, m: Stage)
    requires 0 < i < cfg.n && Local(cfg, i - 1, a) && Local(cfg, i, m) && PrevReady(a, m) && Link(cfg, i - 1, a, m)
    ensures var (a', m') := PrevNext(cfg.n, i, a, m);
            Rank(cfg.n, cfg.n - i + 1, a') + Rank(cfg.n, cfg.n - i, m')
            < Rank(cfg.n, cfg.n - i + 1, a) + Rank(cfg.n, cfg.n - i, m)
  {
    hide Passes, PrevNext, PrevReady, SlotInv, SlotFields, ResultInv, Link, ThreadRank, SlotRank;
    if m.pc == AwaitPrev {
      AwaitPrevDescends(cfg, i, a, m);
    } else {
      ReadDescends(cfg.n, i, a, m);
    }
  }

  lemma ChildDescends(cfg: Config, i: int, mem: map<int, int>, m: Stage)
    requires 0 <= i < cfg.n && Local(cfg, i, m) && ChildReady(m)
    ensures Rank(cfg.n, cfg.n - i, ChildNext(cfg, i, mem, m)) < Rank(cfg.n, cfg.n - i, m)
  {
    hide Read, Passes;
  }

  lemma RankUpdate(s: State, i: int, m: Stage)
    requires 0 <= i < |s.stages|
    ensures Measure(s.(stages := s.stages[i := m])) + Rank(|s.stages|, |s.stages| - i, s.stages[i])
         == Measure(s) + Rank(|s.stages|, |s.stages| - i, m)
  {
    hide Rank;
    SumUpdate(RankOf(|s.stages|), s.stages, i, m);
  }

  lemma MeasureIgnores(t: State, u: State)
    requires t.stages == u.stages
    ensures Measure(t) == Measure(u)
  {
  }

  lemma LocalAt(cfg: Config, s: State, i: int)
    requires Inv(cfg, s) && 0 <= i < cfg.n
    ensures |s.stages| == cfg.n && Local(cfg, i, s.stages[i])
  {
    hide Local, Commands, Links, Streams, RingInv, Conserved, MutexInv;
  }

  lemma OwnStepDescends(cfg: Config, s: State, i: int)
    requires |s.stages| == cfg.n && 0 <= i < cfg.n && Local(cfg, i, s.stages[i]) && s.exit && OwnReady(s.stages[i])
    ensures Measure(Next(cfg, s, Thread(i))) < Measure(s)
  {
    hide Local, Measure, Rank, OwnNext, OwnReady, Next, Enabled;
    var m' := OwnNext(i, true, s.mem, s.stages[i]);
    NextOwn(cfg, s, i);
    OwnDescends(cfg, i, s.mem, s.stages[i]);
    RankUpdate(s, i, m');
    MeasureIgnores(Next(cfg, s, Thread(i)), s.(stages := s.stages[i := m']));
  }

  lemma RingStepDescends(cfg: Config, s: State, i: int)
    requires |s.stages| == cfg.n && 0 <= i < cfg.n && Local(cfg, i, s.stages[i]) && RingReady(s.stages[i], s.ring)
    ensures Measure(Next(cfg, s, Thread(i))) < Measure(s)
  {
    hide Local, Measure, Rank, RingNext, RingReady, Next, Enabled;
    var m' := RingNext(i, s.stages[i], s.ring).0;
    NextRing(cfg, s, i);
    RingDescends(cfg, i, s.stages[i], s.ring);
    RankUpdate(s, i, m');
    MeasureIgnores(Next(cfg, s, Thread(i)), s.(stages := s.stages[i := m']));
  }

  lemma PrevStepDescends(cfg: Config, s: State, i: int)
    requires |s.stages| == cfg.n && 0 < i < cfg.n && Local(cfg, i - 1, s.stages[i - 1]) && Local(cfg, i, s.stages[i])
    requires Link(cfg, i - 1, s.stages[i - 1], s.stages[i]) && PrevReady(s.stages[i - 1], s.stages[i])
    ensures Measure(Next(cfg, s, Thread(i))) < Measure(s)
  {
    hide Local, Link, Measure, Rank, PrevNext, PrevReady, Next, Enabled;
    var (a', m') := PrevNext(cfg.n, i, s.stages[i - 1], s.stages[i]);
    NextPrev(cfg, s, i);
    PrevDescends(cfg, i, s.stages[i - 1], s.stages[i]);
    RankUpdate(s, i - 1, a');
    RankUpdate(s.(stages := s.stages[i - 1 := a']), i, m');
  }

  lemma ThreadStepDescends(cfg: Config, s: State, i: int)
    requires Inv(cfg, s) && s.exit && Enabled(s, Thread(i))
    ensures Measure(Next(cfg, s, Thread(i))) < Measure(s)
  {
    hide Inv, Local, Measure, Link, Next, OwnNext, RingNext, PrevNext;
    InvLength(cfg, s);
    LocalAt(cfg, s, i);
    if OwnPc(s.stages[i].pc) {
      OwnStepDescends(cfg, s, i);
    } else if RingPc(s.stages[i].pc) {
      RingStepDescends(cfg, s, i);
    } else {
      PairFacts(cfg, s, i - 1);
      PrevStepDescends(cfg, s, i);
    }
  }

  lemma ChildStepDescends(cfg: Config, s: State, i: int)
    requires Inv(cfg, s) && 0 <= i < cfg.n && |s.stages| == cfg.n && ChildReady(s.stages[i])
    ensures Measure(Next(cfg, s, Child(i))) < Measure(s)
  {
    hide Inv, Local, ChildReady, ChildNext, ChildMem, Measure, Rank;
    LocalAt(cfg, s, i);
    var m' := ChildNext(cfg, i, s.mem, s.stages[i]);
    ChildDescends(cfg, i, s.mem, s.stages[i]);
    RankUpdate(s, i, m');
    MeasureIgnores(Next(cfg, s, Child(i)), s.(stages := s.stages[i := m']));
  }

  lemma StepDescends(cfg: Config, s: State, step: Step)
    requires Inv(cfg, s) && s.exit && Enabled(s, step)
    ensures Measure(Next(cfg, s, step)) < Measure(s) && Next(cfg, s, step).exit
  {
    match step
    case RaiseExit =>
      hide Inv, Measure, Next;
    case Child(i) =>
      ChildIndex(cfg, s, i);
      hide Inv, Measure, ChildReady, ChildNext, ChildMem;
      ChildStepDescends(cfg, s, i);
    case Thread(i) =>
      hide Inv, Measure, OwnReady, RingReady, PrevReady, OwnNext, RingNext, PrevNext;
      ThreadStepDescends(cfg, s, i);
  }

  lemma {:induction false} BoundedRun(cfg: Config, s: State, steps: seq<Step>, t: State)
    requires ValidConfig(cfg) && Inv(cfg, s) && s.exit && Leads(cfg, s, steps, t)
    ensures |steps| + Measure(t) <= Measure(s)
    decreases |steps|
  {
    hide Inv, Measure, Enabled, ValidConfig;
    if steps != [] {
      StepKeepsInv(cfg, s, steps[0]);
      StepDescends(cfg, s, steps[0]);
      hide Next;
      BoundedRun(cfg, Next(cfg, s, steps[0]), steps[1..], t);
    }
  }

  lemma {:induction false} LeadsOn(cfg: Config, s: State, steps: seq<Step>, t: State, more: seq<Step>, u: State)
    requires Leads(cfg, s, steps, t) && Leads(cfg, t, more, u)
    ensures Leads(cfg, s, steps + more, u)
    decreases |steps|
  {
    hide Enabled, Next;
    if steps == [] {
      assert steps + more == more;
    } else {
      assert (steps + more)[0] == steps[0] && (steps + more)[1..] == steps[1..] + more;
      LeadsOn(cfg, Next(cfg, s, steps[0]), steps[1..], t, more, u);
    }
  }

  /** Shutdown: from any reachable state with the exit flag set every run is bounded, and a run that cannot go on has
      delivered the whole filtered stream, returned every buffer and stopped every child. */
  lemma ShutdownCompletes(cfg: Config, s: State, steps: seq<Step>, t: State)
    requires ValidConfig(cfg) && Reachable(cfg, s) && s.exit && Leads(cfg, s, steps, t)
    ensures |steps| <= Measure(s)
    ensures Stuck(t) ==>
              (&& AllDone(t) && |t.stages| == cfg.n
               && Delivered(t) == ChainOut(cfg.act, cfg.n - 2, Captured(cfg, t))
               && Shape(t.ring.buffer, t.ring.start, t.ring.used) && multiset(Queued(t.ring)) == multiset(cfg.offsets)
               && forall i :: 0 <= i < cfg.n - 1 ==> t.stages[i].slot.child == CExited)
  {
    hide Inv, Stuck, Measure, Enabled, Next, ValidConfig, AllDone;
    ReachableInv(cfg, s);
    BoundedRun(cfg, s, steps, t);
    var before :| Leads(cfg, Init(cfg), before, s);
    LeadsOn(cfg, Init(cfg), before, s, steps, t);
    NoDeadlock(cfg, t);
    DeliveryIsFilter(cfg, t);
    BuffersConserved(cfg, t);
  }
}
