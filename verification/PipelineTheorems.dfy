/** The results about all runs of the pipeline. */
module PipelineTheorems {
  import opened FilterSpec
  import opened RingBuffers
  import opened Children
  import opened Sums
  import opened Pipeline
  import opened PipelineInvariant
  import opened PipelineSafety

  // ----- the initial state -----

  lemma {:induction false} InitStarted(mods: seq<Module>)
    requires forall i :: 0 <= i < |mods| - 1 ==> mods[i].pc == Start
    requires mods != [] ==> mods[|mods| - 1].pc == TakeNew
    ensures Sum(Started, mods) == if mods == [] then 0 else 1
  {
    if mods != [] {
      InitStarted(mods[1..]);
    }
  }

  lemma InitLocal(cfg: Config, i: int)
    requires ValidConfig(cfg) && 0 <= i < cfg.n
    ensures Local(cfg, i, InitModule(cfg, i)) && Commands(cfg, i, InitModule(cfg, i))
    ensures Owned(InitModule(cfg, i)) == multiset{} && forall k :: Debt(k, InitModule(cfg, i)) == 0
    ensures !Critical(InitModule(cfg, i).pc) && !Stopping(InitModule(cfg, i).pc)
  {
  }

  lemma InitNeighbours(cfg: Config, i: int)
    requires ValidConfig(cfg) && 0 <= i < cfg.n - 1
    ensures Link(InitModule(cfg, i), InitModule(cfg, i + 1))
    ensures Stream(cfg, i, InitModule(cfg, i), InitModule(cfg, i + 1), cfg.memory)
  {
    FreshNeighbours(cfg, i, InitModule(cfg, i), InitModule(cfg, i + 1), cfg.memory);
  }

  lemma FreshNeighbours(cfg: Config, i: int, a: Module, b: Module, mem: map<int, int>)
    requires a.pc == Start && a.log == [] && (b.pc == Start || b.pc == TakeNew)
    requires b.newCmd == 0 && b.result == 1 && b.log == []
    ensures Link(a, b) && Stream(cfg, i, a, b, mem)
  {
    assert Out(cfg.act, i, []) == [];
    hide Out, Passes, At;
    assert !HasPre(b) && !HasMail(b) && !HasPost(cfg, i, a);
    NoneInFlight(cfg, i, a, b, mem);
  }

  lemma NoneInFlight(cfg: Config, i: int, a: Module, b: Module, mem: map<int, int>)
    requires !HasPre(b) && !HasMail(b) && !HasPost(cfg, i, a)
    ensures InFlight(cfg, i, a, b, mem) == []
  {
    hide HasPre, HasMail, HasPost;
  }

  lemma InitInv(cfg: Config)
    requires ValidConfig(cfg)
    ensures Inv(cfg, Init(cfg))
  {
    hide Local, Commands, Link, Stream, Owned, Debt, Started, Critical, Stopping;
    var s := Init(cfg);
    forall i | 0 <= i < cfg.n
      ensures Local(cfg, i, s.mods[i]) && Commands(cfg, i, s.mods[i]) && Owned(s.mods[i]) == multiset{}
      ensures Debt(cfg.n - i, s.mods[i]) == 0 && !Critical(s.mods[i].pc) && !Stopping(s.mods[i].pc)
    {
      InitLocal(cfg, i);
    }
    forall i | 0 <= i < cfg.n - 1
      ensures Link(s.mods[i], s.mods[i + 1]) && Stream(cfg, i, s.mods[i], s.mods[i + 1], s.mem)
    {
      InitNeighbours(cfg, i);
    }
    SumZero(Debt, s.mods);
    UnionEmpty(Owned, s.mods);
    InitStarted(s.mods);
    FullQueue(cfg.offsets);
  }

  lemma {:induction false} RunKeepsInv(cfg: Config, s: State, steps: seq<Step>, t: State)
    requires ValidConfig(cfg) && Inv(cfg, s) && Leads(cfg, s, steps, t)
    ensures Inv(cfg, t)
    decreases |steps|
  {
    if steps != [] {
      hide Inv, Enabled, Next;
      StepKeepsInv(cfg, s, steps[0]);
      RunKeepsInv(cfg, Next(cfg, s, steps[0]), steps[1..], t);
    }
  }

  lemma ReachableInv(cfg: Config, s: State)
    requires ValidConfig(cfg) && Reachable(cfg, s)
    ensures Inv(cfg, s)
  {
    hide Inv, Init;
    InitInv(cfg);
    var steps :| Leads(cfg, Init(cfg), steps, s);
    RunKeepsInv(cfg, Init(cfg), steps, s);
  }

  // ----- delivery: the pipeline is the sequential filter -----

  function Captured(s: State): seq<int>
    requires s.mods != []
  {
    s.mods[0].log
  }

  function Delivered(s: State): seq<int>
    requires s.mods != []
  {
    s.mods[|s.mods| - 1].log
  }

  ghost function Logs(s: State): (logs: seq<seq<int>>)
    ensures |logs| == |s.mods| && forall i :: 0 <= i < |logs| ==> logs[i] == s.mods[i].log
  {
    seq(|s.mods|, i requires 0 <= i < |s.mods| => s.mods[i].log)
  }

  lemma NothingInFlight(cfg: Config, i: int, a: Module, b: Module, mem: map<int, int>)
    requires a.pc == Done && b.pc == Done && Link(a, b)
    ensures InFlight(cfg, i, a, b, mem) == []
  {
    NoneInFlight(cfg, i, a, b, mem);
  }

  lemma LogPrefix(cfg: Config, s: State, i: int)
    requires Inv(cfg, s) && 0 < i < cfg.n
    ensures s.mods[i].log <= Out(cfg.act, i - 1, s.mods[i - 1].log)
    ensures s.mods[i - 1].pc == Done && s.mods[i].pc == Done ==>
              s.mods[i].log == Out(cfg.act, i - 1, s.mods[i - 1].log)
  {
    hide Local, Commands, Link, InFlight, Out, RingInv, Conserved, MutexInv, Ids;
    assert Stream(cfg, i - 1, s.mods[i - 1], s.mods[i - 1 + 1], s.mem);
    assert Link(s.mods[i - 1], s.mods[i - 1 + 1]);
    if s.mods[i - 1].pc == Done && s.mods[i].pc == Done {
      NothingInFlight(cfg, i - 1, s.mods[i - 1], s.mods[i], s.mem);
    }
  }

  /** In every reachable state of every interleaving, what the finalization received is, in order, a prefix of
      what the sequential filter makes of the captured frames; all of it once every thread has exited. */
  lemma DeliveryIsFilter(cfg: Config, s: State)
    requires ValidConfig(cfg) && Reachable(cfg, s)
    ensures |s.mods| == cfg.n
    ensures Delivered(s) <= ChainOut(cfg.act, cfg.n - 2, Captured(s))
    ensures AllDone(s) ==> Delivered(s) == ChainOut(cfg.act, cfg.n - 2, Captured(s))
  {
    hide Inv, Fed, FedAll, ChainOut, Reachable, ValidConfig, AllDone;
    ReachableInv(cfg, s);
    InvLength(cfg, s);
    LogsFit(cfg, s);
    LastLog(cfg.act, Logs(s));
    if AllDone(s) {
      LastAllLog(cfg.act, Logs(s));
    }
  }

  lemma LogsFit(cfg: Config, s: State)
    requires Inv(cfg, s)
    ensures |s.mods| == cfg.n
    ensures forall i :: 0 < i < cfg.n ==> Fed(cfg.act, Logs(s), i)
    ensures AllDone(s) ==> forall i :: 0 < i < cfg.n ==> FedAll(cfg.act, Logs(s), i)
  {
    hide Inv, Out;
    InvLength(cfg, s);
    forall i | 0 < i < cfg.n
      ensures Fed(cfg.act, Logs(s), i)
      ensures AllDone(s) ==> FedAll(cfg.act, Logs(s), i)
    {
      LogPrefix(cfg, s, i);
    }
  }

  /** For process stages that judge each frame on its own and leave it alone: the delivered frames are, in order, the
      captured frames that every process stage returned cmd_result 0 for; at any moment a prefix of them, exactly all of
      them once every thread has exited. */
  lemma DeliveredWherePassed(cfg: Config, s: State, verdict: (int, int) -> int)
    requires ValidConfig(cfg) && Reachable(cfg, s) && Stateless(cfg.act, verdict)
    ensures |s.mods| == cfg.n
    ensures Delivered(s) <= Kept(verdict, cfg.n - 2, Captured(s))
    ensures AllDone(s) ==> Delivered(s) == Kept(verdict, cfg.n - 2, Captured(s))
  {
    DeliveryIsFilter(cfg, s);
    ChainKeeps(cfg.act, verdict, cfg.n - 2, Captured(s));
  }

  // ----- buffers, ring, mailboxes, children -----

  lemma NothingOwned(m: Module)
    requires m.pc == Done && m.newCmd == 0
    ensures Owned(m) == multiset{}
  {
  }

  lemma DoneEmpty(cfg: Config, s: State, i: int)
    requires Inv(cfg, s) && 0 <= i < cfg.n && s.mods[i].pc == Done
    ensures s.mods[i].newCmd == 0
  {
    assert Local(cfg, i, s.mods[i]);
    if i > 0 {
      assert Link(s.mods[i - 1], s.mods[i - 1 + 1]);
    }
  }

  /** In every reachable state each offset is in exactly one place: the ring, one thread's hands or one unread mailbox.
      When all threads have exited the ring holds every offset again. */
  lemma BuffersConserved(cfg: Config, s: State)
    requires ValidConfig(cfg) && Reachable(cfg, s)
    ensures Shape(s.ring.buffer, s.ring.start, s.ring.used)
    ensures forall x :: x in cfg.offsets ==> (multiset(Queued(s.ring)) + Union(Owned, s.mods))[x] == 1
    ensures forall x :: x !in cfg.offsets ==> (multiset(Queued(s.ring)) + Union(Owned, s.mods))[x] == 0
    ensures AllDone(s) ==> multiset(Queued(s.ring)) == multiset(cfg.offsets)
  {
    hide Modules, Links, Streams, RingInv, MutexInv, Ids, Reachable;
    ReachableInv(cfg, s);
    forall x ensures (multiset(Queued(s.ring)) + Union(Owned, s.mods))[x] == if x in cfg.offsets then 1 else 0 {
      DistinctOnce(cfg.offsets, x);
    }
    if AllDone(s) {
      forall i | 0 <= i < |s.mods| ensures Owned(s.mods[i]) == multiset{} {
        DoneEmpty(cfg, s, i);
        NothingOwned(s.mods[i]);
      }
      UnionEmpty(Owned, s.mods);
    }
  }

  /** No two parties can touch the same buffer: two threads never hold the same one, and none is held while it
      waits in a mailbox or in the ring. */
  lemma BuffersNotShared(cfg: Config, s: State, i: int, j: int)
    requires ValidConfig(cfg) && Reachable(cfg, s) && 0 <= i < |s.mods| && 0 <= j < |s.mods| && Holds(s.mods[i])
    ensures Shape(s.ring.buffer, s.ring.start, s.ring.used) && s.mods[i].localOffs !in Queued(s.ring)
    ensures HasMail(s.mods[j]) ==> s.mods[j].dataoffset != s.mods[i].localOffs
    ensures i != j && Holds(s.mods[j]) ==> s.mods[j].localOffs != s.mods[i].localOffs
  {
    hide Modules, Links, Streams, RingInv, Conserved, MutexInv, Ids, Reachable, Holds, HasMail;
    ReachableInv(cfg, s);
    InvLength(cfg, s);
    BuffersConserved(cfg, s);
    HeldOnce(cfg, s, i);
  }

  /** The ring refines a FIFO queue under every interleaving: the semaphore plus the operations caught between
      semaphore and counter equals `used`, poppers find an offset, pushers find room, and accesses are in bounds. */
  lemma RingIsQueue(cfg: Config, s: State)
    requires ValidConfig(cfg) && Reachable(cfg, s)
    ensures Fifo(s.ring) && |s.ring.buffer| == |cfg.offsets|
    ensures s.ring.sem + Sum(Debt, s.mods) == s.ring.used
    ensures forall i :: 0 <= i < |s.mods| && s.mods[i].pc == PopTake ==> s.ring.used > 0
    ensures forall i :: 0 <= i < |s.mods| && s.mods[i].pc == PushPut ==> s.ring.used < |s.ring.buffer|
    ensures forall i, j :: 0 <= i < |s.mods| && 0 <= j < |s.mods| && Critical(s.mods[i].pc) && Critical(s.mods[j].pc)
              ==> i == j
  {
    hide Modules, Links, Streams, Ids, Reachable, Debt, Fifo, Critical;
    ReachableInv(cfg, s);
    forall i | 0 <= i < |s.mods|
      ensures s.mods[i].pc == PopTake ==> s.ring.used > 0
      ensures s.mods[i].pc == PushPut ==> s.ring.used < |s.ring.buffer|
    {
      RingRoom(cfg, s, i);
    }
  }

  /** One token per mailbox: while the producer is between sem_wait(result) and sem_post(new_cmd), nothing is
      unread in the mailbox and the consumer is not reading it; a message is read out before the next is written. */
  lemma MailboxExclusive(cfg: Config, s: State, i: int)
    requires ValidConfig(cfg) && Reachable(cfg, s) && 0 <= i < |s.mods| - 1
    ensures var a, b := s.mods[i], s.mods[i + 1];
            && b.result + b.newCmd + Count(Sending(a.pc)) + Count(Receiving(b.pc)) == 1
            && (Sending(a.pc) ==> !MailFull(b) && !Receiving(b.pc))
            && (b.pc == ReadOffs ==> b.localCmd == b.cmd)
            && (a.pc == PostNew ==> b.cmd == JOB && b.dataoffset == a.localOffs)
  {
    ReachableInv(cfg, s);
    InvLength(cfg, s);
    MailboxFacts(cfg, s, i);
  }

  lemma MailboxFacts(cfg: Config, s: State, i: int)
    requires |s.mods| == cfg.n && Modules(cfg, s) && Links(cfg, s) && 0 <= i < cfg.n - 1
    ensures Link(s.mods[i], s.mods[i + 1]) && Local(cfg, i, s.mods[i]) && Local(cfg, i + 1, s.mods[i + 1])
  {
    hide Link, Local, Commands;
    assert 0 <= i + 1 < |s.mods|;
  }

  /** The child is doing something with its slot or buffer. */
  predicate ChildActive(m: Module) {
    !(m.slot.child.CWait? || m.slot.child.CQuit? || m.slot.child.CExited?)
  }

  /** The thread's next action reads or writes its child's slot. */
  predicate ThreadInSlot(pc: Pc) {
    pc.SetCmd? || pc.SetOffs? || pc.CheckResult? || pc.StopChildCmd?
  }

  /** Thread and child never use the slot or the buffer at the same time; the result that the thread reads is the
      one its child computed last, for the offset the thread submitted; started stages own distinct table entries. */
  lemma ChildExclusive(cfg: Config, s: State, i: int)
    requires ValidConfig(cfg) && Reachable(cfg, s) && 0 <= i < |s.mods| - 1
    ensures ChildActive(s.mods[i]) ==> s.mods[i].pc == AwaitResult || s.mods[i].pc == StopChildAwait
    ensures ThreadInSlot(s.mods[i].pc) ==> !ChildActive(s.mods[i]) && s.mods[i].slot.semJob == 0
    ensures s.mods[i].slot.child == CAct ==> Holds(s.mods[i]) && s.mods[i].slot.data == s.mods[i].localOffs
    ensures s.mods[i].pc == CheckResult ==>
              (&& i > 0 && s.mods[i].log != []
               && s.mods[i].slot.cmdResult == (var x := cfg.act(i, s.mods[i].log).status; if x == -1 then 0 else x))
    ensures s.mods[i].pc != Start ==> 0 <= s.mods[i].id < cfg.processMax
    ensures forall j :: 0 <= j < |s.mods| - 1 && j != i && s.mods[i].pc != Start && s.mods[j].pc != Start
              ==> s.mods[i].id != s.mods[j].id
  {
    ReachableInv(cfg, s);
    InvLength(cfg, s);
    IdsFit(cfg, s);
    MailboxFacts(cfg, s, i);
    SlotFacts(cfg, i, s.mods[i]);
    IdFacts(cfg, s, i);
  }

  lemma SlotFacts(cfg: Config, i: int, m: Module)
    requires 0 <= i < cfg.n - 1 && Local(cfg, i, m)
    ensures ChildActive(m) ==> m.pc == AwaitResult || m.pc == StopChildAwait
    ensures ThreadInSlot(m.pc) ==> !ChildActive(m) && m.slot.semJob == 0
    ensures m.slot.child == CAct ==> Holds(m) && m.slot.data == m.localOffs
    ensures m.pc == CheckResult ==> i > 0 && m.log != [] && m.slot.cmdResult == CmdResult(cfg.act(i, m.log).status)
  {
  }

  lemma IdFacts(cfg: Config, s: State, i: int)
    requires Ids(cfg, s) && 0 <= i < |s.mods| - 1
    ensures s.mods[i].pc != Start ==> 0 <= s.mods[i].id < s.processCnt
    ensures forall j :: 0 <= j < |s.mods| - 1 && j != i && s.mods[i].pc != Start && s.mods[j].pc != Start
              ==> s.mods[i].id != s.mods[j].id
  {
  }

  /** In every reachable state the table is not exhausted, and a module that has not started finds a free entry. */
  lemma SlotsFit(cfg: Config, s: State)
    requires ValidConfig(cfg) && Reachable(cfg, s)
    ensures |s.mods| == cfg.n && s.processCnt <= cfg.processMax
    ensures forall i :: 0 <= i < cfg.n && s.mods[i].pc == Start ==> s.processCnt < cfg.processMax
  {
    hide Modules, Links, Streams, RingInv, Conserved, MutexInv, Ids, Reachable;
    ReachableInv(cfg, s);
    IdsFit(cfg, s);
  }

  lemma IdsFit(cfg: Config, s: State)
    requires ValidConfig(cfg) && |s.mods| == cfg.n && Ids(cfg, s)
    ensures s.processCnt <= cfg.processMax
    ensures forall i :: 0 <= i < cfg.n && s.mods[i].pc == Start ==> s.processCnt < cfg.processMax
  {
    SumAtMostLength(Started, s.mods);
    forall i | 0 <= i < cfg.n && s.mods[i].pc == Start ensures s.processCnt < cfg.processMax {
      assert Started(|s.mods| - i, s.mods[i]) == 0;
    }
  }

  /** On every link and to every child: JOBs, then at most one STOP and nothing after it; exactly one when all
      threads have exited. The STOP reaches the next module only after every frame sent before it. */
  lemma StopOnce(cfg: Config, s: State, i: int)
    requires ValidConfig(cfg) && Reachable(cfg, s) && 0 <= i < |s.mods| - 1
    ensures forall k :: 0 <= k < |s.mods[i].sent| - 1 ==> s.mods[i].sent[k] == JOB
    ensures forall k :: 0 <= k < |s.mods[i].orders| - 1 ==> s.mods[i].orders[k] == JOB
    ensures StopSent(s.mods[i].pc) <==> STOP in s.mods[i].sent
    ensures StopSent(s.mods[i].pc) <==> StopSeen(s.mods[i + 1])
    ensures Stopping(s.mods[i + 1].pc) ==> InFlight(cfg, i, s.mods[i], s.mods[i + 1], s.mem) == []
    ensures AllDone(s) ==> STOP in s.mods[i].sent && STOP in s.mods[i].orders && s.mods[i].slot.child == CExited
  {
    ReachableInv(cfg, s);
    InvLength(cfg, s);
    MailboxFacts(cfg, s, i);
    assert Commands(cfg, i, s.mods[i]);
    StopFacts(cfg, i, s.mods[i], s.mods[i + 1], s.mem);
  }

  lemma StopFacts(cfg: Config, i: int, a: Module, b: Module, mem: map<int, int>)
    requires 0 <= i < cfg.n - 1 && Local(cfg, i, a) && Local(cfg, i + 1, b) && Commands(cfg, i, a) && Link(a, b)
    ensures forall k :: 0 <= k < |a.sent| - 1 ==> a.sent[k] == JOB
    ensures forall k :: 0 <= k < |a.orders| - 1 ==> a.orders[k] == JOB
    ensures StopSent(a.pc) <==> STOP in a.sent
    ensures StopSent(a.pc) <==> StopSeen(b)
    ensures Stopping(b.pc) ==> InFlight(cfg, i, a, b, mem) == []
    ensures a.pc == Done ==> STOP in a.sent && STOP in a.orders && a.slot.child == CExited
  {
  }
}
