/** What the running credit-based pipeline does: when it stops, when a thread waits, that the start thread goes on as
    long as the exit flag is down, and that it can always be shut down. */
module CreditProgress {
  import opened FilterSpec
  import opened RingBuffers
  import opened Children
  import opened Sums
  import opened CreditPipeline
  import opened CreditInvariant
  import opened CreditSafety
  import opened CreditTheorems

  // ----- the start thread's own steps -----

  /** A location belongs to one kind of action. */
  lemma PcIsOne(a: Stage, m: Stage, r: Ring)
    ensures OwnReady(m) ==> OwnPc(m.pc) && !RingPc(m.pc) && !PrevPc(m.pc)
    ensures RingReady(m, r) ==> RingPc(m.pc) && !OwnPc(m.pc) && !PrevPc(m.pc)
    ensures PrevReady(a, m) ==> PrevPc(m.pc) && !OwnPc(m.pc) && !RingPc(m.pc)
  {
  }

  /** The packet the start thread is about to have filled. */
  function Pending(m: Stage): nat {
    if m.pc.PopWait? || m.pc.PopLock? || m.pc.PopTake? || m.pc.PopUnlock? || m.pc.SetCmd? || m.pc.SetOffs?
       || m.pc.PostJob? || Waiting(m)
    then 1 else 0
  }

  lemma OwnKeepsSource(cfg: Config, exit: bool, mem: map<int, int>, m: Stage)
    requires cfg.n >= 2 && Local(cfg, 0, m) && OwnReady(m)
    ensures var m' := OwnNext(0, exit, mem, m);
            && m'.log == m.log && (m.pc != Test ==> Pending(m') == Pending(m))
            && (Stopping(m'.pc) ==> Stopping(m.pc) || exit)
    ensures m.pc == Test ==> OwnNext(0, exit, mem, m) == m.(pc := if exit then StopCmd else PopWait)
  {
    hide ResultInv, Read;
  }

  lemma RingKeepsSource(cfg: Config, m: Stage, r: Ring)
    requires cfg.n >= 2 && Local(cfg, 0, m) && RingReady(m, r)
    ensures var m' := RingNext(0, m, r).0;
            m'.log == m.log && Pending(m') == Pending(m) && (Stopping(m'.pc) ==> Stopping(m.pc))
  {
    hide ResultInv, SlotInv, SlotFields, Take, Put, WrapIndex;
  }

  lemma ChildKeepsSource(cfg: Config, mem: map<int, int>, m: Stage)
    requires cfg.n >= 2 && Local(cfg, 0, m) && ChildReady(m)
    ensures var m' := ChildNext(cfg, 0, mem, m);
            |m'.log| + Pending(m') == |m.log| + Pending(m) && m'.pc == m.pc
  {
    hide ResultInv, Read;
  }

  /** What the second thread does to the first slot. */
  lemma ReaderKeepsSource(cfg: Config, a: Stage, m: Stage)
    requires cfg.n >= 2 && Local(cfg, 0, a) && Link(cfg, 0, a, m) && PrevReady(a, m)
    ensures var a' := PrevNext(cfg.n, 1, a, m).0; a'.log == a.log && a'.pc == a.pc && Pending(a') == Pending(a)
  {
    hide ResultInv, Passes;
  }

  /** One step of the whole system, seen at the start thread. */
  lemma SourceStep(cfg: Config, s: State, step: Step)
    requires Inv(cfg, s) && Enabled(s, step)
    ensures |s.stages| == |Next(cfg, s, step).stages| == cfg.n >= 2
    ensures var m, m' := s.stages[0], Next(cfg, s, step).stages[0];
            && (!(step == Thread(0) && m.pc == Test) ==> |m'.log| + Pending(m') == |m.log| + Pending(m))
            && (step == Thread(0) && m.pc == Test ==> m' == m.(pc := if s.exit then StopCmd else PopWait))
            && (Stopping(m'.pc) ==> Stopping(m.pc) || s.exit)
    ensures Next(cfg, s, step).exit == (s.exit || step == RaiseExit)
  {
    InvLength(cfg, s);
    LocalAt(cfg, s, 0);
    PairFacts(cfg, s, 0);
    match step
    case RaiseExit =>
    case Child(i) =>
      hide Inv, Local, Link, Pending, ChildReady, ChildNext, ChildMem, Stopping;
      if i == 0 {
        ChildKeepsSource(cfg, s.mem, s.stages[0]);
      }
    case Thread(i) =>
      hide Inv, Pending, Enabled, Next, Stopping;
      ThreadSourceStep(cfg, s, i);
  }

  lemma ThreadSourceStep(cfg: Config, s: State, i: int)
    requires |s.stages| == cfg.n >= 2 && Local(cfg, 0, s.stages[0]) && Link(cfg, 0, s.stages[0], s.stages[1])
    requires Enabled(s, Thread(i))
    ensures var m, t := s.stages[0], Next(cfg, s, Thread(i));
            && |t.stages| == cfg.n && t.exit == s.exit && t.stages[0].log == m.log
            && (!(i == 0 && m.pc == Test) ==> Pending(t.stages[0]) == Pending(m))
            && (i == 0 && m.pc == Test ==> t.stages[0] == m.(pc := if s.exit then StopCmd else PopWait))
            && (Stopping(t.stages[0].pc) ==> Stopping(m.pc) || s.exit)
  {
    var m := s.stages[i];
    PcIsOne(if i > 0 then s.stages[i - 1] else m, m, s.ring);
    NotPrevAtSource(cfg, s.stages[0]);
    if i == 0 {
      if OwnReady(m) {
        OwnKeepsSource(cfg, s.exit, s.mem, m);
      } else if RingReady(m, s.ring) {
        RingKeepsSource(cfg, m, s.ring);
      }
    } else if i == 1 && PrevReady(s.stages[0], m) {
      ReaderKeepsSource(cfg, s.stages[0], m);
    }
    hide Local, Link, OwnReady, OwnNext, RingReady, RingNext, PrevReady, PrevNext, Pending, Stopping, OwnPc, RingPc,
         PrevPc;
  }

  lemma NotPrevAtSource(cfg: Config, m: Stage)
    requires cfg.n >= 2 && Local(cfg, 0, m)
    ensures !PrevPc(m.pc)
  {
  }

  // ----- what a child does to its buffer -----

  /** A child's action works on the buffer its thread submitted: it sees what is in the buffer, its result replaces it,
      and nothing else in the data area changes. */
  lemma ActionEffect(cfg: Config, s: State, i: int)
    requires ValidConfig(cfg) && Reachable(cfg, s) && 0 <= i < |s.stages| && s.stages[i].slot.child == CAct
    ensures Enabled(s, Child(i)) && |Next(cfg, s, Child(i)).stages| == |s.stages|
    ensures var m, t := s.stages[i], Next(cfg, s, Child(i));
            var x := Read(s.mem, m.localOffs);
            && t.mem == s.mem[m.localOffs := cfg.act(i, m.log + [x]).content]
            && t.stages[i].log == m.log + [x] && t.stages[i].slot.status == cfg.act(i, m.log + [x]).status
  {
    hide Reachable, Inv, ValidConfig;
    ReachableInv(cfg, s);
    InvLength(cfg, s);
    LocalAt(cfg, s, i);
    ActOnOwnBuffer(cfg, i, s.stages[i]);
    hide Local;
  }

  lemma ActOnOwnBuffer(cfg: Config, i: int, m: Stage)
    requires 0 <= i < cfg.n && Local(cfg, i, m) && m.slot.child == CAct
    ensures m.slot.data == m.localOffs
  {
  }

  // ----- stopping and waiting -----

  lemma {:induction false} RunStops(cfg: Config, s: State, steps: seq<Step>, t: State)
    requires ValidConfig(cfg) && Inv(cfg, s) && Leads(cfg, s, steps, t)
    requires s.stages != [] && (Stopping(s.stages[0].pc) ==> s.exit)
    ensures t.stages != [] && (Stopping(t.stages[0].pc) ==> t.exit)
    decreases |steps|
  {
    if steps != [] {
      hide Inv, Enabled, Next, ValidConfig, Pending, Stopping;
      StepKeepsInv(cfg, s, steps[0]);
      SourceStep(cfg, s, steps[0]);
      RunStops(cfg, Next(cfg, s, steps[0]), steps[1..], t);
    }
  }

  /** In no reachable state has a thread begun to stop, or a child been sent a STOP, before the exit flag was raised. */
  lemma {:induction false} StopNeedsExit(cfg: Config, s: State, i: int)
    requires ValidConfig(cfg) && Reachable(cfg, s) && 0 <= i < cfg.n
    ensures |s.stages| == cfg.n
    ensures Stopping(s.stages[i].pc) || (i < cfg.n - 1 && STOP in s.stages[i].orders) ==> s.exit
    decreases i
  {
    hide Inv;
    ReachableInv(cfg, s);
    InvLength(cfg, s);
    if i > 0 {
      StopNeedsExit(cfg, s, i - 1);
      StopAfterEveryPacket(cfg, s, i - 1);
    } else {
      InitInv(cfg);
      InvLength(cfg, Init(cfg));
      var steps :| Leads(cfg, Init(cfg), steps, s);
      RunStops(cfg, Init(cfg), steps, s);
    }
    if i < cfg.n - 1 {
      StopAfterEveryPacket(cfg, s, i);
    }
  }

  /** A thread waits at nothing but an empty semaphore, the held mutex of the ring, or its end; everything else it does
      at once. */
  lemma ThreadWaitsIff(cfg: Config, s: State, i: int)
    requires ValidConfig(cfg) && Reachable(cfg, s) && 0 <= i < cfg.n
    ensures |s.stages| == cfg.n
    ensures var m := s.stages[i];
            !Enabled(s, Thread(i)) <==>
              || m.pc.Done?
              || (m.pc.PopWait? && s.ring.sem == 0)
              || ((m.pc.PopLock? || m.pc.PushLock?) && s.ring.mutex != -1)
              || (m.pc.AwaitPrev? && i > 0 && s.stages[i - 1].slot.semResult == 0)
              || (m.pc.AwaitCredit? && m.sem == 0)
  {
    hide Reachable, Stages, Links, Streams, RingInv, Conserved, MutexInv, ValidConfig;
    ReachableInv(cfg, s);
    InvLength(cfg, s);
    HolderReady(cfg, s, i);
    assert Local(cfg, i, s.stages[i]) by { LocalAt(cfg, s, i); }
    WaitsAt(cfg, s, i);
  }

  lemma WaitsAt(cfg: Config, s: State, i: int)
    requires 0 <= i < cfg.n == |s.stages| && RoleOk(cfg.n, i, s.stages[i].pc)
    requires Critical(s.stages[i].pc) ==> RingReady(s.stages[i], s.ring)
    ensures var m := s.stages[i];
            !Enabled(s, Thread(i)) <==>
              || m.pc.Done?
              || (m.pc.PopWait? && s.ring.sem == 0)
              || ((m.pc.PopLock? || m.pc.PushLock?) && s.ring.mutex != -1)
              || (m.pc.AwaitPrev? && i > 0 && s.stages[i - 1].slot.semResult == 0)
              || (m.pc.AwaitCredit? && m.sem == 0)
  {
    hide WrapIndex;
  }

  /** A child waits only for a job, and for ever only after STOP. The exit flag can be raised at any time. */
  lemma ChildWaitsIff(s: State, i: int)
    requires 0 <= i < |s.stages|
    ensures var c := s.stages[i].slot;
            !Enabled(s, Child(i)) <==> c.child.CExited? || (c.child.CWait? && c.semJob == 0)
    ensures Enabled(s, RaiseExit) <==> !s.exit
  { }

  // ----- while the exit flag is down -----

  /** Only the start thread's look at the exit flag depends on it. */
  lemma ExitMattersAtTest(cfg: Config, s: State, step: Step)
    requires Inv(cfg, s) && Moves(s, step) && !(step == Thread(0) && s.stages != [] && s.stages[0].pc == Test)
    ensures Enabled(s.(exit := true), step)
    ensures Next(cfg, s.(exit := true), step) == Next(cfg, s, step).(exit := true)
  {
    if step.Thread? {
      LocalAt(cfg, s, step.i);
      hide Inv, RingReady, RingNext, PrevReady, PrevNext, Read, SlotInv, SlotFields, ResultInv;
    }
  }

  lemma InvWithExit(cfg: Config, s: State)
    requires Inv(cfg, s)
    ensures Inv(cfg, s.(exit := true))
  {
    hide Local, Commands, Link, Stream, Fifo;
  }

  /** Every other step brings the start thread nearer to its next look. */
  lemma QuietDescends(cfg: Config, s: State, step: Step)
    requires Inv(cfg, s) && Moves(s, step) && !(step == Thread(0) && s.stages != [] && s.stages[0].pc == Test)
    ensures Measure(Next(cfg, s, step)) < Measure(s)
  {
    hide Inv, Measure, Next, Enabled;
    ExitMattersAtTest(cfg, s, step);
    InvWithExit(cfg, s);
    StepDescends(cfg, s.(exit := true), step);
    MeasureIgnores(s, s.(exit := true));
    MeasureIgnores(Next(cfg, s, step), Next(cfg, s, step).(exit := true));
  }

  /** Somewhere in the run the start thread looks at the exit flag. */
  ghost predicate Looks(cfg: Config, s: State, steps: seq<Step>)
    decreases |steps|
  {
    steps != [] && Enabled(s, steps[0])
    && ((steps[0] == Thread(0) && s.stages != [] && s.stages[0].pc == Test)
        || Looks(cfg, Next(cfg, s, steps[0]), steps[1..]))
  }

  lemma {:induction false} RunLooks(cfg: Config, s: State, steps: seq<Step>, t: State)
    requires ValidConfig(cfg) && Inv(cfg, s) && Leads(cfg, s, steps, t) && RaiseExit !in steps && |steps| > Measure(s)
    ensures Looks(cfg, s, steps)
    decreases |steps|
  {
    hide Inv, Enabled, Measure, ValidConfig, Next;
    var step := steps[0];
    assert step in steps;
    if !(step == Thread(0) && s.stages != [] && s.stages[0].pc == Test) {
      QuietDescends(cfg, s, step);
      StepKeepsInv(cfg, s, step);
      assert forall x :: x in steps[1..] ==> x in steps;
      RunLooks(cfg, Next(cfg, s, step), steps[1..], t);
    }
  }

  /** No livelock: in every run of more than `Measure` steps, without the exit flag being raised, the start thread looks
      at the flag again. Nothing else can go on for ever. */
  lemma NoLivelock(cfg: Config, s: State, steps: seq<Step>, t: State)
    requires ValidConfig(cfg) && Reachable(cfg, s) && Leads(cfg, s, steps, t)
    requires RaiseExit !in steps && |steps| > Measure(s)
    ensures Looks(cfg, s, steps)
  {
    hide Inv, Measure, ValidConfig, Leads, Looks;
    ReachableInv(cfg, s);
    RunLooks(cfg, s, steps, t);
  }

  lemma ReachableOn(cfg: Config, s: State, steps: seq<Step>, t: State)
    requires Reachable(cfg, s) && Leads(cfg, s, steps, t)
    ensures Reachable(cfg, t)
  {
    var before :| Leads(cfg, Init(cfg), before, s);
    LeadsOn(cfg, Init(cfg), before, s, steps, t);
  }

  lemma SomebodyMoves(cfg: Config, s: State) returns (step: Step)
    requires ValidConfig(cfg) && Inv(cfg, s) && Reachable(cfg, s) && !s.exit
    ensures Moves(s, step)
  {
    hide Inv, Enabled, Reachable, ValidConfig;
    InvLength(cfg, s);
    StopNeedsExit(cfg, s, 0);
    NoDeadlock(cfg, s);
    step :| Moves(s, step);
  }

  lemma {:induction false} RunToTest(cfg: Config, s: State) returns (steps: seq<Step>, t: State)
    requires ValidConfig(cfg) && Inv(cfg, s) && Reachable(cfg, s) && !s.exit
    ensures Leads(cfg, s, steps, t) && Inv(cfg, t) && Reachable(cfg, t) && !t.exit
    ensures |s.stages| == |t.stages| == cfg.n >= 2 && t.stages[0].pc == Test
    ensures |t.stages[0].log| == |s.stages[0].log| + Pending(s.stages[0])
    decreases Measure(s)
  {
    hide Inv, Measure, Enabled, ValidConfig, Next, Reachable;
    InvLength(cfg, s);
    if s.stages[0].pc == Test {
      steps, t := [], s;
    } else {
      var step := SomebodyMoves(cfg, s);
      QuietDescends(cfg, s, step);
      StepKeepsInv(cfg, s, step);
      SourceStep(cfg, s, step);
      var u := Next(cfg, s, step);
      assert [step][1..] == [] && Leads(cfg, s, [step], u);
      ReachableOn(cfg, s, [step], u);
      var rest;
      rest, t := RunToTest(cfg, u);
      steps := [step] + rest;
      assert steps[1..] == rest;
    }
  }

  /** The start thread takes one more look, finds the flag down, and has a packet filled. */
  lemma OneMorePacket(cfg: Config, s: State) returns (steps: seq<Step>, t: State)
    requires ValidConfig(cfg) && Inv(cfg, s) && Reachable(cfg, s) && !s.exit
    requires s.stages != [] && s.stages[0].pc == Test
    ensures Leads(cfg, s, steps, t) && Reachable(cfg, t) && !t.exit
    ensures t.stages != [] && |t.stages[0].log| == |s.stages[0].log| + 1
  {
    hide Inv, Measure, Next, ValidConfig, Reachable, OwnNext;
    InvLength(cfg, s);
    StepKeepsInv(cfg, s, Thread(0));
    SourceStep(cfg, s, Thread(0));
    var u := Next(cfg, s, Thread(0));
    assert [Thread(0)][1..] == [] && Leads(cfg, s, [Thread(0)], u);
    ReachableOn(cfg, s, [Thread(0)], u);
    var rest;
    rest, t := RunToTest(cfg, u);
    LeadsOn(cfg, s, [Thread(0)], u, rest, t);
    steps := [Thread(0)] + rest;
  }

  /** As long as the exit flag is down the pipeline keeps capturing: from every reachable state a run without the flag
      leads to a state in which the first child has been given one more packet. */
  lemma KeepsCapturing(cfg: Config, s: State) returns (steps: seq<Step>, t: State)
    requires ValidConfig(cfg) && Reachable(cfg, s) && !s.exit
    ensures s.stages != [] && t.stages != []
    ensures Leads(cfg, s, steps, t) && Reachable(cfg, t) && !t.exit && |t.stages[0].log| > |s.stages[0].log|
  {
    hide Inv, Measure, Leads, ValidConfig, Reachable;
    ReachableInv(cfg, s);
    var first, u := RunToTest(cfg, s);
    var second;
    second, t := OneMorePacket(cfg, u);
    LeadsOn(cfg, s, first, u, second, t);
    steps := first + second;
  }

  lemma {:induction false} RunToEnd(cfg: Config, s: State) returns (steps: seq<Step>, t: State)
    requires ValidConfig(cfg) && Inv(cfg, s) && s.exit
    ensures Leads(cfg, s, steps, t) && Stuck(t)
    decreases Measure(s)
  {
    hide Inv, Measure, Enabled, ValidConfig, Next;
    if step :| Moves(s, step) {
      StepKeepsInv(cfg, s, step);
      StepDescends(cfg, s, step);
      var rest;
      rest, t := RunToEnd(cfg, Next(cfg, s, step));
      steps := [step] + rest;
      assert steps[1..] == rest;
    } else {
      steps, t := [], s;
    }
  }

  /** From every reachable state the pipeline can be shut down: raising the flag, if it is not yet raised, opens a run
      to a state with all threads exited and the whole filtered stream delivered. */
  lemma CanShutDown(cfg: Config, s: State) returns (steps: seq<Step>, t: State)
    requires ValidConfig(cfg) && Reachable(cfg, s)
    ensures Leads(cfg, s, steps, t) && AllDone(t) && |t.stages| == cfg.n
    ensures Delivered(t) == ChainOut(cfg.act, cfg.n - 2, Captured(cfg, t))
  {
    hide Inv, Measure, ValidConfig, Reachable, Stuck, AllDone, ChainOut, StageOut;
    var raise, u := [], s;
    assert Leads(cfg, s, raise, u);
    if !s.exit {
      raise, u := [RaiseExit], Next(cfg, s, RaiseExit);
      assert raise[1..] == [] && Leads(cfg, s, raise, u);
    }
    ReachableOn(cfg, s, raise, u);
    ReachableInv(cfg, u);
    var rest;
    rest, t := RunToEnd(cfg, u);
    ShutdownCompletes(cfg, u, rest, t);
    LeadsOn(cfg, s, raise, u, rest, t);
    steps := raise + rest;
  }

  /** There is something to say: with the flag down a state is reachable in which a packet has been captured. */
  lemma FirstPacket(cfg: Config) returns (t: State)
    requires ValidConfig(cfg)
    ensures Reachable(cfg, t) && !t.exit && t.stages != [] && t.stages[0].log != []
  {
    var s := Init(cfg);
    assert Leads(cfg, s, [], s);
    assert Reachable(cfg, s);
    var steps;
    steps, t := KeepsCapturing(cfg, s);
  }
}
