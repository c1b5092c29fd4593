/** What the running pipeline does: what the source captures, when a thread waits, that the source goes on as long as
    the exit flag is down, and that it can always be shut down. */
module PipelineProgress {
  import opened FilterSpec
  import opened RingBuffers
  import opened Children
  import opened Sums
  import opened Pipeline
  import opened PipelineInvariant
  import opened PipelineSafety
  import opened PipelineTheorems
  import opened PipelineLiveness

  // ----- the source's own steps -----

  lemma OthersLeaveSource(cfg: Config, s: State, step: Step)
    requires Enabled(cfg, s, step) && |s.mods| >= 2 && step != Thread(0) && step != Child(0)
    ensures |Next(cfg, s, step).mods| == |s.mods| && Next(cfg, s, step).mods[0] == s.mods[0]
    ensures Next(cfg, s, step).exit == (s.exit || step == RaiseExit)
  {
    if step.Thread? {
      var i := step.i;
      PcIsOne(s.mods[i], if i + 1 < |s.mods| then s.mods[i + 1] else s.mods[i], s.ring);
    }
    hide OwnReady, OwnNext, RingReady, RingNext, SendReady, SendNext, ChildReady, ChildNext, ChildMem;
  }

  /** The frames already captured, and the one the source is about to capture. */
  function Pending(m: Module): nat {
    if m.pc.Fetch? || m.pc.PopWait? || m.pc.PopLock? || m.pc.PopTake? || m.pc.PopUnlock? || m.pc.SetCmd?
       || m.pc.SetOffs? || m.pc.PostJob? || (m.pc.AwaitResult? && !Ran(m))
    then 1 else 0
  }

  lemma OwnKeepsSource(cfg: Config, exit: bool, mem: map<int, int>, m: Module)
    requires cfg.n >= 2 && Local(cfg, 0, m) && OwnReady(m)
    ensures var m' := OwnNext(cfg, 0, exit, mem, m);
            m'.log == m.log && (m.pc != Test ==> Pending(m') == Pending(m))
    ensures m.pc == Test ==> OwnNext(cfg, 0, exit, mem, m) == m.(pc := if exit then StopCredit else Fetch)
  {
    hide QuitIn, ResultInv, Read;
  }

  lemma RingKeepsSource(cfg: Config, m: Module, r: Ring)
    requires cfg.n >= 2 && Local(cfg, 0, m) && RingReady(m, r)
    ensures var m' := RingNext(0, m, r).0; m'.log == m.log && Pending(m') == Pending(m)
  {
    hide QuitIn, ResultInv, SlotInv, SlotFields, Take, Put, WrapIndex;
  }

  lemma SendKeepsSource(cfg: Config, m: Module, b: Module)
    requires cfg.n >= 2 && Local(cfg, 0, m) && SendReady(m, b)
    ensures var m' := SendNext(0, m, b).0; m'.log == m.log && Pending(m') == Pending(m)
  {
    hide QuitIn, ResultInv, SlotInv, SlotFields;
  }

  lemma ChildKeepsSource(cfg: Config, mem: map<int, int>, m: Module)
    requires cfg.n >= 2 && Local(cfg, 0, m) && ChildReady(m)
    ensures var m' := ChildNext(cfg, 0, mem, m);
            && |m'.log| + Pending(m') == |m.log| + Pending(m)
            && (m'.log == m.log || m'.log == m.log + [cfg.act(0, m.log).content])
  {
    hide QuitIn, ResultInv;
  }

  lemma LocalAt(cfg: Config, s: State, i: int)
    requires Inv(cfg, s) && 0 <= i < cfg.n
    ensures |s.mods| == cfg.n >= 2 && Local(cfg, i, s.mods[i])
    ensures i < cfg.n - 1 ==> Link(s.mods[i], s.mods[i + 1])
  {
    hide Local, Commands, Link, Streams, RingInv, Conserved, MutexInv, Ids;
  }

  /** One step of the whole system, seen at the source. */
  lemma SourceStep(cfg: Config, s: State, step: Step)
    requires Inv(cfg, s) && Enabled(cfg, s, step)
    ensures |s.mods| == |Next(cfg, s, step).mods| == cfg.n >= 2
    ensures var m, m' := s.mods[0], Next(cfg, s, step).mods[0];
            && (m'.log == m.log || m'.log == m.log + [cfg.act(0, m.log).content])
            && (!(step == Thread(0) && m.pc == Test) ==> |m'.log| + Pending(m') == |m.log| + Pending(m))
            && (step == Thread(0) && m.pc == Test ==> m' == m.(pc := if s.exit then StopCredit else Fetch))
    ensures Next(cfg, s, step).exit == (s.exit || step == RaiseExit)
  {
    InvLength(cfg, s);
    LocalAt(cfg, s, 0);
    if step == Thread(0) {
      ThreadSourceStep(cfg, s);
    } else if step == Child(0) {
      hide Inv, Local, Pending, ChildReady, ChildNext, ChildMem;
      ChildKeepsSource(cfg, s.mem, s.mods[0]);
    } else {
      hide Inv, Pending, Enabled, Next;
      OthersLeaveSource(cfg, s, step);
    }
  }

  lemma ThreadSourceStep(cfg: Config, s: State)
    requires |s.mods| == cfg.n >= 2 && Local(cfg, 0, s.mods[0]) && Enabled(cfg, s, Thread(0))
    ensures var m, t := s.mods[0], Next(cfg, s, Thread(0));
            && |t.mods| == cfg.n && t.exit == s.exit && t.mods[0].log == m.log
            && (m.pc != Test ==> Pending(t.mods[0]) == Pending(m))
            && (m.pc == Test ==> t.mods[0] == m.(pc := if s.exit then StopCredit else Fetch))
  {
    var m := s.mods[0];
    PcIsOne(m, s.mods[1], s.ring);
    if OwnReady(m) {
      OwnKeepsSource(cfg, s.exit, s.mem, m);
      NextOwn(cfg, s, 0);
    } else if RingReady(m, s.ring) {
      RingKeepsSource(cfg, m, s.ring);
      NextRing(cfg, s, 0);
    } else if SendReady(m, s.mods[1]) {
      SendKeepsSource(cfg, m, s.mods[1]);
      NextSend(cfg, s, 0);
    }
    hide Local, OwnReady, OwnNext, RingReady, RingNext, SendReady, SendNext;
  }

  // ----- what a child does to its buffer -----

  /** A child's action works on the buffer its thread submitted: the source's child fills it, the others see what is in
      it; the result replaces it, and nothing else in the data area changes. */
  lemma ActionEffect(cfg: Config, s: State, i: int)
    requires ValidConfig(cfg) && Reachable(cfg, s) && 0 <= i < |s.mods| && s.mods[i].slot.child == CAct
    ensures Enabled(cfg, s, Child(i)) && |Next(cfg, s, Child(i)).mods| == |s.mods|
    ensures var m, t := s.mods[i], Next(cfg, s, Child(i));
            var x := Read(s.mem, m.localOffs);
            var o := cfg.act(i, if i == 0 then m.log else m.log + [x]);
            && t.mem == s.mem[m.localOffs := o.content] && t.mods[i].slot.status == o.status
            && t.mods[i].log == m.log + [if i == 0 then o.content else x]
  {
    hide Reachable, Inv, ValidConfig;
    ReachableInv(cfg, s);
    InvLength(cfg, s);
    LocalAt(cfg, s, i);
    ActOnOwnBuffer(cfg, i, s.mods[i]);
    hide Local;
  }

  lemma ActOnOwnBuffer(cfg: Config, i: int, m: Module)
    requires 0 <= i < cfg.n && Local(cfg, i, m) && m.slot.child == CAct
    ensures m.slot.data == m.localOffs
  {
    hide QuitIn, ResultInv;
  }

  // ----- what the source captures -----

  /** The first `n` frames of a source that is asked for one after the other. */
  ghost function Frames(act: Action, n: nat): (f: seq<int>)
    ensures |f| == n
  {
    if n == 0 then [] else Frames(act, n - 1) + [act(0, Frames(act, n - 1)).content]
  }

  ghost predicate Produced(act: Action, log: seq<int>) {
    log == Frames(act, |log|)
  }

  lemma ProducedSnoc(act: Action, log: seq<int>)
    requires Produced(act, log)
    ensures Produced(act, log + [act(0, log).content])
  {
  }

  lemma {:induction false} RunCaptures(cfg: Config, s: State, steps: seq<Step>, t: State)
    requires ValidConfig(cfg) && Inv(cfg, s) && Leads(cfg, s, steps, t)
    requires s.mods != [] && Produced(cfg.act, s.mods[0].log)
    ensures t.mods != [] && Produced(cfg.act, t.mods[0].log)
    decreases |steps|
  {
    if steps != [] {
      hide Inv, Enabled, Next, ValidConfig, Pending, Produced;
      StepKeepsInv(cfg, s, steps[0]);
      SourceStep(cfg, s, steps[0]);
      ProducedSnoc(cfg.act, s.mods[0].log);
      RunCaptures(cfg, Next(cfg, s, steps[0]), steps[1..], t);
    }
  }

  /** In every reachable state the captured frames are what the source's child made, one after the other, each from the
      ones before it. */
  lemma CapturedIsProduced(cfg: Config, s: State)
    requires ValidConfig(cfg) && Reachable(cfg, s)
    ensures s.mods != [] && Captured(s) == Frames(cfg.act, |Captured(s)|)
    ensures forall k :: 0 <= k < |Captured(s)| ==> Captured(s)[k] == cfg.act(0, Captured(s)[..k]).content
  {
    hide Inv;
    InitInv(cfg);
    InvLength(cfg, Init(cfg));
    var steps :| Leads(cfg, Init(cfg), steps, s);
    RunCaptures(cfg, Init(cfg), steps, s);
    forall k | 0 <= k < |Captured(s)| ensures Captured(s)[k] == cfg.act(0, Captured(s)[..k]).content {
      FramesAt(cfg.act, |Captured(s)|, k);
    }
  }

  lemma {:induction false} FramesAt(act: Action, n: nat, k: nat)
    requires k < n
    ensures Frames(act, n)[..k] == Frames(act, k) && Frames(act, n)[k] == act(0, Frames(act, k)).content
  {
    if k < n - 1 {
      FramesAt(act, n - 1, k);
      assert Frames(act, n)[..k] == Frames(act, n - 1)[..k];
    } else {
      assert Frames(act, n)[..k] == Frames(act, k);
    }
  }

  /** End to end, without any history of the model on the right: what the finalization received is a prefix of what the
      chain of actions makes of the source's first frames. */
  lemma DeliveredIsProduced(cfg: Config, s: State)
    requires ValidConfig(cfg) && Reachable(cfg, s)
    ensures s.mods != []
    ensures Delivered(s) <= ChainOut(cfg.act, cfg.n - 2, Frames(cfg.act, |Captured(s)|))
    ensures AllDone(s) ==> Delivered(s) == ChainOut(cfg.act, cfg.n - 2, Frames(cfg.act, |Captured(s)|))
  {
    hide Reachable, ValidConfig, AllDone, ChainOut, Frames;
    CapturedIsProduced(cfg, s);
    DeliveryIsFilter(cfg, s);
  }

  // ----- stopping and waiting -----

  lemma {:induction false} StoppingNeedsExit(cfg: Config, s: State, i: int)
    requires Inv(cfg, s) && 0 <= i < cfg.n
    ensures |s.mods| == cfg.n && (Stopping(s.mods[i].pc) ==> s.exit)
    decreases i
  {
    if i > 0 {
      StoppingNeedsExit(cfg, s, i - 1);
      LocalAt(cfg, s, i - 1);
      hide Inv, Local;
    } else {
      hide Local, Commands, Links, Streams, RingInv, Conserved, MutexInv, Ids;
    }
  }

  /** In no reachable state has a thread begun to stop, or a STOP been sent, before the exit flag was raised. */
  lemma StopNeedsExit(cfg: Config, s: State, i: int)
    requires ValidConfig(cfg) && Reachable(cfg, s) && 0 <= i < cfg.n
    ensures |s.mods| == cfg.n
    ensures Stopping(s.mods[i].pc) || STOP in s.mods[i].sent || STOP in s.mods[i].orders ==> s.exit
  {
    hide Reachable, ValidConfig;
    ReachableInv(cfg, s);
    StoppingNeedsExit(cfg, s, i);
    if i < cfg.n - 1 {
      StopOnce(cfg, s, i);
      CommandsStop(cfg, s, i);
    } else {
      LocalAt(cfg, s, i);
    }
  }

  lemma CommandsStop(cfg: Config, s: State, i: int)
    requires Inv(cfg, s) && 0 <= i < cfg.n - 1
    ensures |s.mods| == cfg.n
    ensures STOP in s.mods[i].orders ==> Stopping(s.mods[i].pc)
  {
    hide Local, Links, Streams, RingInv, Conserved, MutexInv, Ids;
    assert Commands(cfg, i, s.mods[i]);
  }

  /** A thread waits at nothing but an empty semaphore, the held mutex of the ring, or its end; everything else it does
      at once. */
  lemma ThreadWaitsIff(cfg: Config, s: State, i: int)
    requires ValidConfig(cfg) && Reachable(cfg, s) && 0 <= i < cfg.n
    ensures |s.mods| == cfg.n
    ensures var m := s.mods[i];
            !Enabled(cfg, s, Thread(i)) <==>
              || m.pc.Done?
              || (m.pc.TakeNew? && m.newCmd == 0)
              || ((m.pc.AwaitResult? || m.pc.StopChildAwait?) && m.slot.semResult == 0)
              || (m.pc.PopWait? && s.ring.sem == 0)
              || ((m.pc.PopLock? || m.pc.PushLock?) && s.ring.mutex != -1)
              || ((m.pc.AwaitCredit? || m.pc.StopCredit?) && i + 1 < |s.mods| && s.mods[i + 1].result == 0)
  {
    hide Reachable, Modules, Links, Streams, RingInv, Conserved, MutexInv, Ids, ValidConfig;
    ReachableInv(cfg, s);
    LocalAt(cfg, s, i);
    HolderReady(cfg, s, i);
    SlotsFit(cfg, s);
    WaitsAt(cfg, s, i);
  }

  lemma WaitsAt(cfg: Config, s: State, i: int)
    requires 0 <= i < cfg.n == |s.mods| && RoleOk(cfg.n, i, s.mods[i].pc)
    requires Critical(s.mods[i].pc) ==> RingReady(s.mods[i], s.ring)
    requires s.mods[i].pc == Start ==> s.processCnt < cfg.processMax
    ensures var m := s.mods[i];
            !Enabled(cfg, s, Thread(i)) <==>
              || m.pc.Done?
              || (m.pc.TakeNew? && m.newCmd == 0)
              || ((m.pc.AwaitResult? || m.pc.StopChildAwait?) && m.slot.semResult == 0)
              || (m.pc.PopWait? && s.ring.sem == 0)
              || ((m.pc.PopLock? || m.pc.PushLock?) && s.ring.mutex != -1)
              || ((m.pc.AwaitCredit? || m.pc.StopCredit?) && i + 1 < |s.mods| && s.mods[i + 1].result == 0)
  {
    hide WrapIndex;
  }

  /** A child waits only for a job, and for ever only after it left its loop. The exit flag can be raised at any
      time. */
  lemma ChildWaitsIff(cfg: Config, s: State, i: int)
    requires 0 <= i < |s.mods|
    ensures var c := s.mods[i].slot;
            !Enabled(cfg, s, Child(i)) <==> c.child.CQuit? || c.child.CExited? || (c.child.CWait? && c.semJob == 0)
    ensures Enabled(cfg, s, RaiseExit) <==> !s.exit
  { }

  // ----- while the exit flag is down -----

  /** Only the source's look at the exit flag depends on it. */
  lemma ExitMattersAtTest(cfg: Config, s: State, step: Step)
    requires Inv(cfg, s) && Moves(cfg, s, step) && !(step == Thread(0) && s.mods != [] && s.mods[0].pc == Test)
    ensures Enabled(cfg, s.(exit := true), step)
    ensures Next(cfg, s.(exit := true), step) == Next(cfg, s, step).(exit := true)
  {
    if step.Thread? {
      LocalAt(cfg, s, step.i);
      hide Inv, RingReady, RingNext, SendReady, SendNext, Read, SlotInv, SlotFields, ResultInv, QuitIn;
    }
  }

  lemma InvWithExit(cfg: Config, s: State)
    requires Inv(cfg, s)
    ensures Inv(cfg, s.(exit := true))
  {
    hide Modules, Local, Link, Stream, Fifo;
    assert Modules(cfg, s.(exit := true)) by { SameModules(cfg, s, s.(exit := true)); }
  }

  lemma SameModules(cfg: Config, s: State, t: State)
    requires t.mods == s.mods && Modules(cfg, s)
    ensures Modules(cfg, t)
  {
    hide Local, Commands;
  }

  /** Every other step brings the source nearer to its next look. */
  lemma QuietDescends(cfg: Config, s: State, step: Step)
    requires Inv(cfg, s) && Moves(cfg, s, step) && !(step == Thread(0) && s.mods != [] && s.mods[0].pc == Test)
    ensures Measure(Next(cfg, s, step)) < Measure(s)
  {
    hide Inv, Measure, Next, Enabled;
    ExitMattersAtTest(cfg, s, step);
    InvWithExit(cfg, s);
    StepDescends(cfg, s.(exit := true), step);
    MeasureIgnores(s, s, s.(exit := true));
    MeasureIgnores(s, Next(cfg, s, step), Next(cfg, s, step).(exit := true));
  }

  /** Somewhere in the run the source looks at the exit flag. */
  ghost predicate Looks(cfg: Config, s: State, steps: seq<Step>)
    decreases |steps|
  {
    steps != [] && Enabled(cfg, s, steps[0])
    && ((steps[0] == Thread(0) && s.mods != [] && s.mods[0].pc == Test)
        || Looks(cfg, Next(cfg, s, steps[0]), steps[1..]))
  }

  lemma {:induction false} RunLooks(cfg: Config, s: State, steps: seq<Step>, t: State)
    requires ValidConfig(cfg) && Inv(cfg, s) && Leads(cfg, s, steps, t) && RaiseExit !in steps && |steps| > Measure(s)
    ensures Looks(cfg, s, steps)
    decreases |steps|
  {
    hide Inv, Enabled, Measure, ValidConfig, Next;
    var step := steps[0];
    assert step in steps;
    if !(step == Thread(0) && s.mods != [] && s.mods[0].pc == Test) {
      QuietDescends(cfg, s, step);
      StepKeepsInv(cfg, s, step);
      assert forall x :: x in steps[1..] ==> x in steps;
      RunLooks(cfg, Next(cfg, s, step), steps[1..], t);
    }
  }

  /** No livelock: in every run of more than `Measure` steps, without the exit flag being raised, the source looks at
      the flag again. Nothing else can go on for ever. */
  lemma NoLivelock(cfg: Config, s: State, steps: seq<Step>, t: State)
    requires ValidConfig(cfg) && Reachable(cfg, s) && Leads(cfg, s, steps, t)
    requires RaiseExit !in steps && |steps| > Measure(s)
    ensures Looks(cfg, s, steps)
  {
    hide Inv, Measure, ValidConfig, Leads, Looks;
    ReachableInv(cfg, s);
    RunLooks(cfg, s, steps, t);
  }

  lemma NobodyQuits(cfg: Config, s: State)
    requires Inv(cfg, s) && NeverMinusOne(cfg)
    ensures NoneQuit(s)
  {
    hide Inv, QuitIn, NoneQuit, NeverMinusOne;
    InvLength(cfg, s);
    QuitWhenMinusOne(cfg, s);
    forall i | 0 <= i < cfg.n - 1 ensures !QuitIn(cfg, i, s.mods[i].log) {
      NeverQuits(cfg, i, s.mods[i].log);
    }
  }

  /** While the flag is down some thread or child moves, and it stays down. */
  lemma SomebodyMoves(cfg: Config, s: State) returns (step: Step)
    requires ValidConfig(cfg) && NeverMinusOne(cfg) && Inv(cfg, s) && Reachable(cfg, s) && !s.exit
    ensures Moves(cfg, s, step)
  {
    hide Inv, NoneQuit, Enabled, Reachable, NeverMinusOne, ValidConfig;
    InvLength(cfg, s);
    NobodyQuits(cfg, s);
    StoppingNeedsExit(cfg, s, 0);
    NoDeadlock(cfg, s);
    step :| Moves(cfg, s, step);
  }

  lemma {:induction false} RunToTest(cfg: Config, s: State) returns (steps: seq<Step>, t: State)
    requires ValidConfig(cfg) && NeverMinusOne(cfg) && Inv(cfg, s) && Reachable(cfg, s) && !s.exit
    ensures Leads(cfg, s, steps, t) && Inv(cfg, t) && Reachable(cfg, t) && !t.exit
    ensures |s.mods| == |t.mods| == cfg.n >= 2 && t.mods[0].pc == Test
    ensures |t.mods[0].log| == |s.mods[0].log| + Pending(s.mods[0])
    decreases Measure(s)
  {
    hide Inv, Measure, Enabled, ValidConfig, NeverMinusOne, Next, Reachable;
    InvLength(cfg, s);
    if s.mods[0].pc == Test {
      steps, t := [], s;
    } else {
      var step := SomebodyMoves(cfg, s);
      QuietDescends(cfg, s, step);
      StepKeepsInv(cfg, s, step);
      SourceStep(cfg, s, step);
      var u := Next(cfg, s, step);
      assert [step][1..] == [] && Leads(cfg, s, [step], u);
      ReachableOn(cfg, s, [step], u);
      var rest;
      rest, t := RunToTest(cfg, u);
      steps := [step] + rest;
      assert steps[1..] == rest;
    }
  }

  /** The source takes one more look, finds the flag down, and captures a frame. */
  lemma OneMoreFrame(cfg: Config, s: State) returns (steps: seq<Step>, t: State)
    requires ValidConfig(cfg) && NeverMinusOne(cfg) && Inv(cfg, s) && Reachable(cfg, s) && !s.exit
    requires s.mods != [] && s.mods[0].pc == Test
    ensures Leads(cfg, s, steps, t) && Reachable(cfg, t) && !t.exit
    ensures t.mods != [] && |t.mods[0].log| == |s.mods[0].log| + 1
  {
    hide Inv, Measure, Next, ValidConfig, NeverMinusOne, Reachable, OwnNext;
    InvLength(cfg, s);
    StepKeepsInv(cfg, s, Thread(0));
    SourceStep(cfg, s, Thread(0));
    var u := Next(cfg, s, Thread(0));
    assert [Thread(0)][1..] == [] && Leads(cfg, s, [Thread(0)], u);
    ReachableOn(cfg, s, [Thread(0)], u);
    var rest;
    rest, t := RunToTest(cfg, u);
    LeadsOn(cfg, s, [Thread(0)], u, rest, t);
    steps := [Thread(0)] + rest;
  }

  /** As long as the exit flag is down the pipeline keeps capturing: from every reachable state a run without the flag
      leads to a state with one more captured frame. */
  lemma KeepsCapturing(cfg: Config, s: State) returns (steps: seq<Step>, t: State)
    requires ValidConfig(cfg) && NeverMinusOne(cfg) && Reachable(cfg, s) && !s.exit
    ensures s.mods != [] && t.mods != []
    ensures Leads(cfg, s, steps, t) && Reachable(cfg, t) && !t.exit && |Captured(t)| > |Captured(s)|
  {
    hide Inv, Measure, Leads, ValidConfig, NeverMinusOne, Reachable;
    ReachableInv(cfg, s);
    var first, u := RunToTest(cfg, s);
    var second;
    second, t := OneMoreFrame(cfg, u);
    LeadsOn(cfg, s, first, u, second, t);
    steps := first + second;
  }

  /** From every reachable state the pipeline can be shut down: raising the flag, if it is not yet raised, opens a run
      to a state with all threads exited and the whole filtered stream delivered. */
  lemma CanShutDown(cfg: Config, s: State) returns (steps: seq<Step>, t: State)
    requires ValidConfig(cfg) && NeverMinusOne(cfg) && Reachable(cfg, s)
    ensures Leads(cfg, s, steps, t) && AllDone(t) && |t.mods| == cfg.n
    ensures Delivered(t) == ChainOut(cfg.act, cfg.n - 2, Captured(t))
  {
    hide Inv, Measure, ValidConfig, NeverMinusOne, Reachable, Stuck, AllDone, ChainOut;
    var raise, u := [], s;
    assert Leads(cfg, s, raise, u);
    if !s.exit {
      raise, u := [RaiseExit], Next(cfg, s, RaiseExit);
      assert raise[1..] == [] && Leads(cfg, s, raise, u);
    }
    ReachableOn(cfg, s, raise, u);
    ReachableInv(cfg, u);
    var rest;
    rest, t := RunToEnd(cfg, u);
    ShutdownCompletes(cfg, u, rest, t);
    LeadsOn(cfg, s, raise, u, rest, t);
    steps := raise + rest;
  }
}
