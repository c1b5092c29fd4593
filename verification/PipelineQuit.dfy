/** A run in which a child quits: the failure that the results on -1 speak about does happen. */
module PipelineQuit {
  import opened FilterSpec
  import opened RingBuffers
  import opened Children
  import opened Pipeline
  import opened PipelineInvariant
  import opened PipelineTheorems
  import opened PipelineLiveness

  /** Only the source has moved so far, to `m`, and the ring is `ring`. */
  function SourceAt(cfg: Config, m: Module, ring: Ring): State
    requires cfg.n >= 2
  {
    State(Init(cfg).mods[0 := m], ring, cfg.memory, 1, false)
  }

  lemma ReachableNext(cfg: Config, s: State, step: Step)
    requires Reachable(cfg, s) && Enabled(cfg, s, step)
    ensures Reachable(cfg, Next(cfg, s, step))
  {
    var t := Next(cfg, s, step);
    assert [step][1..] == [];
    assert Leads(cfg, s, [step], t);
    hide Leads, Enabled, Next, Init;
    ReachableOn(cfg, s, [step], t);
  }

  lemma SourceStarts(cfg: Config)
    requires ValidConfig(cfg)
    ensures Reachable(cfg, SourceAt(cfg, InitModule(cfg, 0).(id := 0, pc := Test), FullRing(cfg.offsets)))
  {
    var s := Init(cfg);
    assert Leads(cfg, s, [], s);
    ReachableNext(cfg, s, Thread(0));
    hide Reachable;
    assert Next(cfg, s, Thread(0)) == SourceAt(cfg, InitModule(cfg, 0).(id := 0, pc := Test), FullRing(cfg.offsets));
  }

  lemma SourceOwnStep(cfg: Config, m: Module, ring: Ring)
    requires cfg.n >= 2 && OwnReady(m) && Reachable(cfg, SourceAt(cfg, m, ring))
    ensures Reachable(cfg, SourceAt(cfg, OwnNext(cfg, 0, false, cfg.memory, m), ring))
  {
    hide Reachable, OwnNext, InitModule;
    var s := SourceAt(cfg, m, ring);
    ReachableNext(cfg, s, Thread(0));
    assert Next(cfg, s, Thread(0)) == SourceAt(cfg, OwnNext(cfg, 0, false, cfg.memory, m), ring);
  }

  lemma SourceRingStep(cfg: Config, m: Module, ring: Ring)
    requires cfg.n >= 2 && RingReady(m, ring) && Reachable(cfg, SourceAt(cfg, m, ring))
    ensures var (m', ring') := RingNext(0, m, ring); Reachable(cfg, SourceAt(cfg, m', ring'))
  {
    hide Reachable, RingNext, InitModule;
    var s := SourceAt(cfg, m, ring);
    ReachableNext(cfg, s, Thread(0));
    var (m', ring') := RingNext(0, m, ring);
    assert Next(cfg, s, Thread(0)) == SourceAt(cfg, m', ring');
  }

  lemma SourceChildStep(cfg: Config, m: Module, ring: Ring)
    requires cfg.n >= 2 && ChildReady(m) && m.slot.child != CAct && Reachable(cfg, SourceAt(cfg, m, ring))
    ensures Reachable(cfg, SourceAt(cfg, ChildNext(cfg, 0, cfg.memory, m), ring))
  {
    hide Reachable, ChildNext, InitModule;
    var s := SourceAt(cfg, m, ring);
    ReachableNext(cfg, s, Child(0));
    assert Next(cfg, s, Child(0)) == SourceAt(cfg, ChildNext(cfg, 0, cfg.memory, m), ring);
  }

  /** The source takes the first buffer out of the ring. */
  lemma SourcePops(cfg: Config) returns (m: Module, ring: Ring)
    requires ValidConfig(cfg)
    ensures Reachable(cfg, SourceAt(cfg, m, ring))
    ensures m.pc == SetCmd && m.localCmd == JOB && m.slot == FRESH_SLOT && m.log == []
  {
    hide Reachable, SourceAt;
    SourceStarts(cfg);
    m, ring := InitModule(cfg, 0).(id := 0, pc := Test), FullRing(cfg.offsets);
    SourceOwnStep(cfg, m, ring);
    m := m.(pc := Fetch);
    SourceOwnStep(cfg, m, ring);
    m := m.(pc := PopWait);
    SourceRingStep(cfg, m, ring);
    m, ring := RingNext(0, m, ring).0, RingNext(0, m, ring).1;
    SourceRingStep(cfg, m, ring);
    m, ring := RingNext(0, m, ring).0, RingNext(0, m, ring).1;
    SourceRingStep(cfg, m, ring);
    m, ring := RingNext(0, m, ring).0, RingNext(0, m, ring).1;
    SourceRingStep(cfg, m, ring);
    m, ring := RingNext(0, m, ring).0, RingNext(0, m, ring).1;
  }

  /** It submits the buffer, and its child comes to its first action. */
  lemma SourceSubmits(cfg: Config) returns (m: Module, ring: Ring)
    requires ValidConfig(cfg)
    ensures Reachable(cfg, SourceAt(cfg, m, ring)) && m.slot.child == CAct && m.log == []
  {
    hide Reachable, SourceAt;
    m, ring := SourcePops(cfg);
    SourceOwnStep(cfg, m, ring);
    m := OwnNext(cfg, 0, false, cfg.memory, m);
    SourceOwnStep(cfg, m, ring);
    m := OwnNext(cfg, 0, false, cfg.memory, m);
    SourceOwnStep(cfg, m, ring);
    m := OwnNext(cfg, 0, false, cfg.memory, m);
    SourceChildStep(cfg, m, ring);
    m := ChildNext(cfg, 0, cfg.memory, m);
    SourceChildStep(cfg, m, ring);
    m := ChildNext(cfg, 0, cfg.memory, m);
    SourceChildStep(cfg, m, ring);
    m := ChildNext(cfg, 0, cfg.memory, m);
  }

  /** If the source's first action returns -1, a state in which a child has quit is reachable, before the exit flag is
      raised. */
  lemma QuitHappens(cfg: Config) returns (s: State)
    requires ValidConfig(cfg) && cfg.act(0, []).status == -1
    ensures Reachable(cfg, s) && |s.mods| == cfg.n && QuitIn(cfg, 0, s.mods[0].log) && !s.exit
  {
    hide Reachable;
    var m, ring := SourceSubmits(cfg);
    var before := SourceAt(cfg, m, ring);
    ReachableNext(cfg, before, Child(0));
    s := Next(cfg, before, Child(0));
    assert s.mods[0].log == [cfg.act(0, []).content];
    assert s.mods[0].log[..0] == [];
  }

  /** And then a state is reachable in which no thread and no child can move although threads have not exited. */
  lemma QuitBlocks(cfg: Config) returns (t: State)
    requires ValidConfig(cfg) && cfg.act(0, []).status == -1
    ensures Reachable(cfg, t) && Stuck(cfg, t) && !AllDone(t)
  {
    hide Reachable, Stuck, QuitIn, Leads, ValidConfig, AllDone;
    var s := QuitHappens(cfg);
    ReachableNext(cfg, s, RaiseExit);
    var u := Next(cfg, s, RaiseExit);
    var steps;
    ReachableInv(cfg, u);
    steps, t := RunToEnd(cfg, u);
    ReachableOn(cfg, u, steps, t);
    QuitIsFatal(cfg, u, 0, steps, t);
  }

  /** The smallest such system: a source and a finalization, one buffer, a child whose action always returns -1. */
  lemma QuitExample() returns (cfg: Config, t: State)
    ensures ValidConfig(cfg) && cfg.n == 2 && cfg.offsets == [0]
    ensures Reachable(cfg, t) && Stuck(cfg, t) && !AllDone(t)
  {
    hide Reachable, Stuck, AllDone;
    cfg := Config(2, [0], 1, (i, h) => Outcome(0, -1), map[]);
    t := QuitBlocks(cfg);
  }
}
