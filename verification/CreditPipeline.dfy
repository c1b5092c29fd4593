/** The credit-based pipeline (streamer/src/pipeline.c): the next stage reads the previous child's slot directly and
    gives the slot back by posting `prev->sem`. Every step is one action of one thread or child. */
module CreditPipeline {
  import opened FilterSpec
  import opened RingBuffers
  import opened Children

  /** Where a server thread is. The comments name the action that leaves the location. */
  datatype Pc =
    | Test             // read exit_flag (start thread)
    | PopWait | PopLock | PopTake | PopUnlock
    | AwaitPrev        // sem_wait(prev_info->sem_result)
    | ReadCmd          // read prev_info->cmd
    | ReadOffs         // packetoffset = prev_info->cmd_offs
    | ReadResult       // read prev_info->cmd_result
    | CreditDrop       // sem_post(prev->sem), then recycle
    | CreditPass       // sem_post(prev->sem), then use the packet
    | SetCmd           // proc_info->cmd = JOB
    | SetOffs          // proc_info->cmd_offs = packetoffset
    | PostJob          // sem_post(sem_job)
    | AwaitCredit      // sem_wait(p->sem)
    | Deliver          // read the packet (finish thread)
    | PushLock | PushPut | PushUnlock | PushPost
    | StopCmd          // proc_info->cmd = STOP
    | StopPost         // sem_post(sem_job)
    | Done

  /** A stage: its thread's location and local offset, its credit semaphore and the slot of its child. */
  datatype Stage = Stage(
    pc: Pc, localOffs: int, sem: nat, slot: Slot,
    log: seq<int>,      // history: what the child was given (finish thread: what was delivered)
    orders: seq<Cmd>)   // history: commands posted to the child

  datatype Config = Config(n: int, offsets: seq<int>, act: Action, memory: map<int, int>)

  datatype State = State(stages: seq<Stage>, ring: Ring, mem: map<int, int>, exit: bool)

  datatype Step = Thread(i: int) | Child(i: int) | RaiseExit

  /** The children of this variant write 0 or 1 into cmd_result, never -1. */
  ghost predicate ValidConfig(cfg: Config) {
    && cfg.n >= 2 && |cfg.offsets| >= 1 && Distinct(cfg.offsets)
    && forall i: int, h: seq<int> :: cfg.act(i, h).status != -1
  }

  function InitStage(i: int): Stage {
    Stage(if i == 0 then Test else AwaitPrev, 0, 0, FRESH_SLOT, [], [])
  }

  function Init(cfg: Config): State
    requires cfg.n >= 0
  {
    State(seq(cfg.n, i => InitStage(i)), FullRing(cfg.offsets), cfg.memory, false)
  }

  // ----- actions of a thread on its own stage -----

  predicate OwnPc(pc: Pc) {
    pc.Test? || pc.SetCmd? || pc.SetOffs? || pc.PostJob? || pc.AwaitCredit? || pc.Deliver? || pc.StopCmd?
        || pc.StopPost?
  }

  predicate OwnReady(m: Stage) {
    OwnPc(m.pc) && (m.pc == AwaitCredit ==> m.sem > 0)
  }

  function OwnNext(i: int, exit: bool, mem: map<int, int>, m: Stage): Stage
    requires OwnReady(m)
  {
    match m.pc
    case Test => m.(pc := if exit then StopCmd else PopWait)
    case SetCmd => m.(slot := m.slot.(cmd := JOB), pc := SetOffs)
    case SetOffs => m.(slot := m.slot.(offs := m.localOffs), pc := PostJob)
    case PostJob =>
      m.(slot := m.slot.(semJob := m.slot.semJob + 1), orders := m.orders + [m.slot.cmd], pc := AwaitCredit)
    case AwaitCredit => m.(sem := m.sem - 1, pc := if i == 0 then Test else AwaitPrev)
    case Deliver => m.(log := m.log + [Read(mem, m.localOffs)], pc := PushLock)
    case StopCmd => m.(slot := m.slot.(cmd := STOP), pc := StopPost)
    case StopPost => m.(slot := m.slot.(semJob := m.slot.semJob + 1), orders := m.orders + [m.slot.cmd], pc := Done)
    case _ => m
  }

  // ----- actions of a thread on the ring -----

  predicate RingPc(pc: Pc) {
    pc.PopWait? || pc.PopLock? || pc.PopTake? || pc.PopUnlock? || pc.PushLock? || pc.PushPut? || pc.PushUnlock?
        || pc.PushPost?
  }

  predicate RingReady(m: Stage, r: Ring) {
    && RingPc(m.pc)
    && (m.pc == PopWait ==> r.sem > 0)
    && (m.pc.PopLock? || m.pc.PushLock? ==> r.mutex == -1)
    && (m.pc == PopTake ==> 0 <= r.start < |r.buffer|)
    && (m.pc == PushPut ==> 0 <= WrapIndex(r.start + r.used, |r.buffer|) < |r.buffer|)
  }

  function RingNext(i: int, m: Stage, r: Ring): (Stage, Ring)
    requires RingReady(m, r)
  {
    match m.pc
    case PopWait => (m.(pc := PopLock), r.(sem := r.sem - 1))
    case PopLock => (m.(pc := PopTake), r.(mutex := i))
    case PopTake => (m.(localOffs := r.buffer[r.start], pc := PopUnlock), Take(r))
    case PopUnlock => (m.(pc := SetCmd), r.(mutex := -1))
    case PushLock => (m.(pc := PushPut), r.(mutex := i))
    case PushPut => (m.(pc := PushUnlock), Put(r, m.localOffs))
    case PushUnlock => (m.(pc := PushPost), r.(mutex := -1))
    case PushPost => (m.(pc := AwaitPrev), r.(sem := r.sem + 1))
    case _ => (m, r)
  }

  // ----- actions of a thread on the previous stage -----

  predicate PrevPc(pc: Pc) {
    pc.AwaitPrev? || pc.ReadCmd? || pc.ReadOffs? || pc.ReadResult? || pc.CreditDrop? || pc.CreditPass?
  }

  predicate PrevReady(a: Stage, m: Stage) {
    PrevPc(m.pc) && (m.pc == AwaitPrev ==> a.slot.semResult > 0)
  }

  function PrevNext(n: int, i: int, a: Stage, m: Stage): (Stage, Stage)
    requires PrevReady(a, m)
  {
    match m.pc
    case AwaitPrev => (a.(slot := a.slot.(semResult := a.slot.semResult - 1)), m.(pc := ReadCmd))
    case ReadCmd => (a, m.(pc := if a.slot.cmd == STOP then (if i == n - 1 then Done else StopCmd) else ReadOffs))
    case ReadOffs => (a, m.(localOffs := a.slot.offs, pc := ReadResult))
    case ReadResult => (a, m.(pc := if a.slot.cmdResult != 0 then CreditDrop else CreditPass))
    case CreditDrop => (a.(sem := a.sem + 1), m.(pc := PushLock))
    case CreditPass => (a.(sem := a.sem + 1), m.(pc := if i == n - 1 then Deliver else SetCmd))
    case _ => (a, m)
  }

  // ----- actions of a child (streamer/examples/capturer.c and filter.c) -----

  predicate ChildReady(m: Stage) {
    m.slot.child != CExited && (m.slot.child == CWait ==> m.slot.semJob > 0)
  }

  function Answer(cfg: Config, i: int, mem: map<int, int>, m: Stage): Outcome {
    cfg.act(i, m.log + [Read(mem, m.slot.data)])
  }

  function ChildNext(cfg: Config, i: int, mem: map<int, int>, m: Stage): Stage
    requires ChildReady(m)
  {
    var s := m.slot;
    match s.child
    case CWait => m.(slot := s.(semJob := s.semJob - 1, child := CSwitch))
    case CSwitch => m.(slot := s.(child := if s.cmd == STOP then CStopSet else CFetch))
    case CFetch => m.(slot := s.(data := s.offs, child := CAct))
    case CAct =>
      m.(slot := s.(status := Answer(cfg, i, mem, m).status, child := CSet), log := m.log + [Read(mem, s.data)])
    case CSet => m.(slot := s.(cmdResult := s.status, child := CPost))
    case CPost => m.(slot := s.(semResult := s.semResult + 1, child := CWait))
    case CStopSet => m.(slot := s.(cmdResult := 0, child := CStopPost))
    case CStopPost => m.(slot := s.(semResult := s.semResult + 1, child := CExited))
    case _ => m
  }

  function ChildMem(cfg: Config, i: int, mem: map<int, int>, m: Stage): map<int, int>
    requires ChildReady(m)
  {
    if m.slot.child == CAct then mem[m.slot.data := Answer(cfg, i, mem, m).content] else mem
  }

  // ----- the system -----

  predicate Enabled(s: State, step: Step) {
    match step
    case RaiseExit => !s.exit
    case Child(i) => 0 <= i < |s.stages| && ChildReady(s.stages[i])
    case Thread(i) =>
      && 0 <= i < |s.stages|
      && (|| OwnReady(s.stages[i])
          || RingReady(s.stages[i], s.ring)
          || (i > 0 && PrevReady(s.stages[i - 1], s.stages[i])))
  }

  function Next(cfg: Config, s: State, step: Step): State
    requires Enabled(s, step)
  {
    match step
    case RaiseExit => s.(exit := true)
    case Child(i) =>
      s.(stages := s.stages[i := ChildNext(cfg, i, s.mem, s.stages[i])], mem := ChildMem(cfg, i, s.mem, s.stages[i]))
    case Thread(i) =>
      var m := s.stages[i];
      if OwnPc(m.pc) then
        s.(stages := s.stages[i := OwnNext(i, s.exit, s.mem, m)])
      else if RingPc(m.pc) then
        var (m', ring') := RingNext(i, m, s.ring);
        s.(stages := s.stages[i := m'], ring := ring')
      else
        var (a', m') := PrevNext(|s.stages|, i, s.stages[i - 1], m);
        s.(stages := s.stages[i - 1 := a'][i := m'])
  }

  ghost predicate Leads(cfg: Config, s: State, steps: seq<Step>, t: State)
    decreases |steps|
  {
    if steps == [] then s == t
    else Enabled(s, steps[0]) && Leads(cfg, Next(cfg, s, steps[0]), steps[1..], t)
  }

  ghost predicate Reachable(cfg: Config, s: State) {
    cfg.n >= 0 && exists steps :: Leads(cfg, Init(cfg), steps, s)
  }

  ghost predicate AllDone(s: State) {
    forall i :: 0 <= i < |s.stages| ==> s.stages[i].pc == Done
  }

  /** A thread or a child can take this step; raising the exit flag is the user's, not theirs. */
  predicate Moves(s: State, step: Step) {
    step != RaiseExit && Enabled(s, step)
  }

  ghost predicate Stuck(s: State) {
    forall step :: !Moves(s, step)
  }
}
