/** The N-stage buffer pipeline (pipeline/src/pipeline_server.c and its children in pipeline_client.c) as a
    transition system. Every step is one action of one thread on a semaphore, a mutex or a shared field;
    branches on local variables ride on the action before them. */
module Pipeline {
  import opened FilterSpec
  import opened RingBuffers
  import opened Children

  /** Where a server thread is. The comments name the action that leaves the location. */
  datatype Pc =
    | Start            // process_start
    | Test             // read exit_flag (source)
    | Fetch            // cmd = module->cmd (source)
    | PopWait | PopLock | PopTake | PopUnlock
    | TakeNew          // sem_wait(new_cmd)
    | ReadCmd          // cmd = module->cmd
    | ReadOffs         // dataoffset = module->dataoffset
    | PostResult       // sem_post(result), then branch on cmd
    | SetCmd           // proc_info->cmd = cmd
    | SetOffs          // proc_info->cmd_offs = dataoffset
    | PostJob          // sem_post(sem_job)
    | AwaitResult      // sem_wait(sem_result)
    | CheckResult      // read proc_info->cmd_result
    | AwaitCredit      // sem_wait(next->result)
    | SendCmd          // next->cmd = JOB
    | SendOffs         // next->dataoffset = dataoffset
    | PostNew          // sem_post(next->new_cmd)
    | Deliver          // read the data (finalization)
    | PushLock | PushPut | PushUnlock | PushPost
    | StopCredit       // sem_wait(next->result)
    | StopSend         // next->cmd = STOP
    | StopPost         // sem_post(next->new_cmd)
    | StopChildCmd     // proc_info->cmd = STOP
    | StopChildPost    // sem_post(sem_job)
    | StopChildAwait   // sem_wait(sem_result)
    | Done

  /** A module: its thread's location and locals, the mailbox into it, and the slot `id` of its child. */
  datatype Module = Module(
    pc: Pc, localCmd: Cmd, localOffs: int,
    newCmd: nat, result: nat, cmd: Cmd, dataoffset: int,
    id: int, slot: Slot,
    log: seq<int>,      // history: captured (source), given to the child (process), delivered (finalization)
    sent: seq<Cmd>,     // history: commands posted to the next module
    orders: seq<Cmd>)   // history: commands posted to the child

  /** `n` modules in a chain, the free offsets the ring starts with, the size of the process table,
      the behaviour of the children, and the initial contents of the data area. */
  datatype Config = Config(n: int, offsets: seq<int>, processMax: int, act: Action, memory: map<int, int>)

  datatype State = State(mods: seq<Module>, ring: Ring, mem: map<int, int>, processCnt: int, exit: bool)

  /** Who moves: the thread or the child of module `i`, or `pipeline_destroy` raising the exit flag. */
  datatype Step = Thread(i: int) | Child(i: int) | RaiseExit

  /** What the program relies on: at least a source and a finalization, at least one buffer, distinct offsets,
      and a process table with room for every module that starts a child. */
  ghost predicate ValidConfig(cfg: Config) {
    cfg.n >= 2 && |cfg.offsets| >= 1 && Distinct(cfg.offsets) && cfg.processMax >= cfg.n - 1
  }

  /** A module after the loop in `pipeline_thread`: new_cmd 0, result 1, cmd JOB. */
  function InitModule(cfg: Config, i: int): Module {
    Module(if i == cfg.n - 1 then TakeNew else Start, JOB, 0, 0, 1, JOB, 0, -1, FRESH_SLOT, [], [], [])
  }

  function Init(cfg: Config): State
    requires cfg.n >= 0
  {
    State(seq(cfg.n, i => InitModule(cfg, i)), FullRing(cfg.offsets), cfg.memory, 0, false)
  }

  // ----- actions of a thread on its own module -----

  predicate OwnPc(pc: Pc) {
    (pc.Test? || pc.Fetch? || pc.TakeNew? || pc.ReadCmd? || pc.ReadOffs? || pc.PostResult? || pc.SetCmd?
        || pc.SetOffs? || pc.PostJob? || pc.AwaitResult? || pc.CheckResult? || pc.Deliver? || pc.StopChildCmd?
        || pc.StopChildPost? || pc.StopChildAwait?)
  }

  predicate OwnReady(m: Module) {
    && OwnPc(m.pc)
    && (m.pc == TakeNew ==> m.newCmd > 0)
    && ((m.pc.AwaitResult? || m.pc.StopChildAwait?) ==> m.slot.semResult > 0)
  }

  function OwnNext(cfg: Config, i: int, exit: bool, mem: map<int, int>, m: Module): Module
    requires OwnReady(m)
  {
    match m.pc
    case Test => m.(pc := if exit then StopCredit else Fetch)
    case Fetch => m.(localCmd := m.cmd, pc := PopWait)
    case TakeNew => m.(newCmd := m.newCmd - 1, pc := ReadCmd)
    case ReadCmd => m.(localCmd := m.cmd, pc := ReadOffs)
    case ReadOffs => m.(localOffs := m.dataoffset, pc := PostResult)
    case PostResult =>
      m.(result := m.result + 1,
         pc := if m.localCmd == STOP then (if i == cfg.n - 1 then Done else StopCredit)
               else if i == cfg.n - 1 then Deliver else SetCmd)
    case Deliver => m.(log := m.log + [Read(mem, m.localOffs)], pc := PushLock)
    case SetCmd => m.(slot := m.slot.(cmd := m.localCmd), pc := SetOffs)
    case SetOffs => m.(slot := m.slot.(offs := m.localOffs), pc := PostJob)
    case PostJob =>
      m.(slot := m.slot.(semJob := m.slot.semJob + 1), orders := m.orders + [m.slot.cmd], pc := AwaitResult)
    case AwaitResult =>
      m.(slot := m.slot.(semResult := m.slot.semResult - 1), pc := if i == 0 then AwaitCredit else CheckResult)
    case CheckResult => m.(pc := if m.slot.cmdResult != 0 then PushLock else AwaitCredit)
    case StopChildCmd => m.(slot := m.slot.(cmd := STOP), pc := StopChildPost)
    case StopChildPost =>
      m.(slot := m.slot.(semJob := m.slot.semJob + 1), orders := m.orders + [m.slot.cmd], pc := StopChildAwait)
    case StopChildAwait => m.(slot := m.slot.(semResult := m.slot.semResult - 1), pc := Done)
    case _ => m
  }

  // ----- actions of a thread on the ring -----

  predicate RingPc(pc: Pc) {
    (pc.PopWait? || pc.PopLock? || pc.PopTake? || pc.PopUnlock? || pc.PushLock? || pc.PushPut? || pc.PushUnlock?
        || pc.PushPost?)
  }

  /** The last two conjuncts say that the array accesses are in bounds; `PipelineTheorems.RingIsQueue` shows that they
      never fail. */
  predicate RingReady(m: Module, r: Ring) {
    && RingPc(m.pc)
    && (m.pc == PopWait ==> r.sem > 0)
    && ((m.pc.PopLock? || m.pc.PushLock?) ==> r.mutex == -1)
    && (m.pc == PopTake ==> 0 <= r.start < |r.buffer|)
    && (m.pc == PushPut ==> 0 <= WrapIndex(r.start + r.used, |r.buffer|) < |r.buffer|)
  }

  function RingNext(i: int, m: Module, r: Ring): (Module, Ring)
    requires RingReady(m, r)
  {
    match m.pc
    case PopWait => (m.(pc := PopLock), r.(sem := r.sem - 1))
    case PopLock => (m.(pc := PopTake), r.(mutex := i))
    case PopTake => (m.(localOffs := r.buffer[r.start], pc := PopUnlock), Take(r))
    case PopUnlock => (m.(pc := SetCmd), r.(mutex := -1))
    case PushLock => (m.(pc := PushPut), r.(mutex := i))
    case PushPut => (m.(pc := PushUnlock), Put(r, m.localOffs))
    case PushUnlock => (m.(pc := PushPost), r.(mutex := -1))
    case PushPost => (m.(pc := TakeNew), r.(sem := r.sem + 1))
    case _ => (m, r)
  }

  // ----- actions of a thread on the mailbox of the next module -----

  predicate SendPc(pc: Pc) {
    (pc.AwaitCredit? || pc.SendCmd? || pc.SendOffs? || pc.PostNew? || pc.StopCredit? || pc.StopSend? || pc.StopPost?)
  }

  predicate SendReady(m: Module, nx: Module) {
    SendPc(m.pc) && ((m.pc.AwaitCredit? || m.pc.StopCredit?) ==> nx.result > 0)
  }

  function SendNext(i: int, m: Module, nx: Module): (Module, Module)
    requires SendReady(m, nx)
  {
    match m.pc
    case AwaitCredit => (m.(pc := SendCmd), nx.(result := nx.result - 1))
    case SendCmd => (m.(pc := SendOffs), nx.(cmd := JOB))
    case SendOffs => (m.(pc := PostNew), nx.(dataoffset := m.localOffs))
    case PostNew =>
      (m.(sent := m.sent + [nx.cmd], pc := if i == 0 then Test else TakeNew), nx.(newCmd := nx.newCmd + 1))
    case StopCredit => (m.(pc := StopSend), nx.(result := nx.result - 1))
    case StopSend => (m.(pc := StopPost), nx.(cmd := STOP))
    case StopPost => (m.(sent := m.sent + [nx.cmd], pc := StopChildCmd), nx.(newCmd := nx.newCmd + 1))
    case _ => (m, nx)
  }

  // ----- actions of a child -----

  predicate ChildReady(m: Module) {
    !(m.slot.child.CQuit? || m.slot.child.CExited?) && (m.slot.child == CWait ==> m.slot.semJob > 0)
  }

  /** The outcome of the action that the child is about to run on its buffer. The source's child fills the buffer;
      its history is what it captured before. */
  function Answer(cfg: Config, i: int, mem: map<int, int>, m: Module): Outcome {
    cfg.act(i, if i == 0 then m.log else m.log + [Read(mem, m.slot.data)])
  }

  function ChildNext(cfg: Config, i: int, mem: map<int, int>, m: Module): Module
    requires ChildReady(m)
  {
    var s := m.slot;
    match s.child
    case CWait => m.(slot := s.(semJob := s.semJob - 1, child := CSwitch))
    case CSwitch => m.(slot := s.(child := if s.cmd == STOP then CStopSet else CFetch))
    case CFetch => m.(slot := s.(data := s.offs, child := CAct))
    case CAct =>
      var outcome := Answer(cfg, i, mem, m);
      m.(slot := s.(status := outcome.status, child := CSet),
         log := m.log + [if i == 0 then outcome.content else Read(mem, s.data)])
    case CSet => m.(slot := s.(cmdResult := CmdResult(s.status), child := if s.status == -1 then CQuitPost else CPost))
    case CPost => m.(slot := s.(semResult := s.semResult + 1, child := CWait))
    case CQuitPost => m.(slot := s.(semResult := s.semResult + 1, child := CQuit))
    case CStopSet => m.(slot := s.(cmdResult := 0, child := CStopPost))
    case CStopPost => m.(slot := s.(semResult := s.semResult + 1, child := CExited))
    case _ => m
  }

  function ChildMem(cfg: Config, i: int, mem: map<int, int>, m: Module): map<int, int>
    requires ChildReady(m)
  {
    if m.slot.child == CAct then mem[m.slot.data := Answer(cfg, i, mem, m).content] else mem
  }

  // ----- the system -----

  predicate Enabled(cfg: Config, s: State, step: Step) {
    match step
    case RaiseExit => !s.exit
    case Child(i) => 0 <= i < |s.mods| && ChildReady(s.mods[i])
    case Thread(i) =>
      && 0 <= i < |s.mods|
      && (|| (s.mods[i].pc == Start && s.processCnt < cfg.processMax)
          || OwnReady(s.mods[i])
          || RingReady(s.mods[i], s.ring)
          || (i + 1 < |s.mods| && SendReady(s.mods[i], s.mods[i + 1])))
  }

  function Next(cfg: Config, s: State, step: Step): State
    requires Enabled(cfg, s, step)
  {
    match step
    case RaiseExit => s.(exit := true)
    case Child(i) =>
      s.(mods := s.mods[i := ChildNext(cfg, i, s.mem, s.mods[i])], mem := ChildMem(cfg, i, s.mem, s.mods[i]))
    case Thread(i) =>
      var m := s.mods[i];
      if m.pc == Start then
        s.(mods := s.mods[i := m.(id := s.processCnt, pc := if i == 0 then Test else TakeNew)],
           processCnt := s.processCnt + 1)
      else if OwnPc(m.pc) then
        s.(mods := s.mods[i := OwnNext(cfg, i, s.exit, s.mem, m)])
      else if RingPc(m.pc) then
        var (m', ring') := RingNext(i, m, s.ring);
        s.(mods := s.mods[i := m'], ring := ring')
      else
        var (m', next') := SendNext(i, m, s.mods[i + 1]);
        s.(mods := s.mods[i := m'][i + 1 := next'])
  }

  /** `steps`, taken one after the other from `s`, are all possible and lead to `t`. */
  ghost predicate Leads(cfg: Config, s: State, steps: seq<Step>, t: State)
    decreases |steps|
  {
    if steps == [] then s == t
    else Enabled(cfg, s, steps[0]) && Leads(cfg, Next(cfg, s, steps[0]), steps[1..], t)
  }

  ghost predicate Reachable(cfg: Config, s: State) {
    cfg.n >= 0 && exists steps :: Leads(cfg, Init(cfg), steps, s)
  }

  // ----- what can be seen from outside -----

  ghost predicate AllDone(s: State) {
    forall i :: 0 <= i < |s.mods| ==> s.mods[i].pc == Done
  }

  /** A thread or a child can take this step; raising the exit flag is the user's, not theirs. */
  predicate Moves(cfg: Config, s: State, step: Step) {
    step != RaiseExit && Enabled(cfg, s, step)
  }

  ghost predicate Stuck(cfg: Config, s: State) {
    forall step :: !Moves(cfg, s, step)
  }

  /** The child of `m` left its loop because an action returned -1. */
  predicate HasQuit(m: Module) {
    (m.slot.child.CQuitPost? || m.slot.child.CQuit?) || (m.slot.child == CSet && m.slot.status == -1)
  }

  ghost predicate NoneQuit(s: State) {
    forall i :: 0 <= i < |s.mods| ==> !HasQuit(s.mods[i])
  }
}
