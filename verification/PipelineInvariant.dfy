/** The inductive invariant of the pipeline and its preservation by every step. */
module PipelineInvariant {
  import opened FilterSpec
  import opened RingBuffers
  import opened Children
  import opened Sums
  import opened Pipeline

  // ----- locations -----

  predicate Sending(pc: Pc) { (pc.SendCmd? || pc.SendOffs? || pc.PostNew? || pc.StopSend? || pc.StopPost?) }
  predicate Receiving(pc: Pc) { (pc.ReadCmd? || pc.ReadOffs? || pc.PostResult?) }
  predicate StopSent(pc: Pc) { (pc.StopChildCmd? || pc.StopChildPost? || pc.StopChildAwait? || pc.Done?) }
  predicate Stopping(pc: Pc) { StopSent(pc) || (pc.StopCredit? || pc.StopSend? || pc.StopPost?) }
  predicate Critical(pc: Pc) { (pc.PopTake? || pc.PopUnlock? || pc.PushPut? || pc.PushUnlock?) }

  /** Locations between receiving or popping an offset and passing it on. */
  predicate InJob(pc: Pc) {
    (pc.SetCmd? || pc.SetOffs? || pc.PostJob? || pc.AwaitResult? || pc.CheckResult? || pc.AwaitCredit? || pc.SendCmd?
        || pc.SendOffs? || pc.PostNew?)
  }

  predicate RoleOk(n: int, i: int, pc: Pc) {
    && (i == 0 ==> !(pc.TakeNew? || pc.ReadCmd? || pc.ReadOffs? || pc.PostResult? || pc.CheckResult? || pc.Deliver?
                     || pc.PushLock? || pc.PushPut? || pc.PushUnlock? || pc.PushPost?))
    && (i > 0 ==> !(pc.Test? || pc.Fetch? || pc.PopWait? || pc.PopLock? || pc.PopTake? || pc.PopUnlock?))
    && (0 < i < n - 1 ==> pc != Deliver)
    && (i == n - 1 ==> (pc.TakeNew? || pc.ReadCmd? || pc.ReadOffs? || pc.PostResult? || pc.Deliver? || pc.PushLock?
                        || pc.PushPut? || pc.PushUnlock? || pc.PushPost? || pc.Done?))
  }

  // ----- where an offset is -----

  /** The mailbox of `m` holds a message that has not been copied out yet. */
  predicate MailFull(m: Module) { m.newCmd == 1 || (m.pc.ReadCmd? || m.pc.ReadOffs?) }
  predicate HasMail(m: Module) { MailFull(m) && m.cmd == JOB }

  /** The action on the current buffer has been run. */
  predicate Ran(m: Module) {
    || (m.pc == AwaitResult && ((m.slot.child.CSet? || m.slot.child.CPost? || m.slot.child.CQuitPost?)
        || m.slot.semResult == 1))
    || (m.pc.CheckResult? || m.pc.AwaitCredit? || m.pc.SendCmd? || m.pc.SendOffs? || m.pc.PostNew?)
  }

  /** The thread owns the buffer at `localOffs`. */
  predicate Holds(m: Module) {
    || InJob(m.pc)
    || (m.pc.PopUnlock? || m.pc.Deliver? || m.pc.PushLock? || m.pc.PushPut?)
    || (m.pc == PostResult && m.localCmd == JOB)
  }

  /** Owned and not yet given to the child (or read by the finalization). */
  predicate HasPre(m: Module) {
    || (m.pc == PostResult && m.localCmd == JOB)
    || (m.pc.SetCmd? || m.pc.SetOffs? || m.pc.PostJob? || m.pc.Deliver?)
    || (m.pc == AwaitResult && !Ran(m))
  }

  /** Owned, processed with success, not yet in the next mailbox. */
  predicate HasPost(cfg: Config, i: int, m: Module) {
    Ran(m) && ((m.pc.AwaitResult? || m.pc.CheckResult?) ==> i == 0 || Passes(cfg.act, i, m.log))
  }

  /** The buffers of a module: in its thread's hands or unread in its mailbox. */
  ghost function Owned(m: Module): multiset<int> {
    (if Holds(m) then multiset{m.localOffs} else multiset{}) + (if HasMail(m) then multiset{m.dataoffset}
        else multiset{})
  }

  /** Poppers past sem_wait that have not decremented, and pushers past the increment that have not posted. */
  function Debt(k: int, m: Module): nat {
    if (m.pc.PopLock? || m.pc.PopTake? || m.pc.PushUnlock? || m.pc.PushPost?) then 1 else 0
  }

  function Started(k: int, m: Module): nat {
    if m.pc == Start then 0 else 1
  }

  lemma OwnsWhatItHolds(m: Module)
    ensures Holds(m) ==> Owned(m)[m.localOffs] >= 1
    ensures HasMail(m) ==> Owned(m)[m.dataoffset] >= 1
    ensures Holds(m) && HasMail(m) && m.localOffs == m.dataoffset ==> Owned(m)[m.localOffs] >= 2
  {
    hide Holds, HasMail;
  }

  lemma GivesUp(m: Module, m': Module)
    requires Holds(m) && !Holds(m') && HasMail(m') == HasMail(m) && m'.dataoffset == m.dataoffset
    ensures Owned(m) == Owned(m') + multiset{m.localOffs}
  {
    hide Holds, HasMail;
  }

  // ----- one module -----

  /** All JOBs, then one STOP exactly if `stopped`. */
  ghost predicate JobsThenStop(h: seq<Cmd>, stopped: bool) {
    && (stopped ==> h != [] && h[|h| - 1] == STOP)
    && forall k :: 0 <= k < |h| - (if stopped then 1 else 0) ==> h[k] == JOB
  }

  /** The status of the last action run by the child of stage `i`. */
  function LastStatus(cfg: Config, i: int, log: seq<int>): int
    requires log != []
  {
    cfg.act(i, if i == 0 then log[..|log| - 1] else log).status
  }

  /** Some action run so far returned -1. */
  ghost predicate QuitIn(cfg: Config, i: int, log: seq<int>) {
    log != [] && (LastStatus(cfg, i, log) == -1 || QuitIn(cfg, i, log[..|log| - 1]))
  }

  /** One token circulates between a thread and its child. */
  predicate SlotInv(m: Module) {
    var s := m.slot;
    if m.pc == AwaitResult then
      || (s.semJob == 1 && s.semResult == 0 && (s.child.CWait? || s.child.CQuit?))
      || (s.semJob == 0 && s.semResult == 0 && (s.child.CSwitch? || s.child.CFetch? || s.child.CAct? || s.child.CSet?
          || s.child.CPost? || s.child.CQuitPost?))
      || (s.semJob == 0 && s.semResult == 1 && (s.child.CWait? || s.child.CQuit?))
    else if m.pc == StopChildAwait then
      || (s.semJob == 1 && s.semResult == 0 && (s.child.CWait? || s.child.CQuit?))
      || (s.semJob == 0 && s.semResult == 0 && (s.child.CSwitch? || s.child.CStopSet? || s.child.CStopPost?))
      || (s.semJob == 0 && s.semResult == 1 && s.child == CExited)
    else
      s.semJob == 0 && s.semResult == 0 && (if m.pc == Done then s.child == CExited else (s.child.CWait?
          || s.child.CQuit?))
  }

  /** The slot's fields belong to the command being executed. */
  predicate SlotFields(m: Module) {
    var s := m.slot;
    && ((m.pc.SetOffs? || m.pc.PostJob? || m.pc.AwaitResult?) ==> s.cmd == JOB)
    && ((m.pc.PostJob? || m.pc.AwaitResult?) ==> s.offs == m.localOffs)
    && (m.pc == AwaitResult && s.child == CAct ==> s.data == m.localOffs)
    && ((m.pc.StopChildPost? || m.pc.StopChildAwait?) ==> s.cmd == STOP)
  }

  /** The result in the slot is the one of the last action. */
  predicate ResultInv(cfg: Config, i: int, m: Module) {
    && (Ran(m) ==> m.log != [])
    && (m.slot.child == CSet && m.pc == AwaitResult ==> m.log != [] && m.slot.status == LastStatus(cfg, i, m.log))
    && (Ran(m) && (m.pc.AwaitResult? || m.pc.CheckResult?) && m.slot.child != CSet ==>
          m.slot.cmdResult == CmdResult(LastStatus(cfg, i, m.log)))
  }

  ghost predicate Local(cfg: Config, i: int, m: Module) {
    && RoleOk(cfg.n, i, m.pc)
    && (i == 0 ==> m.newCmd == 0 && m.cmd == JOB)
    && (i == cfg.n - 1 ==> m.slot == FRESH_SLOT && m.sent == [] && m.orders == [])
    && (i < cfg.n - 1 ==>
          && SlotInv(m) && SlotFields(m) && ResultInv(cfg, i, m)
          && (HasQuit(m) <==> QuitIn(cfg, i, m.log)))
    && (m.pc == ReadOffs ==> m.localCmd == m.cmd)
    && (InJob(m.pc) || (m.pc.PopWait? || m.pc.PopLock? || m.pc.PopTake? || m.pc.PopUnlock?) ==> m.localCmd == JOB)
  }

  /** On the link to the next module and to the child: JOBs, then one STOP. */
  ghost predicate Commands(cfg: Config, i: int, m: Module) {
    i < cfg.n - 1 ==>
      JobsThenStop(m.sent, StopSent(m.pc)) && JobsThenStop(m.orders, m.pc.StopChildAwait? || m.pc.Done?)
  }

  // ----- neighbours -----

  /** `b` has or had the STOP in its mailbox. */
  predicate StopSeen(b: Module) {
    (MailFull(b) && b.cmd == STOP) || (b.pc == PostResult && b.localCmd == STOP) || Stopping(b.pc)
  }

  function Count(x: bool): nat { if x then 1 else 0 }

  /** The mailbox of `b`, fed by `a`: one token, never overwritten unread, STOP last. */
  predicate Link(a: Module, b: Module) {
    && b.result + b.newCmd + Count(Sending(a.pc)) + Count(Receiving(b.pc)) == 1
    && ((a.pc.SendOffs? || a.pc.PostNew?) ==> b.cmd == JOB)
    && (a.pc == PostNew ==> b.dataoffset == a.localOffs)
    && (a.pc == StopPost ==> b.cmd == STOP)
    && (StopSent(a.pc) <==> StopSeen(b))
    && (Stopping(b.pc) ==> b.result == 1)
  }

  function At(x: bool, mem: map<int, int>, offs: int, rest: seq<int>): seq<int> {
    if x then [Read(mem, offs)] + rest else rest
  }

  /** The frames between stage `i` (module `a`) and the action of stage `i + 1` (module `b`), oldest first. */
  function InFlight(cfg: Config, i: int, a: Module, b: Module, mem: map<int, int>): seq<int> {
    At(HasPre(b), mem, b.localOffs,
       At(HasMail(b), mem, b.dataoffset,
          At(HasPost(cfg, i, a), mem, a.localOffs, [])))
  }

  /** What stage `i` forwarded is what stage `i + 1` has taken in followed by what is in flight. */
  ghost predicate Stream(cfg: Config, i: int, a: Module, b: Module, mem: map<int, int>) {
    Out(cfg.act, i, a.log) == b.log + InFlight(cfg, i, a, b, mem)
  }

  // ----- the whole system -----

  ghost predicate RingInv(cfg: Config, s: State) {
    && |s.ring.buffer| == |cfg.offsets|
    && Fifo(s.ring)
    && s.ring.sem + Sum(Debt, s.mods) == s.ring.used
  }

  /** Every offset is in exactly one place. */
  ghost predicate Conserved(cfg: Config, s: State) {
    && Shape(s.ring.buffer, s.ring.start, s.ring.used)
    && multiset(Queued(s.ring)) + Union(Owned, s.mods) == multiset(cfg.offsets)
  }

  /** The mutex is held exactly by the thread in a critical section. */
  ghost predicate MutexInv(s: State) {
    && -1 <= s.ring.mutex < |s.mods|
    && forall i :: 0 <= i < |s.mods| ==> (Critical(s.mods[i].pc) <==> s.ring.mutex == i)
  }

  /** Slot ids are handed out once each, within the table. */
  ghost predicate Ids(cfg: Config, s: State) {
    && s.processCnt >= 0 && s.processCnt + 1 == Sum(Started, s.mods)
    && (forall i :: 0 <= i < |s.mods| - 1 ==> IdOk(s.mods[i], s.processCnt))
    && (forall i, j :: 0 <= i < j < |s.mods| - 1 && s.mods[i].pc != Start && s.mods[j].pc != Start ==>
          s.mods[i].id != s.mods[j].id)
  }

  predicate IdOk(m: Module, processCnt: int) {
    if m.pc == Start then m.id == -1 else 0 <= m.id < processCnt
  }

  ghost predicate Modules(cfg: Config, s: State) {
    forall i :: 0 <= i < |s.mods| ==> Local(cfg, i, s.mods[i]) && Commands(cfg, i, s.mods[i])
  }

  ghost predicate Links(cfg: Config, s: State) {
    forall i :: 0 <= i < |s.mods| - 1 ==> Link(s.mods[i], s.mods[i + 1])
  }

  ghost predicate Streams(cfg: Config, s: State) {
    forall i :: 0 <= i < |s.mods| - 1 ==> Stream(cfg, i, s.mods[i], s.mods[i + 1], s.mem)
  }

  ghost predicate Inv(cfg: Config, s: State) {
    && |s.mods| == cfg.n >= 2
    && Modules(cfg, s) && Links(cfg, s) && Streams(cfg, s)
    && RingInv(cfg, s) && Conserved(cfg, s) && MutexInv(s) && Ids(cfg, s)
    && ExitInv(s)
  }

  /** The source stops only after the exit flag was raised. */
  predicate ExitInv(s: State) {
    s.mods != [] && Stopping(s.mods[0].pc) ==> s.exit
  }

  // ----- actions on the own module -----

  predicate MailboxPc(pc: Pc) { pc.TakeNew? || pc.ReadCmd? || pc.ReadOffs? || pc.PostResult? }
  predicate OrderPc(pc: Pc) { pc.SetCmd? || pc.SetOffs? || pc.PostJob? || pc.AwaitResult? || pc.CheckResult? }

  lemma MailboxKeepsLocal(cfg: Config, i: int, exit: bool, mem: map<int, int>, m: Module)
    requires 0 <= i < cfg.n && Local(cfg, i, m) && OwnReady(m) && MailboxPc(m.pc)
    ensures Local(cfg, i, OwnNext(cfg, i, exit, mem, m))
  {
    hide QuitIn, Read;
  }

  lemma OrderKeepsLocal(cfg: Config, i: int, exit: bool, mem: map<int, int>, m: Module)
    requires 0 <= i < cfg.n && Local(cfg, i, m) && OwnReady(m) && OrderPc(m.pc)
    ensures Local(cfg, i, OwnNext(cfg, i, exit, mem, m))
  {
    hide QuitIn, Read;
  }

  lemma OtherKeepsLocal(cfg: Config, i: int, exit: bool, mem: map<int, int>, m: Module)
    requires 0 <= i < cfg.n && Local(cfg, i, m) && OwnReady(m) && !MailboxPc(m.pc) && !OrderPc(m.pc)
    ensures Local(cfg, i, OwnNext(cfg, i, exit, mem, m))
  {
    hide QuitIn, Read;
  }

  lemma OwnKeepsLocal(cfg: Config, i: int, exit: bool, mem: map<int, int>, m: Module)
    requires 0 <= i < cfg.n && Local(cfg, i, m) && OwnReady(m)
    ensures Local(cfg, i, OwnNext(cfg, i, exit, mem, m))
  {
    if MailboxPc(m.pc) {
      MailboxKeepsLocal(cfg, i, exit, mem, m);
    } else if OrderPc(m.pc) {
      OrderKeepsLocal(cfg, i, exit, mem, m);
    } else {
      OtherKeepsLocal(cfg, i, exit, mem, m);
    }
  }

  lemma OwnKeepsCommands(cfg: Config, i: int, exit: bool, mem: map<int, int>, m: Module)
    requires 0 <= i < cfg.n && Local(cfg, i, m) && OwnReady(m) && Commands(cfg, i, m)
    ensures Commands(cfg, i, OwnNext(cfg, i, exit, mem, m))
  {
    hide SlotInv, ResultInv, QuitIn;
  }

  /** The offset in hand and the offset in the mailbox are the same, or the one moved to the other place. */
  predicate SameOffsets(m: Module, m': Module) {
    || (&& Holds(m') == Holds(m) && (Holds(m) ==> m'.localOffs == m.localOffs)
        && HasMail(m') == HasMail(m) && (HasMail(m) ==> m'.dataoffset == m.dataoffset))
    || (!Holds(m) && HasMail(m) && Holds(m') && !HasMail(m') && m'.localOffs == m.dataoffset)
  }

  lemma SameOwned(m: Module, m': Module)
    requires SameOffsets(m, m')
    ensures Owned(m') == Owned(m)
  {
  }

  lemma OwnKeepsOffsets(cfg: Config, i: int, exit: bool, mem: map<int, int>, m: Module)
    requires 0 <= i < cfg.n && Local(cfg, i, m) && OwnReady(m) && m.newCmd <= 1
    requires MailFull(m) ==> m.newCmd == 0 || !Receiving(m.pc)
    ensures SameOffsets(m, OwnNext(cfg, i, exit, mem, m))
  {
  }

  lemma OwnKeepsCounts(cfg: Config, i: int, exit: bool, mem: map<int, int>, m: Module)
    requires OwnReady(m)
    ensures var m' := OwnNext(cfg, i, exit, mem, m);
            && (forall k :: Debt(k, m') == Debt(k, m)) && (forall k :: Started(k, m') == Started(k, m))
            && Critical(m'.pc) == Critical(m.pc) && m'.id == m.id && m'.pc != Start
            && (Stopping(m'.pc) ==> Stopping(m.pc) || exit || m.pc == PostResult)
  {
  }

  /** What the sender's side of a link sees of its receiver is unchanged. */
  predicate SameReceiver(m: Module, m': Module) {
    && m'.newCmd == m.newCmd && m'.result == m.result && m'.cmd == m.cmd && m'.dataoffset == m.dataoffset
    && m'.log == m.log
    && Receiving(m'.pc) == Receiving(m.pc) && Stopping(m'.pc) == Stopping(m.pc) && StopSeen(m') == StopSeen(m)
    && HasMail(m') == HasMail(m)
    && HasPre(m') == HasPre(m) && (HasPre(m) ==> m'.localOffs == m.localOffs)
  }

  lemma SameReceiverKeeps(cfg: Config, i: int, a: Module, m: Module, m': Module, mem: map<int, int>)
    requires SameReceiver(m, m') && Link(a, m) && Stream(cfg, i, a, m, mem)
    ensures Link(a, m') && Stream(cfg, i, a, m', mem)
  {
  }

  /** What the receiver's side of a link sees of its sender is unchanged. */
  predicate SameSender(cfg: Config, i: int, m: Module, m': Module) {
    && m'.log == m.log
    && !Sending(m.pc) && !Sending(m'.pc) && StopSent(m'.pc) == StopSent(m.pc)
    && HasPost(cfg, i, m') == HasPost(cfg, i, m) && (HasPost(cfg, i, m) ==> m'.localOffs == m.localOffs)
  }

  lemma SameSenderKeeps(cfg: Config, i: int, m: Module, m': Module, b: Module, mem: map<int, int>)
    requires SameSender(cfg, i, m, m') && Link(m, b) && Stream(cfg, i, m, b, mem)
    ensures Link(m', b) && Stream(cfg, i, m', b, mem)
  {
  }

  lemma MailboxKeepsLeft(cfg: Config, i: int, exit: bool, mem: map<int, int>, a: Module, m: Module)
    requires 0 < i < cfg.n && Local(cfg, i, m) && OwnReady(m) && MailboxPc(m.pc)
    requires Link(a, m) && Stream(cfg, i - 1, a, m, mem)
    ensures var m' := OwnNext(cfg, i, exit, mem, m);
            Link(a, m') && Stream(cfg, i - 1, a, m', mem)
  {
  }

  lemma DeliverKeepsLeft(cfg: Config, i: int, exit: bool, mem: map<int, int>, a: Module, m: Module)
    requires 0 < i < cfg.n && Local(cfg, i, m) && m.pc == Deliver
    requires Link(a, m) && Stream(cfg, i - 1, a, m, mem)
    ensures var m' := OwnNext(cfg, i, exit, mem, m);
            Link(a, m') && Stream(cfg, i - 1, a, m', mem)
  {
  }

  lemma OrderKeepsReceiver(cfg: Config, i: int, exit: bool, mem: map<int, int>, m: Module)
    requires 0 <= i < cfg.n && Local(cfg, i, m) && OwnReady(m) && OrderPc(m.pc)
    ensures SameReceiver(m, OwnNext(cfg, i, exit, mem, m))
  {
  }

  lemma OtherKeepsReceiver(cfg: Config, i: int, exit: bool, mem: map<int, int>, m: Module)
    requires 0 < i < cfg.n && Local(cfg, i, m) && OwnReady(m) && !MailboxPc(m.pc) && !OrderPc(m.pc) && m.pc != Deliver
    ensures SameReceiver(m, OwnNext(cfg, i, exit, mem, m))
  {
  }

  lemma OwnKeepsLeft(cfg: Config, i: int, exit: bool, mem: map<int, int>, a: Module, m: Module)
    requires 0 < i < cfg.n && Local(cfg, i, m) && OwnReady(m)
    requires Link(a, m) && Stream(cfg, i - 1, a, m, mem)
    ensures var m' := OwnNext(cfg, i, exit, mem, m);
            Link(a, m') && Stream(cfg, i - 1, a, m', mem)
  {
    hide Local, Link, Stream, SameReceiver, OwnNext, OwnReady, MailboxPc, OrderPc;
    if MailboxPc(m.pc) {
      MailboxKeepsLeft(cfg, i, exit, mem, a, m);
    } else if m.pc == Deliver {
      DeliverKeepsLeft(cfg, i, exit, mem, a, m);
    } else {
      if OrderPc(m.pc) {
        OrderKeepsReceiver(cfg, i, exit, mem, m);
      } else {
        OtherKeepsReceiver(cfg, i, exit, mem, m);
      }
      SameReceiverKeeps(cfg, i - 1, a, m, OwnNext(cfg, i, exit, mem, m), mem);
    }
  }

  lemma OrderKeepsSender(cfg: Config, i: int, exit: bool, mem: map<int, int>, m: Module)
    requires 0 <= i < cfg.n - 1 && Local(cfg, i, m) && OwnReady(m) && OrderPc(m.pc)
    ensures SameSender(cfg, i, m, OwnNext(cfg, i, exit, mem, m))
  {
  }

  lemma OtherKeepsSender(cfg: Config, i: int, exit: bool, mem: map<int, int>, m: Module)
    requires 0 <= i < cfg.n - 1 && Local(cfg, i, m) && OwnReady(m) && !OrderPc(m.pc)
    ensures SameSender(cfg, i, m, OwnNext(cfg, i, exit, mem, m))
  {
  }

  lemma OwnKeepsRight(cfg: Config, i: int, exit: bool, mem: map<int, int>, m: Module, b: Module)
    requires 0 <= i < cfg.n - 1 && Local(cfg, i, m) && OwnReady(m)
    requires Link(m, b) && Stream(cfg, i, m, b, mem)
    ensures var m' := OwnNext(cfg, i, exit, mem, m);
            Link(m', b) && Stream(cfg, i, m', b, mem)
  {
    if OrderPc(m.pc) {
      OrderKeepsSender(cfg, i, exit, mem, m);
    } else {
      OtherKeepsSender(cfg, i, exit, mem, m);
    }
    SameSenderKeeps(cfg, i, m, OwnNext(cfg, i, exit, mem, m), b, mem);
  }

  // ----- actions on the ring -----

  lemma RingKeepsLocal(cfg: Config, i: int, m: Module, r: Ring)
    requires 0 <= i < cfg.n && Local(cfg, i, m) && RingReady(m, r)
    ensures Local(cfg, i, RingNext(i, m, r).0)
  {
    hide Put, Take, WrapIndex, QuitIn;
  }

  lemma RingKeepsRest(cfg: Config, i: int, m: Module, r: Ring)
    requires Commands(cfg, i, m) && RingReady(m, r)
    ensures var m' := RingNext(i, m, r).0;
            && Commands(cfg, i, m')
            && m'.id == m.id && m'.pc != Start && m.pc != Start && (forall k :: Started(k, m') == Started(k, m))
            && Stopping(m'.pc) == Stopping(m.pc)
  {
    hide Put, Take, WrapIndex, JobsThenStop;
  }

  lemma RingKeepsViews(cfg: Config, i: int, m: Module, r: Ring)
    requires 0 <= i < cfg.n && Local(cfg, i, m) && RingReady(m, r)
    ensures var m' := RingNext(i, m, r).0;
            && (i > 0 ==> SameReceiver(m, m')) && (i < cfg.n - 1 ==> SameSender(cfg, i, m, m'))
  {
  }

  // ----- actions on the next mailbox -----

  lemma SenderKeepsLocal(cfg: Config, i: int, m: Module, b: Module)
    requires 0 <= i < cfg.n - 1 && Local(cfg, i, m) && SendReady(m, b)
    ensures Local(cfg, i, SendNext(i, m, b).0)
  {
  }

  lemma ReceiverKeepsLocal(cfg: Config, i: int, m: Module, b: Module)
    requires 0 <= i < cfg.n - 1 && Local(cfg, i + 1, b) && SendReady(m, b) && Link(m, b)
    ensures Local(cfg, i + 1, SendNext(i, m, b).1)
  {
  }

  lemma SendKeepsCommands(cfg: Config, i: int, m: Module, b: Module)
    requires 0 <= i < cfg.n - 1 && Local(cfg, i, m) && SendReady(m, b) && Link(m, b)
    requires Commands(cfg, i, m) && Commands(cfg, i + 1, b)
    ensures var (m', b') := SendNext(i, m, b);
            Commands(cfg, i, m') && Commands(cfg, i + 1, b')
  {
  }

  lemma SendKeepsLink(cfg: Config, i: int, m: Module, b: Module)
    requires 0 <= i < cfg.n - 1 && Local(cfg, i, m) && Local(cfg, i + 1, b) && SendReady(m, b) && Link(m, b)
    ensures var (m', b') := SendNext(i, m, b);
            Link(m', b')
  {
    hide SlotInv, SlotFields, ResultInv, QuitIn, HasQuit;
  }

  lemma SendKeepsStream(cfg: Config, i: int, m: Module, b: Module, mem: map<int, int>)
    requires 0 <= i < cfg.n - 1 && Local(cfg, i, m) && Local(cfg, i + 1, b) && SendReady(m, b) && Link(m, b)
    requires Stream(cfg, i, m, b, mem)
    ensures var (m', b') := SendNext(i, m, b);
            Stream(cfg, i, m', b', mem)
  {
  }

  lemma SendKeepsReceiver(cfg: Config, i: int, m: Module, b: Module)
    requires 0 < i < cfg.n - 1 && Local(cfg, i, m) && SendReady(m, b)
    ensures SameReceiver(m, SendNext(i, m, b).0)
  {
  }

  lemma SendKeepsOuter(i: int, m: Module, b: Module)
    requires SendReady(m, b)
    ensures var (m', b') := SendNext(i, m, b);
            && b'.pc == b.pc && b'.slot == b.slot && b'.localOffs == b.localOffs && b'.log == b.log && b'.id == b.id
            && m'.id == m.id && m'.pc != Start && m.pc != Start
            && (forall k :: Debt(k, m') == Debt(k, m) && Debt(k, b') == Debt(k, b))
            && (forall k :: Started(k, m') == Started(k, m) && Started(k, b') == Started(k, b))
            && !Critical(m'.pc) && !Critical(m.pc) && Stopping(m'.pc) == Stopping(m.pc)
  {
  }

  lemma SendKeepsOffsets(cfg: Config, i: int, m: Module, b: Module)
    requires 0 <= i < cfg.n - 1 && Local(cfg, i, m) && SendReady(m, b) && Link(m, b) && m.pc != PostNew
    ensures var (m', b') := SendNext(i, m, b);
            SameOffsets(m, m') && SameOffsets(b, b')
  {
  }

  lemma PostMovesOffset(cfg: Config, i: int, m: Module, b: Module)
    requires 0 <= i < cfg.n - 1 && Local(cfg, i, m) && SendReady(m, b) && Link(m, b) && m.pc == PostNew
    ensures var (m', b') := SendNext(i, m, b);
            && Holds(m) && !Holds(m') && !HasMail(b) && HasMail(b') && b'.dataoffset == m.localOffs
            && HasMail(m') == HasMail(m) && m'.dataoffset == m.dataoffset
            && Holds(b') == Holds(b) && b'.localOffs == b.localOffs
  {
  }

  lemma SendKeepsOwned(cfg: Config, i: int, m: Module, b: Module)
    requires 0 <= i < cfg.n - 1 && Local(cfg, i, m) && SendReady(m, b) && Link(m, b)
    ensures var (m', b') := SendNext(i, m, b);
            Owned(m') + Owned(b') == Owned(m) + Owned(b)
  {
    var (m', b') := SendNext(i, m, b);
    if m.pc == PostNew {
      PostMovesOffset(cfg, i, m, b);
    } else {
      SendKeepsOffsets(cfg, i, m, b);
      SameOwned(m, m');
      SameOwned(b, b');
    }
  }

  // ----- actions of the child -----

  predicate ActPc(m: Module) { m.slot.child.CAct? }

  lemma ChildKeepsLocal(cfg: Config, i: int, mem: map<int, int>, m: Module)
    requires 0 <= i < cfg.n && Local(cfg, i, m) && ChildReady(m) && !ActPc(m)
    ensures Local(cfg, i, ChildNext(cfg, i, mem, m))
  {
  }

  lemma QuitInSnoc(cfg: Config, i: int, log: seq<int>, x: int)
    ensures LastStatus(cfg, i, log + [x]) == cfg.act(i, if i == 0 then log else log + [x]).status
    ensures QuitIn(cfg, i, log + [x]) <==> LastStatus(cfg, i, log + [x]) == -1 || QuitIn(cfg, i, log)
  {
    assert (log + [x])[..|log|] == log;
  }

  lemma ActKeepsLocal(cfg: Config, i: int, mem: map<int, int>, m: Module)
    requires 0 <= i < cfg.n && Local(cfg, i, m) && ChildReady(m) && ActPc(m)
    ensures Local(cfg, i, ChildNext(cfg, i, mem, m))
  {
    var x := if i == 0 then Answer(cfg, i, mem, m).content else Read(mem, m.slot.data);
    QuitInSnoc(cfg, i, m.log, x);
    hide QuitIn, LastStatus, Read;
  }

  lemma ChildKeepsViews(cfg: Config, i: int, mem: map<int, int>, m: Module)
    requires 0 <= i < cfg.n && Local(cfg, i, m) && ChildReady(m) && !ActPc(m)
    ensures var m' := ChildNext(cfg, i, mem, m);
            && (i > 0 ==> SameReceiver(m, m')) && (i < cfg.n - 1 ==> SameSender(cfg, i, m, m'))
  {
  }

  lemma ChildKeepsRest(cfg: Config, i: int, mem: map<int, int>, m: Module)
    requires ChildReady(m)
    ensures var m' := ChildNext(cfg, i, mem, m);
            && m'.pc == m.pc && m'.id == m.id && m'.sent == m.sent && m'.orders == m.orders
            && Holds(m') == Holds(m) && HasMail(m') == HasMail(m)
            && m'.localOffs == m.localOffs && m'.dataoffset == m.dataoffset
            && (forall k :: Debt(k, m') == Debt(k, m)) && (forall k :: Started(k, m') == Started(k, m))
  {
  }

  /** Frames in flight elsewhere are not touched by an action on the buffer at `offs`. */
  predicate Untouched(cfg: Config, i: int, a: Module, b: Module, offs: int) {
    && (HasPre(b) ==> b.localOffs != offs)
    && (HasMail(b) ==> b.dataoffset != offs)
    && (HasPost(cfg, i, a) ==> a.localOffs != offs)
  }

  lemma InFlightFrame(cfg: Config, i: int, a: Module, b: Module, mem: map<int, int>, offs: int, x: int)
    requires Untouched(cfg, i, a, b, offs)
    ensures InFlight(cfg, i, a, b, mem[offs := x]) == InFlight(cfg, i, a, b, mem)
  {
  }

  /** The location of a module whose child runs its action. */
  lemma ActHere(cfg: Config, i: int, mem: map<int, int>, m: Module)
    requires 0 <= i < cfg.n && Local(cfg, i, m) && ActPc(m)
    ensures i < cfg.n - 1 && m.pc == AwaitResult && Holds(m) && HasPre(m) && !HasPost(cfg, i, m)
    ensures m.slot.data == m.localOffs
  {
  }

  lemma ActMovesFrame(cfg: Config, i: int, mem: map<int, int>, m: Module)
    requires 0 <= i < cfg.n - 1 && Local(cfg, i, m) && ActPc(m)
    ensures var m' := ChildNext(cfg, i, mem, m);
            && !HasPre(m') && (HasPost(cfg, i, m') <==> i == 0 || Passes(cfg.act, i, m'.log))
            && HasMail(m') == HasMail(m) && m'.dataoffset == m.dataoffset && m'.localOffs == m.localOffs
    ensures ChildNext(cfg, i, mem, m).log
         == m.log + [if i == 0 then Answer(cfg, i, mem, m).content else Read(mem, m.slot.data)]
  {
    hide QuitIn, LastStatus, Read, Passes;
  }

  lemma ActKeepsLinks(cfg: Config, i: int, mem: map<int, int>, a: Module, m: Module, b: Module)
    requires Local(cfg, i, m) && ActPc(m)
    ensures Link(a, m) ==> Link(a, ChildNext(cfg, i, mem, m))
    ensures Link(m, b) ==> Link(ChildNext(cfg, i, mem, m), b)
  {
    hide Local, QuitIn, LastStatus, Read;
  }

  lemma ActKeepsLeft(cfg: Config, i: int, mem: map<int, int>, a: Module, m: Module)
    requires 0 < i < cfg.n && Local(cfg, i, m) && ActPc(m)
    requires Link(a, m) && Stream(cfg, i - 1, a, m, mem)
    requires HasMail(m) ==> m.dataoffset != m.localOffs
    requires HasPost(cfg, i - 1, a) ==> a.localOffs != m.localOffs
    ensures var m' := ChildNext(cfg, i, mem, m);
            Link(a, m') && Stream(cfg, i - 1, a, m', ChildMem(cfg, i, mem, m))
  {
    hide Local, Link, ChildNext, HasPre, HasMail, HasPost, Out;
    ActHere(cfg, i, mem, m);
    ActMovesFrame(cfg, i, mem, m);
    ActKeepsLinks(cfg, i, mem, a, m, m);
    var m', mem' := ChildNext(cfg, i, mem, m), ChildMem(cfg, i, mem, m);
    var x := Read(mem, m.localOffs);
    var rest := InFlight(cfg, i - 1, a, m', mem');
    assert InFlight(cfg, i - 1, a, m, mem) == [x] + rest;
    assert m.log + ([x] + rest) == (m.log + [x]) + rest;
  }

  lemma ActKeepsRight(cfg: Config, i: int, mem: map<int, int>, m: Module, b: Module)
    requires 0 <= i < cfg.n - 1 && Local(cfg, i, m) && ActPc(m)
    requires Link(m, b) && Stream(cfg, i, m, b, mem)
    requires HasPre(b) ==> b.localOffs != m.localOffs
    requires HasMail(b) ==> b.dataoffset != m.localOffs
    ensures var m' := ChildNext(cfg, i, mem, m);
            Link(m', b) && Stream(cfg, i, m', b, ChildMem(cfg, i, mem, m))
  {
    ActHere(cfg, i, mem, m);
    ActMovesFrame(cfg, i, mem, m);
    ActKeepsLinks(cfg, i, mem, m, m, b);
    ActForwards(cfg, i, mem, m);
    var m', mem' := ChildNext(cfg, i, mem, m), ChildMem(cfg, i, mem, m);
    var outcome := Answer(cfg, i, mem, m);
    var more := if HasPost(cfg, i, m') then [outcome.content] else [];
    hide Local, Link, ChildNext, HasPre, HasMail, HasPost, Out, Answer;
    assert InFlight(cfg, i, m', b, mem') == InFlight(cfg, i, m, b, mem) + more;
    assert b.log + (InFlight(cfg, i, m, b, mem) + more) == (b.log + InFlight(cfg, i, m, b, mem)) + more;
  }

  /** The action extends the stage's output exactly by what it leaves to be forwarded. */
  lemma ActForwards(cfg: Config, i: int, mem: map<int, int>, m: Module)
    requires 0 <= i < cfg.n - 1 && Local(cfg, i, m) && ActPc(m)
    ensures var m' := ChildNext(cfg, i, mem, m);
            Out(cfg.act, i, m'.log) == Out(cfg.act, i, m.log)
              + if HasPost(cfg, i, m') then [Answer(cfg, i, mem, m).content] else []
  {
    hide Local, ChildNext, HasPost, StageOut, Read;
    ActHere(cfg, i, mem, m);
    ActMovesFrame(cfg, i, mem, m);
    if i > 0 {
      StageOutSnoc(cfg.act, i, m.log, Read(mem, m.localOffs));
    }
  }
}
