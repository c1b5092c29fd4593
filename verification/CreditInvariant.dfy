/** The inductive invariant of the credit-based pipeline, one stage or one pair of stages at a time. */
module CreditInvariant {
  import opened FilterSpec
  import opened RingBuffers
  import opened Children
  import opened Sums
  import opened CreditPipeline

  // ----- locations -----

  /** The next thread is looking at the previous child's slot. */
  predicate Reading(pc: Pc) { pc.ReadCmd? || pc.ReadOffs? || pc.ReadResult? || pc.CreditDrop? || pc.CreditPass? }
  predicate Stopping(pc: Pc) { pc.StopCmd? || pc.StopPost? || pc.Done? }
  predicate Critical(pc: Pc) { pc.PopTake? || pc.PopUnlock? || pc.PushPut? || pc.PushUnlock? }
  predicate Active(child: ChildPc) { !(child.CWait? || child.CExited?) }

  /** The thread of the stage itself may use the slot. */
  predicate OwnsSlot(pc: Pc) { !(pc.AwaitCredit? || pc.Done?) }

  predicate RoleOk(n: int, i: int, pc: Pc) {
    && (i == 0 ==> !PrevPc(pc) && !(pc.Deliver? || pc.PushLock? || pc.PushPut? || pc.PushUnlock? || pc.PushPost?))
    && (i > 0 ==> !(pc.Test? || pc.PopWait? || pc.PopLock? || pc.PopTake? || pc.PopUnlock?))
    && (0 < i < n - 1 ==> pc != Deliver)
    && (i == n - 1 ==>
          PrevPc(pc) || pc.Deliver? || pc.PushLock? || pc.PushPut? || pc.PushUnlock? || pc.PushPost? || pc.Done?)
  }

  // ----- where an offset is -----

  /** The packet was submitted and not given back by a credit. */
  predicate InChild(m: Stage) { m.pc == AwaitCredit && m.sem == 0 }

  /** The child has not run its action on the submitted packet yet. */
  predicate Waiting(m: Stage) {
    InChild(m) && (m.slot.semJob > 0 || m.slot.child.CSwitch? || m.slot.child.CFetch? || m.slot.child.CAct?)
  }

  predicate Ran(m: Stage) { InChild(m) && !Waiting(m) }

  predicate Holds(m: Stage) {
    || m.pc.PopUnlock? || m.pc.SetCmd? || m.pc.SetOffs? || m.pc.PostJob? || m.pc.Deliver? || m.pc.PushLock?
        || m.pc.PushPut?
    || InChild(m)
  }

  predicate HasPre(m: Stage) {
    m.pc.SetCmd? || m.pc.SetOffs? || m.pc.PostJob? || m.pc.Deliver? || Waiting(m)
  }

  predicate HasPost(cfg: Config, i: int, m: Stage) {
    Ran(m) && Passes(cfg.act, i, m.log)
  }

  ghost function Owned(m: Stage): multiset<int> {
    if Holds(m) then multiset{m.localOffs} else multiset{}
  }

  function Debt(k: int, m: Stage): nat {
    if m.pc.PopLock? || m.pc.PopTake? || m.pc.PushUnlock? || m.pc.PushPost? then 1 else 0
  }

  // ----- one stage -----

  predicate SlotInv(m: Stage) {
    var s := m.slot;
    match m.pc
    case AwaitCredit =>
      || (s.semJob == 1 && s.semResult == 0 && s.child == CWait && m.sem == 0)
      || (s.semJob == 0 && s.semResult == 0 && m.sem == 0
          && (s.child.CSwitch? || s.child.CFetch? || s.child.CAct? || s.child.CSet? || s.child.CPost?))
      || (s.semJob == 0 && s.semResult == 1 && s.child == CWait && m.sem == 0)
      || (s.semJob == 0 && s.semResult == 0 && s.child == CWait && m.sem <= 1)
    case Done =>
      && m.sem == 0
      && (|| (s.semJob == 1 && s.semResult == 0 && s.child == CWait)
          || (s.semJob == 0 && s.semResult == 0 && (s.child.CSwitch? || s.child.CStopSet? || s.child.CStopPost?))
          || (s.semJob == 0 && s.semResult <= 1 && s.child == CExited))
    case _ =>
      s.semJob == 0 && s.semResult == 0 && s.child == CWait && m.sem == 0
  }

  predicate SlotFields(m: Stage) {
    var s := m.slot;
    && (m.pc.SetOffs? || m.pc.PostJob? || m.pc.AwaitCredit? ==> s.cmd == JOB)
    && (m.pc.PostJob? || m.pc.AwaitCredit? ==> s.offs == m.localOffs)
    && (s.child == CAct ==> s.data == m.localOffs)
    && (m.pc.StopPost? || m.pc.Done? ==> s.cmd == STOP)
  }

  predicate ResultInv(cfg: Config, i: int, m: Stage) {
    && (m.slot.child == CSet ==> m.slot.status == cfg.act(i, m.log).status)
    && (Ran(m) && m.slot.child != CSet ==> m.slot.cmdResult == cfg.act(i, m.log).status)
  }

  ghost predicate Local(cfg: Config, i: int, m: Stage) {
    && RoleOk(cfg.n, i, m.pc)
    && (i == cfg.n - 1 ==> m.slot == FRESH_SLOT && m.sem == 0)
    && (i < cfg.n - 1 ==> SlotInv(m) && SlotFields(m) && ResultInv(cfg, i, m))
  }

  /** JOBs, then one STOP exactly if the thread has finished. */
  ghost predicate Commands(cfg: Config, i: int, m: Stage) {
    i < cfg.n - 1 ==>
      && (m.pc == Done ==> m.orders != [] && m.orders[|m.orders| - 1] == STOP)
      && forall k :: 0 <= k < |m.orders| - (if m.pc == Done then 1 else 0) ==> m.orders[k] == JOB
  }

  // ----- neighbours -----

  function Count(x: bool): nat { if x then 1 else 0 }

  /** One token per slot: the owning thread, sem_job, the child, sem_result, the next thread reading, the credit
      semaphore; after STOP it ends with the next thread. */
  predicate Link(cfg: Config, i: int, a: Stage, b: Stage) {
    && Count(OwnsSlot(a.pc)) + a.slot.semJob + Count(Active(a.slot.child)) + a.slot.semResult
       + Count(Reading(b.pc)) + a.sem + Count(Stopping(b.pc)) == 1
    && (Stopping(b.pc) ==> a.pc == Done)
    && (b.pc.ReadOffs? || b.pc.ReadResult? || b.pc.CreditDrop? || b.pc.CreditPass? ==> a.pc == AwaitCredit)
    && (b.pc.ReadResult? || b.pc.CreditDrop? || b.pc.CreditPass? ==> b.localOffs == a.localOffs)
    && (b.pc == CreditPass ==> Passes(cfg.act, i, a.log))
    && (b.pc == CreditDrop ==> !Passes(cfg.act, i, a.log))
  }

  function At(x: bool, mem: map<int, int>, offs: int, rest: seq<int>): seq<int> {
    if x then [Read(mem, offs)] + rest else rest
  }

  function InFlight(cfg: Config, i: int, a: Stage, b: Stage, mem: map<int, int>): seq<int> {
    At(HasPre(b), mem, b.localOffs, At(HasPost(cfg, i, a), mem, a.localOffs, []))
  }

  ghost predicate Stream(cfg: Config, i: int, a: Stage, b: Stage, mem: map<int, int>) {
    StageOut(cfg.act, i, a.log) == b.log + InFlight(cfg, i, a, b, mem)
  }

  // ----- the whole system -----

  ghost predicate RingInv(cfg: Config, s: State) {
    && |s.ring.buffer| == |cfg.offsets|
    && Fifo(s.ring)
    && s.ring.sem + Sum(Debt, s.stages) == s.ring.used
  }

  ghost predicate Conserved(cfg: Config, s: State) {
    && Shape(s.ring.buffer, s.ring.start, s.ring.used)
    && multiset(Queued(s.ring)) + Union(Owned, s.stages) == multiset(cfg.offsets)
  }

  ghost predicate MutexInv(s: State) {
    && -1 <= s.ring.mutex < |s.stages|
    && forall i :: 0 <= i < |s.stages| ==> (Critical(s.stages[i].pc) <==> s.ring.mutex == i)
  }

  ghost predicate Stages(cfg: Config, s: State) {
    forall i :: 0 <= i < |s.stages| ==> Local(cfg, i, s.stages[i]) && Commands(cfg, i, s.stages[i])
  }

  ghost predicate Links(cfg: Config, s: State) {
    forall i :: 0 <= i < |s.stages| - 1 ==> Link(cfg, i, s.stages[i], s.stages[i + 1])
  }

  ghost predicate Streams(cfg: Config, s: State) {
    forall i :: 0 <= i < |s.stages| - 1 ==> Stream(cfg, i, s.stages[i], s.stages[i + 1], s.mem)
  }

  ghost predicate Inv(cfg: Config, s: State) {
    && |s.stages| == cfg.n >= 2
    && Stages(cfg, s) && Links(cfg, s) && Streams(cfg, s)
    && RingInv(cfg, s) && Conserved(cfg, s) && MutexInv(s)
  }

  lemma OwnsWhatItHolds(m: Stage)
    ensures Holds(m) ==> Owned(m)[m.localOffs] == 1
  {
    hide Holds;
  }

  // ----- views -----

  /** What the previous stage sees of `m` is unchanged. */
  predicate SameReader(m: Stage, m': Stage) {
    && m'.log == m.log && !Reading(m.pc) && !Reading(m'.pc) && Stopping(m'.pc) == Stopping(m.pc)
    && HasPre(m') == HasPre(m) && (HasPre(m) ==> m'.localOffs == m.localOffs)
  }

  lemma SameReaderKeeps(cfg: Config, i: int, a: Stage, m: Stage, m': Stage, mem: map<int, int>)
    requires SameReader(m, m') && Link(cfg, i, a, m) && Stream(cfg, i, a, m, mem)
    ensures Link(cfg, i, a, m') && Stream(cfg, i, a, m', mem)
  {
    hide HasPre, HasPost, Passes, StageOut;
  }

  function SlotTokens(m: Stage): int {
    Count(OwnsSlot(m.pc)) + m.slot.semJob + Count(Active(m.slot.child)) + m.slot.semResult + m.sem
  }

  /** What the next stage sees of `m` is unchanged. */
  predicate SameOwner(cfg: Config, i: int, m: Stage, m': Stage) {
    && m'.log == m.log && SlotTokens(m') == SlotTokens(m)
    && (m'.pc == Done <==> m.pc == Done || m.pc == StopPost)
    && (m'.pc == AwaitCredit <== m.pc == AwaitCredit && m.sem == 0)
    && (m.pc == AwaitCredit && m.sem == 0 ==> m'.localOffs == m.localOffs)
    && HasPost(cfg, i, m') == HasPost(cfg, i, m) && (HasPost(cfg, i, m) ==> m'.localOffs == m.localOffs)
  }

  lemma SameOwnerKeeps(cfg: Config, i: int, m: Stage, m': Stage, b: Stage, mem: map<int, int>)
    requires SameOwner(cfg, i, m, m') && Link(cfg, i, m, b) && Stream(cfg, i, m, b, mem)
    ensures Link(cfg, i, m', b) && Stream(cfg, i, m', b, mem)
  {
    hide HasPre, HasPost, Passes, StageOut;
  }

  // ----- actions on the own stage -----

  lemma OwnKeepsLocal(cfg: Config, i: int, exit: bool, mem: map<int, int>, m: Stage)
    requires 0 <= i < cfg.n && Local(cfg, i, m) && OwnReady(m)
    ensures Local(cfg, i, OwnNext(i, exit, mem, m))
  {
  }

  lemma OwnKeepsCommands(cfg: Config, i: int, exit: bool, mem: map<int, int>, m: Stage)
    requires 0 <= i < cfg.n && Local(cfg, i, m) && OwnReady(m) && Commands(cfg, i, m)
    ensures Commands(cfg, i, OwnNext(i, exit, mem, m))
  {
  }

  lemma OwnKeepsCounts(cfg: Config, i: int, exit: bool, mem: map<int, int>, m: Stage)
    requires 0 <= i < cfg.n && Local(cfg, i, m) && OwnReady(m)
    ensures var m' := OwnNext(i, exit, mem, m);
            && Holds(m') == Holds(m) && m'.localOffs == m.localOffs
            && (forall k :: Debt(k, m') == Debt(k, m)) && Critical(m'.pc) == Critical(m.pc)
  {
  }

  lemma OwnKeepsReader(cfg: Config, i: int, exit: bool, mem: map<int, int>, m: Stage)
    requires 0 < i < cfg.n && Local(cfg, i, m) && OwnReady(m) && m.pc != Deliver
    ensures SameReader(m, OwnNext(i, exit, mem, m))
  {
  }

  lemma OwnKeepsOwner(cfg: Config, i: int, exit: bool, mem: map<int, int>, m: Stage)
    requires 0 <= i < cfg.n - 1 && Local(cfg, i, m) && OwnReady(m)
    ensures SameOwner(cfg, i, m, OwnNext(i, exit, mem, m))
  {
  }

  lemma DeliverKeepsLeft(cfg: Config, i: int, exit: bool, mem: map<int, int>, a: Stage, m: Stage)
    requires 0 < i < cfg.n && Local(cfg, i, m) && m.pc == Deliver
    requires Link(cfg, i - 1, a, m) && Stream(cfg, i - 1, a, m, mem)
    ensures var m' := OwnNext(i, exit, mem, m);
            Link(cfg, i - 1, a, m') && Stream(cfg, i - 1, a, m', mem)
  {
    hide HasPost, Passes, StageOut, Local;
    var m' := OwnNext(i, exit, mem, m);
    var x, rest := Read(mem, m.localOffs), InFlight(cfg, i - 1, a, m', mem);
    assert InFlight(cfg, i - 1, a, m, mem) == [x] + rest;
    assert m.log + ([x] + rest) == (m.log + [x]) + rest;
  }

  lemma OwnKeepsLeft(cfg: Config, i: int, exit: bool, mem: map<int, int>, a: Stage, m: Stage)
    requires 0 < i < cfg.n && Local(cfg, i, m) && OwnReady(m)
    requires Link(cfg, i - 1, a, m) && Stream(cfg, i - 1, a, m, mem)
    ensures var m' := OwnNext(i, exit, mem, m);
            Link(cfg, i - 1, a, m') && Stream(cfg, i - 1, a, m', mem)
  {
    hide Local, Link, Stream, OwnNext, OwnReady, SameReader;
    if m.pc == Deliver {
      DeliverKeepsLeft(cfg, i, exit, mem, a, m);
    } else {
      OwnKeepsReader(cfg, i, exit, mem, m);
      SameReaderKeeps(cfg, i - 1, a, m, OwnNext(i, exit, mem, m), mem);
    }
  }

  // ----- actions on the ring -----

  lemma RingKeepsLocal(cfg: Config, i: int, m: Stage, r: Ring)
    requires 0 <= i < cfg.n && Local(cfg, i, m) && Commands(cfg, i, m) && RingReady(m, r)
    ensures Local(cfg, i, RingNext(i, m, r).0) && Commands(cfg, i, RingNext(i, m, r).0)
  {
    hide Put, Take, WrapIndex;
  }

  lemma RingKeepsViews(cfg: Config, i: int, m: Stage, r: Ring)
    requires 0 <= i < cfg.n && Local(cfg, i, m) && RingReady(m, r)
    ensures var m' := RingNext(i, m, r).0;
            && (i > 0 ==> SameReader(m, m')) && (i < cfg.n - 1 ==> SameOwner(cfg, i, m, m'))
  {
    hide Put, Take, WrapIndex;
  }

  lemma PopEffect(i: int, m: Stage, r: Ring)
    requires RingReady(m, r) && m.pc == PopTake
    ensures var m' := RingNext(i, m, r).0;
            Owned(m') == Owned(m) + multiset{r.buffer[r.start]} && forall k :: Debt(k, m') == Debt(k, m) - 1
  {
    hide Put, Take, WrapIndex;
  }

  lemma PushEffect(i: int, m: Stage, r: Ring)
    requires RingReady(m, r) && m.pc == PushPut
    ensures var m' := RingNext(i, m, r).0;
            Owned(m) == Owned(m') + multiset{m.localOffs} && forall k :: Debt(k, m') == Debt(k, m) + 1
  {
    hide Put, Take, WrapIndex;
  }

  lemma RingKeepsOwned(i: int, m: Stage, r: Ring)
    requires RingReady(m, r) && m.pc != PopTake && m.pc != PushPut
    ensures var (m', r') := RingNext(i, m, r);
            && Owned(m') == Owned(m) && r' == r.(sem := r'.sem, mutex := r'.mutex)
            && forall k :: r'.sem + Debt(k, m') == r.sem + Debt(k, m)
  {
  }

  /** What a ring action does to the offsets and to the semaphore's account. */
  lemma RingEffect(i: int, m: Stage, r: Ring)
    requires RingReady(m, r)
    requires Fifo(r) && (m.pc == PopTake ==> r.used > 0) && (m.pc == PushPut ==> r.used < |r.buffer|)
    ensures var (m', r') := RingNext(i, m, r);
            && Fifo(r') && |r'.buffer| == |r.buffer|
            && Owned(m') + multiset(Queued(r')) == Owned(m) + multiset(Queued(r))
            && forall k :: r'.sem + Debt(k, m') - r'.used == r.sem + Debt(k, m) - r.used
  {
    hide Owned, Debt, WrapIndex, Queue;
    var (m', r') := RingNext(i, m, r);
    if m.pc == PopTake {
      PopEffect(i, m, r);
      TakeKeepsFifo(r);
      assert multiset(Queued(r)) == multiset{r.buffer[r.start]} + multiset(Queued(r'));
    } else if m.pc == PushPut {
      PushEffect(i, m, r);
      PutKeepsFifo(r, m.localOffs);
      assert multiset(Queued(r')) == multiset(Queued(r)) + multiset{m.localOffs};
    } else {
      RingKeepsOwned(i, m, r);
    }
  }

  lemma RingMovesMutex(i: int, m: Stage, r: Ring)
    requires RingReady(m, r) && i >= 0 && (Critical(m.pc) <==> r.mutex == i)
    ensures var (m', r') := RingNext(i, m, r);
            && (Critical(m'.pc) <==> r'.mutex == i)
            && (r'.mutex == r.mutex || (r.mutex == -1 && r'.mutex == i) || (r.mutex == i && r'.mutex == -1))
  {
    hide WrapIndex;
  }

  // ----- actions on the previous stage -----

  lemma PrevKeepsReader(cfg: Config, i: int, a: Stage, m: Stage)
    requires 0 < i < cfg.n && Local(cfg, i, m) && PrevReady(a, m)
    ensures var m' := PrevNext(cfg.n, i, a, m).1;
            Local(cfg, i, m') && (i < cfg.n - 1 ==> SameOwner(cfg, i, m, m'))
  {
    hide Passes;
  }

  lemma PrevKeepsOwner(cfg: Config, i: int, a: Stage, m: Stage)
    requires 0 < i < cfg.n && Local(cfg, i - 1, a) && PrevReady(a, m) && Link(cfg, i - 1, a, m)
    ensures var a' := PrevNext(cfg.n, i, a, m).0;
            Local(cfg, i - 1, a') && SameReader(a, a')
  {
    hide Passes;
  }

  lemma PrevKeepsLink(cfg: Config, i: int, a: Stage, m: Stage)
    requires ValidConfig(cfg)
    requires 0 < i < cfg.n && Local(cfg, i - 1, a) && PrevReady(a, m) && Link(cfg, i - 1, a, m)
    ensures var (a', m') := PrevNext(cfg.n, i, a, m);
            Link(cfg, i - 1, a', m')
  {
  }

  /** The packet changes hands when the credit is given back. */
  lemma PrevMoves(cfg: Config, i: int, a: Stage, m: Stage)
    requires 0 < i < cfg.n && Local(cfg, i - 1, a) && Local(cfg, i, m) && PrevReady(a, m) && Link(cfg, i - 1, a, m)
    ensures var (a', m') := PrevNext(cfg.n, i, a, m);
            if m.pc.CreditDrop? || m.pc.CreditPass? then
              && Holds(a) && !Holds(a') && !Holds(m) && Holds(m') && m'.localOffs == a.localOffs
              && (HasPost(cfg, i - 1, a) <==> m.pc.CreditPass?) && !HasPost(cfg, i - 1, a')
              && !HasPre(m) && (HasPre(m') <==> m.pc.CreditPass?)
            else
              && Holds(a') == Holds(a) && !Holds(m) && !Holds(m')
              && HasPost(cfg, i - 1, a') == HasPost(cfg, i - 1, a) && !HasPre(m) && !HasPre(m')
  {
    hide Passes;
  }

  lemma PrevKeepsCommands(cfg: Config, i: int, a: Stage, m: Stage)
    requires PrevReady(a, m) && Commands(cfg, i - 1, a) && Commands(cfg, i, m)
    ensures var (a', m') := PrevNext(cfg.n, i, a, m);
            Commands(cfg, i - 1, a') && Commands(cfg, i, m')
  {
  }

  lemma PrevKeepsRest(n: int, i: int, a: Stage, m: Stage)
    requires PrevReady(a, m)
    ensures var (a', m') := PrevNext(n, i, a, m);
            && a'.localOffs == a.localOffs && a'.pc == a.pc && a'.log == a.log && m'.log == m.log
            && (forall k :: Debt(k, a') == Debt(k, a) && Debt(k, m') == Debt(k, m))
            && !Critical(m.pc) && !Critical(m'.pc)
  {
  }

  lemma PrevKeepsStream(cfg: Config, i: int, a: Stage, m: Stage, mem: map<int, int>)
    requires 0 < i < cfg.n && Local(cfg, i - 1, a) && Local(cfg, i, m) && PrevReady(a, m) && Link(cfg, i - 1, a, m)
    requires Stream(cfg, i - 1, a, m, mem)
    ensures var (a', m') := PrevNext(cfg.n, i, a, m);
            Stream(cfg, i - 1, a', m', mem)
  {
    hide PrevNext, PrevReady, Local, Link, HasPre, HasPost, Holds, StageOut, Critical, Debt;
    PrevMoves(cfg, i, a, m);
    PrevKeepsRest(cfg.n, i, a, m);
  }

  lemma PrevKeepsOwned(cfg: Config, i: int, a: Stage, m: Stage)
    requires 0 < i < cfg.n && Local(cfg, i - 1, a) && Local(cfg, i, m) && PrevReady(a, m) && Link(cfg, i - 1, a, m)
    ensures var (a', m') := PrevNext(cfg.n, i, a, m);
            Owned(a') + Owned(m') == Owned(a) + Owned(m)
  {
    hide PrevNext, PrevReady, Local, Link, HasPre, HasPost, Holds, Critical, Debt;
    PrevMoves(cfg, i, a, m);
    PrevKeepsRest(cfg.n, i, a, m);
  }

  // ----- actions of a child -----

  lemma ChildKeepsLocal(cfg: Config, i: int, mem: map<int, int>, m: Stage)
    requires 0 <= i < cfg.n && Local(cfg, i, m) && ChildReady(m)
    ensures i < cfg.n - 1 && Local(cfg, i, ChildNext(cfg, i, mem, m))
  {
    hide Read;
  }

  lemma ChildKeepsRest(cfg: Config, i: int, mem: map<int, int>, m: Stage)
    requires ChildReady(m)
    ensures var m' := ChildNext(cfg, i, mem, m);
            && m'.pc == m.pc && m'.orders == m.orders && m'.localOffs == m.localOffs && m'.sem == m.sem
            && Holds(m') == Holds(m) && (forall k :: Debt(k, m') == Debt(k, m))
  {
    hide Read;
  }

  lemma ChildKeepsViews(cfg: Config, i: int, mem: map<int, int>, m: Stage)
    requires 0 <= i < cfg.n - 1 && Local(cfg, i, m) && ChildReady(m) && m.slot.child != CAct
    ensures var m' := ChildNext(cfg, i, mem, m);
            SameReader(m, m') && SameOwner(cfg, i, m, m')
  {
    hide Read, Passes;
  }

  /** The location of a stage whose child runs its action. */
  lemma ActHere(cfg: Config, i: int, mem: map<int, int>, m: Stage)
    requires 0 <= i < cfg.n && Local(cfg, i, m) && m.slot.child == CAct
    ensures i < cfg.n - 1 && Holds(m) && HasPre(m) && !HasPost(cfg, i, m) && m.slot.data == m.localOffs
    ensures ChildReady(m)
    ensures var m' := ChildNext(cfg, i, mem, m);
            && !HasPre(m') && (HasPost(cfg, i, m') <==> Passes(cfg.act, i, m'.log))
            && m'.localOffs == m.localOffs && m'.log == m.log + [Read(mem, m.localOffs)]
  {
    hide Read, Passes;
  }

  lemma ActKeepsLinks(cfg: Config, i: int, mem: map<int, int>, a: Stage, m: Stage, b: Stage)
    requires Local(cfg, i, m) && m.slot.child == CAct && i < cfg.n - 1
    ensures Link(cfg, i - 1, a, m) ==> Link(cfg, i - 1, a, ChildNext(cfg, i, mem, m))
    ensures Link(cfg, i, m, b) ==> Link(cfg, i, ChildNext(cfg, i, mem, m), b)
  {
    hide Read, Passes;
  }

  lemma ActKeepsLeft(cfg: Config, i: int, mem: map<int, int>, a: Stage, m: Stage)
    requires 0 < i < cfg.n && Local(cfg, i, m) && m.slot.child == CAct && Stream(cfg, i - 1, a, m, mem)
    requires HasPost(cfg, i - 1, a) ==> a.localOffs != m.localOffs
    ensures ChildReady(m) && Stream(cfg, i - 1, a, ChildNext(cfg, i, mem, m), ChildMem(cfg, i, mem, m))
  {
    ActHere(cfg, i, mem, m);
    var m', mem' := ChildNext(cfg, i, mem, m), ChildMem(cfg, i, mem, m);
    var x := Read(mem, m.localOffs);
    hide Local, ChildNext, HasPre, HasPost, StageOut;
    var rest := InFlight(cfg, i - 1, a, m', mem');
    assert InFlight(cfg, i - 1, a, m, mem) == [x] + rest;
    assert m.log + ([x] + rest) == (m.log + [x]) + rest;
  }

  lemma ActKeepsRight(cfg: Config, i: int, mem: map<int, int>, m: Stage, b: Stage)
    requires 0 <= i < cfg.n - 1 && Local(cfg, i, m) && m.slot.child == CAct && Stream(cfg, i, m, b, mem)
    requires HasPre(b) ==> b.localOffs != m.localOffs
    ensures ChildReady(m) && Stream(cfg, i, ChildNext(cfg, i, mem, m), b, ChildMem(cfg, i, mem, m))
  {
    ActHere(cfg, i, mem, m);
    StageOutSnoc(cfg.act, i, m.log, Read(mem, m.localOffs));
    var m', mem' := ChildNext(cfg, i, mem, m), ChildMem(cfg, i, mem, m);
    var more := if HasPost(cfg, i, m') then [Answer(cfg, i, mem, m).content] else [];
    assert StageOut(cfg.act, i, m'.log) == StageOut(cfg.act, i, m.log) + more;
    hide Local, ChildNext, HasPre, HasPost, StageOut, Answer;
    assert InFlight(cfg, i, m', b, mem') == InFlight(cfg, i, m, b, mem) + more;
    assert b.log + (InFlight(cfg, i, m, b, mem) + more) == (b.log + InFlight(cfg, i, m, b, mem)) + more;
  }

  /** Packets in flight elsewhere are not touched by an action on the buffer at `offs`. */
  lemma InFlightFrame(cfg: Config, i: int, a: Stage, b: Stage, mem: map<int, int>, offs: int, x: int)
    requires (HasPre(b) ==> b.localOffs != offs) && (HasPost(cfg, i, a) ==> a.localOffs != offs)
    ensures InFlight(cfg, i, a, b, mem[offs := x]) == InFlight(cfg, i, a, b, mem)
  {
    hide HasPre, HasPost;
  }
}
