/** Every step of every run keeps the invariant; what follows about safety. */
module PipelineSafety {
  import opened FilterSpec
  import opened RingBuffers
  import opened Children
  import opened Sums
  import opened Pipeline
  import opened PipelineInvariant

  // ----- from modules to the system -----

  /** Replacing module `i` by one that fits its neighbours. */
  lemma LiftOne(cfg: Config, s: State, t: State, i: int)
    requires |s.mods| == cfg.n && Modules(cfg, s) && Links(cfg, s) && Streams(cfg, s)
    requires 0 <= i < cfg.n && |t.mods| == cfg.n && t.mods == s.mods[i := t.mods[i]] && t.mem == s.mem
    requires Local(cfg, i, t.mods[i]) && Commands(cfg, i, t.mods[i])
    requires i > 0 ==> Link(s.mods[i - 1], t.mods[i]) && Stream(cfg, i - 1, s.mods[i - 1], t.mods[i], s.mem)
    requires i < cfg.n - 1 ==> Link(t.mods[i], s.mods[i + 1]) && Stream(cfg, i, t.mods[i], s.mods[i + 1], s.mem)
    ensures Modules(cfg, t) && Links(cfg, t) && Streams(cfg, t)
  {
    hide Local, Commands, Link, Stream;
  }

  lemma LiftIds(s: State, t: State, i: int, cfg: Config)
    requires Ids(cfg, s) && 0 <= i < |s.mods| == |t.mods| && t.mods == s.mods[i := t.mods[i]]
    requires t.processCnt == s.processCnt && s.mods[i].pc != Start && t.mods[i].pc != Start
    requires t.mods[i].id == s.mods[i].id && forall k :: Started(k, t.mods[i]) == Started(k, s.mods[i])
    ensures Ids(cfg, t)
  {
    hide Started;
    SumUpdate(Started, s.mods, i, t.mods[i]);
  }

  lemma LiftMutex(s: State, t: State, i: int)
    requires MutexInv(s) && 0 <= i < |s.mods| == |t.mods| && t.mods == s.mods[i := t.mods[i]]
    requires t.ring == s.ring && Critical(t.mods[i].pc) == Critical(s.mods[i].pc)
    ensures MutexInv(t)
  {
    hide Critical;
  }

  lemma LiftConserved(cfg: Config, s: State, t: State, i: int)
    requires RingInv(cfg, s) && Conserved(cfg, s) && 0 <= i < |s.mods| == |t.mods| && t.mods == s.mods[i := t.mods[i]]
    requires t.ring == s.ring && Owned(t.mods[i]) == Owned(s.mods[i])
    requires forall k :: Debt(k, t.mods[i]) == Debt(k, s.mods[i])
    ensures RingInv(cfg, t) && Conserved(cfg, t)
  {
    hide Owned, Debt, Fifo;
    SumUpdate(Debt, s.mods, i, t.mods[i]);
    UnionUpdate(Owned, s.mods, i, t.mods[i]);
    var q := multiset(Queued(s.ring));
    Transfer(Union(Owned, s.mods), Union(Owned, t.mods), Owned(s.mods[i]), Owned(t.mods[i]), q, q);
  }

  /** Bookkeeping that does not move an offset, a ring token or a thread in or out of a critical section. */
  lemma LiftCounts(cfg: Config, s: State, t: State, i: int)
    requires RingInv(cfg, s) && Conserved(cfg, s) && MutexInv(s) && Ids(cfg, s)
    requires 0 <= i < |s.mods| == |t.mods| && t.mods == s.mods[i := t.mods[i]]
    requires t.ring == s.ring && t.processCnt == s.processCnt
    requires Owned(t.mods[i]) == Owned(s.mods[i])
    requires forall k :: Debt(k, t.mods[i]) == Debt(k, s.mods[i])
    requires forall k :: Started(k, t.mods[i]) == Started(k, s.mods[i])
    requires Critical(t.mods[i].pc) == Critical(s.mods[i].pc)
    requires s.mods[i].pc != Start && t.mods[i].pc != Start && t.mods[i].id == s.mods[i].id
    ensures RingInv(cfg, t) && Conserved(cfg, t) && MutexInv(t) && Ids(cfg, t)
  {
    hide RingInv, Conserved, MutexInv, Ids, Owned, Debt, Started, Critical;
    LiftIds(s, t, i, cfg);
    LiftMutex(s, t, i);
    LiftConserved(cfg, s, t, i);
  }

  // ----- the kinds of thread steps -----

  lemma NextOwn(cfg: Config, s: State, i: int)
    requires 0 <= i < |s.mods| && OwnReady(s.mods[i])
    ensures Enabled(cfg, s, Thread(i)) && s.mods[i].pc != Start
    ensures Next(cfg, s, Thread(i)) == s.(mods := s.mods[i := OwnNext(cfg, i, s.exit, s.mem, s.mods[i])])
  {
  }

  lemma NextRing(cfg: Config, s: State, i: int)
    requires 0 <= i < |s.mods| && RingReady(s.mods[i], s.ring)
    ensures Enabled(cfg, s, Thread(i))
    ensures var (m', ring') := RingNext(i, s.mods[i], s.ring);
            Next(cfg, s, Thread(i)) == s.(mods := s.mods[i := m'], ring := ring')
  {
  }

  lemma NextSend(cfg: Config, s: State, i: int)
    requires 0 <= i < |s.mods| - 1 && SendReady(s.mods[i], s.mods[i + 1])
    ensures Enabled(cfg, s, Thread(i))
    ensures var (m', next') := SendNext(i, s.mods[i], s.mods[i + 1]);
            Next(cfg, s, Thread(i)) == s.(mods := s.mods[i := m'][i + 1 := next'])
  {
  }

  /** At most one message is waiting, and none while one is being read. */
  lemma MailboxToken(cfg: Config, s: State, i: int)
    requires |s.mods| == cfg.n && Modules(cfg, s) && Links(cfg, s) && 0 <= i < cfg.n
    ensures s.mods[i].newCmd <= 1
    ensures Receiving(s.mods[i].pc) ==> s.mods[i].newCmd == 0
  {
    assert Local(cfg, i, s.mods[i]);
    if i > 0 {
      assert Link(s.mods[i - 1], s.mods[i - 1 + 1]);
    }
  }

  lemma OwnStep(cfg: Config, s: State, i: int)
    requires Inv(cfg, s) && 0 <= i < cfg.n && OwnReady(s.mods[i])
    ensures Inv(cfg, Next(cfg, s, Thread(i)))
  {
    hide Local, Commands, Link, Stream, RingInv, Conserved, MutexInv, Ids, Owned, Debt, Started, Critical, SameOffsets,
         OwnNext, OwnReady, Receiving, MailFull, ExitInv, Next, Enabled;
    NextOwn(cfg, s, i);
    var m := s.mods[i];
    var t := Next(cfg, s, Thread(i));
    if i > 0 {
      assert Link(s.mods[i - 1], s.mods[i - 1 + 1]) && Stream(cfg, i - 1, s.mods[i - 1], s.mods[i - 1 + 1], s.mem);
      OwnKeepsLeft(cfg, i, s.exit, s.mem, s.mods[i - 1], m);
    }
    if i < cfg.n - 1 {
      OwnKeepsRight(cfg, i, s.exit, s.mem, m, s.mods[i + 1]);
    }
    OwnKeepsLocal(cfg, i, s.exit, s.mem, m);
    OwnKeepsCommands(cfg, i, s.exit, s.mem, m);
    LiftOne(cfg, s, t, i);
    MailboxToken(cfg, s, i);
    OwnKeepsOffsets(cfg, i, s.exit, s.mem, m);
    SameOwned(m, t.mods[i]);
    OwnKeepsCounts(cfg, i, s.exit, s.mem, m);
    LiftCounts(cfg, s, t, i);
    OwnStepExit(cfg, s, i);
  }

  lemma OwnStepExit(cfg: Config, s: State, i: int)
    requires 0 <= i < cfg.n && |s.mods| == cfg.n && Modules(cfg, s) && ExitInv(s) && OwnReady(s.mods[i])
    ensures ExitInv(Next(cfg, s, Thread(i)))
  {
    assert Local(cfg, i, s.mods[i]);
    OwnKeepsCounts(cfg, i, s.exit, s.mem, s.mods[i]);
  }

  lemma StartKeeps(cfg: Config, i: int, m: Module, m': Module)
    requires 0 <= i < cfg.n && Local(cfg, i, m) && Commands(cfg, i, m) && m.pc == Start
    requires m' == m.(id := m'.id, pc := if i == 0 then Test else TakeNew)
    ensures i < cfg.n - 1 && Local(cfg, i, m') && Commands(cfg, i, m')
    ensures SameReceiver(m, m') && SameSender(cfg, i, m, m') && SameOffsets(m, m')
    ensures forall k :: Debt(k, m') == Debt(k, m)
    ensures forall k :: Started(k, m') == 1 && Started(k, m) == 0
    ensures !Critical(m.pc) && !Critical(m'.pc) && !Stopping(m'.pc)
  {
  }

  lemma StartIds(cfg: Config, s: State, t: State, i: int)
    requires Ids(cfg, s) && 0 <= i < |s.mods| - 1 && |t.mods| == |s.mods| && t.mods == s.mods[i := t.mods[i]]
    requires s.mods[i].pc == Start && t.mods[i].pc != Start
    requires t.mods[i].id == s.processCnt && t.processCnt == s.processCnt + 1
    requires forall k :: Started(k, t.mods[i]) == 1 && Started(k, s.mods[i]) == 0
    ensures Ids(cfg, t)
  {
    hide Started;
    SumUpdate(Started, s.mods, i, t.mods[i]);
    assert forall j :: 0 <= j < |s.mods| - 1 ==> IdOk(s.mods[j], s.processCnt);
    assert forall j :: 0 <= j < |s.mods| - 1 ==> IdOk(t.mods[j], t.processCnt);
  }

  lemma StartStep(cfg: Config, s: State, i: int)
    requires Inv(cfg, s) && 0 <= i < cfg.n && s.mods[i].pc == Start && s.processCnt < cfg.processMax
    ensures Inv(cfg, Next(cfg, s, Thread(i)))
  {
    hide Local, Commands, Link, Stream, Owned, Debt, Started, Critical, SameOffsets, SameReceiver, SameSender,
         RingInv, Conserved, MutexInv, Ids, Stopping;
    var m := s.mods[i];
    var t := Next(cfg, s, Thread(i));
    StartKeeps(cfg, i, m, t.mods[i]);
    if i > 0 {
      assert Link(s.mods[i - 1], s.mods[i - 1 + 1]) && Stream(cfg, i - 1, s.mods[i - 1], s.mods[i - 1 + 1], s.mem);
      SameReceiverKeeps(cfg, i - 1, s.mods[i - 1], m, t.mods[i], s.mem);
    }
    SameSenderKeeps(cfg, i, m, t.mods[i], s.mods[i + 1], s.mem);
    LiftOne(cfg, s, t, i);
    SameOwned(m, t.mods[i]);
    LiftConserved(cfg, s, t, i);
    LiftMutex(s, t, i);
    StartIds(cfg, s, t, i);
  }

  // ----- the ring -----

  /** A popper in its critical section finds an offset, a pusher finds room: used < max_cnt. */
  lemma RingRoom(cfg: Config, s: State, i: int)
    requires |s.mods| == cfg.n && RingInv(cfg, s) && Conserved(cfg, s) && 0 <= i < cfg.n
    ensures s.mods[i].pc == PopTake ==> s.ring.used > 0
    ensures s.mods[i].pc == PushPut ==> s.ring.used < |s.ring.buffer|
  {
    if s.mods[i].pc == PopTake {
      SumAtLeast(Debt, s.mods, i);
    } else if s.mods[i].pc == PushPut {
      var x := s.mods[i].localOffs;
      UnionHas(Owned, s.mods, i);
      var held := Union(Owned, s.mods);
      assert held[x] > 0 by { assert x in Owned(s.mods[i]); }
      assert |multiset(Queued(s.ring)) + held| == |cfg.offsets|;
      assert |held| > 0;
    }
  }

  lemma RingStepModules(cfg: Config, s: State, i: int)
    requires Inv(cfg, s) && 0 <= i < cfg.n && RingReady(s.mods[i], s.ring)
    ensures var t := Next(cfg, s, Thread(i));
            Modules(cfg, t) && Links(cfg, t) && Streams(cfg, t) && Ids(cfg, t) && ExitInv(t)
  {
    hide Local, Commands, Link, Stream, RingInv, Conserved, MutexInv, Ids, Started, RingNext, RingReady,
         SameReceiver, SameSender, Stopping, Next, Enabled;
    NextRing(cfg, s, i);
    var m := s.mods[i];
    var t := Next(cfg, s, Thread(i));
    RingKeepsLocal(cfg, i, m, s.ring);
    RingKeepsRest(cfg, i, m, s.ring);
    RingKeepsViews(cfg, i, m, s.ring);
    if i > 0 {
      assert Link(s.mods[i - 1], s.mods[i - 1 + 1]) && Stream(cfg, i - 1, s.mods[i - 1], s.mods[i - 1 + 1], s.mem);
      SameReceiverKeeps(cfg, i - 1, s.mods[i - 1], m, t.mods[i], s.mem);
    }
    if i < cfg.n - 1 {
      SameSenderKeeps(cfg, i, m, t.mods[i], s.mods[i + 1], s.mem);
    }
    LiftOne(cfg, s, t, i);
    LiftIds(s, t, i, cfg);
  }

  lemma PopEffect(cfg: Config, i: int, m: Module, r: Ring)
    requires Local(cfg, i, m) && RingReady(m, r) && m.pc == PopTake && 0 <= i < cfg.n
    ensures var m' := RingNext(i, m, r).0;
            Owned(m') == Owned(m) + multiset{r.buffer[r.start]} && forall k :: Debt(k, m') == Debt(k, m) - 1
  {
    hide Put, Take, WrapIndex, Local, Owned;
    GivesUp(RingNext(i, m, r).0, m);
  }

  lemma PushEffect(cfg: Config, i: int, m: Module, r: Ring)
    requires Local(cfg, i, m) && RingReady(m, r) && m.pc == PushPut && 0 <= i < cfg.n
    ensures var m' := RingNext(i, m, r).0;
            Owned(m) == Owned(m') + multiset{m.localOffs} && forall k :: Debt(k, m') == Debt(k, m) + 1
  {
    hide Put, Take, WrapIndex, Local, Owned;
    GivesUp(m, RingNext(i, m, r).0);
  }

  lemma RingKeepsOffsets(cfg: Config, i: int, m: Module, r: Ring)
    requires 0 <= i < cfg.n && Local(cfg, i, m) && RingReady(m, r) && m.pc != PopTake && m.pc != PushPut
    ensures var (m', r') := RingNext(i, m, r);
            && SameOffsets(m, m') && r' == r.(sem := r'.sem, mutex := r'.mutex)
            && forall k :: r'.sem + Debt(k, m') == r.sem + Debt(k, m)
  {
  }

  /** What a ring action does to the offsets and to the semaphore's account. */
  lemma RingEffect(cfg: Config, i: int, m: Module, r: Ring)
    requires 0 <= i < cfg.n && Local(cfg, i, m) && RingReady(m, r)
    requires Fifo(r) && (m.pc == PopTake ==> r.used > 0) && (m.pc == PushPut ==> r.used < |r.buffer|)
    ensures var (m', r') := RingNext(i, m, r);
            && Fifo(r') && |r'.buffer| == |r.buffer|
            && Owned(m') + multiset(Queued(r')) == Owned(m) + multiset(Queued(r))
            && forall k :: r'.sem + Debt(k, m') - r'.used == r.sem + Debt(k, m) - r.used
  {
    hide Local, Owned, Debt, WrapIndex, Queue, SameOffsets;
    var (m', r') := RingNext(i, m, r);
    if m.pc == PopTake {
      PopEffect(cfg, i, m, r);
      TakeKeepsFifo(r);
      assert multiset(Queued(r)) == multiset{r.buffer[r.start]} + multiset(Queued(r'));
    } else if m.pc == PushPut {
      PushEffect(cfg, i, m, r);
      PutKeepsFifo(r, m.localOffs);
      assert multiset(Queued(r')) == multiset(Queued(r)) + multiset{m.localOffs};
    } else {
      RingKeepsOffsets(cfg, i, m, r);
      SameOwned(m, m');
    }
  }

  lemma RingMovesMutex(i: int, m: Module, r: Ring)
    requires RingReady(m, r) && i >= 0 && (Critical(m.pc) <==> r.mutex == i)
    ensures var (m', r') := RingNext(i, m, r);
            && (Critical(m'.pc) <==> r'.mutex == i)
            && (r'.mutex == r.mutex || (r.mutex == -1 && r'.mutex == i) || (r.mutex == i && r'.mutex == -1))
  {
  }

  lemma RingStepAccounts(cfg: Config, s: State, i: int)
    requires Inv(cfg, s) && 0 <= i < cfg.n && RingReady(s.mods[i], s.ring)
    ensures var t := Next(cfg, s, Thread(i)); RingInv(cfg, t) && Conserved(cfg, t)
  {
    hide Local, Commands, Link, Stream, MutexInv, Ids, Owned, Debt, RingNext, RingReady, Fifo, Links, Streams,
         Next, Enabled, Queue;
    NextRing(cfg, s, i);
    var m := s.mods[i];
    var t := Next(cfg, s, Thread(i));
    RingRoom(cfg, s, i);
    RingEffect(cfg, i, m, s.ring);
    SumUpdate(Debt, s.mods, i, t.mods[i]);
    UnionUpdate(Owned, s.mods, i, t.mods[i]);
    FifoShape(t.ring);
    Transfer(Union(Owned, s.mods), Union(Owned, t.mods), Owned(m), Owned(t.mods[i]),
             multiset(Queued(s.ring)), multiset(Queued(t.ring)));
  }

  lemma RingStepMutex(cfg: Config, s: State, i: int)
    requires MutexInv(s) && 0 <= i < |s.mods| && RingReady(s.mods[i], s.ring)
    ensures MutexInv(Next(cfg, s, Thread(i)))
  {
    hide RingNext, RingReady, Next, Enabled, Critical;
    NextRing(cfg, s, i);
    RingMovesMutex(i, s.mods[i], s.ring);
  }

  lemma RingStep(cfg: Config, s: State, i: int)
    requires Inv(cfg, s) && 0 <= i < cfg.n && RingReady(s.mods[i], s.ring)
    ensures Inv(cfg, Next(cfg, s, Thread(i)))
  {
    hide Modules, Links, Streams, RingInv, Conserved, MutexInv, Ids, ExitInv, RingNext, RingReady, Next, Enabled;
    NextRing(cfg, s, i);
    RingStepModules(cfg, s, i);
    RingStepAccounts(cfg, s, i);
    RingStepMutex(cfg, s, i);
  }

  // ----- the mailboxes -----

  lemma SendStepModules(cfg: Config, s: State, i: int)
    requires Inv(cfg, s) && 0 <= i < cfg.n - 1 && SendReady(s.mods[i], s.mods[i + 1])
    ensures var t := Next(cfg, s, Thread(i)); Modules(cfg, t) && Links(cfg, t) && Streams(cfg, t)
  {
    hide Local, Commands, Link, Stream, RingInv, Conserved, MutexInv, Ids, SendNext, SendReady, Debt, Started, Critical,
         SameReceiver, Stopping, Next, Enabled;
    NextSend(cfg, s, i);
    var m, b := s.mods[i], s.mods[i + 1];
    var t := Next(cfg, s, Thread(i));
    SenderKeepsLocal(cfg, i, m, b);
    ReceiverKeepsLocal(cfg, i, m, b);
    SendKeepsCommands(cfg, i, m, b);
    SendKeepsLink(cfg, i, m, b);
    SendKeepsStream(cfg, i, m, b, s.mem);
    SendKeepsOuter(i, m, b);
    if i > 0 {
      SendKeepsReceiver(cfg, i, m, b);
      assert Link(s.mods[i - 1], s.mods[i - 1 + 1]) && Stream(cfg, i - 1, s.mods[i - 1], s.mods[i - 1 + 1], s.mem);
      SameReceiverKeeps(cfg, i - 1, s.mods[i - 1], m, t.mods[i], s.mem);
    }
    if i + 2 < cfg.n {
      assert Link(s.mods[i + 1], s.mods[i + 1 + 1]) && Stream(cfg, i + 1, s.mods[i + 1], s.mods[i + 1 + 1], s.mem);
      SendKeepsBeyond(cfg, i, m, b, s.mods[i + 2], s.mem);
    }
    forall j | 0 <= j < cfg.n - 1
      ensures Link(t.mods[j], t.mods[j + 1]) && Stream(cfg, j, t.mods[j], t.mods[j + 1], t.mem)
    {
      if j != i - 1 && j != i && j != i + 1 {
        assert t.mods[j] == s.mods[j] && t.mods[j + 1] == s.mods[j + 1];
      }
    }
  }

  /** The module after the receiver only sees the receiver's location, slot, log and offset in hand. */
  lemma SendKeepsBeyond(cfg: Config, i: int, m: Module, b: Module, c: Module, mem: map<int, int>)
    requires 0 <= i < cfg.n - 2 && Local(cfg, i, m) && Local(cfg, i + 1, b) && SendReady(m, b) && Link(m, b)
    requires Link(b, c) && Stream(cfg, i + 1, b, c, mem)
    ensures var b' := SendNext(i, m, b).1; Link(b', c) && Stream(cfg, i + 1, b', c, mem)
  {
    SendKeepsOuter(i, m, b);
  }

  lemma SendStepDebt(cfg: Config, s: State, i: int)
    requires Inv(cfg, s) && 0 <= i < cfg.n - 1 && SendReady(s.mods[i], s.mods[i + 1])
    ensures RingInv(cfg, Next(cfg, s, Thread(i)))
  {
    hide Local, Commands, Link, Stream, Debt, Started, Critical, SendNext, SendReady, SameReceiver, Fifo, Stopping,
         Links, Streams, MutexInv, Conserved, Ids, Next, Enabled;
    NextSend(cfg, s, i);
    var m, b := s.mods[i], s.mods[i + 1];
    var t := Next(cfg, s, Thread(i));
    var half := s.mods[i := t.mods[i]];
    assert t.mods == half[i + 1 := t.mods[i + 1]];
    SendKeepsOuter(i, m, b);
    SumUpdate(Debt, s.mods, i, t.mods[i]);
    SumUpdate(Debt, half, i + 1, t.mods[i + 1]);
  }

  lemma SendStepAccounts(cfg: Config, s: State, i: int)
    requires Inv(cfg, s) && 0 <= i < cfg.n - 1 && SendReady(s.mods[i], s.mods[i + 1])
    ensures var t := Next(cfg, s, Thread(i)); RingInv(cfg, t) && Conserved(cfg, t)
  {
    hide Local, Commands, Link, Stream, Owned, Debt, Started, Critical, SendNext, SendReady, SameReceiver, Stopping,
         Links, Streams, RingInv, MutexInv, Ids, Next, Enabled, Queue;
    SendStepDebt(cfg, s, i);
    NextSend(cfg, s, i);
    var m, b := s.mods[i], s.mods[i + 1];
    var t := Next(cfg, s, Thread(i));
    var half := s.mods[i := t.mods[i]];
    assert t.mods == half[i + 1 := t.mods[i + 1]];
    LinkAt(cfg, s, i);
    UnionUpdate(Owned, s.mods, i, t.mods[i]);
    UnionUpdate(Owned, half, i + 1, t.mods[i + 1]);
    SendKeepsOwned(cfg, i, m, b);
    Balance(Union(Owned, s.mods), Union(Owned, half), Union(Owned, t.mods),
            Owned(m), Owned(t.mods[i]), Owned(b), Owned(t.mods[i + 1]));
  }

  lemma LinkAt(cfg: Config, s: State, i: int)
    requires Links(cfg, s) && 0 <= i < |s.mods| - 1
    ensures Link(s.mods[i], s.mods[i + 1])
  {
    hide Link;
  }

  lemma SendStepRest(cfg: Config, s: State, i: int)
    requires Inv(cfg, s) && 0 <= i < cfg.n - 1 && SendReady(s.mods[i], s.mods[i + 1])
    ensures var t := Next(cfg, s, Thread(i)); MutexInv(t) && Ids(cfg, t) && ExitInv(t)
  {
    hide Local, Commands, Link, Stream, Owned, Debt, Started, Critical, SendNext, SendReady, SameReceiver, Stopping,
         Links, Streams, MutexInv, Ids, RingInv, Conserved, Next, Enabled;
    NextSend(cfg, s, i);
    var m, b := s.mods[i], s.mods[i + 1];
    var t := Next(cfg, s, Thread(i));
    var half := s.(mods := s.mods[i := t.mods[i]]);
    assert t.mods == half.mods[i + 1 := t.mods[i + 1]];
    LinkAt(cfg, s, i);
    SendKeepsOuter(i, m, b);
    LiftMutex(s, half, i);
    LiftMutex(half, t, i + 1);
    LiftIds(s, half, i, cfg);
    ReceiverIds(cfg, half, t, i + 1);
  }

  lemma ReceiverIds(cfg: Config, s: State, t: State, i: int)
    requires Ids(cfg, s) && 0 <= i < |s.mods| == |t.mods| && t.mods == s.mods[i := t.mods[i]]
    requires t.processCnt == s.processCnt && s.mods[i].pc == t.mods[i].pc
    requires t.mods[i].id == s.mods[i].id && forall k :: Started(k, t.mods[i]) == Started(k, s.mods[i])
    ensures Ids(cfg, t)
  {
    hide Started;
    SumUpdate(Started, s.mods, i, t.mods[i]);
  }

  lemma SendStep(cfg: Config, s: State, i: int)
    requires Inv(cfg, s) && 0 <= i < cfg.n - 1 && SendReady(s.mods[i], s.mods[i + 1])
    ensures Inv(cfg, Next(cfg, s, Thread(i)))
  {
    hide Modules, Links, Streams, RingInv, Conserved, MutexInv, Ids, ExitInv, SendNext, SendReady, Next, Enabled;
    NextSend(cfg, s, i);
    SendStepModules(cfg, s, i);
    SendStepAccounts(cfg, s, i);
    SendStepRest(cfg, s, i);
  }

  // ----- the children -----

  lemma AtMostOnce(cfg: Config, s: State, x: int)
    requires ValidConfig(cfg) && Conserved(cfg, s)
    ensures multiset(Queued(s.ring))[x] + Union(Owned, s.mods)[x] <= 1
  {
    hide Owned, Queue;
    DistinctOnce(cfg.offsets, x);
    assert (multiset(Queued(s.ring)) + Union(Owned, s.mods))[x] <= 1;
  }

  /** A buffer in a thread's hands is in no other place. */
  lemma HeldOnce(cfg: Config, s: State, i: int)
    requires ValidConfig(cfg) && |s.mods| == cfg.n && Conserved(cfg, s) && 0 <= i < cfg.n && Holds(s.mods[i])
    ensures s.mods[i].localOffs !in Queued(s.ring)
    ensures forall j :: 0 <= j < cfg.n && HasMail(s.mods[j]) ==> s.mods[j].dataoffset != s.mods[i].localOffs
    ensures forall j :: 0 <= j < cfg.n && j != i && Holds(s.mods[j]) ==> s.mods[j].localOffs != s.mods[i].localOffs
  {
    hide Owned, Holds, HasMail, Queue;
    var x := s.mods[i].localOffs;
    AtMostOnce(cfg, s, x);
    UnionHas(Owned, s.mods, i);
    OwnsWhatItHolds(s.mods[i]);
    assert multiset(Queued(s.ring))[x] == 0;
    forall j | 0 <= j < cfg.n && j != i
      ensures HasMail(s.mods[j]) ==> s.mods[j].dataoffset != x
      ensures Holds(s.mods[j]) ==> s.mods[j].localOffs != x
    {
      OwnsWhatItHolds(s.mods[j]);
      if j < i {
        UnionHasBoth(Owned, s.mods, j, i);
      } else {
        UnionHasBoth(Owned, s.mods, i, j);
      }
      assert (Owned(s.mods[i]) + Owned(s.mods[j]))[x] <= 1;
    }
  }

  lemma ActStep(cfg: Config, s: State, i: int)
    requires ValidConfig(cfg) && Inv(cfg, s) && 0 <= i < cfg.n && ChildReady(s.mods[i]) && ActPc(s.mods[i])
    ensures var t := Next(cfg, s, Child(i)); Modules(cfg, t) && Links(cfg, t) && Streams(cfg, t)
  {
    hide Local, Commands, Link, Stream, RingInv, Conserved, MutexInv, Ids, ExitInv, Holds, HasPre, HasPost, HasMail,
         ChildNext, ChildMem, ActPc, ChildReady;
    var m := s.mods[i];
    var t := Next(cfg, s, Child(i));
    ActHere(cfg, i, s.mem, m);
    HeldOnce(cfg, s, i);
    ActKeepsLocal(cfg, i, s.mem, m);
    ChildKeepsCommands(cfg, i, s.mem, m);
    assert Link(s.mods[i], s.mods[i + 1]) && Stream(cfg, i, s.mods[i], s.mods[i + 1], s.mem);
    HeldApart(cfg, s, i);
    ActKeepsRight(cfg, i, s.mem, m, s.mods[i + 1]);
    if i > 0 {
      assert Link(s.mods[i - 1], s.mods[i - 1 + 1]) && Stream(cfg, i - 1, s.mods[i - 1], s.mods[i - 1 + 1], s.mem);
      ActKeepsLeft(cfg, i, s.mem, s.mods[i - 1], m);
    }
    forall j | 0 <= j < cfg.n - 1
      ensures Link(t.mods[j], t.mods[j + 1]) && Stream(cfg, j, t.mods[j], t.mods[j + 1], t.mem)
    {
      if j != i - 1 && j != i {
        ActElsewhere(cfg, s, i, j);
      }
    }
  }

  /** Frames before the action here and after the action elsewhere are held, so they are apart from module `i`'s. */
  lemma HeldApart(cfg: Config, s: State, i: int)
    requires ValidConfig(cfg) && |s.mods| == cfg.n && Conserved(cfg, s) && 0 <= i < cfg.n && Holds(s.mods[i])
    ensures forall j :: 0 <= j < cfg.n && j != i && HasPre(s.mods[j]) ==> s.mods[j].localOffs != s.mods[i].localOffs
    ensures forall j :: 0 <= j < cfg.n && j != i && HasPost(cfg, j, s.mods[j]) ==>
                        s.mods[j].localOffs != s.mods[i].localOffs
  {
    hide Conserved;
    HeldOnce(cfg, s, i);
  }

  lemma ActElsewhere(cfg: Config, s: State, i: int, j: int)
    requires ValidConfig(cfg) && Inv(cfg, s) && 0 <= i < cfg.n && ChildReady(s.mods[i]) && ActPc(s.mods[i])
    requires 0 <= j < cfg.n - 1 && j != i - 1 && j != i
    ensures var t := Next(cfg, s, Child(i));
            && t.mods[j] == s.mods[j] && t.mods[j + 1] == s.mods[j + 1]
            && Link(s.mods[j], s.mods[j + 1]) && Stream(cfg, j, s.mods[j], s.mods[j + 1], t.mem)
  {
    hide Local, Commands, Link, RingInv, Conserved, MutexInv, Ids, ExitInv, Holds, HasPre, HasPost, HasMail,
         ChildNext, InFlight;
    var m := s.mods[i];
    ActHere(cfg, i, s.mem, m);
    HeldOnce(cfg, s, i);
    HeldApart(cfg, s, i);
    assert Stream(cfg, j, s.mods[j], s.mods[j + 1], s.mem);
    InFlightFrame(cfg, j, s.mods[j], s.mods[j + 1], s.mem, m.localOffs, Answer(cfg, i, s.mem, m).content);
  }

  lemma ChildKeepsCommands(cfg: Config, i: int, mem: map<int, int>, m: Module)
    requires Commands(cfg, i, m) && ChildReady(m)
    ensures Commands(cfg, i, ChildNext(cfg, i, mem, m))
  {
    hide JobsThenStop;
    ChildKeepsRest(cfg, i, mem, m);
  }

  lemma QuietChildStep(cfg: Config, s: State, i: int)
    requires ValidConfig(cfg) && Inv(cfg, s) && 0 <= i < cfg.n && ChildReady(s.mods[i]) && !ActPc(s.mods[i])
    ensures var t := Next(cfg, s, Child(i)); Modules(cfg, t) && Links(cfg, t) && Streams(cfg, t)
  {
    hide Local, Commands, Link, Stream, RingInv, Conserved, MutexInv, Ids, ExitInv, ChildNext, ChildReady,
         SameReceiver, SameSender;
    var m := s.mods[i];
    var t := Next(cfg, s, Child(i));
    ChildKeepsLocal(cfg, i, s.mem, m);
    ChildKeepsCommands(cfg, i, s.mem, m);
    ChildKeepsViews(cfg, i, s.mem, m);
    if i > 0 {
      assert Link(s.mods[i - 1], s.mods[i - 1 + 1]) && Stream(cfg, i - 1, s.mods[i - 1], s.mods[i - 1 + 1], s.mem);
      SameReceiverKeeps(cfg, i - 1, s.mods[i - 1], m, t.mods[i], s.mem);
    }
    if i < cfg.n - 1 {
      SameSenderKeeps(cfg, i, m, t.mods[i], s.mods[i + 1], s.mem);
    }
    LiftOne(cfg, s, t, i);
  }

  lemma ChildStep(cfg: Config, s: State, i: int)
    requires ValidConfig(cfg) && Inv(cfg, s) && 0 <= i < cfg.n && ChildReady(s.mods[i])
    ensures Inv(cfg, Next(cfg, s, Child(i)))
  {
    hide Local, Commands, Links, Streams, RingInv, Conserved, MutexInv, Ids, Owned, Debt, Started, Critical,
         ChildNext, ChildMem, ChildReady, ActPc, Holds, HasMail, Stopping;
    var m := s.mods[i];
    var t := Next(cfg, s, Child(i));
    if ActPc(m) {
      ActStep(cfg, s, i);
    } else {
      QuietChildStep(cfg, s, i);
    }
    ChildKeepsRest(cfg, i, s.mem, m);
    SameOwned(m, t.mods[i]);
    ChildNeedsStart(cfg, i, m);
    LiftCounts(cfg, s, t, i);
  }

  lemma ChildNeedsStart(cfg: Config, i: int, m: Module)
    requires 0 <= i < cfg.n && Local(cfg, i, m) && ChildReady(m)
    ensures i < cfg.n - 1 && (m.pc == AwaitResult || m.pc == StopChildAwait)
  {
  }

  // ----- all steps, all runs -----

  /** Whatever thread, child or caller moves, the invariant is kept. */
  lemma StepKeepsInv(cfg: Config, s: State, step: Step)
    requires ValidConfig(cfg) && Inv(cfg, s) && Enabled(cfg, s, step)
    ensures Inv(cfg, Next(cfg, s, step))
  {
    match step
    case RaiseExit => RaiseExitKeepsInv(cfg, s);
    case Child(i) =>
      ChildIndex(cfg, s, i);
      hide Inv, Enabled, Next, ChildReady;
      ChildStep(cfg, s, i);
    case Thread(i) =>
      ThreadStep(cfg, s, i);
  }

  lemma ChildIndex(cfg: Config, s: State, i: int)
    requires Inv(cfg, s) && Enabled(cfg, s, Child(i))
    ensures 0 <= i < cfg.n && |s.mods| == cfg.n && ChildReady(s.mods[i])
  {
    hide Modules, Links, Streams, RingInv, Conserved, MutexInv, Ids, ExitInv;
  }

  lemma RaiseExitKeepsInv(cfg: Config, s: State)
    requires Inv(cfg, s) && !s.exit
    ensures Inv(cfg, Next(cfg, s, RaiseExit))
  {
    hide Local, Commands, Link, Stream, Fifo, IdOk, Critical, Owned, Debt, Started;
    var t := Next(cfg, s, RaiseExit);
    assert Modules(cfg, t) && Links(cfg, t) && Streams(cfg, t);
  }

  lemma ThreadStep(cfg: Config, s: State, i: int)
    requires ValidConfig(cfg) && Inv(cfg, s) && Enabled(cfg, s, Thread(i))
    ensures Inv(cfg, Next(cfg, s, Thread(i)))
  {
    hide Modules, Links, Streams, RingInv, Conserved, MutexInv, Ids, ExitInv, Next, OwnNext, RingNext, SendNext;
    if s.mods[i].pc == Start {
      StartStep(cfg, s, i);
    } else if OwnPc(s.mods[i].pc) {
      OwnStep(cfg, s, i);
    } else if RingPc(s.mods[i].pc) {
      RingStep(cfg, s, i);
    } else {
      SendStep(cfg, s, i);
    }
  }

  lemma InvLength(cfg: Config, s: State)
    requires Inv(cfg, s)
    ensures |s.mods| == cfg.n >= 2
  {
  }
}
