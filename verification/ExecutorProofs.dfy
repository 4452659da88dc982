/** Inductive invariants of the executor step system and the proofs that every step keeps them. */
module ExecutorProofs {
  import opened Prelude
  import opened Task
  import opened ReadyQueues
  import opened Waker
  import opened Executor

  // ---------------------------------------------------------------------------
  // Single ownership
  // ---------------------------------------------------------------------------

  /** `home` says where the one entry of every live task is. */
  ghost predicate Owned(s: State, home: map<TaskId, Holder>) {
    && (forall t, h :: Holds(s, h, t) ==> t in home && home[t] == h)
    && (forall t :: t in home ==> Holds(s, home[t], t))
    && (forall t :: t in home <==> s.Live(t))
    && (forall t :: t in s.done ==> t in s.spawned)
  }

  /** The id counter is past every id handed out. */
  ghost predicate IdsBelowCounter(s: State) {
    forall t :: t in s.spawned ==> t < s.nextId
  }

  /** No entry moves. */
  ghost predicate NoEntryMoves(s: State, s': State) {
    && s'.cpus.Keys == s.cpus.Keys
    && (forall c :: c in s.cpus ==> s'.cpus[c].tasks == s.cpus[c].tasks && s'.cpus[c].Hand() == s.cpus[c].Hand())
    && s'.spawned == s.spawned && s'.done == s.done
  }

  lemma OwnedFrame(s: State, s': State, home: map<TaskId, Holder>)
    requires Owned(s, home) && NoEntryMoves(s, s')
    ensures Owned(s', home)
  {
    forall h, t
      ensures Holds(s', h, t) <==> Holds(s, h, t)
    {
    }
  }

  /** The entry of `t` is at `to` now, and every other entry is where it was. */
  ghost predicate EntryMoves(s: State, s': State, t: TaskId, to: Holder) {
    && (forall h, x :: Holds(s', h, x) <==> if x == t then h == to else Holds(s, h, x))
    && s'.spawned == s.spawned && s'.done == s.done
  }

  lemma OwnedMove(s: State, s': State, home: map<TaskId, Holder>, t: TaskId, to: Holder)
    requires Owned(s, home) && t in home && EntryMoves(s, s', t, to)
    ensures Owned(s', home[t := to])
  {
  }

  lemma OwnedTake(s: State, s': State, home: map<TaskId, Holder>, c: CpuId)
    requires Owned(s, home) && TakeEntry(s, s', c)
    ensures Owned(s', home[s.cpus[c].phase.id := InHand(c)])
  {
    var t := s.cpus[c].phase.id;
    assert Holds(s, InMap(c), t);
    forall h, x
      ensures Holds(s', h, x) <==> if x == t then h == InHand(c) else Holds(s, h, x)
    {
      assert Holds(s, h, x) ==> home[x] == h;
    }
    OwnedMove(s, s', home, t, InHand(c));
  }

  lemma OwnedPutIn(s: State, s': State, home: map<TaskId, Holder>, c: CpuId)
    requires Owned(s, home) && (Reinsert(s, s', c) || InsertStolen(s, s', c))
    ensures Owned(s', home[s.cpus[c].phase.id := InMap(c)])
  {
    var t := s.cpus[c].phase.id;
    assert Holds(s, InHand(c), t);
    forall h, x
      ensures Holds(s', h, x) <==> if x == t then h == InMap(c) else Holds(s, h, x)
    {
      assert Holds(s, h, x) ==> home[x] == h;
    }
    OwnedMove(s, s', home, t, InMap(c));
  }

  lemma OwnedSteal(s: State, s': State, home: map<TaskId, Holder>, c: CpuId, v: CpuId)
    requires Owned(s, home) && StealTask(s, s', c, v)
    ensures Owned(s', home[s'.cpus[c].phase.id := InHand(c)])
  {
    var t := s'.cpus[c].phase.id;
    assert Holds(s, InMap(v), t);
    forall h, x
      ensures Holds(s', h, x) <==> if x == t then h == InHand(c) else Holds(s, h, x)
    {
      assert Holds(s, h, x) ==> home[x] == h;
    }
    OwnedMove(s, s', home, t, InHand(c));
  }

  lemma OwnedFinish(s: State, s': State, home: map<TaskId, Holder>, c: CpuId)
    requires Owned(s, home) && PollReady(s, s', c)
    ensures Owned(s', home - {s.cpus[c].phase.id})
  {
    var t := s.cpus[c].phase.id;
    assert Holds(s, InHand(c), t);
    forall h, x
      ensures Holds(s', h, x) <==> x != t && Holds(s, h, x)
    {
      assert Holds(s, h, x) ==> home[x] == h;
    }
  }

  lemma OwnedSpawn(s: State, s': State, home: map<TaskId, Holder>, c: CpuId, p: Priority)
    requires Owned(s, home) && s.nextId !in s.spawned && SpawnInsert(s, s', c, p)
    ensures Owned(s', home[s.nextId := InMap(c)])
  {
    var t := s.nextId;
    forall h, x
      ensures Holds(s', h, x) <==> Holds(s, h, x) || (x == t && h == InMap(c))
    {
    }
  }

  // ---------------------------------------------------------------------------
  // Tiers: every id is queued, carried and woken at the priority it was spawned with
  // ---------------------------------------------------------------------------

  ghost predicate Tagged(spawned: map<TaskId, Spawn>, p: Priority, id: TaskId) {
    id in spawned && spawned[id].p == p
  }

  ghost predicate QueueTiers(spawned: map<TaskId, Spawn>, q: Queues<TaskId>) {
    forall p, id :: id in q.Tier(p) ==> Tagged(spawned, p, id)
  }

  ghost predicate CpuTiers(spawned: map<TaskId, Spawn>, cpu: Cpu) {
    && QueueTiers(spawned, cpu.queue)
    && (cpu.phase.Popped? || cpu.phase.Polling? || cpu.phase.Stolen? || cpu.phase.Inserted? ==>
          Tagged(spawned, cpu.phase.p, cpu.phase.id))
    && (cpu.call.Spawning? ==> Tagged(spawned, cpu.call.p, cpu.call.id))
  }

  ghost predicate WakerTiers(s: State, w: Waker) {
    var (id, p, t) := Unpack(w);
    Tagged(s.spawned, p, id) && t in s.cpus
  }

  ghost predicate Tiers(s: State) {
    && (forall c :: c in s.cpus ==> CpuTiers(s.spawned, s.cpus[c]))
    && (forall w :: w in s.issued ==> WakerTiers(s, w))
    && s.nextId <= ID_LIMIT
  }

  lemma PushKeepsTiers(spawned: map<TaskId, Spawn>, q: Queues<TaskId>, p: Priority, id: TaskId)
    requires QueueTiers(spawned, q) && Tagged(spawned, p, id)
    ensures QueueTiers(spawned, q.Push(p, id))
  {
    QueuesAreFifo(q, p, id);
    assert AddsAtBack(q, p, id, q.Push(p, id));
    forall o, x | x in q.Push(p, id).Tier(o)
      ensures Tagged(spawned, o, x)
    {
      assert x in q.Tier(o) || (o == p && x == id);
    }
  }

  lemma PopKeepsTiers(spawned: map<TaskId, Spawn>, q: Queues<TaskId>)
    requires QueueTiers(spawned, q) && q.HasReady()
    ensures q.Pop().1.Some?
    ensures QueueTiers(spawned, q.Pop().0) && Tagged(spawned, q.Pop().1.value.0, q.Pop().1.value.1)
  {
    var (rest, r) := q.Pop();
    forall o, x | x in rest.Tier(o)
      ensures x in q.Tier(o)
    {
    }
    assert r.value.1 in q.Tier(r.value.0);
  }

  lemma StealKeepsTiers(spawned: map<TaskId, Spawn>, q: Queues<TaskId>)
    requires QueueTiers(spawned, q) && q.StealOne().1.Some?
    ensures QueueTiers(spawned, q.StealOne().0)
    ensures var (p, id) := q.StealOne().1.value; Tagged(spawned, p, id) && p != Critical
  {
    var (rest, r) := q.StealOne();
    forall o, x | x in rest.Tier(o)
      ensures x in q.Tier(o)
    {
    }
    assert r.value.1 in q.Tier(r.value.0);
  }

  /** Only CPU `c` and perhaps the ids spawned and wakers issued change, and they change in step. */
  lemma TiersLocal(s: State, s': State, c: CpuId)
    requires Tiers(s) && c in s.cpus && s'.cpus.Keys == s.cpus.Keys && s'.nextId <= ID_LIMIT
    requires forall d :: d in s.cpus && d != c ==>
               && s'.cpus[d].queue == s.cpus[d].queue && s'.cpus[d].phase == s.cpus[d].phase
               && s'.cpus[d].call == s.cpus[d].call
    requires CpuTiers(s'.spawned, s'.cpus[c])
    requires forall t :: t in s.spawned ==> t in s'.spawned && s'.spawned[t] == s.spawned[t]
    requires forall w :: w in s'.issued ==> w in s.issued || WakerTiers(s', w)
    ensures Tiers(s')
  {
    forall d | d in s'.cpus
      ensures CpuTiers(s'.spawned, s'.cpus[d])
    {
      if d != c {
        assert CpuTiers(s.spawned, s.cpus[d]);
      }
    }
    forall w | w in s'.issued
      ensures WakerTiers(s', w)
    {
      if w in s.issued {
        assert WakerTiers(s, w);
      }
    }
  }

  lemma TiersTake(s: State, s': State, c: CpuId)
    requires Tiers(s) && NarrowCpus(s) && IdsBelowCounter(s) && TakeEntry(s, s', c)
    ensures Tiers(s')
  {
    assert CpuTiers(s.spawned, s.cpus[c]);
    UnpackInvertsPack(s.cpus[c].phase.id, s.cpus[c].phase.p, c);
    TiersLocal(s, s', c);
  }

  lemma TiersSpawn(s: State, s': State, c: CpuId, p: Priority)
    requires Tiers(s) && IdsBelowCounter(s) && SpawnInsert(s, s', c, p)
    ensures Tiers(s')
  {
    assert CpuTiers(s.spawned, s.cpus[c]);
    TiersLocal(s, s', c);
  }

  lemma TiersSteal(s: State, s': State, c: CpuId, v: CpuId)
    requires Tiers(s) && StealTask(s, s', c, v)
    ensures Tiers(s')
  {
    assert CpuTiers(s.spawned, s.cpus[c]) && CpuTiers(s.spawned, s.cpus[v]);
    StealKeepsTiers(s.spawned, s.cpus[v].queue);
    var mid := With(s, v, s'.cpus[v]);
    TiersLocal(s, mid, v);
    TiersLocal(mid, s', c);
  }

  lemma TiersWake(s: State, s': State, c: CpuId, w: Waker)
    requires Tiers(s) && WakePush(s, s', c, w)
    ensures Tiers(s')
  {
    var (id, p, t) := Unpack(w);
    assert WakerTiers(s, w) && CpuTiers(s.spawned, s.cpus[t]);
    PushKeepsTiers(s.spawned, s.cpus[t].queue, p, id);
    var mid := With(s, t, s.cpus[t].(queue := s.cpus[t].queue.Push(p, id)));
    TiersLocal(s, mid, t);
    TiersCall(mid, s', c);
  }

  lemma TiersCall(s: State, s': State, c: CpuId)
    requires Tiers(s) && c in s.cpus && c in s'.cpus && !s'.cpus[c].call.Spawning?
    requires s'.(woken := s.woken) == With(s, c, s.cpus[c].(call := s'.cpus[c].call))
    ensures Tiers(s')
  {
    assert CpuTiers(s.spawned, s.cpus[c]);
    TiersLocal(s, s', c);
  }

  lemma TiersQueueing(s: State, s': State, c: CpuId)
    requires Tiers(s) && (PopTask(s, s', c) || PushStolen(s, s', c) || SpawnPush(s, s', c))
    ensures Tiers(s')
  {
    var cpu := s.cpus[c];
    assert CpuTiers(s.spawned, cpu);
    if PopTask(s, s', c) {
      PopKeepsTiers(s.spawned, cpu.queue);
    } else if PushStolen(s, s', c) {
      PushKeepsTiers(s.spawned, cpu.queue, cpu.phase.p, cpu.phase.id);
    } else {
      PushKeepsTiers(s.spawned, cpu.queue, cpu.call.p, cpu.call.id);
    }
    TiersLocal(s, s', c);
  }

  /** What a quiet step does: a new phase on CPU `c`, perhaps a cleared interrupt, and nothing else. */
  lemma QuietEffect(s: State, s': State, c: CpuId)
    requires QuietStep(s, s', c)
    ensures c in s.cpus && s'.cpus.Keys == s.cpus.Keys
    ensures s' == With(s, c, s.cpus[c].(phase := s'.cpus[c].phase, ipi := s'.cpus[c].ipi))
    ensures QuietPhases(s.cpus[c], s'.cpus[c])
  {
    QuietChange(s, s', c);
    QuietPhase(s, s', c);
  }

  /** No entry changes hands, and a popped id is given up only when its entry is elsewhere. */
  ghost predicate QuietPhases(cpu: Cpu, cpu': Cpu) {
    && (|| cpu'.phase == cpu.phase
        || cpu'.phase.PollLoop? || cpu'.phase.Stealing? || cpu'.phase.Halted? || cpu'.phase.Handler?
        || (cpu.phase.Polling? && cpu'.phase == Returning(cpu.phase.id)))
    && (cpu.phase.Popped? ==> cpu.phase.id !in cpu.tasks)
    && !cpu.phase.Stolen? && !cpu.phase.Inserted? && cpu'.Hand() == cpu.Hand()
  }

  lemma QuietChange(s: State, s': State, c: CpuId)
    requires QuietStep(s, s', c)
    ensures c in s.cpus && s'.cpus.Keys == s.cpus.Keys
    ensures s' == With(s, c, s.cpus[c].(phase := s'.cpus[c].phase, ipi := s'.cpus[c].ipi))
  {
    if StartRun(s, s', c) || MissEntry(s, s', c) || PollPending(s, s', c) || CheckReady(s, s', c) {
      LoopChange(s, s', c);
    } else {
      InterruptChange(s, s', c);
    }
  }

  lemma LoopChange(s: State, s': State, c: CpuId)
    requires StartRun(s, s', c) || MissEntry(s, s', c) || PollPending(s, s', c) || CheckReady(s, s', c)
    ensures c in s.cpus && s'.cpus.Keys == s.cpus.Keys
    ensures s' == With(s, c, s.cpus[c].(phase := s'.cpus[c].phase, ipi := s'.cpus[c].ipi))
  {
  }

  lemma InterruptChange(s: State, s': State, c: CpuId)
    requires || Halt(s, s', c) || Interrupt(s, s', c, true) || Interrupt(s, s', c, false)
             || HandlerDone(s, s', c) || UserInterrupt(s, s', c)
    ensures c in s.cpus && s'.cpus.Keys == s.cpus.Keys
    ensures s' == With(s, c, s.cpus[c].(phase := s'.cpus[c].phase, ipi := s'.cpus[c].ipi))
  {
  }

  lemma QuietPhase(s: State, s': State, c: CpuId)
    requires QuietStep(s, s', c)
    ensures c in s.cpus && c in s'.cpus && QuietPhases(s.cpus[c], s'.cpus[c])
  {
  }

  lemma QuietSleep(s: State, s': State, c: CpuId)
    requires QuietStep(s, s', c)
    ensures var cpu, cpu' := s.cpus[c], s'.cpus[c];
            && (cpu'.Sleepy() && cpu.queue.HasReady() ==> cpu.Sleepy() && cpu'.ipi == cpu.ipi)
            && (cpu.phase.Polling? || cpu.phase.Handler? || cpu.phase.Boot? ==> cpu.call == NoCall)
  {
  }

  lemma TiersQuiet(s: State, s': State, c: CpuId)
    requires Tiers(s)
    requires QuietStep(s, s', c)
    ensures Tiers(s')
  {
    QuietEffect(s, s', c);
    assert CpuTiers(s.spawned, s.cpus[c]);
    TiersLocal(s, s', c);
  }

  lemma TiersHolding(s: State, s': State, c: CpuId)
    requires Tiers(s)
    requires PollReady(s, s', c) || Reinsert(s, s', c) || InsertStolen(s, s', c) || WakeIpi(s, s', c)
    ensures Tiers(s')
  {
    assert CpuTiers(s.spawned, s.cpus[c]);
    TiersLocal(s, s', c);
  }

  // ---------------------------------------------------------------------------
  // Progress: a wake through the latest waker always finds its task
  // ---------------------------------------------------------------------------

  /** A woken task is on its way; a task that is not must be where its latest waker points. */
  ghost predicate TaskProgress(s: State, home: map<TaskId, Holder>, t: TaskId)
    requires t in home
  {
    home[t].c in s.cpus &&
    var c := home[t].c;
    var pointed := t in s.latest && Target(s.latest[t]) == c;
    && (t in s.woken ==> s.cpus[c].Coming(t))
    && (s.cpus[c].Coming(t) || pointed)
    && (home[t].InHand? && !s.cpus[c].phase.Stolen? ==> pointed)
  }

  ghost predicate Progress(s: State, home: map<TaskId, Holder>) {
    && (forall t :: t in home ==> TaskProgress(s, home, t))
    && (forall t :: t in s.latest ==> Unpack(s.latest[t]).0 == t)
  }

  lemma PushHolds(q: Queues<TaskId>, p: Priority, id: TaskId, x: TaskId)
    ensures q.Push(p, id).Holds(x) <==> q.Holds(x) || x == id
  {
  }

  lemma PopHolds(q: Queues<TaskId>, x: TaskId)
    requires q.HasReady()
    ensures q.Pop().1.Some? && (q.Holds(x) <==> q.Pop().0.Holds(x) || x == q.Pop().1.value.1)
  {
    var (rest, r) := q.Pop();
    QueuesAreFifo(q, Normal, x);
    assert AddsAtFront(rest, r.value.0, r.value.1, q);
  }

  lemma StealHolds(q: Queues<TaskId>, x: TaskId)
    requires q.StealOne().1.Some?
    ensures q.Holds(x) <==> q.StealOne().0.Holds(x) || x == q.StealOne().1.value.1
  {
    var (rest, r) := q.StealOne();
    StealTakesBack(q);
    assert AddsAtBack(rest, r.value.0, r.value.1, q);
  }

  /** Only CPU `c` changes, and every task it kept it still makes as much of. */
  lemma ProgressLocal(s: State, s': State, home: map<TaskId, Holder>, c: CpuId)
    requires Owned(s, home) && Progress(s, home) && c in s.cpus
    requires s'.cpus.Keys == s.cpus.Keys
    requires forall d :: d in s.cpus && d != c ==> s'.cpus[d].(ipi := false) == s.cpus[d].(ipi := false)
    requires s'.woken == s.woken && s'.latest == s.latest
    requires forall t :: t in home && home[t].c == c && s.cpus[c].Coming(t) ==> s'.cpus[c].Coming(t)
    requires s'.cpus[c].Hand() == s.cpus[c].Hand() && (s'.cpus[c].phase.Stolen? <==> s.cpus[c].phase.Stolen?)
    ensures Progress(s', home)
  {
    forall t | t in home
      ensures TaskProgress(s', home, t)
    {
      assert TaskProgress(s, home, t);
    }
  }

  lemma ProgressQuiet(s: State, s': State, home: map<TaskId, Holder>, c: CpuId)
    requires Owned(s, home) && Progress(s, home) && QuietStep(s, s', c)
    ensures Progress(s', home)
  {
    QuietEffect(s, s', c);
    forall t | t in home && home[t].c == c && s.cpus[c].Coming(t)
      ensures s'.cpus[c].Coming(t)
    {
    }
    ProgressLocal(s, s', home, c);
  }

  lemma ProgressIpi(s: State, s': State, home: map<TaskId, Holder>, c: CpuId)
    requires Owned(s, home) && Progress(s, home) && WakeIpi(s, s', c)
    ensures Progress(s', home)
  {
    ProgressLocal(s, s', home, c);
  }

  lemma ProgressPop(s: State, s': State, home: map<TaskId, Holder>, c: CpuId)
    requires Owned(s, home) && Progress(s, home) && PopTask(s, s', c)
    ensures Progress(s', home)
  {
    forall t | t in home && home[t].c == c && s.cpus[c].Coming(t)
      ensures s'.cpus[c].Coming(t)
    {
      PopHolds(s.cpus[c].queue, t);
    }
    ProgressLocal(s, s', home, c);
  }

  lemma ProgressPush(s: State, s': State, home: map<TaskId, Holder>, c: CpuId)
    requires Owned(s, home) && Progress(s, home) && (PushStolen(s, s', c) || SpawnPush(s, s', c))
    ensures Progress(s', home)
  {
    var cpu := s.cpus[c];
    forall t | t in home && home[t].c == c && cpu.Coming(t)
      ensures s'.cpus[c].Coming(t)
    {
      if PushStolen(s, s', c) {
        PushHolds(cpu.queue, cpu.phase.p, cpu.phase.id, t);
      } else {
        PushHolds(cpu.queue, cpu.call.p, cpu.call.id, t);
      }
    }
    ProgressLocal(s, s', home, c);
  }

  lemma ProgressTake(s: State, s': State, home: map<TaskId, Holder>, c: CpuId)
    requires Owned(s, home) && Progress(s, home) && Tiers(s)
    requires NarrowCpus(s) && IdsBelowCounter(s) && TakeEntry(s, s', c)
    ensures Progress(s', home[s.cpus[c].phase.id := InHand(c)])
  {
    var id := s.cpus[c].phase.id;
    var home' := home[id := InHand(c)];
    assert CpuTiers(s.spawned, s.cpus[c]);
    UnpackInvertsPack(id, s.cpus[c].phase.p, c);
    forall t | t in home'
      ensures TaskProgress(s', home', t)
    {
      if t != id {
        assert TaskProgress(s, home, t);
      }
    }
  }

  lemma ProgressPutIn(s: State, s': State, home: map<TaskId, Holder>, c: CpuId)
    requires Owned(s, home) && Progress(s, home) && (Reinsert(s, s', c) || InsertStolen(s, s', c))
    ensures Progress(s', home[s.cpus[c].phase.id := InMap(c)])
  {
    var id := s.cpus[c].phase.id;
    assert Holds(s, InHand(c), id);
    forall t | t in home
      ensures TaskProgress(s', home[id := InMap(c)], t)
    {
      assert TaskProgress(s, home, t);
    }
  }

  lemma ProgressSteal(s: State, s': State, home: map<TaskId, Holder>, c: CpuId, v: CpuId)
    requires Owned(s, home) && Progress(s, home) && StealTask(s, s', c, v)
    ensures Progress(s', home[s'.cpus[c].phase.id := InHand(c)])
  {
    var id := s'.cpus[c].phase.id;
    assert Holds(s, InMap(v), id);
    forall t | t in home
      ensures TaskProgress(s', home[id := InHand(c)], t)
    {
      assert TaskProgress(s, home, t);
      StealHolds(s.cpus[v].queue, t);
    }
  }

  lemma ProgressFinish(s: State, s': State, home: map<TaskId, Holder>, c: CpuId)
    requires Owned(s, home) && Progress(s, home) && PollReady(s, s', c)
    ensures Progress(s', home - {s.cpus[c].phase.id})
  {
    var id := s.cpus[c].phase.id;
    var home' := home - {id};
    forall t | t in home && t != id
      ensures TaskProgress(s', home', t)
    {
      assert TaskProgress(s, home, t);
    }
  }

  lemma ProgressSpawn(s: State, s': State, home: map<TaskId, Holder>, c: CpuId, p: Priority)
    requires Owned(s, home) && Progress(s, home) && SpawnInsert(s, s', c, p) && s.nextId !in s.spawned
    ensures Progress(s', home[s.nextId := InMap(c)])
  {
    var home' := home[s.nextId := InMap(c)];
    forall t | t in home'
      ensures TaskProgress(s', home', t)
    {
      if t != s.nextId {
        assert TaskProgress(s, home, t);
      }
    }
  }

  lemma ProgressWake(s: State, s': State, home: map<TaskId, Holder>, c: CpuId, w: Waker)
    requires Owned(s, home) && Progress(s, home) && WakePush(s, s', c, w)
    ensures Progress(s', home)
  {
    var (id, p, d) := Unpack(w);
    forall t | t in home
      ensures TaskProgress(s', home, t)
    {
      assert TaskProgress(s, home, t) && Holds(s, home[t], t);
      PushHolds(s.cpus[d].queue, p, id, t);
    }
  }

  // ---------------------------------------------------------------------------
  // Sleeping
  // ---------------------------------------------------------------------------

  /** Calls run only from code that may make them, and no CPU sleeps on work. */
  ghost predicate Alert(s: State) {
    && NoSleepOnWork(s)
    && forall c :: c in s.cpus && s.cpus[c].call != NoCall ==>
         s.cpus[c].phase.Polling? || s.cpus[c].phase.Handler? || s.cpus[c].phase.Boot?
  }

  /** Steps of CPU `c` that queue nothing on a sleeping CPU and end no wake in progress. */
  lemma AlertLocal(s: State, s': State, c: CpuId)
    requires Alert(s) && c in s.cpus && s'.cpus.Keys == s.cpus.Keys
    requires forall d :: d in s.cpus && d != c ==>
      s'.cpus[d].phase == s.cpus[d].phase && s'.cpus[d].call == s.cpus[d].call && s'.cpus[d].ipi == s.cpus[d].ipi
      && (s'.cpus[d].queue.HasReady() ==> s.cpus[d].queue.HasReady())
    requires s.cpus[c].call.Waking? ==> s'.cpus[c].call == s.cpus[c].call
    requires s'.cpus[c].call != NoCall ==>
               s'.cpus[c].phase.Polling? || s'.cpus[c].phase.Handler? || s'.cpus[c].phase.Boot?
    requires s'.cpus[c].Sleepy() && s'.cpus[c].queue.HasReady() ==>
      s.cpus[c].Sleepy() && s.cpus[c].queue.HasReady() && s'.cpus[c].ipi == s.cpus[c].ipi
    ensures Alert(s')
  {
    forall x | x in s'.cpus && s'.cpus[x].Sleepy() && s'.cpus[x].queue.HasReady()
      ensures s'.cpus[x].ipi || exists d :: d in s'.cpus && d != x && s'.cpus[d].call == Waking(x)
    {
      assert s.cpus[x].Sleepy() && s.cpus[x].queue.HasReady();
      if !s.cpus[x].ipi {
        var d :| d in s.cpus && d != x && s.cpus[d].call == Waking(x);
        assert s'.cpus[d].call == Waking(x);
      }
    }
  }

  lemma AlertIpi(s: State, s': State, c: CpuId)
    requires Alert(s) && WakeIpi(s, s', c)
    ensures Alert(s')
  {
    forall x | x in s'.cpus && s'.cpus[x].Sleepy() && s'.cpus[x].queue.HasReady()
      ensures s'.cpus[x].ipi || exists d :: d in s'.cpus && d != x && s'.cpus[d].call == Waking(x)
    {
      assert s.cpus[x].Sleepy() && s.cpus[x].queue.HasReady();
      if !s.cpus[x].ipi && x != s.cpus[c].call.target {
        var d :| d in s.cpus && d != x && s.cpus[d].call == Waking(x);
        assert s'.cpus[d].call == Waking(x);
      }
    }
  }

  lemma AlertWake(s: State, s': State, c: CpuId, w: Waker)
    requires Alert(s) && WakePush(s, s', c, w)
    ensures Alert(s')
  {
    WakeEffect(s, s', c, w);
    forall x | x in s'.cpus && s'.cpus[x].Sleepy() && s'.cpus[x].queue.HasReady()
      ensures s'.cpus[x].ipi || exists d :: d in s'.cpus && d != x && s'.cpus[d].call == Waking(x)
    {
      if x == Target(w) {
        assert x != c && s'.cpus[c].call == Waking(x);
      } else if !s.cpus[x].ipi {
        var d :| d in s.cpus && d != x && s.cpus[d].call == Waking(x);
        assert s'.cpus[d].call == Waking(x);
      }
    }
  }

  /** A wake changes the target's queue and, if the target is another CPU, the waking CPU's call. */
  lemma WakeEffect(s: State, s': State, c: CpuId, w: Waker)
    requires WakePush(s, s', c, w)
    ensures s'.cpus.Keys == s.cpus.Keys && c in s.cpus && s.cpus[c].RunsCode()
    ensures forall x :: x in s.cpus ==>
              && s'.cpus[x].phase == s.cpus[x].phase && s'.cpus[x].ipi == s.cpus[x].ipi
              && (x != Target(w) ==> s'.cpus[x].queue == s.cpus[x].queue)
              && s'.cpus[x].call == if x == c && c != Target(w) then Waking(Target(w)) else s.cpus[x].call
  {
  }

  lemma AlertSteal(s: State, s': State, c: CpuId, v: CpuId)
    requires Alert(s) && StealTask(s, s', c, v)
    ensures Alert(s')
  {
    AlertLocal(s, s', c);
  }

  lemma AlertQuiet(s: State, s': State, c: CpuId)
    requires Alert(s) && QuietStep(s, s', c)
    ensures Alert(s')
  {
    QuietEffect(s, s', c);
    QuietSleep(s, s', c);
    AlertLocal(s, s', c);
  }

  // ---------------------------------------------------------------------------
  // Critical tasks stay where they were spawned
  // ---------------------------------------------------------------------------

  ghost predicate CriticalStays(s: State, home: map<TaskId, Holder>) {
    forall t :: t in home && t in s.spawned && s.spawned[t].p == Critical ==> home[t].c == s.spawned[t].cpu
  }

  // ---------------------------------------------------------------------------
  // One step keeps everything
  // ---------------------------------------------------------------------------

  /** What holds however many CPUs there are. */
  ghost predicate Base(s: State, home: map<TaskId, Holder>) {
    Owned(s, home) && IdsBelowCounter(s) && Alert(s)
  }

  /** What holds besides while CPU numbers fit the waker. */
  ghost predicate Routed(s: State, home: map<TaskId, Holder>) {
    NarrowCpus(s) && Tiers(s) && Progress(s, home) && CriticalStays(s, home)
  }

  /** Where the entries are after a step that may have moved one. */
  ghost predicate Follows(s: State, s': State, home: map<TaskId, Holder>, home': map<TaskId, Holder>) {
    Base(s', home') && (Routed(s, home) ==> Routed(s', home')) && s'.cpus.Keys == s.cpus.Keys
  }

  lemma StepQuiet(s: State, s': State, home: map<TaskId, Holder>, c: CpuId)
    requires Base(s, home) && (QuietStep(s, s', c) || WakeIpi(s, s', c))
    ensures Follows(s, s', home, home)
  {
    if WakeIpi(s, s', c) {
      AlertIpi(s, s', c);
    } else {
      QuietEffect(s, s', c);
      AlertQuiet(s, s', c);
    }
    OwnedFrame(s, s', home);
    if Routed(s, home) {
      if WakeIpi(s, s', c) {
        TiersHolding(s, s', c);
        ProgressIpi(s, s', home, c);
      } else {
        TiersQuiet(s, s', c);
        ProgressQuiet(s, s', home, c);
      }
    }
  }

  lemma QueueingEffect(s: State, s': State, c: CpuId)
    requires PopTask(s, s', c) || PushStolen(s, s', c) || SpawnPush(s, s', c)
    ensures NoEntryMoves(s, s') && s'.nextId == s.nextId
  {
  }

  lemma AlertQueueing(s: State, s': State, c: CpuId)
    requires Alert(s) && (PopTask(s, s', c) || PushStolen(s, s', c) || SpawnPush(s, s', c))
    ensures Alert(s')
  {
    AlertLocal(s, s', c);
  }

  lemma StepQueueing(s: State, s': State, home: map<TaskId, Holder>, c: CpuId)
    requires Base(s, home) && (PopTask(s, s', c) || PushStolen(s, s', c) || SpawnPush(s, s', c))
    ensures Follows(s, s', home, home)
  {
    QueueingEffect(s, s', c);
    AlertQueueing(s, s', c);
    OwnedFrame(s, s', home);
    if Routed(s, home) {
      TiersQueueing(s, s', c);
      if PopTask(s, s', c) {
        ProgressPop(s, s', home, c);
      } else {
        ProgressPush(s, s', home, c);
      }
    }
  }

  lemma WakeMovesNoEntry(s: State, s': State, c: CpuId, w: Waker)
    requires WakePush(s, s', c, w)
    ensures NoEntryMoves(s, s') && s'.nextId == s.nextId
  {
  }

  lemma StepWake(s: State, s': State, home: map<TaskId, Holder>, c: CpuId, w: Waker)
    requires Base(s, home) && WakePush(s, s', c, w)
    ensures Follows(s, s', home, home)
  {
    WakeMovesNoEntry(s, s', c, w);
    AlertWake(s, s', c, w);
    OwnedFrame(s, s', home);
    if Routed(s, home) {
      TiersWake(s, s', c, w);
      ProgressWake(s, s', home, c, w);
    }
  }

  lemma StepPutBack(s: State, s': State, home: map<TaskId, Holder>, c: CpuId, v: CpuId)
    requires Base(s, home) && StealPutsBack(s, s', c, v)
    ensures Follows(s, s', home, home)
  {
    StealPutBack(s.cpus[v].queue);
    assert s'.cpus == s.cpus;
  }

  lemma StepTake(s: State, s': State, home: map<TaskId, Holder>, c: CpuId)
    requires Base(s, home) && TakeEntry(s, s', c)
    ensures Follows(s, s', home, home[s.cpus[c].phase.id := InHand(c)])
  {
    assert Holds(s, InMap(c), s.cpus[c].phase.id);
    AlertLocal(s, s', c);
    OwnedTake(s, s', home, c);
    if Routed(s, home) {
      TiersTake(s, s', c);
      ProgressTake(s, s', home, c);
    }
  }

  lemma StepPutIn(s: State, s': State, home: map<TaskId, Holder>, c: CpuId)
    requires Base(s, home) && (Reinsert(s, s', c) || InsertStolen(s, s', c))
    ensures Follows(s, s', home, home[s.cpus[c].phase.id := InMap(c)])
  {
    assert Holds(s, InHand(c), s.cpus[c].phase.id);
    AlertLocal(s, s', c);
    OwnedPutIn(s, s', home, c);
    if Routed(s, home) {
      TiersHolding(s, s', c);
      ProgressPutIn(s, s', home, c);
    }
  }

  lemma StepSteal(s: State, s': State, home: map<TaskId, Holder>, c: CpuId, v: CpuId)
    requires Base(s, home) && StealTask(s, s', c, v)
    ensures s'.cpus[c].phase.Stolen? && Follows(s, s', home, home[s'.cpus[c].phase.id := InHand(c)])
  {
    AlertSteal(s, s', c, v);
    OwnedSteal(s, s', home, c, v);
    if Routed(s, home) {
      assert CpuTiers(s.spawned, s.cpus[v]);
      StealKeepsTiers(s.spawned, s.cpus[v].queue);
      TiersSteal(s, s', c, v);
      ProgressSteal(s, s', home, c, v);
    }
  }

  lemma StepFinish(s: State, s': State, home: map<TaskId, Holder>, c: CpuId)
    requires Base(s, home) && PollReady(s, s', c)
    ensures Follows(s, s', home, home - {s.cpus[c].phase.id})
  {
    AlertLocal(s, s', c);
    OwnedFinish(s, s', home, c);
    if Routed(s, home) {
      TiersHolding(s, s', c);
      ProgressFinish(s, s', home, c);
    }
  }

  lemma StepSpawn(s: State, s': State, home: map<TaskId, Holder>, c: CpuId, p: Priority)
    requires Base(s, home) && SpawnInsert(s, s', c, p)
    ensures Follows(s, s', home, home[s.nextId := InMap(c)])
  {
    AlertLocal(s, s', c);
    OwnedSpawn(s, s', home, c, p);
    if Routed(s, home) {
      TiersSpawn(s, s', c, p);
      ProgressSpawn(s, s', home, c, p);
    }
  }

  lemma StepKeeps(s: State, s': State, home: map<TaskId, Holder>) returns (home': map<TaskId, Holder>)
    requires Base(s, home) && Next(s, s')
    ensures Follows(s, s', home, home')
  {
    var c :| StepOf(s, s', c);
    home' := home;
    if QuietStep(s, s', c) || WakeIpi(s, s', c) {
      StepQuiet(s, s', home, c);
    } else if PopTask(s, s', c) || PushStolen(s, s', c) || SpawnPush(s, s', c) {
      StepQueueing(s, s', home, c);
    } else if TakeEntry(s, s', c) {
      StepTake(s, s', home, c);
      home' := home[s.cpus[c].phase.id := InHand(c)];
    } else if PollReady(s, s', c) {
      StepFinish(s, s', home, c);
      home' := home - {s.cpus[c].phase.id};
    } else if Reinsert(s, s', c) || InsertStolen(s, s', c) {
      StepPutIn(s, s', home, c);
      home' := home[s.cpus[c].phase.id := InMap(c)];
    } else if v :| StealTask(s, s', c, v) {
      StepSteal(s, s', home, c, v);
      home' := home[s'.cpus[c].phase.id := InHand(c)];
    } else if v :| StealPutsBack(s, s', c, v) {
      StepPutBack(s, s', home, c, v);
    } else if p :| SpawnInsert(s, s', c, p) {
      StepSpawn(s, s', home, c, p);
      home' := home[s.nextId := InMap(c)];
    } else {
      var w :| WakePush(s, s', c, w);
      StepWake(s, s', home, c, w);
    }
  }
}
