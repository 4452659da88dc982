/** What the executors can do from every reachable state: no CPU is ever stuck. */
module ExecutorProgress {
  import opened Prelude
  import opened Task
  import opened ReadyQueues
  import opened Waker
  import opened Executor
  import opened ExecutorProofs
  import opened ExecutorTheorems

  /** The run goes on by steps of CPU `c` alone. */
  ghost predicate GoesOn(run: seq<State>, run': seq<State>, c: CpuId) {
    && IsRun(run) && IsRun(run') && run <= run'
    && forall i :: |run| <= i < |run'| ==> StepOf(run'[i - 1], run'[i], c)
  }

  /** One more step of CPU `c`. */
  lemma OneStep(run: seq<State>, run': seq<State>, s: State, c: CpuId)
    requires GoesOn(run, run', c) && StepOf(Last(run'), s, c)
    ensures GoesOn(run, run' + [s], c) && Last(run' + [s]) == s
  {
    RunExtends(run', s);
    var longer := run' + [s];
    forall i | |run| <= i < |longer|
      ensures StepOf(longer[i - 1], longer[i], c)
    {
      if i < |run'| {
        assert StepOf(run'[i - 1], run'[i], c);
      }
    }
  }

  // ---------------------------------------------------------------------------
  // Idle CPUs steal
  // ---------------------------------------------------------------------------

  /** The id a thief gets: the newest Normal one, or else the newest Background one. */
  ghost function Newest(q: Queues<TaskId>): (Priority, TaskId)
    requires |q.normal| + |q.background| >= 2
  {
    if q.normal != [] then (Normal, q.normal[|q.normal| - 1]) else (Background, q.background[|q.background| - 1])
  }

  /** The task moved from CPU `v` to CPU `c`, its entry and its id. */
  ghost predicate Moved(s: State, s': State, c: CpuId, v: CpuId, p: Priority, id: TaskId)
    requires c in s.cpus && v in s.cpus && c in s'.cpus && v in s'.cpus
  {
    && s'.cpus[c].tasks == s.cpus[c].tasks + {id} && AddsAtBack(s.cpus[c].queue, p, id, s'.cpus[c].queue)
    && s'.cpus[v].tasks == s.cpus[v].tasks - {id} && AddsAtBack(s'.cpus[v].queue, p, id, s.cpus[v].queue)
    && forall d :: d in s.cpus && d != c && d != v ==> d in s'.cpus && s'.cpus[d] == s.cpus[d]
  }

  /** A CPU that runs out of work takes the newest stealable task of any CPU that has two: it can go on, by its own
      steps, until the task's entry and id are its own and it is back in its poll loop. */
  lemma IdleCpuSteals(run: seq<State>, c: CpuId, v: CpuId) returns (run': seq<State>)
    requires IsRun(run) && c in Last(run).cpus && v in Last(run).cpus && v != c
    requires Last(run).cpus[c].phase.PollLoop? && !Last(run).cpus[c].queue.HasReady()
    requires var q := Last(run).cpus[v].queue;
             |q.normal| + |q.background| >= 2 && Newest(q).1 in Last(run).cpus[v].tasks
    ensures GoesOn(run, run', c) && Last(run').cpus.Keys == Last(run).cpus.Keys
    ensures var (p, id) := Newest(Last(run).cpus[v].queue);
            Moved(Last(run), Last(run'), c, v, p, id) && Last(run').cpus[c].phase == PollLoop
  {
    var s := Last(run);
    var s1 := LookForWork(s, c);
    OneStep(run, run, s1, c);
    var s2 := TakeFrom(s1, c, v);
    OneStep(run, run + [s1], s2, c);
    run' := FinishSteal(run, run + [s1] + [s2], c);
    var (p, id) := Newest(s.cpus[v].queue);
    AddOne(s.cpus[c].queue, p, id);
  }

  lemma AddOne(q: Queues<TaskId>, p: Priority, id: TaskId)
    ensures AddsAtBack(q, p, id, q.Push(p, id))
  {
    QueuesAreFifo(q, p, id);
  }

  // ---------------------------------------------------------------------------
  // One step at a time
  // ---------------------------------------------------------------------------

  lemma LookForWork(s: State, c: CpuId) returns (s': State)
    requires c in s.cpus && s.cpus[c].phase.PollLoop? && !s.cpus[c].queue.HasReady()
    ensures StepOf(s, s', c) && s' == With(s, c, s.cpus[c].(phase := Stealing))
  {
    s' := With(s, c, s.cpus[c].(phase := Stealing));
    assert CheckReady(s, s', c);
  }

  lemma TakeFrom(s: State, c: CpuId, v: CpuId) returns (s': State)
    requires c in s.cpus && v in s.cpus && v != c && s.cpus[c].phase.Stealing?
    requires |s.cpus[v].queue.normal| + |s.cpus[v].queue.background| >= 2
    requires Newest(s.cpus[v].queue).1 in s.cpus[v].tasks
    ensures StepOf(s, s', c) && s'.cpus.Keys == s.cpus.Keys
    ensures var (p, id) := Newest(s.cpus[v].queue);
            && s'.cpus[c] == s.cpus[c].(phase := Stolen(p, id)) && s'.cpus[v].tasks == s.cpus[v].tasks - {id}
            && AddsAtBack(s'.cpus[v].queue, p, id, s.cpus[v].queue)
            && forall d :: d in s.cpus && d != c && d != v ==> s'.cpus[d] == s.cpus[d]
  {
    var victim := s.cpus[v];
    var (p, id) := Newest(victim.queue);
    StealTakesBack(victim.queue);
    var q := victim.queue.StealOne().0;
    s' := With(With(s, v, victim.(queue := q, tasks := victim.tasks - {id})), c, s.cpus[c].(phase := Stolen(p, id)));
    assert StealTask(s, s', c, v);
  }

  lemma PutStolen(s: State, c: CpuId) returns (s': State)
    requires c in s.cpus && s.cpus[c].phase.Stolen?
    ensures StepOf(s, s', c)
    ensures var cpu := s.cpus[c];
            s' == With(s, c, cpu.(tasks := cpu.tasks + {cpu.phase.id}, phase := Inserted(cpu.phase.p, cpu.phase.id)))
  {
    var cpu := s.cpus[c];
    s' := With(s, c, cpu.(tasks := cpu.tasks + {cpu.phase.id}, phase := Inserted(cpu.phase.p, cpu.phase.id)));
    assert InsertStolen(s, s', c);
  }

  lemma QueueStolen(s: State, c: CpuId) returns (s': State)
    requires c in s.cpus && s.cpus[c].phase.Inserted?
    ensures StepOf(s, s', c)
    ensures var cpu := s.cpus[c];
            s' == With(s, c, cpu.(queue := cpu.queue.Push(cpu.phase.p, cpu.phase.id), phase := PollLoop))
  {
    var cpu := s.cpus[c];
    s' := With(s, c, cpu.(queue := cpu.queue.Push(cpu.phase.p, cpu.phase.id), phase := PollLoop));
    assert PushStolen(s, s', c);
  }

  /** A stolen entry goes into the map, then its id into the queue. */
  lemma FinishSteal(run: seq<State>, run1: seq<State>, c: CpuId) returns (run': seq<State>)
    requires GoesOn(run, run1, c) && c in Last(run1).cpus && Last(run1).cpus[c].phase.Stolen?
    ensures GoesOn(run, run', c) && |run'| == |run1| + 2
    ensures var s, cpu := Last(run1), Last(run1).cpus[c];
            Last(run') == With(s, c, cpu.(tasks := cpu.tasks + {cpu.phase.id},
                                          queue := cpu.queue.Push(cpu.phase.p, cpu.phase.id), phase := PollLoop))
  {
    var s2 := PutStolen(Last(run1), c);
    OneStep(run, run1, s2, c);
    var s3 := QueueStolen(s2, c);
    OneStep(run, run1 + [s2], s3, c);
    run' := run1 + [s2] + [s3];
  }

  // ---------------------------------------------------------------------------
  // Woken tasks are polled
  // ---------------------------------------------------------------------------

  /** A wake in progress has another CPU as its target. */
  ghost predicate CallsAim(s: State) {
    forall c :: c in s.cpus && s.cpus[c].call.Waking? ==> s.cpus[c].call.target in s.cpus && s.cpus[c].call.target != c
  }

  /** No call is made but that of CPU `c` may end, or turn into a spawn. */
  ghost predicate NoNewWake(s: State, s': State, c: CpuId) {
    && s'.cpus.Keys == s.cpus.Keys
    && forall d :: d in s.cpus ==> s'.cpus[d].call == s.cpus[d].call || (d == c && !s'.cpus[d].call.Waking?)
  }

  lemma LoopStepWakesNoOne(s: State, s': State, c: CpuId)
    requires || PopTask(s, s', c) || TakeEntry(s, s', c) || PollReady(s, s', c) || Reinsert(s, s', c)
             || InsertStolen(s, s', c) || PushStolen(s, s', c)
    ensures NoNewWake(s, s', c)
  {
  }

  lemma CallStepWakesNoOne(s: State, s': State, c: CpuId, v: CpuId, p: Priority)
    requires || SpawnPush(s, s', c) || SpawnInsert(s, s', c, p) || WakeIpi(s, s', c)
             || StealTask(s, s', c, v) || StealPutsBack(s, s', c, v)
    ensures NoNewWake(s, s', c)
  {
  }

  lemma StepKeepsAim(s: State, s': State, c: CpuId)
    requires CallsAim(s) && StepOf(s, s', c)
    ensures CallsAim(s')
  {
    if QuietStep(s, s', c) {
      QuietEffect(s, s', c);
    } else if w :| WakePush(s, s', c, w) {
      WakeEffect(s, s', c, w);
    } else if v :| StealTask(s, s', c, v) {
      CallStepWakesNoOne(s, s', c, v, Normal);
    } else if v :| StealPutsBack(s, s', c, v) {
      CallStepWakesNoOne(s, s', c, v, Normal);
    } else if p :| SpawnInsert(s, s', c, p) {
      CallStepWakesNoOne(s, s', c, c, p);
    } else if SpawnPush(s, s', c) || WakeIpi(s, s', c) {
      CallStepWakesNoOne(s, s', c, c, Normal);
    } else {
      LoopStepWakesNoOne(s, s', c);
    }
  }

  lemma {:induction false} RunKeepsAim(run: seq<State>)
    requires IsRun(run)
    ensures CallsAim(Last(run))
  {
    if |run| > 1 {
      RunPrefix(run);
      RunKeepsAim(run[..|run| - 1]);
      assert Next(run[|run| - 2], run[|run| - 1]);
      var c :| StepOf(run[|run| - 2], run[|run| - 1], c);
      StepKeepsAim(run[|run| - 2], run[|run| - 1], c);
    }
  }

  ghost function Waiting(q: Queues<TaskId>): nat {
    |q.critical| + |q.normal| + |q.background|
  }

  /** The CPU is in its poll loop with the task in its map and the id in its queue, which has at most `n` ids. */
  ghost predicate InLoop(s: State, c: CpuId, t: TaskId, n: nat) {
    && c in s.cpus && s.cpus[c].phase.PollLoop? && t in s.cpus[c].tasks && s.cpus[c].queue.Holds(t)
    && Waiting(s.cpus[c].queue) <= n
  }

  /** The CPU has just begun to poll the task. */
  ghost predicate Begins(s: State, c: CpuId, t: TaskId) {
    c in s.cpus && s.cpus[c].phase.Polling? && s.cpus[c].phase.id == t && t !in s.woken
  }

  lemma PushWaiting(q: Queues<TaskId>, p: Priority, id: TaskId)
    ensures Waiting(q.Push(p, id)) == Waiting(q) + 1
  {
  }

  lemma PopWaiting(q: Queues<TaskId>)
    requires q.HasReady()
    ensures Waiting(q.Pop().0) == Waiting(q) - 1
  {
  }

  lemma DoReinsert(s: State, c: CpuId) returns (s': State)
    requires c in s.cpus && s.cpus[c].phase.Returning?
    ensures StepOf(s, s', c)
    ensures s' == With(s, c, s.cpus[c].(tasks := s.cpus[c].tasks + {s.cpus[c].phase.id}, phase := PollLoop))
  {
    s' := With(s, c, s.cpus[c].(tasks := s.cpus[c].tasks + {s.cpus[c].phase.id}, phase := PollLoop));
    assert Reinsert(s, s', c);
  }

  lemma DoPending(s: State, c: CpuId) returns (s': State)
    requires c in s.cpus && s.cpus[c].phase.Polling? && s.cpus[c].call == NoCall
    ensures StepOf(s, s', c) && s' == With(s, c, s.cpus[c].(phase := Returning(s.cpus[c].phase.id)))
  {
    s' := With(s, c, s.cpus[c].(phase := Returning(s.cpus[c].phase.id)));
    assert PollPending(s, s', c);
  }

  lemma DoTake(s: State, c: CpuId) returns (s': State)
    requires c in s.cpus && s.cpus[c].phase.Popped? && s.cpus[c].phase.id in s.cpus[c].tasks
    ensures StepOf(s, s', c)
    ensures var cpu, id := s.cpus[c], s.cpus[c].phase.id;
            && s'.cpus == s.cpus[c := cpu.(tasks := cpu.tasks - {id}, phase := Polling(cpu.phase.p, id))]
            && s'.woken == s.woken - {id}
  {
    var cpu, id, w := s.cpus[c], s.cpus[c].phase.id, Pack(s.cpus[c].phase.id, s.cpus[c].phase.p, c);
    s' := With(s, c, cpu.(tasks := cpu.tasks - {id}, phase := Polling(cpu.phase.p, id)))
          .(issued := s.issued + {w}, latest := s.latest[id := w], woken := s.woken - {id});
    assert TakeEntry(s, s', c);
  }

  lemma DoMiss(s: State, c: CpuId) returns (s': State)
    requires c in s.cpus && s.cpus[c].phase.Popped? && s.cpus[c].phase.id !in s.cpus[c].tasks
    ensures StepOf(s, s', c) && s' == With(s, c, s.cpus[c].(phase := PollLoop))
  {
    s' := With(s, c, s.cpus[c].(phase := PollLoop));
    assert MissEntry(s, s', c);
  }

  lemma DoPop(s: State, c: CpuId) returns (s': State)
    requires c in s.cpus && s.cpus[c].phase.PollLoop? && s.cpus[c].queue.HasReady()
    ensures StepOf(s, s', c) && s.cpus[c].queue.Pop().1.Some?
    ensures var (q, r) := s.cpus[c].queue.Pop();
            s' == With(s, c, s.cpus[c].(queue := q, phase := Popped(r.value.0, r.value.1)))
  {
    var (q, r) := s.cpus[c].queue.Pop();
    s' := With(s, c, s.cpus[c].(queue := q, phase := Popped(r.value.0, r.value.1)));
    assert PopTask(s, s', c);
  }

  /** A poll that answers Pending puts the entry back. */
  lemma FromPolling(run: seq<State>, run1: seq<State>, c: CpuId, t: TaskId) returns (run': seq<State>)
    requires GoesOn(run, run1, c) && c in Last(run1).cpus && Last(run1).cpus[c].phase.Polling?
    requires Last(run1).cpus[c].call == NoCall && Last(run1).cpus[c].queue.Holds(t)
    requires t in Last(run1).cpus[c].tasks || t == Last(run1).cpus[c].phase.id
    ensures GoesOn(run, run', c) && |run'| == |run1| + 2
    ensures InLoop(Last(run'), c, t, Waiting(Last(run1).cpus[c].queue))
  {
    var s1 := DoPending(Last(run1), c);
    OneStep(run, run1, s1, c);
    var s2 := DoReinsert(s1, c);
    OneStep(run, run1 + [s1], s2, c);
    run' := run1 + [s1] + [s2];
  }

  /** A popped id is polled or given up. */
  lemma FromPopped(run: seq<State>, run1: seq<State>, c: CpuId, t: TaskId) returns (run': seq<State>)
    requires GoesOn(run, run1, c) && c in Last(run1).cpus && Last(run1).cpus[c].phase.Popped?
    requires Last(run1).cpus[c].call == NoCall && t in Last(run1).cpus[c].tasks
    requires Last(run1).cpus[c].queue.Holds(t) || Last(run1).cpus[c].phase.id == t
    ensures GoesOn(run, run', c) && |run'| <= |run1| + 3
    ensures Begins(Last(run'), c, t) || InLoop(Last(run'), c, t, Waiting(Last(run1).cpus[c].queue))
  {
    var s := Last(run1);
    if s.cpus[c].phase.id !in s.cpus[c].tasks {
      var s1 := DoMiss(s, c);
      OneStep(run, run1, s1, c);
      run' := run1 + [s1];
    } else {
      var s1 := DoTake(s, c);
      OneStep(run, run1, s1, c);
      run' := run1 + [s1];
      if s.cpus[c].phase.id != t {
        run' := FromPolling(run, run', c, t);
      }
    }
  }

  /** The poll loop comes to every queued id whose entry is there, after at most four steps for each. */
  lemma {:induction false} LoopReaches(run: seq<State>, run1: seq<State>, c: CpuId, t: TaskId, n: nat)
    returns (run': seq<State>)
    requires GoesOn(run, run1, c) && InLoop(Last(run1), c, t, n) && Last(run1).cpus[c].call == NoCall
    ensures GoesOn(run, run', c) && Begins(Last(run'), c, t) && |run'| <= |run1| + 4 * n
    decreases n
  {
    var s := Last(run1);
    var s1 := DoPop(s, c);
    OneStep(run, run1, s1, c);
    PopHolds(s.cpus[c].queue, t);
    PopWaiting(s.cpus[c].queue);
    run' := FromPopped(run, run1 + [s1], c, t);
    if !Begins(Last(run'), c, t) {
      NoCallInLoop(run', c);
      run' := LoopReaches(run, run', c, t, n - 1);
    }
  }

  /** No call is in progress in the poll loop, or anywhere else where no code runs. */
  lemma NoCallInLoop(run: seq<State>, c: CpuId)
    requires IsRun(run) && c in Last(run).cpus
    ensures Last(run).cpus[c].call == NoCall || Last(run).cpus[c].phase.Polling? || Last(run).cpus[c].phase.Handler?
            || Last(run).cpus[c].phase.Boot?
  {
    var home := RunKeeps(run);
    assert Alert(Last(run));
  }

  // ---------------------------------------------------------------------------
  // Back to the poll loop
  // ---------------------------------------------------------------------------

  /** The CPU is bound to poll the task, with at most `n` ids queued and no call in progress. */
  ghost predicate Bound(s: State, c: CpuId, t: TaskId, n: nat) {
    c in s.cpus && s.cpus[c].Coming(t) && s.cpus[c].call == NoCall && Waiting(s.cpus[c].queue) <= n
  }

  lemma DoSpawnPush(s: State, c: CpuId) returns (s': State)
    requires c in s.cpus && s.cpus[c].call.Spawning?
    ensures StepOf(s, s', c)
    ensures var cpu := s.cpus[c];
            s' == With(s, c, cpu.(queue := cpu.queue.Push(cpu.call.p, cpu.call.id), call := NoCall))
  {
    var cpu := s.cpus[c];
    s' := With(s, c, cpu.(queue := cpu.queue.Push(cpu.call.p, cpu.call.id), call := NoCall));
    assert SpawnPush(s, s', c);
  }

  lemma DoWakeIpi(s: State, c: CpuId) returns (s': State)
    requires c in s.cpus && s.cpus[c].call.Waking? && CallsAim(s)
    ensures StepOf(s, s', c) && c in s'.cpus && s'.cpus[c] == s.cpus[c].(call := NoCall)
  {
    var t := s.cpus[c].call.target;
    s' := With(With(s, c, s.cpus[c].(call := NoCall)), t, s.cpus[t].(ipi := true));
    assert WakeIpi(s, s', c);
  }

  /** A spawn or wake in progress ends. */
  lemma EndCall(run: seq<State>, c: CpuId, t: TaskId) returns (run': seq<State>)
    requires IsRun(run) && c in Last(run).cpus && Last(run).cpus[c].Coming(t)
    ensures GoesOn(run, run', c) && |run'| <= |run| + 1
    ensures Bound(Last(run'), c, t, Waiting(Last(run).cpus[c].queue) + 1)
  {
    var s := Last(run);
    var cpu := s.cpus[c];
    run' := run;
    if cpu.call.Spawning? {
      var s1 := DoSpawnPush(s, c);
      OneStep(run, run, s1, c);
      run' := run + [s1];
      PushHolds(cpu.queue, cpu.call.p, cpu.call.id, t);
      PushWaiting(cpu.queue, cpu.call.p, cpu.call.id);
    } else if cpu.call.Waking? {
      RunKeepsAim(run);
      var s1 := DoWakeIpi(s, c);
      OneStep(run, run, s1, c);
      run' := run + [s1];
    }
  }

  /** The steps from one phase to the next that change nothing else. */
  lemma DoTurn(s: State, c: CpuId, phase: Phase) returns (s': State)
    requires c in s.cpus && s.cpus[c].call == NoCall
    requires
      match s.cpus[c].phase
      case Boot => phase == PollLoop
      case Stealing => phase == Halted
      case Halted => phase == Handler
      case Handler => phase == PollLoop
      case _ => false
    ensures StepOf(s, s', c) && s' == With(s, c, s.cpus[c].(phase := phase))
  {
    s' := With(s, c, s.cpus[c].(phase := phase));
    match s.cpus[c].phase
    case Boot => assert StartRun(s, s', c);
    case Stealing => assert Halt(s, s', c);
    case Halted => assert Interrupt(s, s', c, false);
    case Handler => assert HandlerDone(s, s', c);
  }

  /** A CPU on its way to sleep, asleep, or in a handler comes back to its poll loop. */
  lemma {:induction false} FromSleep(run: seq<State>, run1: seq<State>, c: CpuId, t: TaskId, n: nat)
    returns (run': seq<State>)
    requires GoesOn(run, run1, c) && Bound(Last(run1), c, t, n)
    requires var phase := Last(run1).cpus[c].phase; phase.Boot? || phase.Stealing? || phase.Halted? || phase.Handler?
    ensures GoesOn(run, run', c) && |run'| <= |run1| + Turns(Last(run1).cpus[c].phase) && InLoop(Last(run'), c, t, n)
    decreases Turns(Last(run1).cpus[c].phase)
  {
    var phase := Last(run1).cpus[c].phase;
    var s1 := DoTurn(Last(run1), c, if phase.Stealing? then Halted else if phase.Halted? then Handler else PollLoop);
    OneStep(run, run1, s1, c);
    run' := run1 + [s1];
    if !s1.cpus[c].phase.PollLoop? {
      run' := FromSleep(run, run', c, t, n);
    }
  }

  ghost function Turns(phase: Phase): nat {
    if phase.Stealing? then 3 else if phase.Halted? then 2 else 1
  }

  /** From every phase the CPU comes to its poll loop with the task there, or begins to poll it. */
  lemma ToLoop(run: seq<State>, run1: seq<State>, c: CpuId, t: TaskId, n: nat) returns (run': seq<State>)
    requires GoesOn(run, run1, c) && Bound(Last(run1), c, t, n)
    ensures GoesOn(run, run', c) && |run'| <= |run1| + 3
    ensures Begins(Last(run'), c, t) || InLoop(Last(run'), c, t, n + 1)
  {
    var s := Last(run1);
    match s.cpus[c].phase {
      case PollLoop => run' := run1;
      case Popped(_, _) => run' := FromPopped(run, run1, c, t);
      case Polling(_, _) => run' := FromPolling(run, run1, c, t);
      case Returning(_) =>
        var s1 := DoReinsert(s, c);
        OneStep(run, run1, s1, c);
        run' := run1 + [s1];
      case Stolen(p, id) =>
        run' := FinishSteal(run, run1, c);
        PushHolds(s.cpus[c].queue, p, id, t);
        PushWaiting(s.cpus[c].queue, p, id);
      case Inserted(p, id) =>
        var s1 := QueueStolen(s, c);
        OneStep(run, run1, s1, c);
        run' := run1 + [s1];
        PushHolds(s.cpus[c].queue, p, id, t);
        PushWaiting(s.cpus[c].queue, p, id);
      case _ => run' := FromSleep(run, run1, c, t, n);
    }
  }

  /** From every reachable state, while CPU numbers fit six bits, every unfinished task that is woken, or was just
      spawned, can be polled next on the CPU it is on its way to: that CPU needs no more than its own steps, and at
      most four for each id in its queue and twelve more. */
  lemma WokenTaskCanRun(run: seq<State>, t: TaskId) returns (run': seq<State>, c: CpuId)
    requires IsRun(run) && NarrowCpus(run[0]) && Last(run).Live(t) && t in Last(run).woken
    ensures GoesOn(run, run', c) && Begins(Last(run'), c, t)
    ensures c in Last(run).cpus && |run'| <= |run| + 4 * Waiting(Last(run).cpus[c].queue) + 12
  {
    NoWakeIsLost(run);
    c :| c in Last(run).cpus && Last(run).cpus[c].Coming(t);
    var n := Waiting(Last(run).cpus[c].queue);
    run' := EndCall(run, c, t);
    run' := ToLoop(run, run', c, t, n + 1);
    if !Begins(Last(run'), c, t) {
      NoCallInLoop(run', c);
      run' := LoopReaches(run, run', c, t, n + 2);
    }
  }

  /** And the poll can be its last. */
  lemma WokenTaskCanFinish(run: seq<State>, t: TaskId) returns (run': seq<State>, c: CpuId)
    requires IsRun(run) && NarrowCpus(run[0]) && Last(run).Live(t) && t in Last(run).woken
    ensures GoesOn(run, run', c) && t in Last(run').done
  {
    run', c := WokenTaskCanRun(run, t);
    run' := EndWake(run, run', c, t);
    var s := Last(run');
    var s' := With(s, c, s.cpus[c].(phase := PollLoop)).(done := s.done + {t});
    assert PollReady(s, s', c) && StepOf(s, s', c);
    OneStep(run, run', s', c);
    run' := run' + [s'];
  }

  /** No call of the polled task is in progress when its poll begins, or it can end. */
  lemma EndWake(run: seq<State>, run1: seq<State>, c: CpuId, t: TaskId) returns (run': seq<State>)
    requires GoesOn(run, run1, c) && Begins(Last(run1), c, t)
    ensures GoesOn(run, run', c)
    ensures var s := Last(run');
            c in s.cpus && s.cpus[c].phase.Polling? && s.cpus[c].phase.id == t && s.cpus[c].call == NoCall
  {
    var s := Last(run1);
    run' := run1;
    if s.cpus[c].call.Spawning? {
      var s1 := DoSpawnPush(s, c);
      OneStep(run, run1, s1, c);
      run' := run1 + [s1];
    } else if s.cpus[c].call.Waking? {
      RunKeepsAim(run1);
      var s1 := DoWakeIpi(s, c);
      OneStep(run, run1, s1, c);
      run' := run1 + [s1];
    }
  }

  // ---------------------------------------------------------------------------
  // Spawns and wakes
  // ---------------------------------------------------------------------------

  /** A future, an interrupt handler or boot code is running on the CPU, and is not in the middle of a call. */
  ghost predicate CodeRuns(s: State, c: CpuId) {
    && c in s.cpus && s.cpus[c].call == NoCall
    && (s.cpus[c].phase.Polling? || s.cpus[c].phase.Handler? || s.cpus[c].phase.Boot?)
  }

  /** Running code can spawn a task of any priority: its entry is in the CPU's map, its id at the back of its tier. */
  lemma CodeCanSpawn(run: seq<State>, c: CpuId, p: Priority) returns (run': seq<State>)
    requires IsRun(run) && CodeRuns(Last(run), c) && Last(run).nextId < ID_LIMIT
    ensures GoesOn(run, run', c) && c in Last(run').cpus
    ensures var s, s', id := Last(run), Last(run'), Last(run).nextId;
            && s'.cpus[c].tasks == s.cpus[c].tasks + {id} && AddsAtBack(s.cpus[c].queue, p, id, s'.cpus[c].queue)
            && s'.spawned == s.spawned[id := Spawn(p, c)] && s'.nextId == id + 1
  {
    var s, id, cpu := Last(run), Last(run).nextId, Last(run).cpus[c];
    var s1 := With(s, c, cpu.(tasks := cpu.tasks + {id}, call := Spawning(p, id)))
              .(nextId := id + 1, spawned := s.spawned[id := Spawn(p, c)], woken := s.woken + {id});
    assert SpawnInsert(s, s1, c, p) && StepOf(s, s1, c);
    OneStep(run, run, s1, c);
    var s2 := DoSpawnPush(s1, c);
    OneStep(run, run + [s1], s2, c);
    AddOne(cpu.queue, p, id);
    run' := run + [s1] + [s2];
  }

  /** Running code can fire any waker ever handed out: the id is at the back of its tier on the CPU the waker names,
      and if that is another CPU, an interrupt is on its way there. */
  lemma CodeCanWake(run: seq<State>, c: CpuId, w: Waker) returns (run': seq<State>)
    requires IsRun(run) && CodeRuns(Last(run), c) && w in Last(run).issued && Target(w) in Last(run).cpus
    ensures GoesOn(run, run', c) && Target(w) in Last(run').cpus
    ensures var (id, p, t) := Unpack(w);
            && AddsAtBack(Last(run).cpus[t].queue, p, id, Last(run').cpus[t].queue)
            && (t != c ==> Last(run').cpus[t].ipi)
  {
    var s := Last(run);
    var (id, p, t) := Unpack(w);
    AddOne(s.cpus[t].queue, p, id);
    var pushed := With(s, t, s.cpus[t].(queue := s.cpus[t].queue.Push(p, id)));
    var s1 := (if t == c then pushed else With(pushed, c, s.cpus[c].(call := Waking(t))))
              .(woken := if id in s.latest && s.latest[id] == w then s.woken + {id} else s.woken);
    assert WakePush(s, s1, c, w) && StepOf(s, s1, c);
    OneStep(run, run, s1, c);
    run' := run + [s1];
    if t != c {
      var s2 := With(With(s1, c, s1.cpus[c].(call := NoCall)), t, s1.cpus[t].(ipi := true));
      assert WakeIpi(s1, s2, c) && StepOf(s1, s2, c);
      OneStep(run, run + [s1], s2, c);
      run' := run + [s1] + [s2];
    }
  }
}
