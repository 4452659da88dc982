/** The per-CPU executors of kernel/sched/src/executor.rs as one interleaved step system.

    Each locked section is one step. `tasks` and `ready_queues` have separate locks, so inserting a
    task and queueing its id, and queueing an id and sending the interrupt, are separate steps with
    anything in between. */
module Executor {
  import opened Prelude
  import opened Task
  import opened ReadyQueues
  import opened Waker

  /** Where a CPU is in `run` and `poll_ready_tasks`. */
  datatype Phase =
    | Boot                                  // before `run`: boot code may spawn and wake
    | PollLoop                              // about to pop, or to leave the poll loop
    | Popped(p: Priority, id: TaskId)       // popped an id, the entry not yet taken
    | Polling(p: Priority, id: TaskId)      // inside `future.poll`, the entry in hand
    | Returning(id: TaskId)                 // the poll answered Pending, the entry still in hand
    | Stealing                              // saw empty queues, trying to steal
    | Stolen(p: Priority, id: TaskId)       // holds a stolen entry
    | Inserted(p: Priority, id: TaskId)     // inserted the stolen entry, the id not yet queued
    | Halted                                // in `enable_interrupts_and_halt`
    | Handler                               // woken by an interrupt, running its handler

  /** A spawn or wake in progress on a CPU. */
  datatype Call =
    | NoCall
    | Spawning(p: Priority, id: TaskId)     // inserted the entry, the id not yet queued
    | Waking(target: CpuId)                 // queued the id remotely, the interrupt not yet sent

  datatype Cpu = Cpu(tasks: set<TaskId>, queue: Queues<TaskId>, phase: Phase, call: Call, ipi: bool) {

    /** Whose entry this CPU holds outside every map. */
    function Hand(): Option<TaskId> {
      match phase
      case Polling(_, id) => Some(id)
      case Returning(id) => Some(id)
      case Stolen(_, id) => Some(id)
      case _ => None
    }

    /** Futures, interrupt handlers and boot code may call into the executor. */
    predicate RunsCode() {
      call == NoCall && (phase.Polling? || phase.Handler? || phase.Boot?)
    }

    /** This CPU is bound to poll `t`, or to hand it on to a queue. */
    ghost predicate Coming(t: TaskId) {
      || (t in tasks && (
            || queue.Holds(t)
            || (phase.Popped? && phase.id == t)
            || (phase.Inserted? && phase.id == t)
            || (call.Spawning? && call.id == t)))
      || ((phase.Polling? || phase.Returning?) && phase.id == t && queue.Holds(t))
      || (phase.Stolen? && phase.id == t)
    }

    /** Past the `has_ready` check and not yet back in the loop. */
    predicate Sleepy() {
      phase.Stealing? || phase.Halted?
    }
  }

  /** What the spawner recorded about a task. */
  datatype Spawn = Spawn(p: Priority, cpu: CpuId)

  /** All CPUs together with the history the properties speak about. */
  datatype State = State(
    cpus: map<CpuId, Cpu>,
    nextId: nat,
    spawned: map<TaskId, Spawn>,    // every task ever spawned
    done: set<TaskId>,              // tasks whose future returned Ready
    issued: set<Waker>,             // every waker ever handed to a future
    latest: map<TaskId, Waker>,     // the waker of each task's most recent poll
    woken: set<TaskId>              // freshly spawned, or woken through `latest` since that poll began
  ) {
    ghost predicate Live(t: TaskId) {
      t in spawned && t !in done
    }
  }

  // ---------------------------------------------------------------------------
  // The steps. Each predicate relates the states before and after one locked section of CPU `c`.
  // ---------------------------------------------------------------------------

  /** Only CPU `c` changes, to `cpu`. */
  ghost function With(s: State, c: CpuId, cpu: Cpu): State {
    s.(cpus := s.cpus[c := cpu])
  }

  ghost predicate StartRun(s: State, s': State, c: CpuId) {
    && c in s.cpus && s.cpus[c].phase.Boot? && s.cpus[c].call == NoCall
    && s' == With(s, c, s.cpus[c].(phase := PollLoop))
  }

  ghost predicate PopTask(s: State, s': State, c: CpuId) {
    && c in s.cpus && s.cpus[c].phase.PollLoop? && s.cpus[c].queue.HasReady()
    && var (q, r) := s.cpus[c].queue.Pop();
       s' == With(s, c, s.cpus[c].(queue := q, phase := Popped(r.value.0, r.value.1)))
  }

  /** The popped id's entry is there: it is taken out, and the poll starts with a fresh waker. */
  ghost predicate TakeEntry(s: State, s': State, c: CpuId) {
    && c in s.cpus && s.cpus[c].phase.Popped? && s.cpus[c].phase.id in s.cpus[c].tasks
    && var id, p := s.cpus[c].phase.id, s.cpus[c].phase.p;
       var w := Pack(id, p, c);
       s' == With(s, c, s.cpus[c].(tasks := s.cpus[c].tasks - {id}, phase := Polling(p, id)))
             .(issued := s.issued + {w}, latest := s.latest[id := w], woken := s.woken - {id})
  }

  /** The popped id's entry is elsewhere or gone. */
  ghost predicate MissEntry(s: State, s': State, c: CpuId) {
    && c in s.cpus && s.cpus[c].phase.Popped? && s.cpus[c].phase.id !in s.cpus[c].tasks
    && s' == With(s, c, s.cpus[c].(phase := PollLoop))
  }

  ghost predicate PollReady(s: State, s': State, c: CpuId) {
    && c in s.cpus && s.cpus[c].phase.Polling? && s.cpus[c].call == NoCall
    && s' == With(s, c, s.cpus[c].(phase := PollLoop)).(done := s.done + {s.cpus[c].phase.id})
  }

  ghost predicate PollPending(s: State, s': State, c: CpuId) {
    && c in s.cpus && s.cpus[c].phase.Polling? && s.cpus[c].call == NoCall
    && s' == With(s, c, s.cpus[c].(phase := Returning(s.cpus[c].phase.id)))
  }

  ghost predicate Reinsert(s: State, s': State, c: CpuId) {
    && c in s.cpus && s.cpus[c].phase.Returning?
    && s' == With(s, c, s.cpus[c].(tasks := s.cpus[c].tasks + {s.cpus[c].phase.id}, phase := PollLoop))
  }

  /** The poll loop has ended, on empty queues or on a preemption, and `run` looks again. */
  ghost predicate CheckReady(s: State, s': State, c: CpuId) {
    && c in s.cpus && s.cpus[c].phase.PollLoop?
    && s' == With(s, c, s.cpus[c].(phase := if s.cpus[c].queue.HasReady() then PollLoop else Stealing))
  }

  /** The victim's queue lock is held while the entry is removed, so id and entry leave together. */
  ghost predicate StealTask(s: State, s': State, c: CpuId, v: CpuId) {
    && c in s.cpus && v in s.cpus && v != c && s.cpus[c].phase.Stealing?
    && var (q, r) := s.cpus[v].queue.StealOne();
       && r.Some? && r.value.1 in s.cpus[v].tasks
       && s' == With(With(s, v, s.cpus[v].(queue := q, tasks := s.cpus[v].tasks - {r.value.1})),
                     c, s.cpus[c].(phase := Stolen(r.value.0, r.value.1)))
  }

  /** The entry is out for polling or its map is contended: the id goes back. */
  ghost predicate StealPutsBack(s: State, s': State, c: CpuId, v: CpuId) {
    && c in s.cpus && v in s.cpus && v != c && s.cpus[c].phase.Stealing?
    && var (q, r) := s.cpus[v].queue.StealOne();
       && r.Some?
       && s' == With(s, v, s.cpus[v].(queue := q.Push(r.value.0, r.value.1)))
  }

  ghost predicate InsertStolen(s: State, s': State, c: CpuId) {
    && c in s.cpus && s.cpus[c].phase.Stolen?
    && var id, p := s.cpus[c].phase.id, s.cpus[c].phase.p;
       s' == With(s, c, s.cpus[c].(tasks := s.cpus[c].tasks + {id}, phase := Inserted(p, id)))
  }

  ghost predicate PushStolen(s: State, s': State, c: CpuId) {
    && c in s.cpus && s.cpus[c].phase.Inserted?
    && var id, p := s.cpus[c].phase.id, s.cpus[c].phase.p;
       s' == With(s, c, s.cpus[c].(queue := s.cpus[c].queue.Push(p, id), phase := PollLoop))
  }

  ghost predicate Halt(s: State, s': State, c: CpuId) {
    && c in s.cpus && s.cpus[c].phase.Stealing?
    && s' == With(s, c, s.cpus[c].(phase := Halted))
  }

  /** Any interrupt ends the halt; a pending wake interrupt may be the one taken. */
  ghost predicate Interrupt(s: State, s': State, c: CpuId, clears: bool) {
    && c in s.cpus && s.cpus[c].phase.Halted?
    && s' == With(s, c, s.cpus[c].(phase := Handler, ipi := s.cpus[c].ipi && !clears))
  }

  ghost predicate HandlerDone(s: State, s': State, c: CpuId) {
    && c in s.cpus && s.cpus[c].phase.Handler? && s.cpus[c].call == NoCall
    && s' == With(s, c, s.cpus[c].(phase := PollLoop))
  }

  /** A pending wake interrupt is taken while a polled task runs user code. */
  ghost predicate UserInterrupt(s: State, s': State, c: CpuId) {
    && c in s.cpus && s.cpus[c].phase.Polling? && s.cpus[c].call == NoCall
    && s' == With(s, c, s.cpus[c].(ipi := false))
  }

  ghost predicate SpawnInsert(s: State, s': State, c: CpuId, p: Priority) {
    && c in s.cpus && s.cpus[c].RunsCode() && s.nextId < ID_LIMIT
    && var id := s.nextId;
       s' == With(s, c, s.cpus[c].(tasks := s.cpus[c].tasks + {id}, call := Spawning(p, id)))
             .(nextId := s.nextId + 1, spawned := s.spawned[id := Spawn(p, c)], woken := s.woken + {id})
  }

  ghost predicate SpawnPush(s: State, s': State, c: CpuId) {
    && c in s.cpus && s.cpus[c].call.Spawning?
    && var id, p := s.cpus[c].call.id, s.cpus[c].call.p;
       s' == With(s, c, s.cpus[c].(queue := s.cpus[c].queue.Push(p, id), call := NoCall))
  }

  /** Any waker ever handed out may fire, on any CPU that runs code, at any time. */
  ghost predicate WakePush(s: State, s': State, c: CpuId, w: Waker) {
    && c in s.cpus && s.cpus[c].RunsCode() && w in s.issued && Target(w) in s.cpus
    && var (id, p, t) := Unpack(w);
       var pushed := With(s, t, s.cpus[t].(queue := s.cpus[t].queue.Push(p, id)));
       s' == (if t == c then pushed else With(pushed, c, s.cpus[c].(call := Waking(t))))
             .(woken := if id in s.latest && s.latest[id] == w then s.woken + {id} else s.woken)
  }

  ghost predicate WakeIpi(s: State, s': State, c: CpuId) {
    && c in s.cpus && s.cpus[c].call.Waking? && s.cpus[c].call.target in s.cpus && s.cpus[c].call.target != c
    && var t := s.cpus[c].call.target;
       s' == With(With(s, c, s.cpus[c].(call := NoCall)), t, s.cpus[t].(ipi := true))
  }

  /** The steps that only turn the CPU from one phase to another. */
  ghost predicate QuietStep(s: State, s': State, c: CpuId) {
    || StartRun(s, s', c) || MissEntry(s, s', c) || PollPending(s, s', c) || CheckReady(s, s', c)
    || Halt(s, s', c) || Interrupt(s, s', c, true) || Interrupt(s, s', c, false) || HandlerDone(s, s', c)
    || UserInterrupt(s, s', c)
  }

  ghost predicate StepOf(s: State, s': State, c: CpuId) {
    || QuietStep(s, s', c) || WakeIpi(s, s', c)
    || PopTask(s, s', c) || TakeEntry(s, s', c) || PollReady(s, s', c) || Reinsert(s, s', c)
    || InsertStolen(s, s', c) || PushStolen(s, s', c) || SpawnPush(s, s', c)
    || (exists v :: StealTask(s, s', c, v)) || (exists v :: StealPutsBack(s, s', c, v))
    || (exists p :: SpawnInsert(s, s', c, p)) || (exists w :: WakePush(s, s', c, w))
  }

  ghost predicate Next(s: State, s': State) {
    exists c :: StepOf(s, s', c)
  }

  /** Every CPU booting with an empty executor and nothing spawned. */
  ghost predicate Init(s: State) {
    && (forall c :: c in s.cpus ==> s.cpus[c] == Cpu({}, Empty(), Boot, NoCall, false))
    && s.nextId == 0 && s.spawned == map[] && s.done == {} && s.issued == {} && s.latest == map[] && s.woken == {}
  }

  /** A run: an initial state followed by one step after another. */
  ghost predicate IsRun(run: seq<State>) {
    && run != [] && Init(run[0])
    && forall i :: 0 <= i < |run| - 1 ==> Next(run[i], run[i + 1])
  }

  /** Every CPU number fits the waker's six-bit field. */
  ghost predicate NarrowCpus(s: State) {
    forall c :: c in s.cpus ==> c < CPU_LIMIT
  }

  // ---------------------------------------------------------------------------
  // The properties
  // ---------------------------------------------------------------------------

  /** No wake is lost. */
  ghost predicate NoLostWake(s: State) {
    forall t :: s.Live(t) && t in s.woken ==> exists c :: c in s.cpus && s.cpus[c].Coming(t)
  }

  /** A place where the entry of a task can be. */
  datatype Holder = InMap(c: CpuId) | InHand(c: CpuId)

  ghost predicate Holds(s: State, h: Holder, t: TaskId) {
    && h.c in s.cpus
    && match h
       case InMap(c) => t in s.cpus[c].tasks
       case InHand(c) => s.cpus[c].Hand() == Some(t)
  }

  /** Each live task's entry is in exactly one place, and no other entry exists. */
  ghost predicate SingleOwner(s: State) {
    && (forall t :: s.Live(t) ==> exists h :: Holds(s, h, t))
    && (forall t, h, h' :: Holds(s, h, t) && Holds(s, h', t) ==> h == h')
    && (forall t, h :: Holds(s, h, t) ==> s.Live(t))
  }

  /** A CPU on its way to sleep with queued work has an interrupt pending or about to be sent by another CPU. */
  ghost predicate NoSleepOnWork(s: State) {
    forall c :: c in s.cpus && s.cpus[c].Sleepy() && s.cpus[c].queue.HasReady() ==>
      s.cpus[c].ipi || exists d :: d in s.cpus && d != c && s.cpus[d].call == Waking(c)
  }

  /** Critical tasks never leave the CPU that spawned them, and every poll runs at the spawn priority. */
  ghost predicate TiersRespected(s: State) {
    && (forall t, h :: Holds(s, h, t) && t in s.spawned && s.spawned[t].p == Critical ==> h.c == s.spawned[t].cpu)
    && (forall c :: c in s.cpus && s.cpus[c].phase.Polling? ==>
          s.cpus[c].phase.id in s.spawned && s.cpus[c].phase.p == s.spawned[s.cpus[c].phase.id].p)
  }
}
