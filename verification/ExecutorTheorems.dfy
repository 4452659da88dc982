/** What every run of the executors guarantees. */
module ExecutorTheorems {
  import opened Prelude
  import opened Task
  import opened ReadyQueues
  import opened Waker
  import opened Executor
  import opened ExecutorProofs

  function Last(run: seq<State>): State
    requires run != []
  {
    run[|run| - 1]
  }

  lemma InitIsGood(s: State)
    requires Init(s)
    ensures Base(s, map[]) && (NarrowCpus(s) ==> Routed(s, map[]))
  {
    forall h, t
      ensures !Holds(s, h, t)
    {
    }
    if NarrowCpus(s) {
      forall c | c in s.cpus
        ensures CpuTiers(s.spawned, s.cpus[c])
      {
      }
    }
  }

  lemma RunPrefix(run: seq<State>)
    requires IsRun(run) && |run| > 1
    ensures IsRun(run[..|run| - 1])
  {
    var front := run[..|run| - 1];
    forall i | 0 <= i < |front| - 1
      ensures Next(front[i], front[i + 1])
    {
      assert front[i] == run[i] && front[i + 1] == run[i + 1];
    }
  }

  /** The invariants hold at the end of every run. */
  lemma {:induction false} RunKeeps(run: seq<State>) returns (home: map<TaskId, Holder>)
    requires IsRun(run)
    ensures Base(Last(run), home) && (NarrowCpus(run[0]) ==> Routed(Last(run), home))
    ensures Last(run).cpus.Keys == run[0].cpus.Keys
  {
    if |run| == 1 {
      InitIsGood(run[0]);
      home := map[];
    } else {
      var front := run[..|run| - 1];
      RunPrefix(run);
      var h := RunKeeps(front);
      assert Next(run[|run| - 2], run[|run| - 1]);
      home := StepKeeps(Last(front), Last(run), h);
    }
  }

  /** Each unfinished task's entry exists exactly once over all task maps, polls and steals in flight,
      however many CPUs there are. */
  lemma SingleOwnership(run: seq<State>)
    requires IsRun(run)
    ensures SingleOwner(Last(run))
  {
    var home := RunKeeps(run);
    var s := Last(run);
    forall t | s.Live(t)
      ensures exists h :: Holds(s, h, t)
    {
      assert Holds(s, home[t], t);
    }
  }

  /** No CPU goes to sleep, or stays asleep, on queued work without an interrupt on its way to it. */
  lemma NoCpuSleepsOnWork(run: seq<State>)
    requires IsRun(run)
    ensures NoSleepOnWork(Last(run))
  {
    var home := RunKeeps(run);
  }

  /** Critical tasks are never migrated, and every poll runs at its spawn priority. */
  lemma TiersAreRespected(run: seq<State>)
    requires IsRun(run) && NarrowCpus(run[0])
    ensures TiersRespected(Last(run))
  {
    var home := RunKeeps(run);
    var s := Last(run);
    forall c | c in s.cpus && s.cpus[c].phase.Polling?
      ensures s.cpus[c].phase.id in s.spawned && s.cpus[c].phase.p == s.spawned[s.cpus[c].phase.id].p
    {
      assert CpuTiers(s.spawned, s.cpus[c]);
    }
  }

  /** While CPU numbers fit six bits, no wake is lost. */
  lemma NoWakeIsLost(run: seq<State>)
    requires IsRun(run) && NarrowCpus(run[0])
    ensures NoLostWake(Last(run))
  {
    var home := RunKeeps(run);
    var s := Last(run);
    forall t | s.Live(t) && t in s.woken
      ensures exists c :: c in s.cpus && s.cpus[c].Coming(t)
    {
      assert TaskProgress(s, home, t);
    }
  }

  /** Ids are never reused: a spawn names a task no earlier spawn named. */
  lemma SpawnIdsAreFresh(run: seq<State>, s': State, c: CpuId, p: Priority)
    requires IsRun(run) && SpawnInsert(Last(run), s', c, p)
    ensures Last(run).nextId !in Last(run).spawned && s'.spawned.Keys == Last(run).spawned.Keys + {Last(run).nextId}
  {
    var home := RunKeeps(run);
  }

  lemma DoneGrows(s: State, s': State)
    requires Next(s, s')
    ensures s.done <= s'.done
  {
  }

  lemma {:induction false} DoneStaysDone(run: seq<State>, i: nat, t: TaskId)
    requires IsRun(run) && i < |run| && t in run[i].done
    ensures t in Last(run).done
    decreases |run| - i
  {
    if i + 1 < |run| {
      assert Next(run[i], run[i + 1]);
      DoneGrows(run[i], run[i + 1]);
      DoneStaysDone(run, i + 1, t);
    }
  }

  /** No two CPUs ever poll the same task, and a task that completed at any earlier point of the run is
      never polled again, even if its id is still queued somewhere. */
  lemma PollsAreExclusive(run: seq<State>, c: CpuId, d: CpuId)
    requires IsRun(run)
    requires c in Last(run).cpus && d in Last(run).cpus
    requires Last(run).cpus[c].phase.Polling? && Last(run).cpus[d].phase.Polling?
    requires Last(run).cpus[c].phase.id == Last(run).cpus[d].phase.id
    ensures c == d
    ensures forall i :: 0 <= i < |run| ==> Last(run).cpus[c].phase.id !in run[i].done
  {
    SingleOwnership(run);
    var s := Last(run);
    var t := s.cpus[c].phase.id;
    assert Holds(s, InHand(c), t) && Holds(s, InHand(d), t);
    forall i | 0 <= i < |run|
      ensures t !in run[i].done
    {
      if t in run[i].done {
        DoneStaysDone(run, i, t);
      }
    }
  }

  // ---------------------------------------------------------------------------
  // Past sixty-four CPUs
  // ---------------------------------------------------------------------------

  lemma RunExtends(run: seq<State>, s': State)
    requires IsRun(run) && Next(Last(run), s')
    ensures IsRun(run + [s']) && Last(run + [s']) == s'
  {
    var longer := run + [s'];
    forall i | 0 <= i < |longer| - 1
      ensures Next(longer[i], longer[i + 1])
    {
      if i == |run| - 1 {
        assert longer[i] == Last(run) && longer[i + 1] == s';
      } else {
        assert longer[i] == run[i] && longer[i + 1] == run[i + 1];
      }
    }
  }

  ghost function BootState(cpus: set<CpuId>): (s: State)
    ensures Init(s) && s.cpus.Keys == cpus
  {
    State(map c | c in cpus :: Cpu({}, Empty(), Boot, NoCall, false), 0, map[], {}, {}, map[], {})
  }

  const IDLE := Cpu({}, Empty(), Boot, NoCall, false)

  /** CPU `c` spawned task 0 and is polling it for the first time; the other CPUs are still booting. */
  ghost predicate FirstPoll(s: State, cpus: set<CpuId>, c: CpuId) {
    var w := Pack(0, Normal, c);
    && s.cpus.Keys == cpus && c in cpus
    && (forall d :: d in cpus && d != c ==> s.cpus[d] == IDLE)
    && s.cpus[c] == IDLE.(phase := Polling(Normal, 0))
    && s.spawned == map[0 := Spawn(Normal, c)] && s.done == {}
    && s.issued == {w} && s.latest == map[0 := w]
  }

  lemma ReachSpawned(cpus: set<CpuId>, c: CpuId) returns (run: seq<State>, s: State)
    requires c in cpus
    ensures IsRun(run) && run[0].cpus.Keys == cpus && s == Last(run)
    ensures s == With(BootState(cpus), c, IDLE.(tasks := {0}, queue := Queues([], [0], [], 0)))
                 .(nextId := 1, spawned := map[0 := Spawn(Normal, c)], woken := {0})
  {
    var s0 := BootState(cpus);
    var s1 := With(s0, c, IDLE.(tasks := {0}, call := Spawning(Normal, 0)))
              .(nextId := 1, spawned := map[0 := Spawn(Normal, c)], woken := {0});
    assert {} + {0} == {0};
    assert SpawnInsert(s0, s1, c, Normal);
    s := With(s1, c, IDLE.(tasks := {0}, queue := Queues([], [0], [], 0)));
    assert Empty<TaskId>().Push(Normal, 0) == Queues([], [0], [], 0);
    assert SpawnPush(s1, s, c);
    assert StepOf(s0, s1, c) && StepOf(s1, s, c);
    run := [s0];
    RunExtends(run, s1);
    run := run + [s1];
    RunExtends(run, s);
    run := run + [s];
  }

  lemma ReachFirstPoll(cpus: set<CpuId>, c: CpuId) returns (run: seq<State>)
    requires c in cpus
    ensures IsRun(run) && run[0].cpus.Keys == cpus && FirstPoll(Last(run), cpus, c)
  {
    var s2;
    run, s2 := ReachSpawned(cpus, c);
    var q := Queues([], [0], [], 0);
    var s3 := With(s2, c, IDLE.(tasks := {0}, queue := q, phase := PollLoop));
    assert StartRun(s2, s3, c);
    var s4 := With(s3, c, IDLE.(tasks := {0}, phase := Popped(Normal, 0)));
    assert q.normal[1..] == [];
    assert q.Pop() == (Empty(), Some((Normal, 0)));
    assert PopTask(s3, s4, c);
    var w := Pack(0, Normal, c);
    var s5 := With(s4, c, IDLE.(phase := Polling(Normal, 0))).(issued := {w}, latest := map[0 := w], woken := {});
    assert {0} - {0} == {} && {} + {w} == {w};
    assert TakeEntry(s4, s5, c);
    assert StepOf(s2, s3, c) && StepOf(s3, s4, c) && StepOf(s4, s5, c);
    RunExtends(run, s3);
    run := run + [s3];
    RunExtends(run, s4);
    run := run + [s4];
    RunExtends(run, s5);
    run := run + [s5];
  }

  /** The polled task wakes itself; its waker names another CPU, which gets the id. */
  lemma SelfWake(s: State, cpus: set<CpuId>, c: CpuId) returns (s': State)
    requires FirstPoll(s, cpus, c) && c >= CPU_LIMIT && c % 256 % 64 in cpus
    ensures StepOf(s, s', c) && s'.Live(0) && 0 in s'.woken
    ensures s'.cpus.Keys == cpus && s'.cpus[c] == s.cpus[c].(call := Waking(c % 256 % 64))
    ensures forall d :: d in cpus && d != c ==> s'.cpus[d].(queue := Empty()) == IDLE
  {
    var w := Pack(0, Normal, c);
    UnpackFields(0, Normal, c);
    var (_, p, d) := Unpack(w);
    s' := With(With(s, d, IDLE.(queue := Empty().Push(p, 0))), c, s.cpus[c].(call := Waking(d)))
          .(woken := s.woken + {0});
    assert WakePush(s, s', c, w);
  }

  /** On a CPU numbered 64 or above, a task that wakes itself while it is polled is queued on another CPU
      that does not have it: the wake is lost. */
  lemma LostWake(cpus: set<CpuId>, c: CpuId) returns (run: seq<State>)
    requires c in cpus && c >= CPU_LIMIT && c % 256 % 64 in cpus
    ensures IsRun(run) && run[0].cpus.Keys == cpus
    ensures !NoLostWake(Last(run))
  {
    run := ReachFirstPoll(cpus, c);
    var s := SelfWake(Last(run), cpus, c);
    RunExtends(run, s);
    run := run + [s];
    NobodyHasIt(s, cpus, c);
  }

  /** The CPU that polls the task does not have its id, and the others do not have the task. */
  lemma NobodyHasIt(s: State, cpus: set<CpuId>, c: CpuId)
    requires s.cpus.Keys == cpus && c in cpus && s.Live(0) && 0 in s.woken
    requires s.cpus[c].tasks == {} && s.cpus[c].queue == Empty() && s.cpus[c].phase.Polling?
    requires forall d :: d in cpus && d != c ==> s.cpus[d].(queue := Empty()) == IDLE
    ensures !NoLostWake(s)
  {
    forall x | x in s.cpus
      ensures !s.cpus[x].Coming(0)
    {
      assert x != c ==> s.cpus[x].(queue := Empty()).phase == Boot;
    }
  }

  /** No wake is ever lost exactly when every CPU number fits the waker's six-bit field. */
  lemma NoWakeLostIffSixBits(cpus: set<CpuId>)
    requires forall c :: c in cpus ==> c % 256 % 64 in cpus
    ensures (forall run: seq<State> :: IsRun(run) && run[0].cpus.Keys == cpus ==> NoLostWake(Last(run)))
       <==> forall c :: c in cpus ==> c < CPU_LIMIT
  {
    if forall c :: c in cpus ==> c < CPU_LIMIT {
      forall run: seq<State> | IsRun(run) && run[0].cpus.Keys == cpus
        ensures NoLostWake(Last(run))
      {
        NoWakeIsLost(run);
      }
    } else {
      var c :| c in cpus && c >= CPU_LIMIT;
      var run := LostWake(cpus, c);
    }
  }
}
