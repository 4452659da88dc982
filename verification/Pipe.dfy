/** The pipe of kernel/ipc/src/pipe.rs as a step relation. Any number of tasks share the one reader handle and
    the one writer handle; a task holding the buffer lock can be interleaved with everything that does not need
    the lock, in particular with the handles being dropped. */
module Pipe {
  import opened Prelude
  import CircularBuffer

  type TaskId = nat

  const PIPE_BUF_SIZE := 64 * 1024

  /** Where a task is inside `read` or `write`. In `FoundEmpty` and `Admitted` it holds the buffer lock. */
  datatype Pc =
    | Idle
    | Reading(want: nat)
    | FoundEmpty(want: nat)
    | Writing(buf: seq<byte>)
    | Admitted(buf: seq<byte>)

  datatype State = State(
    data: seq<byte>,            // contents of the circular buffer
    readers: nat,
    writers: nat,
    tasks: map<TaskId, Pc>,
    lock: Option<TaskId>,
    written: seq<byte>,         // every byte that ever entered the buffer
    taken: seq<byte>            // every byte that ever left it
  ) {
    ghost function At(t: TaskId): Pc {
      if t in tasks then tasks[t] else Idle
    }

    ghost function Move(t: TaskId, pc: Pc): State {
      this.(tasks := tasks[t := pc])
    }
  }

  datatype Event =
    | CallRead(task: TaskId, want: nat)
    | ReadBytes(task: TaskId, bytes: seq<byte>)
    | FindEmpty(task: TaskId)
    | ReadEof(task: TaskId)
    | ReadRetry(task: TaskId)
    | CallWrite(task: TaskId, buf: seq<byte>)
    | RefuseWrite(task: TaskId)
    | AdmitWrite(task: TaskId)
    | WriteBytes(task: TaskId, n: nat)
    | WriteRetry(task: TaskId)
    | Abandon(task: TaskId)
    | DropReader
    | DropWriter

  ghost predicate Init(s: State) {
    s == State([], 1, 1, map[], None, [], [])
  }

  // ---------------------------------------------------------------------------
  // Reader steps
  // ---------------------------------------------------------------------------

  ghost predicate DoCallRead(s: State, s': State, t: TaskId, want: nat) {
    s.readers > 0 && s.At(t) == Idle && s' == s.Move(t, Reading(want))
  }

  /** Lock, copy out of a non-empty buffer, unlock, return. */
  ghost predicate DoReadBytes(s: State, s': State, t: TaskId, bytes: seq<byte>) {
    && s.At(t).Reading? && s.lock == None && s.data != []
    && var n := Min(s.At(t).want, |s.data|);
    && bytes == s.data[..n]
    && s' == s.Move(t, Idle).(data := s.data[n..], taken := s.taken + bytes)
  }

  /** Lock and find the buffer empty. */
  ghost predicate DoFindEmpty(s: State, s': State, t: TaskId) {
    && s.At(t).Reading? && s.lock == None && s.data == []
    && s' == s.Move(t, FoundEmpty(s.At(t).want)).(lock := Some(t))
  }

  /** Load the writer count, still under the lock: zero ends the read with no bytes. */
  ghost predicate DoReadEof(s: State, s': State, t: TaskId) {
    s.At(t).FoundEmpty? && s.writers == 0 && s' == s.Move(t, Idle).(lock := None)
  }

  ghost predicate DoReadRetry(s: State, s': State, t: TaskId) {
    s.At(t).FoundEmpty? && s.writers > 0 && s' == s.Move(t, Reading(s.At(t).want)).(lock := None)
  }

  // ---------------------------------------------------------------------------
  // Writer steps
  // ---------------------------------------------------------------------------

  ghost predicate DoCallWrite(s: State, s': State, t: TaskId, buf: seq<byte>) {
    s.writers > 0 && s.At(t) == Idle && s' == s.Move(t, Writing(buf))
  }

  /** Lock, load a zero reader count, fail with a broken pipe. */
  ghost predicate DoRefuseWrite(s: State, s': State, t: TaskId) {
    s.At(t).Writing? && s.lock == None && s.readers == 0 && s' == s.Move(t, Idle)
  }

  /** Lock and load a non-zero reader count. */
  ghost predicate DoAdmitWrite(s: State, s': State, t: TaskId) {
    && s.At(t).Writing? && s.lock == None && s.readers > 0
    && s' == s.Move(t, Admitted(s.At(t).buf)).(lock := Some(t))
  }

  /** Still under the lock, copy into a buffer that is not full, unlock, return. */
  ghost predicate DoWriteBytes(s: State, s': State, t: TaskId, n: nat) {
    && s.At(t).Admitted? && |s.data| < PIPE_BUF_SIZE
    && n == Min(|s.At(t).buf|, PIPE_BUF_SIZE - |s.data|)
    && var bytes := s.At(t).buf[..n];
    && s' == s.Move(t, Idle).(lock := None, data := s.data + bytes, written := s.written + bytes)
  }

  ghost predicate DoWriteRetry(s: State, s': State, t: TaskId) {
    && s.At(t).Admitted? && |s.data| == PIPE_BUF_SIZE
    && s' == s.Move(t, Writing(s.At(t).buf)).(lock := None)
  }

  // ---------------------------------------------------------------------------
  // Handles
  // ---------------------------------------------------------------------------

  /** The future is dropped while it waits. */
  ghost predicate DoAbandon(s: State, s': State, t: TaskId) {
    (s.At(t).Reading? || s.At(t).Writing?) && s' == s.Move(t, Idle)
  }

  /** A handle is dropped only when no call borrows it; the lock is not taken. */
  ghost predicate DoDropReader(s: State, s': State) {
    && s.readers > 0 && (forall t: TaskId :: !s.At(t).Reading? && !s.At(t).FoundEmpty?)
    && s' == s.(readers := s.readers - 1)
  }

  ghost predicate DoDropWriter(s: State, s': State) {
    && s.writers > 0 && (forall t: TaskId :: !s.At(t).Writing? && !s.At(t).Admitted?)
    && s' == s.(writers := s.writers - 1)
  }

  ghost predicate Next(s: State, e: Event, s': State) {
    match e
    case CallRead(t, want) => DoCallRead(s, s', t, want)
    case ReadBytes(t, bytes) => DoReadBytes(s, s', t, bytes)
    case FindEmpty(t) => DoFindEmpty(s, s', t)
    case ReadEof(t) => DoReadEof(s, s', t)
    case ReadRetry(t) => DoReadRetry(s, s', t)
    case CallWrite(t, buf) => DoCallWrite(s, s', t, buf)
    case RefuseWrite(t) => DoRefuseWrite(s, s', t)
    case AdmitWrite(t) => DoAdmitWrite(s, s', t)
    case WriteBytes(t, n) => DoWriteBytes(s, s', t, n)
    case WriteRetry(t) => DoWriteRetry(s, s', t)
    case Abandon(t) => DoAbandon(s, s', t)
    case DropReader => DoDropReader(s, s')
    case DropWriter => DoDropWriter(s, s')
  }

  /** A run from `states[0]`; step `i` is `events[i]`. */
  ghost predicate IsRun(states: seq<State>, events: seq<Event>) {
    |states| == |events| + 1 && forall i :: 0 <= i < |events| ==> StepAt(states, events, i)
  }

  ghost predicate StepAt(states: seq<State>, events: seq<Event>, i: nat)
    requires |states| == |events| + 1 && i < |events|
  {
    Next(states[i], events[i], states[i + 1])
  }

  // ---------------------------------------------------------------------------
  // The locked sections on the real buffer
  // ---------------------------------------------------------------------------

  /** The buffer holds what the state says. */
  ghost predicate Holds(b: CircularBuffer.CircularBuffer, s: State)
    reads b, b.data
  {
    b.Valid() && b.data.Length == PIPE_BUF_SIZE && b.Contents() == s.data
  }

  /** The reader's locked section takes one of its steps: bytes out of a non-empty buffer, or empty-handed. */
  method ReadLocked(b: CircularBuffer.CircularBuffer, buf: array<byte>, ghost s: State, ghost t: TaskId)
    returns (r: Option<nat>, ghost s': State)
    requires Holds(b, s) && buf != b.data && s.At(t) == Reading(buf.Length) && s.lock == None
    modifies b, buf
    ensures Holds(b, s')
    ensures r.Some? ==> r.value <= buf.Length && DoReadBytes(s, s', t, buf[..r.value])
    ensures r == None ==> DoFindEmpty(s, s', t) && buf[..] == old(buf[..])
  {
    if b.count != 0 {
      var n := b.Read(buf);
      s' := s.Move(t, Idle).(data := s.data[n..], taken := s.taken + buf[..n]);
      return Some(n), s';
    }
    s' := s.Move(t, FoundEmpty(buf.Length)).(lock := Some(t));
    return None, s';
  }

  /** The writer's section after the reader check takes one of its steps. */
  method WriteLocked(b: CircularBuffer.CircularBuffer, buf: seq<byte>, ghost s: State, ghost t: TaskId)
    returns (r: Option<nat>, ghost s': State)
    requires Holds(b, s) && s.At(t) == Admitted(buf)
    modifies b, b.data
    ensures Holds(b, s')
    ensures r.Some? ==> DoWriteBytes(s, s', t, r.value)
    ensures r == None ==> DoWriteRetry(s, s', t)
  {
    if b.count != b.data.Length {
      var n := b.Write(buf);
      s' := s.Move(t, Idle).(lock := None, data := s.data + buf[..n], written := s.written + buf[..n]);
      return Some(n), s';
    }
    s' := s.Move(t, Writing(buf)).(lock := None);
    return None, s';
  }

  // ---------------------------------------------------------------------------
  // What every step keeps
  // ---------------------------------------------------------------------------

  ghost predicate Locked(s: State) {
    forall t: TaskId :: s.At(t).FoundEmpty? || s.At(t).Admitted? <==> s.lock == Some(t)
  }

  ghost predicate Stream(s: State) {
    && s.taken + s.data == s.written && |s.data| <= PIPE_BUF_SIZE
    && (forall t: TaskId :: s.At(t).FoundEmpty? ==> s.data == [])
  }

  /** Calls borrow a live handle. */
  ghost predicate Borrows(s: State) {
    && (s.writers == 0 ==> forall t: TaskId :: !s.At(t).Writing? && !s.At(t).Admitted?)
    && (s.readers == 0 ==> forall t: TaskId :: !s.At(t).Reading? && !s.At(t).FoundEmpty?)
  }

  ghost predicate Inv(s: State) {
    Locked(s) && Stream(s) && Borrows(s)
  }

  lemma StepKeepsLocked(s: State, e: Event, s': State)
    requires Locked(s) && Next(s, e, s')
    ensures Locked(s')
  {
  }

  lemma StepKeepsBorrows(s: State, e: Event, s': State)
    requires Borrows(s) && Next(s, e, s')
    ensures Borrows(s')
  {
    forall t: TaskId
      ensures s'.writers == 0 ==> !s'.At(t).Writing? && !s'.At(t).Admitted?
      ensures s'.readers == 0 ==> !s'.At(t).Reading? && !s'.At(t).FoundEmpty?
    {
      assert s'.At(t) == s.At(t) || (!e.DropReader? && !e.DropWriter? && e.task == t);
    }
  }

  lemma StepKeepsStream(s: State, e: Event, s': State)
    requires Locked(s) && Stream(s) && Next(s, e, s')
    ensures Stream(s')
  {
    if e.ReadBytes? {
      assert s.data == e.bytes + s.data[|e.bytes|..];
      assert s'.taken + s'.data == s.taken + s.data;
    } else if e.WriteBytes? {
      assert s'.taken + s'.data == s.taken + s.data + s.At(e.task).buf[..e.n];
    }
    forall t: TaskId | s'.At(t).FoundEmpty?
      ensures s'.data == []
    {
      assert s'.At(t) == s.At(t) || e == FindEmpty(t);
    }
  }

  lemma {:induction false} RunKeeps(states: seq<State>, events: seq<Event>, i: nat)
    requires IsRun(states, events) && Inv(states[0]) && i < |states|
    ensures Inv(states[i])
  {
    if i > 0 {
      RunKeeps(states, events, i - 1);
      assert StepAt(states, events, i - 1);
      StepKeepsLocked(states[i - 1], events[i - 1], states[i]);
      StepKeepsBorrows(states[i - 1], events[i - 1], states[i]);
      StepKeepsStream(states[i - 1], events[i - 1], states[i]);
    }
  }

  // ---------------------------------------------------------------------------
  // One byte stream
  // ---------------------------------------------------------------------------

  /** In every state of every run the bytes read so far, then the buffer, are the bytes written so far. */
  lemma PipeIsOneStream(states: seq<State>, events: seq<Event>, i: nat)
    requires IsRun(states, events) && Init(states[0]) && i < |states|
    ensures states[i].taken + states[i].data == states[i].written && |states[i].data| <= PIPE_BUF_SIZE
  {
    RunKeeps(states, events, i);
  }

  /** All writers are gone and everything written has been read. */
  ghost predicate Ended(s: State, written: seq<byte>) {
    s.writers == 0 && s.data == [] && s.taken == s.written == written
  }

  lemma StepKeepsEnded(s: State, e: Event, s': State)
    requires Inv(s) && Ended(s, s.written) && Next(s, e, s')
    ensures Ended(s', s.written)
  {
  }

  lemma {:induction false} EndedForever(states: seq<State>, events: seq<Event>, i: nat, j: nat)
    requires IsRun(states, events) && Inv(states[0]) && i <= j < |states| && Ended(states[i], states[i].written)
    ensures Ended(states[j], states[i].written)
  {
    if i < j {
      EndedForever(states, events, i, j - 1);
      RunKeeps(states, events, j - 1);
      assert StepAt(states, events, j - 1);
      StepKeepsEnded(states[j - 1], events[j - 1], states[j]);
    }
  }

  /** The step returns no bytes to a task that asked for some. */
  ghost predicate ReturnsNothing(s: State, e: Event) {
    match e
    case ReadBytes(t, bytes) => bytes == [] && s.At(t).Reading? && s.At(t).want > 0
    case ReadEof(t) => s.At(t).FoundEmpty? && s.At(t).want > 0
    case _ => false
  }

  /** A read that asks for bytes and gets none marks the end of the stream, from then on. */
  lemma EmptyReadIsEndOfStream(states: seq<State>, events: seq<Event>, i: nat, j: nat)
    requires IsRun(states, events) && Init(states[0]) && i < |events| && ReturnsNothing(states[i], events[i])
    requires i <= j < |states|
    ensures Ended(states[j], states[i].written)
  {
    RunKeeps(states, events, i);
    assert StepAt(states, events, i);
    var s := states[i];
    assert events[i].ReadEof?;
    assert s.taken + [] == s.taken;
    EndedForever(states, events, i, j);
  }

  // ---------------------------------------------------------------------------
  // After the last reader
  // ---------------------------------------------------------------------------

  /** A writer that loaded a non-zero reader count before the drop is still under the lock, with bytes to copy
      and room for them. */
  ghost predicate LateWriter(s: State) {
    && s.lock.Some? && s.At(s.lock.value).Admitted?
    && s.At(s.lock.value).buf != [] && |s.data| < PIPE_BUF_SIZE
  }

  ghost predicate NothingEnters(s: State) {
    forall states: seq<State>, events: seq<Event>, i: nat ::
      IsRun(states, events) && states[0] == s && i < |states| ==> states[i].written == s.written
  }

  ghost predicate Shut(s: State) {
    s.readers == 0 && !LateWriter(s)
  }

  lemma StepKeepsShut(s: State, e: Event, s': State)
    requires Inv(s) && Shut(s) && Next(s, e, s')
    ensures Shut(s') && s'.written == s.written
  {
    match e
    case WriteBytes(t, n) =>
      assert s.lock == Some(t);
      assert s.At(t).buf[..n] == [];
    case _ =>
  }

  lemma {:induction false} ShutForever(states: seq<State>, events: seq<Event>, i: nat)
    requires IsRun(states, events) && Inv(states[0]) && Shut(states[0]) && i < |states|
    ensures Shut(states[i]) && states[i].written == states[0].written
  {
    if i > 0 {
      ShutForever(states, events, i - 1);
      RunKeeps(states, events, i - 1);
      assert StepAt(states, events, i - 1);
      StepKeepsShut(states[i - 1], events[i - 1], states[i]);
    }
  }

  /** Once the readers are gone, no byte ever enters exactly when no late writer is under the lock. */
  lemma NothingEntersIffNoLateWriter(s: State)
    requires Inv(s) && s.readers == 0
    ensures NothingEnters(s) <==> !LateWriter(s)
  {
    if LateWriter(s) {
      var t := s.lock.value;
      var n := Min(|s.At(t).buf|, PIPE_BUF_SIZE - |s.data|);
      var bytes := s.At(t).buf[..n];
      var s' := s.Move(t, Idle).(lock := None, data := s.data + bytes, written := s.written + bytes);
      var states, events := [s, s'], [WriteBytes(t, n)];
      assert StepAt(states, events, 0);
      assert IsRun(states, events) && states[1].written != s.written;
    } else {
      forall states: seq<State>, events: seq<Event>, i: nat | IsRun(states, events) && states[0] == s && i < |states|
        ensures states[i].written == s.written
      {
        ShutForever(states, events, i);
      }
    }
  }

  /** Without readers no further write is admitted, and after one late write the pipe is shut. */
  lemma AtMostOneLateWrite(s: State, e: Event, s': State)
    requires Inv(s) && s.readers == 0 && Next(s, e, s')
    ensures s'.readers == 0 && !e.AdmitWrite?
    ensures s'.written != s.written ==> Shut(s')
  {
  }

  // ---------------------------------------------------------------------------
  // Broken pipes
  // ---------------------------------------------------------------------------

  lemma {:induction false} ReadersStayGone(states: seq<State>, events: seq<Event>, i: nat, j: nat)
    requires IsRun(states, events) && i <= j < |states| && states[i].readers == 0
    ensures states[j].readers == 0
  {
    if i < j {
      ReadersStayGone(states, events, i, j - 1);
      assert StepAt(states, events, j - 1);
    }
  }

  /** A write fails with a broken pipe only when the readers are gone: then, and ever after. From then on no write
      is admitted either. */
  lemma BrokenPipeIsForever(states: seq<State>, events: seq<Event>, i: nat, j: nat)
    requires IsRun(states, events) && i < |events| && events[i].RefuseWrite? && i <= j < |states|
    ensures states[j].readers == 0
    ensures j < |events| ==> !events[j].AdmitWrite?
  {
    assert StepAt(states, events, i);
    ReadersStayGone(states, events, i, j);
    if j < |events| {
      assert StepAt(states, events, j);
    }
  }

  // ---------------------------------------------------------------------------
  // No call is stuck
  // ---------------------------------------------------------------------------

  lemma RunExtends(states: seq<State>, events: seq<Event>, e: Event, s': State)
    requires IsRun(states, events) && Next(states[|events|], e, s')
    ensures IsRun(states + [s'], events + [e])
  {
    var states', events' := states + [s'], events + [e];
    forall i | 0 <= i < |events'|
      ensures StepAt(states', events', i)
    {
      assert i < |events| ==> StepAt(states, events, i);
    }
  }

  /** The second run begins with the first. */
  ghost predicate GoesOn(states: seq<State>, events: seq<Event>, states': seq<State>, events': seq<Event>) {
    IsRun(states', events') && states <= states' && events <= events'
  }

  /** Whoever holds the buffer lock has a step that releases it, and that takes nothing away from a waiting
      reader. */
  lemma LockIsReleased(states: seq<State>, events: seq<Event>) returns (states': seq<State>, events': seq<Event>)
    requires IsRun(states, events) && Init(states[0])
    ensures GoesOn(states, events, states', events')
    ensures
      var s, s' := states[|events|], states'[|events'|];
      && s'.lock == None && s'.writers == s.writers && s'.readers == s.readers
      && (s.data != [] ==> s'.data != [])
      && (forall t: TaskId :: s.lock != Some(t) ==> s'.At(t) == s.At(t))
  {
    var s := states[|events|];
    RunKeeps(states, events, |events|);
    states', events' := states, events;
    if s.lock.Some? {
      var t := s.lock.value;
      var e, s';
      match s.At(t) {
        case FoundEmpty(want) =>
          e := if s.writers == 0 then ReadEof(t) else ReadRetry(t);
          s' := s.Move(t, if s.writers == 0 then Idle else Reading(want)).(lock := None);
        case Admitted(buf) =>
          var n := Min(|buf|, PIPE_BUF_SIZE - |s.data|);
          e := if |s.data| < PIPE_BUF_SIZE then WriteBytes(t, n) else WriteRetry(t);
          s' := if |s.data| < PIPE_BUF_SIZE then
                  s.Move(t, Idle).(lock := None, data := s.data + buf[..n], written := s.written + buf[..n])
                else s.Move(t, Writing(buf)).(lock := None);
        case _ =>
          assert false;
      }
      RunExtends(states, events, e, s');
      states', events' := states + [s'], events + [e];
    }
  }

  /** A call to read that finds bytes, or no writers, can return: with bytes, as many as it wants and there are, or
      else empty-handed. It is held up only by an empty buffer with a writer. */
  lemma ReadCanReturn(states: seq<State>, events: seq<Event>, t: TaskId)
    returns (states': seq<State>, events': seq<Event>)
    requires IsRun(states, events) && Init(states[0])
    requires states[|events|].At(t).Reading? && (states[|events|].data != [] || states[|events|].writers == 0)
    ensures GoesOn(states, events, states', events') && |events'| > |events|
    ensures states'[|events'|].At(t) == Idle
    ensures
      var e, s := events'[|events'| - 1], states'[|events'| - 1];
      if s.data == [] then e == ReadEof(t)
      else e.ReadBytes? && e.task == t && |e.bytes| == Min(states[|events|].At(t).want, |s.data|) && e.bytes <= s.data
  {
    states', events' := LockIsReleased(states, events);
    RunKeeps(states, events, |events|);
    var s := states'[|events'|];
    var want := s.At(t).want;
    if s.data != [] {
      var n := Min(want, |s.data|);
      var s' := s.Move(t, Idle).(data := s.data[n..], taken := s.taken + s.data[..n]);
      RunExtends(states', events', ReadBytes(t, s.data[..n]), s');
      states', events' := states' + [s'], events' + [ReadBytes(t, s.data[..n])];
    } else {
      var s1 := s.Move(t, FoundEmpty(want)).(lock := Some(t));
      RunExtends(states', events', FindEmpty(t), s1);
      states', events' := states' + [s1], events' + [FindEmpty(t)];
      var s2 := s1.Move(t, Idle).(lock := None);
      RunExtends(states', events', ReadEof(t), s2);
      states', events' := states' + [s2], events' + [ReadEof(t)];
    }
  }

  /** A call to write that finds the lock free can return: refused when the readers are gone, and else, with room,
      having copied as many bytes as fit. It is held up only by a full buffer with a reader. */
  lemma WriteCanReturn(states: seq<State>, events: seq<Event>, t: TaskId)
    returns (states': seq<State>, events': seq<Event>)
    requires IsRun(states, events) && states[|events|].lock == None && states[|events|].At(t).Writing?
    requires states[|events|].readers == 0 || |states[|events|].data| < PIPE_BUF_SIZE
    ensures GoesOn(states, events, states', events') && states'[|events'|].At(t) == Idle
    ensures
      var s, s', buf := states[|events|], states'[|events'|], states[|events|].At(t).buf;
      if s.readers == 0 then events' == events + [RefuseWrite(t)] && s'.data == s.data
      else
        var n := Min(|buf|, PIPE_BUF_SIZE - |s.data|);
        events' == events + [AdmitWrite(t), WriteBytes(t, n)] && s'.data == s.data + buf[..n]
  {
    var s := states[|events|];
    var buf := s.At(t).buf;
    if s.readers == 0 {
      var s' := s.Move(t, Idle);
      RunExtends(states, events, RefuseWrite(t), s');
      states', events' := states + [s'], events + [RefuseWrite(t)];
    } else {
      var n := Min(|buf|, PIPE_BUF_SIZE - |s.data|);
      var s1 := s.Move(t, Admitted(buf)).(lock := Some(t));
      RunExtends(states, events, AdmitWrite(t), s1);
      var s2 := s1.Move(t, Idle).(lock := None, data := s.data + buf[..n], written := s.written + buf[..n]);
      RunExtends(states + [s1], events + [AdmitWrite(t)], WriteBytes(t, n), s2);
      states', events' := states + [s1] + [s2], events + [AdmitWrite(t)] + [WriteBytes(t, n)];
    }
  }

  /** A handle that no call borrows can be dropped, whoever holds the lock. */
  lemma HandlesCanBeDropped(states: seq<State>, events: seq<Event>)
    requires IsRun(states, events)
    ensures
      var s := states[|events|];
      && (s.readers > 0 && (forall t: TaskId :: !s.At(t).Reading? && !s.At(t).FoundEmpty?) ==>
            IsRun(states + [s.(readers := s.readers - 1)], events + [DropReader]))
      && (s.writers > 0 && (forall t: TaskId :: !s.At(t).Writing? && !s.At(t).Admitted?) ==>
            IsRun(states + [s.(writers := s.writers - 1)], events + [DropWriter]))
  {
    var s := states[|events|];
    if s.readers > 0 && forall t: TaskId :: !s.At(t).Reading? && !s.At(t).FoundEmpty? {
      RunExtends(states, events, DropReader, s.(readers := s.readers - 1));
    }
    if s.writers > 0 && forall t: TaskId :: !s.At(t).Writing? && !s.At(t).Admitted? {
      RunExtends(states, events, DropWriter, s.(writers := s.writers - 1));
    }
  }

  /** A byte does enter after the last reader is gone, in a run from the start. */
  lemma LateByte() returns (states: seq<State>, events: seq<Event>)
    ensures IsRun(states, events) && Init(states[0]) && |states| == 5
    ensures states[3].readers == 0 && states[3].written == [] && states[4].written == [7]
  {
    var s0 := State([], 1, 1, map[], None, [], []);
    var s1 := s0.Move(0, Writing([7]));
    var s2 := s1.Move(0, Admitted([7])).(lock := Some(0));
    var s3 := s2.(readers := 0);
    var s4 := s3.Move(0, Idle).(lock := None, data := [7], written := [7]);
    states, events := [s0, s1, s2, s3, s4], [CallWrite(0, [7]), AdmitWrite(0), DropReader, WriteBytes(0, 1)];
    assert StepAt(states, events, 0);
    assert StepAt(states, events, 1);
    assert StepAt(states, events, 2);
    assert s3.data + [7][..1] == [7] && s3.written + [7][..1] == [7];
    assert StepAt(states, events, 3);
  }
}
