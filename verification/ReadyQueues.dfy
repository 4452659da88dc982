/** Task identity and the priority-aware ready queues (kernel/core/src/task.rs, kernel/core/src/sched.rs). */
module Task {

  /** The counter value that names a task. */
  type TaskId = nat

  type CpuId = nat

  datatype Priority = Critical | Normal | Background
}

module ReadyQueues {
  import opened Prelude
  import opened Task

  const BACKGROUND_STARVATION_LIMIT: nat := 100

  /** Pops without a Critical one that are sure to serve Background. */
  const STARVATION_WINDOW: nat := 101

  /** The contents of the three FIFO tiers and the starvation counter. */
  datatype Queues<T> = Queues(critical: seq<T>, normal: seq<T>, background: seq<T>, streak: nat) {

    function Tier(p: Priority): seq<T> {
      match p
      case Critical => critical
      case Normal => normal
      case Background => background
    }

    predicate HasReady() {
      critical != [] || normal != [] || background != []
    }

    ghost predicate Holds(id: T) {
      id in critical || id in normal || id in background
    }

    function Push(p: Priority, id: T): Queues<T> {
      match p
      case Critical => this.(critical := critical + [id])
      case Normal => this.(normal := normal + [id])
      case Background => this.(background := background + [id])
    }

    function Pop(): (Queues<T>, Option<(Priority, T)>) {
      if critical != [] then
        (this.(critical := critical[1..], streak := 0), Some((Critical, critical[0])))
      else if normal != [] && background != [] && streak >= BACKGROUND_STARVATION_LIMIT then
        (this.(background := background[1..], streak := 0), Some((Background, background[0])))
      else if normal != [] then
        (this.(normal := normal[1..], streak := if background != [] then streak + 1 else 0), Some((Normal, normal[0])))
      else if background != [] then
        (this.(background := background[1..], streak := 0), Some((Background, background[0])))
      else
        (this.(streak := 0), None)
    }

    function StealOne(): (Queues<T>, Option<(Priority, T)>) {
      if |normal| + |background| <= 1 then
        (this, None)
      else if normal != [] then
        (this.(normal := normal[..|normal| - 1]), Some((Normal, normal[|normal| - 1])))
      else
        (this.(background := background[..|background| - 1]), Some((Background, background[|background| - 1])))
    }

    /** The starvation counter never passes its limit. */
    predicate Bounded() {
      streak <= BACKGROUND_STARVATION_LIMIT
    }
  }

  function Empty<T>(): Queues<T> {
    Queues([], [], [], 0)
  }

  /** The mutable queues every executor keeps behind its `ready_queues` lock. */
  class ReadyQueueSet<T> {
    var critical: seq<T>
    var normal: seq<T>
    var background: seq<T>
    var normalStreak: nat

    function View(): Queues<T>
      reads this
    {
      Queues(critical, normal, background, normalStreak)
    }

    constructor ()
      ensures View() == Empty()
    {
      critical, normal, background, normalStreak := [], [], [], 0;
    }

    /** The id joins the back of its tier; nothing else changes. */
    method Push(p: Priority, id: T)
      requires View().Bounded()
      modifies this
      ensures AddsAtBack(old(View()), p, id, View()) && normalStreak == old(normalStreak)
      ensures View() == old(View()).Push(p, id) && View().Bounded()
    {
      match p {
        case Critical => critical := critical + [id];
        case Normal => normal := normal + [id];
        case Background => background := background + [id];
      }
    }

    /** The front of one tier leaves: Critical if it has work, Background if Normal has none or has used up
        its streak, else Normal. Only Normal pops past waiting Background work lengthen the streak. */
    method Pop() returns (r: Option<(Priority, T)>)
      requires View().Bounded()
      modifies this
      ensures r == None <==> !old(View()).HasReady()
      ensures r == None ==> forall p: Priority :: View().Tier(p) == []
      ensures r.Some? ==> AddsAtFront(View(), r.value.0, r.value.1, old(View())) && r.value.0 == NextTier(old(View()))
      ensures normalStreak == if r.Some? && r.value.0 == Normal && background != [] then old(normalStreak) + 1 else 0
      ensures (View(), r) == old(View()).Pop() && View().Bounded()
    {
      if critical != [] {
        var id := critical[0];
        critical := critical[1..];
        normalStreak := 0;
        return Some((Critical, id));
      }
      var hasBackground := background != [];
      var hasNormal := normal != [];
      if hasNormal && hasBackground && normalStreak >= BACKGROUND_STARVATION_LIMIT {
        normalStreak := 0;
        var id := background[0];
        background := background[1..];
        return Some((Background, id));
      }
      if hasNormal {
        var id := normal[0];
        normal := normal[1..];
        if hasBackground {
          normalStreak := normalStreak + 1;
        } else {
          normalStreak := 0;
        }
        return Some((Normal, id));
      }
      normalStreak := 0;
      if hasBackground {
        var id := background[0];
        background := background[1..];
        return Some((Background, id));
      }
      return None;
    }

    method HasReady() returns (r: bool)
      ensures r <==> exists p: Priority :: View().Tier(p) != []
    {
      r := critical != [] || normal != [] || background != [];
      assert critical == View().Tier(Critical) && normal == View().Tier(Normal);
      assert background == View().Tier(Background);
    }

    /** The back of Normal, or else of Background, leaves when two stealable ids wait; never Critical. */
    method StealOne() returns (r: Option<(Priority, T)>)
      requires View().Bounded()
      modifies this
      ensures r.Some? <==> |old(normal)| + |old(background)| >= 2
      ensures r == None ==> View() == old(View())
      ensures r.Some? ==> AddsAtBack(View(), r.value.0, r.value.1, old(View())) && normalStreak == old(normalStreak)
      ensures r.Some? ==> r.value.0 == if old(normal) != [] then Normal else Background
      ensures (View(), r) == old(View()).StealOne() && View().Bounded()
    {
      var stealable := |normal| + |background|;
      if stealable <= 1 {
        return None;
      }
      if normal != [] {
        var id := normal[|normal| - 1];
        normal := normal[..|normal| - 1];
        return Some((Normal, id));
      }
      var id := background[|background| - 1];
      background := background[..|background| - 1];
      return Some((Background, id));
    }
  }

  /** The tier a pop serves when any has work. */
  ghost function NextTier<T>(q: Queues<T>): Priority {
    if q.critical != [] then Critical
    else if q.background != [] && (q.normal == [] || q.streak >= BACKGROUND_STARVATION_LIMIT) then Background
    else Normal
  }

  // ---------------------------------------------------------------------------
  // What one call does to the queued ids
  // ---------------------------------------------------------------------------

  /** `q` is `rest` with `id` added at one end of tier `p`, and the other tiers alike. */
  ghost predicate AddsAtFront<T>(rest: Queues<T>, p: Priority, id: T, q: Queues<T>) {
    q.Tier(p) == [id] + rest.Tier(p) && forall o: Priority :: o != p ==> q.Tier(o) == rest.Tier(o)
  }

  ghost predicate AddsAtBack<T>(rest: Queues<T>, p: Priority, id: T, q: Queues<T>) {
    q.Tier(p) == rest.Tier(p) + [id] && forall o: Priority :: o != p ==> q.Tier(o) == rest.Tier(o)
  }

  /** Pushes go to the back of their tier and pops come from the front of one tier, so no id is lost,
      duplicated, reordered within its tier or moved to another tier. */
  lemma QueuesAreFifo<T>(q: Queues<T>, p: Priority, id: T)
    ensures AddsAtBack(q, p, id, q.Push(p, id))
    ensures var (rest, r) := q.Pop(); r.Some? ==> AddsAtFront(rest, r.value.0, r.value.1, q)
    ensures q.Pop().1 == None <==> forall o: Priority :: q.Tier(o) == []
  {
    assert q.critical == q.Tier(Critical) && q.normal == q.Tier(Normal) && q.background == q.Tier(Background);
  }

  /** Which tier a pop serves: Critical when it has work; then Background exactly when Normal is empty or
      has used up its streak; then Normal. */
  lemma PopOrder<T>(q: Queues<T>)
    requires q.Pop().1.Some?
    ensures var p := q.Pop().1.value.0;
            && (p == Critical <==> q.critical != [])
            && (p == Background <==> (
                  && q.critical == [] && q.background != []
                  && (q.normal == [] || q.streak >= BACKGROUND_STARVATION_LIMIT)))
  {
  }

  /** A steal takes the newest Normal id, or the newest Background id when no Normal id waits, and only
      when at least one other stealable id stays behind. */
  lemma StealTakesBack<T>(q: Queues<T>)
    ensures q.StealOne().1.Some? <==> |q.normal| + |q.background| >= 2
    ensures var (rest, r) := q.StealOne();
            if r.Some? then
              && AddsAtBack(rest, r.value.0, r.value.1, q)
              && r.value.0 == (if q.normal != [] then Normal else Background)
              && |rest.normal| + |rest.background| >= 1
            else rest == q
  {
    var (rest, r) := q.StealOne();
    if r.Some? {
      var tier := q.Tier(r.value.0);
      assert tier == tier[..|tier| - 1] + [tier[|tier| - 1]];
    }
  }

  /** Putting a stolen id back at the tier it came from restores the queues exactly. */
  lemma StealPutBack<T>(q: Queues<T>)
    requires q.StealOne().1.Some?
    ensures var (rest, r) := q.StealOne(); rest.Push(r.value.0, r.value.1) == q
  {
    if q.normal != [] {
      assert q.normal == q.normal[..|q.normal| - 1] + [q.normal[|q.normal| - 1]];
    } else {
      assert q.background == q.background[..|q.background| - 1] + [q.background[|q.background| - 1]];
    }
  }

  // ---------------------------------------------------------------------------
  // Waiting time of Background tasks over whole runs
  // ---------------------------------------------------------------------------

  datatype Op<T> = PushOp(p: Priority, id: T) | PopOp

  /** Runs `ops` from `q`; the second component lists what the pops returned, in order. */
  function Exec<T>(q: Queues<T>, ops: seq<Op<T>>): (r: (Queues<T>, seq<Option<(Priority, T)>>))
    decreases |ops|
  {
    if ops == [] then (q, [])
    else match ops[0]
      case PushOp(p, id) => Exec(q.Push(p, id), ops[1..])
      case PopOp =>
        var (q1, o) := q.Pop();
        var (q2, os) := Exec(q1, ops[1..]);
        (q2, [o] + os)
  }

  predicate IsBackground<T>(o: Option<(Priority, T)>) {
    o.Some? && o.value.0 == Background
  }

  predicate IsCritical<T>(o: Option<(Priority, T)>) {
    o.Some? && o.value.0 == Critical
  }

  function CountBackground<T>(os: seq<Option<(Priority, T)>>): nat {
    if os == [] then 0 else (if IsBackground(os[0]) then 1 else 0) + CountBackground(os[1..])
  }

  /** Every reachable state keeps the streak within its limit. */
  lemma {:induction false} StreakBounded<T>(q: Queues<T>, ops: seq<Op<T>>)
    requires q.Bounded()
    ensures Exec(q, ops).0.Bounded()
    decreases |ops|
  {
    if ops != [] {
      match ops[0]
      case PushOp(p, id) => StreakBounded(q.Push(p, id), ops[1..]);
      case PopOp => StreakBounded(q.Pop().0, ops[1..]);
    }
  }

  /** How many pops a Background id at position `p` can be made to wait, counting the one that returns it. */
  function WaitBound<T>(q: Queues<T>, p: nat): int {
    101 * (p + 1) - q.streak
  }

  /** There were at least `n` pops, and none of the first `n` returned a Critical id. */
  ghost predicate NoneCritical<T>(os: seq<Option<(Priority, T)>>, n: int) {
    n <= |os| && forall k :: 0 <= k < n ==> !IsCritical(os[k])
  }

  lemma NoneCriticalTail<T>(o: Option<(Priority, T)>, rest: seq<Option<(Priority, T)>>, n: int)
    requires 0 < n && NoneCritical([o] + rest, n)
    ensures !IsCritical(o)
    ensures forall m :: m < n ==> NoneCritical(rest, m)
  {
    var os := [o] + rest;
    assert !IsCritical(os[0]);
    assert forall k :: 0 <= k < n - 1 ==> rest[k] == os[k + 1];
  }

  /** While none of these pops returns a Critical id, the Background id at position `p` comes out within
      `101 * (p + 1)` pops, after exactly the `p` Background ids ahead of it, whatever is pushed meanwhile. */
  lemma {:induction false} BackgroundWaitBound<T>(q: Queues<T>, ops: seq<Op<T>>, p: nat) returns (i: nat)
    requires q.Bounded() && p < |q.background|
    requires NoneCritical(Exec(q, ops).1, WaitBound(q, p))
    ensures i < WaitBound(q, p) <= 101 * (p + 1) && i < |Exec(q, ops).1|
    ensures Exec(q, ops).1[i] == Some((Background, q.background[p]))
    ensures CountBackground(Exec(q, ops).1[..i]) == p
    decreases |ops|
  {
    var os := Exec(q, ops).1;
    match ops[0] {
      case PushOp(pr, id) =>
        i := BackgroundWaitBound(q.Push(pr, id), ops[1..], p);
      case PopOp =>
        var (q1, o) := q.Pop();
        var rest := Exec(q1, ops[1..]).1;
        assert os == [o] + rest;
        NoneCriticalTail(o, rest, WaitBound(q, p));
        if IsBackground(o) && p == 0 {
          i := 0;
        } else {
          var j := BackgroundWaitBound(q1, ops[1..], if IsBackground(o) then p - 1 else p);
          i := j + 1;
          assert os[..i] == [o] + rest[..j];
          assert os[..i][1..] == rest[..j];
        }
    }
  }

  // ---------------------------------------------------------------------------
  // Which mixes of Critical and other pops starve Background
  // ---------------------------------------------------------------------------

  /** Which of the pops returned a Critical id. */
  function Mix<T>(os: seq<Option<(Priority, T)>>): (mix: seq<bool>)
    ensures |mix| == |os|
  {
    seq(|os|, i requires 0 <= i < |os| => IsCritical(os[i]))
  }

  /** None of the `n` pops from `i` on is Critical. */
  ghost predicate Quiet(mix: seq<bool>, i: nat, n: nat) {
    i + n <= |mix| && forall j :: i <= j < i + n ==> !mix[j]
  }

  /** A Critical pop comes at least every 101 pops. */
  ghost predicate ShortGaps(mix: seq<bool>) {
    forall i: nat :: !Quiet(mix, i, STARVATION_WINDOW)
  }

  /** Some run with this mix of pops never serves the Background id that waits from the start. */
  ghost predicate Starves<T(!new)>(b: T, mix: seq<bool>) {
    exists ops: seq<Op<T>> :: StarvesIn(b, ops, mix)
  }

  ghost predicate StarvesIn<T>(b: T, ops: seq<Op<T>>, mix: seq<bool>) {
    var os := Exec(Queues([], [], [b], 0), ops).1;
    Mix(os) == mix && CountBackground(os) == 0
  }

  lemma {:induction false} ServedCounts<T>(os: seq<Option<(Priority, T)>>, i: nat)
    requires i < |os| && IsBackground(os[i])
    ensures CountBackground(os) > 0
  {
    if i > 0 {
      ServedCounts(os[1..], i - 1);
    }
  }

  /** In any run, 101 pops in a row without a Critical one serve Background if it waits. */
  lemma {:induction false} LongGapServes<T>(q: Queues<T>, ops: seq<Op<T>>, i: nat)
    requires q.Bounded() && q.background != []
    requires Quiet(Mix(Exec(q, ops).1), i, STARVATION_WINDOW)
    ensures CountBackground(Exec(q, ops).1) > 0
    decreases |ops|
  {
    var os := Exec(q, ops).1;
    if i == 0 {
      assert forall k :: 0 <= k < 101 ==> !IsCritical(os[k]) by {
        assert forall k :: 0 <= k < |os| ==> Mix(os)[k] == IsCritical(os[k]);
      }
      var j := BackgroundWaitBound(q, ops, 0);
      ServedCounts(os, j);
    } else if ops[0].PushOp? {
      LongGapServes(q.Push(ops[0].p, ops[0].id), ops[1..], i);
    } else {
      var (q1, o) := q.Pop();
      var rest := Exec(q1, ops[1..]).1;
      assert os == [o] + rest && os[1..] == rest;
      if !IsBackground(o) {
        assert forall j :: 0 <= j < |rest| ==> Mix(rest)[j] == Mix(os)[j + 1];
        LongGapServes(q1, ops[1..], i - 1);
      }
    }
  }

  /** Each pop of the mix right after a push of what it is to return. */
  function Feed<T>(mix: seq<bool>, x: T): seq<Op<T>> {
    if mix == [] then [] else [PushOp(if mix[0] then Critical else Normal, x), PopOp] + Feed(mix[1..], x)
  }

  /** Starting at streak `k`, no Normal pop of the mix finds the streak used up. */
  ghost predicate Steady(mix: seq<bool>, k: nat) {
    mix == [] ||
    if mix[0] then Steady(mix[1..], 0) else k < BACKGROUND_STARVATION_LIMIT && Steady(mix[1..], k + 1)
  }

  lemma QuietTail(mix: seq<bool>, i: nat, n: nat)
    requires mix != []
    ensures Quiet(mix[1..], i, n) ==> Quiet(mix, i + 1, n)
    ensures !mix[0] && Quiet(mix[1..], 0, n) ==> Quiet(mix, 0, n + 1)
  {
    assert forall j :: 0 < j < |mix| ==> mix[j] == mix[1..][j - 1];
  }

  lemma {:induction false} ShortGapsAreSteady(mix: seq<bool>, k: nat)
    requires k <= BACKGROUND_STARVATION_LIMIT && ShortGaps(mix)
    requires !Quiet(mix, 0, STARVATION_WINDOW - k)
    ensures Steady(mix, k)
    decreases |mix|
  {
    if mix != [] {
      var tail := mix[1..];
      forall i: nat
        ensures !Quiet(tail, i, STARVATION_WINDOW)
      {
        QuietTail(mix, i, STARVATION_WINDOW);
      }
      if mix[0] {
        ShortGapsAreSteady(tail, 0);
      } else {
        assert Quiet(mix, 0, 1);
        QuietTail(mix, 0, BACKGROUND_STARVATION_LIMIT - k);
        ShortGapsAreSteady(tail, k + 1);
      }
    }
  }

  /** Pushing and popping one id at a time, with Background waiting and streak `k`. */
  lemma FeedOne<T>(b: T, k: nat, critical: bool, x: T, rest: seq<Op<T>>)
    requires critical || k < BACKGROUND_STARVATION_LIMIT
    ensures
      var p := if critical then Critical else Normal;
      var q' := Queues([], [], [b], if critical then 0 else k + 1);
      Exec(Queues([], [], [b], k), [PushOp(p, x), PopOp] + rest)
      == (Exec(q', rest).0, [Some((p, x))] + Exec(q', rest).1)
  {
    var q := Queues([], [], [b], k);
    var p := if critical then Critical else Normal;
    assert [PushOp(p, x), PopOp] + rest == [PushOp(p, x)] + ([PopOp] + rest);
    ExecStep(q, PushOp(p, x), [PopOp] + rest);
    ExecStep(q.Push(p, x), PopOp, rest);
    assert ([] + [x])[1..] == [];
  }

  lemma {:induction false} FeedStarves<T>(b: T, k: nat, mix: seq<bool>, x: T)
    requires Steady(mix, k)
    ensures var os := Exec(Queues([], [], [b], k), Feed(mix, x)).1; Mix(os) == mix && CountBackground(os) == 0
    decreases |mix|
  {
    if mix != [] {
      var k' := if mix[0] then 0 else k + 1;
      FeedOne(b, k, mix[0], x, Feed(mix[1..], x));
      FeedStarves(b, k', mix[1..], x);
      var os, rest := Exec(Queues([], [], [b], k), Feed(mix, x)).1, Exec(Queues([], [], [b], k'), Feed(mix[1..], x)).1;
      assert os[1..] == rest;
      assert forall j :: 0 <= j < |rest| ==> Mix(os)[j + 1] == Mix(rest)[j] == mix[j + 1];
    }
  }

  lemma ExecStep<T>(q: Queues<T>, op: Op<T>, rest: seq<Op<T>>)
    ensures Exec(q, [op] + rest) ==
            match op
            case PushOp(p, id) => Exec(q.Push(p, id), rest)
            case PopOp => (Exec(q.Pop().0, rest).0, [q.Pop().1] + Exec(q.Pop().0, rest).1)
  {
    assert ([op] + rest)[1..] == rest;
  }

  /** A waiting Background id can be starved by a mix of Critical and other pops exactly when no 101 pops in a
      row are without a Critical one: each Critical pop resets the streak. */
  lemma StarvesIffShortGaps<T(!new)>(b: T, mix: seq<bool>)
    ensures Starves(b, mix) <==> ShortGaps(mix)
  {
    if ShortGaps(mix) {
      ShortGapsAreSteady(mix, 0);
      FeedStarves(b, 0, mix, b);
      assert StarvesIn(b, Feed(mix, b), mix);
    }
    if Starves(b, mix) {
      var ops: seq<Op<T>> :| StarvesIn(b, ops, mix);
      forall i: nat
        ensures !Quiet(mix, i, STARVATION_WINDOW)
      {
        if Quiet(mix, i, STARVATION_WINDOW) {
          LongGapServes(Queues([], [], [b], 0), ops, i);
          assert false;
        }
      }
    }
  }

  /** `rounds` times: `g` pops without a Critical one, then a Critical pop. */
  function Rounds(g: nat, rounds: nat): seq<bool> {
    if rounds == 0 then [] else seq(g, _ => false) + [true] + Rounds(g, rounds - 1)
  }

  /** With `g` other pops before every Critical one, Background can be starved for any length of time exactly
      when `g` is at most 100. */
  lemma RoundsStarveIff<T(!new)>(b: T, g: nat)
    ensures (forall rounds: nat :: Starves(b, Rounds(g, rounds))) <==> g <= BACKGROUND_STARVATION_LIMIT
  {
    if g <= BACKGROUND_STARVATION_LIMIT {
      forall rounds: nat
        ensures Starves(b, Rounds(g, rounds))
      {
        RoundsHaveShortGaps(g, rounds);
        StarvesIffShortGaps(b, Rounds(g, rounds));
      }
    } else {
      assert Rounds(g, 1) == seq(g, _ => false) + [true] + [];
      assert Quiet(Rounds(g, 1), 0, STARVATION_WINDOW);
      StarvesIffShortGaps(b, Rounds(g, 1));
    }
  }

  lemma {:induction false} RoundsHaveShortGaps(g: nat, rounds: nat)
    requires g <= BACKGROUND_STARVATION_LIMIT
    ensures ShortGaps(Rounds(g, rounds))
  {
    if rounds > 0 {
      RoundsHaveShortGaps(g, rounds - 1);
      var mix, rest := Rounds(g, rounds), Rounds(g, rounds - 1);
      forall i: nat
        ensures !Quiet(mix, i, STARVATION_WINDOW)
      {
        if i <= g {
          assert mix[g];
        } else {
          assert !Quiet(rest, i - g - 1, STARVATION_WINDOW);
          assert forall j :: 0 <= j < |rest| ==> rest[j] == mix[g + 1 + j];
        }
      }
    }
  }
}
