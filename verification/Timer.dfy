/** The sleep queue of kernel/sched/src/timer.rs. The binary heap is the multiset of its entries with a
    minimum that can be popped. */
module Timer {
  import opened Prelude
  import opened Waker

  datatype SleepEntry = SleepEntry(deadline: nat, waker: Waker)

  const WAKE_BATCH_SIZE: nat := 32

  /** `woken` are taken out of `pre` at `tick`, leaving `post`: nothing early, nothing lost, earliest
      deadlines first, and fewer than a full batch only when nothing expired is left. */
  ghost predicate Drains(pre: multiset<SleepEntry>, tick: nat, woken: seq<SleepEntry>, post: multiset<SleepEntry>) {
    && pre == multiset(woken) + post
    && |woken| <= WAKE_BATCH_SIZE
    && (forall e :: e in woken ==> e.deadline <= tick)
    && (forall e, f :: e in woken && f in post ==> e.deadline <= f.deadline)
    && (|woken| < WAKE_BATCH_SIZE ==> forall f :: f in post ==> f.deadline > tick)
  }

  /** Deadlines never decrease along the sequence. */
  ghost predicate EarliestFirst(s: seq<SleepEntry>) {
    forall i, j :: 0 <= i < j < |s| ==> s[i].deadline <= s[j].deadline
  }

  /** The sequence taken from its end. */
  function WakeOrder<T>(s: seq<T>): seq<T> {
    if s == [] then [] else WakeOrder(s[1..]) + [s[0]]
  }

  lemma {:induction false} WakeOrderKeepsElements<T>(s: seq<T>)
    ensures multiset(WakeOrder(s)) == multiset(s) && |WakeOrder(s)| == |s|
  {
    if s != [] {
      WakeOrderKeepsElements(s[1..]);
      assert s == [s[0]] + s[1..];
    }
  }

  class SleepQueue {
    var heap: multiset<SleepEntry>

    constructor ()
      ensures heap == multiset{}
    {
      heap := multiset{};
    }

    method RegisterSleepWaker(deadline: nat, waker: Waker)
      modifies this
      ensures heap == old(heap) + multiset{SleepEntry(deadline, waker)}
    {
      heap := heap + multiset{SleepEntry(deadline, waker)};
    }

    /** An entry with the earliest deadline, if the heap has any. */
    method Peek() returns (r: Option<SleepEntry>)
      ensures r == None <==> heap == multiset{}
      ensures r.Some? ==> r.value in heap && forall e :: e in heap ==> r.value.deadline <= e.deadline
    {
      if heap == multiset{} {
        return None;
      }
      var best :| best in heap;
      var rest := heap - multiset{best};
      while rest != multiset{}
        invariant best in heap && rest <= heap
        invariant forall e :: e in heap && e !in rest ==> best.deadline <= e.deadline
        decreases |rest|
      {
        var x :| x in rest;
        if x.deadline < best.deadline {
          best := x;
        }
        rest := rest - multiset{x};
      }
      return Some(best);
    }

    /** The locked section: pops expired entries, earliest first, until the batch is full. */
    method DrainBatch(currentTick: nat) returns (batch: seq<SleepEntry>)
      modifies this
      ensures Drains(old(heap), currentTick, batch, heap) && EarliestFirst(batch)
    {
      batch := [];
      while |batch| < WAKE_BATCH_SIZE
        invariant |batch| <= WAKE_BATCH_SIZE
        invariant old(heap) == multiset(batch) + heap
        invariant forall e :: e in batch ==> e.deadline <= currentTick
        invariant forall e, f :: e in batch && f in heap ==> e.deadline <= f.deadline
        invariant EarliestFirst(batch)
      {
        var top := Peek();
        if top == None || top.value.deadline > currentTick {
          break;
        }
        heap := heap - multiset{top.value};
        batch := batch + [top.value];
      }
    }

    /** Drains a batch, then wakes it from its end; returns the entries in the order woken, the latest of the batch
        first. */
    method WakeExpired(currentTick: nat) returns (woken: seq<SleepEntry>)
      modifies this
      ensures Drains(old(heap), currentTick, woken, heap) && EarliestFirst(WakeOrder(woken))
    {
      var batch := DrainBatch(currentTick);
      ghost var drained, post := batch, heap;
      woken := [];
      while batch != []
        invariant heap == post
        invariant woken + WakeOrder(batch) == WakeOrder(drained)
        decreases |batch|
      {
        WakeOrderLast(batch);
        woken := woken + [batch[|batch| - 1]];
        batch := batch[..|batch| - 1];
      }
      assert woken == WakeOrder(drained);
      WakeOrderTwice(drained);
      DrainsInAnyOrder(old(heap), currentTick, drained, woken, heap);
    }
  }

  lemma DrainsInAnyOrder(pre: multiset<SleepEntry>, tick: nat, batch: seq<SleepEntry>, woken: seq<SleepEntry>,
                         post: multiset<SleepEntry>)
    requires Drains(pre, tick, batch, post) && woken == WakeOrder(batch)
    ensures Drains(pre, tick, woken, post)
  {
    WakeOrderKeepsElements(batch);
    assert forall e :: e in woken ==> e in multiset(woken);
    assert forall e :: e in multiset(batch) ==> e in batch;
  }

  lemma {:induction false} WakeOrderLast<T>(s: seq<T>)
    requires s != []
    ensures WakeOrder(s) == [s[|s| - 1]] + WakeOrder(s[..|s| - 1])
  {
    if |s| > 1 {
      WakeOrderLast(s[1..]);
      assert s[1..][..|s| - 2] == s[..|s| - 1][1..];
      assert s[..|s| - 1][0] == s[0];
    } else {
      assert s[1..] == [] && s[..|s| - 1] == [];
    }
  }

  lemma {:induction false} WakeOrderTwice<T>(s: seq<T>)
    ensures WakeOrder(WakeOrder(s)) == s
  {
    if s != [] {
      WakeOrderLast(s);
      var front := s[..|s| - 1];
      WakeOrderTwice(front);
      assert WakeOrder(s)[1..] == WakeOrder(front);
    }
  }

  // ---------------------------------------------------------------------------
  // Whole runs of registrations and ticks
  // ---------------------------------------------------------------------------

  datatype Event = Register(entry: SleepEntry) | Tick(tick: nat, woken: seq<SleepEntry>)

  ghost function After(q: multiset<SleepEntry>, ev: Event): multiset<SleepEntry> {
    match ev
    case Register(e) => q + multiset{e}
    case Tick(_, woken) => q - multiset(woken)
  }

  ghost predicate Legal(q: multiset<SleepEntry>, ev: Event) {
    ev.Tick? ==> Drains(q, ev.tick, ev.woken, After(q, ev))
  }

  ghost predicate LegalRun(q: multiset<SleepEntry>, evs: seq<Event>)
    decreases |evs|
  {
    evs != [] ==> Legal(q, evs[0]) && LegalRun(After(q, evs[0]), evs[1..])
  }

  ghost function Final(q: multiset<SleepEntry>, evs: seq<Event>): multiset<SleepEntry>
    decreases |evs|
  {
    if evs == [] then q else Final(After(q, evs[0]), evs[1..])
  }

  ghost function WokenBy(ev: Event): multiset<SleepEntry> {
    if ev.Tick? then multiset(ev.woken) else multiset{}
  }

  ghost function RegisteredBy(ev: Event): multiset<SleepEntry> {
    if ev.Register? then multiset{ev.entry} else multiset{}
  }

  ghost function Woken(evs: seq<Event>): multiset<SleepEntry> {
    if evs == [] then multiset{} else WokenBy(evs[0]) + Woken(evs[1..])
  }

  ghost function Registered(evs: seq<Event>): multiset<SleepEntry> {
    if evs == [] then multiset{} else RegisteredBy(evs[0]) + Registered(evs[1..])
  }

  function Ticks(evs: seq<Event>): nat {
    if evs == [] then 0 else (if evs[0].Tick? then 1 else 0) + Ticks(evs[1..])
  }

  lemma EventBalances(q: multiset<SleepEntry>, ev: Event)
    requires Legal(q, ev)
    ensures q + RegisteredBy(ev) == WokenBy(ev) + After(q, ev)
  {
  }

  lemma Chain(q: multiset<SleepEntry>, r: multiset<SleepEntry>, w: multiset<SleepEntry>, mid: multiset<SleepEntry>,
              rs: multiset<SleepEntry>, ws: multiset<SleepEntry>, fin: multiset<SleepEntry>)
    requires q + r == w + mid && mid + rs == ws + fin
    ensures q + (r + rs) == (w + ws) + fin
  {
    calc {
      q + (r + rs);
      (q + r) + rs;
      w + (mid + rs);
      (w + ws) + fin;
    }
  }

  /** Every sleeper is woken once or still queued. */
  lemma {:induction false} NoSleeperLost(q: multiset<SleepEntry>, evs: seq<Event>)
    requires LegalRun(q, evs)
    ensures q + Registered(evs) == Woken(evs) + Final(q, evs)
    decreases |evs|
  {
    if evs != [] {
      var ev, rest := evs[0], evs[1..];
      var mid := After(q, ev);
      EventBalances(q, ev);
      NoSleeperLost(mid, rest);
      Chain(q, RegisteredBy(ev), WokenBy(ev), mid, Registered(rest), Woken(rest), Final(mid, rest));
    }
  }

  /** No sleeper is woken by a tick before its deadline. */
  lemma {:induction false} NoSleeperEarly(q: multiset<SleepEntry>, evs: seq<Event>, i: nat, e: SleepEntry)
    requires LegalRun(q, evs) && i < |evs| && evs[i].Tick? && e in evs[i].woken
    ensures e.deadline <= evs[i].tick
    decreases |evs|
  {
    if i > 0 {
      NoSleeperEarly(After(q, evs[0]), evs[1..], i - 1, e);
    }
  }

  /** `due` are the entries of `q` with deadlines up to `t`, `later` the rest. */
  ghost predicate Splits(q: multiset<SleepEntry>, t: nat, due: multiset<SleepEntry>, later: multiset<SleepEntry>) {
    && q == due + later
    && (forall e :: e in due ==> e.deadline <= t)
    && (forall e :: e in later ==> e.deadline > t)
  }

  lemma SubsetSize(a: multiset<SleepEntry>, b: multiset<SleepEntry>)
    requires a <= b
    ensures |a| <= |b| && |b - a| == |b| - |a|
  {
    assert b == a + (b - a);
  }

  /** A tick that leaves a due entry behind took a full batch of due entries. */
  lemma FullBatchIsDue(q: multiset<SleepEntry>, tick: nat, woken: seq<SleepEntry>, post: multiset<SleepEntry>,
                       t: nat, due: multiset<SleepEntry>, later: multiset<SleepEntry>, x: SleepEntry)
    requires Splits(q, t, due, later) && Drains(q, tick, woken, post) && t <= tick
    requires x in due - multiset(woken)
    ensures |woken| == WAKE_BATCH_SIZE && multiset(woken) <= due
  {
    var w := multiset(woken);
    assert x in due && x !in later && later[x] == 0;
    assert q[x] == due[x] && q[x] == w[x] + post[x];
    assert x in post;
    forall e
      ensures w[e] <= due[e]
    {
      if w[e] > 0 {
        assert e in woken && e.deadline <= x.deadline;
        assert e !in later && later[e] == 0;
        assert q[e] == due[e] && q[e] == w[e] + post[e];
      }
    }
  }

  /** A tick that leaves no due entry in the batch's place leaves none at all. */
  lemma RestIsLater(q: multiset<SleepEntry>, w: multiset<SleepEntry>, post: multiset<SleepEntry>,
                    t: nat, due: multiset<SleepEntry>, later: multiset<SleepEntry>, e: SleepEntry)
    requires Splits(q, t, due, later) && q == w + post && due <= w && e in post
    ensures e.deadline > t
  {
    assert q[e] == due[e] + later[e] && q[e] == w[e] + post[e];
    assert e in later;
  }

  lemma NothingLeft(a: multiset<SleepEntry>, b: multiset<SleepEntry>)
    requires a - b == multiset{}
    ensures a <= b
  {
    forall e
      ensures a[e] <= b[e]
    {
      assert (a - b)[e] == 0;
    }
  }

  lemma Rebalance(due: multiset<SleepEntry>, later: multiset<SleepEntry>, w: multiset<SleepEntry>,
                  post: multiset<SleepEntry>)
    requires due + later == w + post && w <= due
    ensures post == (due - w) + later
  {
    assert due == w + (due - w);
    forall e
      ensures post[e] == ((due - w) + later)[e]
    {
      assert (due + later)[e] == (w + post)[e];
    }
  }

  lemma SplitsRegister(q: multiset<SleepEntry>, t: nat, due: multiset<SleepEntry>, later: multiset<SleepEntry>,
                       e: SleepEntry)
    requires Splits(q, t, due, later) && e.deadline > t
    ensures Splits(q + multiset{e}, t, due, later + multiset{e})
  {
  }

  lemma Cover(due: multiset<SleepEntry>, w: multiset<SleepEntry>, ws: multiset<SleepEntry>)
    requires due - w <= ws
    ensures due <= w + ws
  {
    forall e
      ensures due[e] <= (w + ws)[e]
    {
      assert (due - w)[e] <= ws[e];
    }
  }

  /** One tick takes a full batch out of the due entries, or all of them. */
  lemma TickDrainsDue(q: multiset<SleepEntry>, tick: nat, woken: seq<SleepEntry>, post: multiset<SleepEntry>,
                      t: nat, due: multiset<SleepEntry>, later: multiset<SleepEntry>)
    returns (later': multiset<SleepEntry>)
    requires Splits(q, t, due, later) && Drains(q, tick, woken, post) && t <= tick
    ensures Splits(post, t, due - multiset(woken), later')
    ensures |due - multiset(woken)| == Max(0, |due| - WAKE_BATCH_SIZE)
  {
    var w := multiset(woken);
    if x :| x in due - w {
      FullBatchIsDue(q, tick, woken, post, t, due, later, x);
      SubsetSize(w, due);
      Rebalance(due, later, w, post);
      later' := later;
    } else {
      assert due - w == multiset{};
      NothingLeft(due, w);
      SubsetSize(due, w);
      forall e | e in post
        ensures e.deadline > t
      {
        RestIsLater(q, w, post, t, due, later, e);
      }
      later' := post;
    }
  }

  /** If `due` are the entries expired at `t`, then `ceil(|due| / 32)` ticks at `t` or later wake all of
      them, however many sleepers with deadlines after `t` register meanwhile. */
  lemma {:induction false} DueWokenInTime(q: multiset<SleepEntry>, evs: seq<Event>, t: nat,
                                          due: multiset<SleepEntry>, later: multiset<SleepEntry>)
    requires LegalRun(q, evs) && Splits(q, t, due, later)
    requires forall ev :: ev in evs ==> if ev.Tick? then t <= ev.tick else t < ev.entry.deadline
    requires WAKE_BATCH_SIZE * Ticks(evs) >= |due|
    ensures due <= Woken(evs)
    decreases |evs|
  {
    if evs != [] {
      var ev, rest := evs[0], evs[1..];
      var mid := After(q, ev);
      assert ev in evs && forall x :: x in rest ==> x in evs;
      match ev {
        case Register(e) =>
          SplitsRegister(q, t, due, later, e);
          DueWokenInTime(mid, rest, t, due, later + multiset{e});
        case Tick(tick, woken) =>
          var later' := TickDrainsDue(q, tick, woken, mid, t, due, later);
          DueWokenInTime(mid, rest, t, due - multiset(woken), later');
          Cover(due, multiset(woken), Woken(rest));
      }
    }
  }
}
