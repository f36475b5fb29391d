/** Safety of the thread pool over every run: FIFO order, exactly-once execution, no lost wakeup,
    and what the two counters mean.

    Lines are those of UtilityEngine/include/com_thread_pool.hpp. */
module ThreadPoolSafety {
  import opened Sums
  import opened ThreadPool

  // ----- what is counted -----

  ghost function WokenCount(w: Worker): int { if w.Woken? then 1 else 0 }
  ghost function PoppedCount(w: Worker): int { if w.Popped? then 1 else 0 }
  ghost function BusyCount(w: Worker): int { if w.Leaving? || w.Popped? || w.Holding? then 1 else 0 }

  ghost function HoldCount(x: Item): Worker -> int
  {
    (w: Worker) => if (w.Popped? || w.Holding?) && w.item == x then 1 else 0
  }

  ghost function PushedCount(c: Call): int { if c.Pushed? then 1 else 0 }
  ghost function PendingCount(c: Call): int { if c.Pushed? || c.Counted? then 1 else 0 }

  /** Notifications that are still to come: one per call, or per `safe_stop`, that has queued
      something and has not notified yet. */
  ghost function Pending(p: Pool): int
  {
    Sum(p.calls, PendingCount) + if p.control.SentPushed? || p.control.SentCounted? then 1 else 0
  }

  /** Increments of `m_ntasks` that are still to come. */
  ghost function Uncounted(p: Pool): int
  {
    Sum(p.calls, PushedCount) + if p.control.SentPushed? then 1 else 0
  }

  // ----- the invariant -----

  /** First in, first out: what was dequeued and what is queued make up what was queued. */
  ghost predicate Fifo(p: Pool)
  {
    p.pushes == p.pops + p.queue
  }

  /** Every dequeued item was run or is in the hands of exactly one worker. */
  ghost predicate Accounted(p: Pool)
  {
    forall x: Item :: multiset(p.pops)[x] == multiset(p.ran)[x] + Sum(p.workers, HoldCount(x))
  }

  /** The task of a call is queued once if the call was accepted and never if it was refused. */
  ghost predicate Tickets(p: Pool)
  {
    && (forall c: nat :: multiset(p.pushes)[Task(c)] == if c < |p.calls| && !p.calls[c].Refused? then 1 else 0)
    && (forall g: nat :: p.life < g ==> multiset(p.pushes)[Sentinel(g)] == 0)
    && (p.state.Started? || p.control.Spawning? ==> multiset(p.pushes)[Sentinel(p.life)] == 0)
  }

  /** Tasks are queued in the order in which their calls entered the critical section. */
  ghost predicate Ordered(p: Pool)
  {
    forall i, j :: 0 <= i < j < |p.pushes| && p.pushes[i].Task? && p.pushes[j].Task? ==>
      p.pushes[i].call < p.pushes[j].call
  }

  ghost predicate SentinelLast(p: Pool)
  {
    && p.pushes != [] && p.pushes[|p.pushes| - 1] == Sentinel(p.life)
    && multiset(p.pushes)[Sentinel(p.life)] == 1
  }

  ghost predicate AllExited(p: Pool)
  {
    forall w :: 0 <= w < |p.workers| ==> p.workers[w].Exited?
  }

  /** The control thread's position fixes the pool's state. */
  ghost predicate Phase(p: Pool)
  {
    && |p.workers| <= p.size < WORD
    && (!p.state.Off? ==> forall w :: 0 <= w < |p.workers| ==> !p.workers[w].Exited?)
    && (!p.state.Off? && !p.control.Spawning? ==> 0 < |p.workers|)
    && match p.control
       case Idle => p.state.Started? || (p.state.Off? && p.queue == [] && AllExited(p))
       case Spawning => p.state.Stopping? && p.queue == [] && 0 < p.size
       case SentPushed => p.state.Stopping? && SentinelLast(p)
       case SentCounted => p.state.Stopping? && SentinelLast(p)
       case Awaiting => p.state.Stopping? && SentinelLast(p)
       case Closing => p.state.Stopping? && p.queue == []
       case Waking(safe) => p.state.Off? && (safe ==> p.queue == [])
       case Joining(k, safe) =>
         && p.state.Off? && (safe ==> p.queue == []) && k <= |p.workers|
         && forall w :: 0 <= w < k ==> p.workers[w].Exited?
       case Dead => p.state.Off? && AllExited(p)
  }

  /** No lost wakeup. */
  ghost predicate Wakeups(p: Pool)
  {
    forall w :: 0 <= w < |p.workers| && p.workers[w].Asleep? ==>
      if p.state.Off? then p.control.Waking?
      else |p.queue| <= Pending(p) + Sum(p.workers, WokenCount)
  }

  ghost function Wrap(x: int): int { x % WORD }

  /** What the atomic counters hold, wrap-around included. */
  ghost predicate Counters(p: Pool)
  {
    && p.ntasks == Wrap(|p.queue| + Sum(p.workers, PoppedCount) - Uncounted(p))
    && p.working == Wrap(Sum(p.workers, BusyCount))
  }

  ghost predicate Inv(p: Pool)
  {
    Fifo(p) && Accounted(p) && Tickets(p) && Ordered(p) && Phase(p) && Wakeups(p) && Counters(p)
  }

  // ----- how the counts change -----

  /** Moving one worker changes each count by that worker's difference. */
  lemma MoveCounts(ws: seq<Worker>, w: nat, to: Worker)
    requires w < |ws|
    ensures Sum(ws[w := to], WokenCount) == Sum(ws, WokenCount) - WokenCount(ws[w]) + WokenCount(to)
    ensures Sum(ws[w := to], PoppedCount) == Sum(ws, PoppedCount) - PoppedCount(ws[w]) + PoppedCount(to)
    ensures Sum(ws[w := to], BusyCount) == Sum(ws, BusyCount) - BusyCount(ws[w]) + BusyCount(to)
    ensures forall x :: Sum(ws[w := to], HoldCount(x)) == Sum(ws, HoldCount(x)) - HoldCount(x)(ws[w]) + HoldCount(x)(to)
  {
    SumUpdate(ws, w, to, WokenCount);
    SumUpdate(ws, w, to, PoppedCount);
    SumUpdate(ws, w, to, BusyCount);
    forall x ensures Sum(ws[w := to], HoldCount(x)) == Sum(ws, HoldCount(x)) - HoldCount(x)(ws[w]) + HoldCount(x)(to) {
      SumUpdate(ws, w, to, HoldCount(x));
    }
  }

  /** A notification moves nobody but, at most, one sleeper. */
  lemma NotifyCounts(ws: seq<Worker>, k: nat)
    requires CanNotify(ws, k)
    ensures Sum(Notify(ws, k), WokenCount) == Sum(ws, WokenCount) + if k < |ws| then 1 else 0
    ensures Sum(Notify(ws, k), PoppedCount) == Sum(ws, PoppedCount)
    ensures Sum(Notify(ws, k), BusyCount) == Sum(ws, BusyCount)
    ensures forall x :: Sum(Notify(ws, k), HoldCount(x)) == Sum(ws, HoldCount(x))
  {
    if k < |ws| {
      MoveCounts(ws, k, Woken);
    }
  }

  lemma SumSame<T>(s: seq<T>, t: seq<T>, f: T -> int)
    requires |s| == |t| && forall i :: 0 <= i < |s| ==> f(s[i]) == f(t[i])
    ensures Sum(s, f) == Sum(t, f)
  {
    SumMono(s, t, f, f);
    SumMono(t, s, f, f);
  }

  lemma WakeAllCounts(ws: seq<Worker>)
    ensures Sum(WakeAll(ws), PoppedCount) == Sum(ws, PoppedCount)
    ensures Sum(WakeAll(ws), BusyCount) == Sum(ws, BusyCount)
    ensures forall x :: Sum(WakeAll(ws), HoldCount(x)) == Sum(ws, HoldCount(x))
  {
    SumSame(ws, WakeAll(ws), PoppedCount);
    SumSame(ws, WakeAll(ws), BusyCount);
    forall x ensures Sum(WakeAll(ws), HoldCount(x)) == Sum(ws, HoldCount(x)) {
      SumSame(ws, WakeAll(ws), HoldCount(x));
    }
  }

  lemma ExitedCounts(ws: seq<Worker>)
    requires forall w :: 0 <= w < |ws| ==> ws[w].Exited?
    ensures Sum(ws, PoppedCount) == 0 && Sum(ws, BusyCount) == 0
    ensures forall x :: Sum(ws, HoldCount(x)) == 0
  {
    SumZero(ws, PoppedCount);
    SumZero(ws, BusyCount);
    forall x ensures Sum(ws, HoldCount(x)) == 0 {
      SumZero(ws, HoldCount(x));
    }
  }

  lemma SpawnCounts(ws: seq<Worker>)
    ensures Sum(ws + [Booting], WokenCount) == Sum(ws, WokenCount)
    ensures Sum(ws + [Booting], PoppedCount) == Sum(ws, PoppedCount)
    ensures Sum(ws + [Booting], BusyCount) == Sum(ws, BusyCount)
    ensures forall x :: Sum(ws + [Booting], HoldCount(x)) == Sum(ws, HoldCount(x))
  {
    SumPush(ws, Booting, WokenCount);
    SumPush(ws, Booting, PoppedCount);
    SumPush(ws, Booting, BusyCount);
    forall x ensures Sum(ws + [Booting], HoldCount(x)) == Sum(ws, HoldCount(x)) {
      SumPush(ws, Booting, HoldCount(x));
    }
  }

  lemma CallCounts(cs: seq<Call>, c: nat, to: Call)
    requires c < |cs|
    ensures Sum(cs[c := to], PushedCount) == Sum(cs, PushedCount) - PushedCount(cs[c]) + PushedCount(to)
    ensures Sum(cs[c := to], PendingCount) == Sum(cs, PendingCount) - PendingCount(cs[c]) + PendingCount(to)
  {
    SumUpdate(cs, c, to, PushedCount);
    SumUpdate(cs, c, to, PendingCount);
  }

  lemma NewCallCounts(cs: seq<Call>, x: Call)
    ensures Sum(cs + [x], PushedCount) == Sum(cs, PushedCount) + PushedCount(x)
    ensures Sum(cs + [x], PendingCount) == Sum(cs, PendingCount) + PendingCount(x)
  {
    SumPush(cs, x, PushedCount);
    SumPush(cs, x, PendingCount);
  }

  // ----- each clause is kept by every step -----

  /** Steps taken by a worker; every other step is a caller's or the control thread's. */
  predicate ByWorker(t: Step)
  {
    t.Boot? || t.Leave? || t.Lock? || t.CountPop? || t.RunTask? || t.Spurious?
  }

  predicate ByCaller(t: Step)
  {
    t.Schedule? || t.CountCall? || t.NotifyCall?
  }

  lemma KeepFifo(p: Pool, t: Step)
    requires Fifo(p) && Enabled(p, t)
    ensures Fifo(Apply(p, t))
  {
    hide Inc, Dec;
    var q := Apply(p, t);
    if t.Lock? && p.queue != [] {
      assert p.pops + p.queue == (p.pops + [p.queue[0]]) + p.queue[1..];
    } else if q.pushes == p.pushes {
      assert q.pops == p.pops && q.queue == p.queue;
    } else {
      var x := q.pushes[|p.pushes|];
      assert q.pops == p.pops && q.queue == p.queue + [x] && q.pushes == p.pushes + [x];
      assert p.pops + (p.queue + [x]) == (p.pops + p.queue) + [x];
    }
  }

  lemma KeepAccounted(p: Pool, t: Step)
    requires Accounted(p) && Phase(p) && Enabled(p, t)
    ensures Accounted(Apply(p, t))
  {
    if ByWorker(t) {
      WorkerKeepsAccounted(p, t);
    } else {
      var q := Apply(p, t);
      assert q.pops == p.pops && q.ran == p.ran;
      assert forall x :: Sum(q.workers, HoldCount(x)) == Sum(p.workers, HoldCount(x)) by {
        match t
        case NotifyCall(c, k) => NotifyCounts(p.workers, k);
        case NotifySentinel(k) => NotifyCounts(p.workers, k);
        case NotifyAll => WakeAllCounts(p.workers);
        case Spawn => SpawnCounts(p.workers);
        case InitLock(size) => if p.state.Off? { ExitedCounts(p.workers); ExitedCounts([]); }
        case _ => assert q.workers == p.workers;
      }
    }
  }

  lemma WorkerKeepsAccounted(p: Pool, t: Step)
    requires Accounted(p) && Enabled(p, t) && ByWorker(t)
    ensures Accounted(Apply(p, t))
  {
    var q := Apply(p, t);
    var was, to := p.workers[t.w], q.workers[t.w];
    assert q.workers == p.workers[t.w := to];
    MoveCounts(p.workers, t.w, to);
    forall x: Item
      ensures multiset(q.pops)[x] == multiset(q.ran)[x] + Sum(q.workers, HoldCount(x))
    {
      assert multiset(p.pops)[x] == multiset(p.ran)[x] + Sum(p.workers, HoldCount(x));
      assert Sum(q.workers, HoldCount(x)) == Sum(p.workers, HoldCount(x)) - HoldCount(x)(was) + HoldCount(x)(to);
      StepBalance(p, t, x);
    }
  }

  /** A worker's step changes what it holds by exactly what it dequeues or finishes. */
  lemma StepBalance(p: Pool, t: Step, x: Item)
    requires Enabled(p, t) && ByWorker(t)
    ensures var q := Apply(p, t);
            multiset(q.pops)[x] - multiset(p.pops)[x] + HoldCount(x)(p.workers[t.w])
            == multiset(q.ran)[x] - multiset(p.ran)[x] + HoldCount(x)(q.workers[t.w])
  {
  }

  lemma KeepTickets(p: Pool, t: Step)
    requires Tickets(p) && Phase(p) && Enabled(p, t)
    ensures Tickets(Apply(p, t))
  {
    if t.Schedule? || t.SafeStop? {
      QueueingKeepsTickets(p, t);
    } else {
      var q := Apply(p, t);
      assert q.pushes == p.pushes;
      assert |q.calls| == |p.calls| && p.life <= q.life;
      assert forall c :: 0 <= c < |p.calls| ==> (q.calls[c].Refused? <==> p.calls[c].Refused?);
    }
  }

  lemma QueueingKeepsTickets(p: Pool, t: Step)
    requires Tickets(p) && Phase(p) && Enabled(p, t) && (t.Schedule? || t.SafeStop?)
    ensures Tickets(Apply(p, t))
  {
  }

  lemma KeepOrdered(p: Pool, t: Step)
    requires Ordered(p) && Tickets(p) && Enabled(p, t)
    ensures Ordered(Apply(p, t))
  {
    var q := Apply(p, t);
    if t.Schedule? || t.SafeStop? {
      forall i | 0 <= i < |p.pushes| && p.pushes[i].Task? ensures p.pushes[i].call < |p.calls| {
        assert multiset(p.pushes)[p.pushes[i]] > 0;
      }
      assert forall i :: 0 <= i < |p.pushes| ==> q.pushes[i] == p.pushes[i];
    } else {
      assert q.pushes == p.pushes;
    }
  }

  lemma LastOfConcat<T>(s: seq<T>, t: seq<T>)
    ensures t != [] ==> (s + t)[|s + t| - 1] in t
  {
  }

  /** Once the marker has run it has left the queue, and since it was queued last and only once,
      nothing is left behind it. */
  lemma SentinelRanMeansEmpty(p: Pool)
    requires Fifo(p) && Accounted(p) && SentinelLast(p) && Sentinel(p.life) in p.ran
    ensures p.queue == []
  {
    var x := Sentinel(p.life);
    LastOfConcat(p.pops, p.queue);
    SumZero(p.workers, HoldCount(x));
    assert multiset(p.ran)[x] >= 1;
    assert multiset(p.pops)[x] >= 1;
    assert multiset(p.pushes)[x] == multiset(p.pops)[x] + multiset(p.queue)[x];
    assert x !in p.queue;
  }

  lemma KeepPhase(p: Pool, t: Step)
    requires Fifo(p) && Accounted(p) && Tickets(p) && Phase(p) && Enabled(p, t)
    ensures Phase(Apply(p, t))
  {
    if ByWorker(t) {
      WorkerKeepsPhase(p, t);
    } else if ByCaller(t) {
      CallerKeepsPhase(p, t);
    } else {
      if t.Future? {
        SentinelRanMeansEmpty(p);
      }
      ControlKeepsPhase(p, t);
    }
  }

  lemma WorkerKeepsPhase(p: Pool, t: Step)
    requires Phase(p) && Enabled(p, t) && ByWorker(t)
    ensures Phase(Apply(p, t))
  {
    var q := Apply(p, t);
    assert q.workers == p.workers[t.w := q.workers[t.w]];
    assert q.workers[t.w].Exited? <==> t.Lock? && p.state.Off?;
    assert !p.workers[t.w].Exited?;
  }

  lemma CallerKeepsPhase(p: Pool, t: Step)
    requires Phase(p) && Enabled(p, t) && ByCaller(t)
    ensures Phase(Apply(p, t))
  {
  }

  lemma ControlKeepsPhase(p: Pool, t: Step)
    requires Tickets(p) && Phase(p) && Enabled(p, t) && !ByWorker(t) && !ByCaller(t)
    requires t.Future? ==> p.queue == []
    ensures Phase(Apply(p, t))
  {
  }

  lemma KeepWakeups(p: Pool, t: Step)
    requires Wakeups(p) && Phase(p) && Enabled(p, t)
    ensures Wakeups(Apply(p, t))
  {
    SumZero(p.workers, WokenCount);
    SumZero(p.calls, PendingCount);
    if ByWorker(t) {
      WorkerKeepsWakeups(p, t);
    } else if ByCaller(t) {
      CallerKeepsWakeups(p, t);
    } else {
      ControlKeepsWakeups(p, t);
    }
  }

  lemma WorkerKeepsWakeups(p: Pool, t: Step)
    requires Wakeups(p) && Phase(p) && Enabled(p, t) && ByWorker(t)
    requires 0 <= Sum(p.calls, PendingCount)
    ensures Wakeups(Apply(p, t))
  {
    var q := Apply(p, t);
    MoveCounts(p.workers, t.w, q.workers[t.w]);
    SumZero(q.workers, WokenCount);
  }

  lemma CallerKeepsWakeups(p: Pool, t: Step)
    requires Wakeups(p) && Enabled(p, t) && ByCaller(t)
    requires 0 <= Sum(p.workers, WokenCount)
    ensures Wakeups(Apply(p, t))
  {
    match t
    case Schedule => NewCallCounts(p.calls, Refused); NewCallCounts(p.calls, Pushed);
    case CountCall(c) => CallCounts(p.calls, c, Counted);
    case NotifyCall(c, k) => CallCounts(p.calls, c, Accepted); NotifyCounts(p.workers, k);
  }

  lemma ControlKeepsWakeups(p: Pool, t: Step)
    requires Wakeups(p) && Phase(p) && Enabled(p, t) && !ByWorker(t) && !ByCaller(t)
    requires 0 <= Sum(p.workers, WokenCount) && 0 <= Sum(p.calls, PendingCount)
    ensures Wakeups(Apply(p, t))
  {
    match t
    case NotifySentinel(k) => NotifyCounts(p.workers, k);
    case Spawn => SpawnCounts(p.workers);
    case _ =>
  }

  lemma KeepCounters(p: Pool, t: Step)
    requires Counters(p) && Phase(p) && Enabled(p, t)
    ensures Counters(Apply(p, t))
  {
    if ByWorker(t) {
      WorkerKeepsCounters(p, t);
    } else if ByCaller(t) {
      CallerKeepsCounters(p, t);
    } else {
      ControlKeepsCounters(p, t);
    }
  }

  lemma WorkerKeepsCounters(p: Pool, t: Step)
    requires Counters(p) && Enabled(p, t) && ByWorker(t)
    ensures Counters(Apply(p, t))
  {
    hide Wrap, Inc, Dec, Sum;
    MoveCounts(p.workers, t.w, Apply(p, t).workers[t.w]);
    WrapSteps(Sum(p.workers, BusyCount));
    WrapSteps(|p.queue| + Sum(p.workers, PoppedCount) - Uncounted(p));
  }

  lemma WrapSteps(x: int)
    ensures Inc(Wrap(x)) == Wrap(x + 1) && Dec(Wrap(x)) == Wrap(x - 1)
  {
  }

  lemma CallerKeepsCounters(p: Pool, t: Step)
    requires Counters(p) && Enabled(p, t) && ByCaller(t)
    ensures Counters(Apply(p, t))
  {
    hide Wrap, Inc, Dec, Sum;
    WrapSteps(|p.queue| + Sum(p.workers, PoppedCount) - Uncounted(p));
    match t
    case Schedule => NewCallCounts(p.calls, Refused); NewCallCounts(p.calls, Pushed);
    case CountCall(c) => CallCounts(p.calls, c, Counted);
    case NotifyCall(c, k) => CallCounts(p.calls, c, Accepted); NotifyCounts(p.workers, k);
  }

  lemma ControlKeepsCounters(p: Pool, t: Step)
    requires Counters(p) && Phase(p) && Enabled(p, t) && !ByWorker(t) && !ByCaller(t)
    ensures Counters(Apply(p, t))
  {
    hide Wrap, Inc, Dec, Sum;
    WrapSteps(|p.queue| + Sum(p.workers, PoppedCount) - Uncounted(p));
    match t
    case NotifySentinel(k) => NotifyCounts(p.workers, k);
    case NotifyAll => WakeAllCounts(p.workers);
    case Spawn => SpawnCounts(p.workers);
    case InitLock(size) => if p.state.Off? { ExitedCounts(p.workers); ExitedCounts([]); }
    case _ =>
  }

  lemma FreshInv()
    ensures Inv(Fresh)
  {
    assert Accounted(Fresh) by {
      forall x: Item ensures Sum(Fresh.workers, HoldCount(x)) == 0 {
        ExitedCounts([]);
      }
    }
    assert Tickets(Fresh) && Phase(Fresh);
    assert Counters(Fresh);
  }

  lemma StepKeepsInv(p: Pool, t: Step)
    requires Inv(p) && Enabled(p, t)
    ensures Inv(Apply(p, t))
  {
    KeepFifo(p, t);
    KeepAccounted(p, t);
    KeepTickets(p, t);
    KeepOrdered(p, t);
    KeepPhase(p, t);
    KeepWakeups(p, t);
    KeepCounters(p, t);
  }

  lemma {:induction false} RunKeepsInv(p: Pool, ts: seq<Step>)
    requires Inv(p) && IsRun(p, ts)
    ensures Inv(After(p, ts))
    decreases |ts|
  {
    if ts != [] {
      StepKeepsInv(p, ts[0]);
      RunKeepsInv(Apply(p, ts[0]), ts[1..]);
    }
  }

  /** Every state that some run of the pool, from its construction on, can reach. */
  ghost predicate Reachable(p: Pool)
  {
    exists ts: seq<Step> :: IsRun(Fresh, ts) && After(Fresh, ts) == p
  }

  lemma ReachableInv(p: Pool)
    requires Reachable(p)
    ensures Inv(p)
  {
    var ts: seq<Step> :| IsRun(Fresh, ts) && After(Fresh, ts) == p;
    FreshInv();
    RunKeepsInv(Fresh, ts);
  }

  // ----- main results -----

  lemma NothingHeld(p: Pool)
    requires Inv(p) && AllExited(p)
    ensures multiset(p.ran) == multiset(p.pops)
    ensures p.ntasks == (|p.queue| - Uncounted(p)) % WORD && p.working == 0
  {
    ExitedCounts(p.workers);
    forall x: Item ensures multiset(p.ran)[x] == multiset(p.pops)[x] {
      assert Sum(p.workers, HoldCount(x)) == 0;
    }
  }

  /** `safe_stop` is at line 121, about to return true. Everything accepted was dequeued in the
      order of acceptance and run exactly once, nothing else ran, the queue is empty and every
      worker thread has ended. */
  lemma SafeStopDrains(p: Pool)
    requires Reachable(p) && p.control == Joining(|p.workers|, true)
    ensures p.queue == [] && p.pops == p.pushes && Ordered(p) && AllExited(p)
    ensures multiset(p.ran) == multiset(p.pushes)
    ensures forall c: nat :: c < |p.calls| ==> multiset(p.ran)[Task(c)] == if p.calls[c].Refused? then 0 else 1
    ensures p.working == 0 && p.ntasks == -Sum(p.calls, PushedCount) % WORD
  {
    ReachableInv(p);
    assert p.pops == p.pushes;
    NothingHeld(p);
  }

  ghost predicate Refusing(p: Pool, q: Pool)
  {
    && !q.state.Started? && q.pushes == p.pushes && |p.calls| <= |q.calls|
    && forall c :: 0 <= c < |q.calls| && (c < |p.calls| ==> p.calls[c].Refused?) ==> q.calls[c].Refused?
  }

  /** Once the pool is not started, no run that does not complete an `init` accepts anything. */
  lemma {:induction false} NoLateAcceptance(p: Pool, ts: seq<Step>)
    requires !p.state.Started? && IsRun(p, ts) && InitDone !in ts
    ensures Refusing(p, After(p, ts))
    decreases |ts|
  {
    if ts != [] {
      var q := Apply(p, ts[0]);
      assert ts[0] in ts && forall t :: t in ts[1..] ==> t in ts;
      assert Refusing(p, q) by { StoppedStep(p, ts[0]); }
      NoLateAcceptance(q, ts[1..]);
    }
  }

  lemma StoppedStep(p: Pool, t: Step)
    requires !p.state.Started? && Enabled(p, t) && !t.InitDone?
    ensures Refusing(p, Apply(p, t))
  {
  }

  /** No lost wakeup: while a worker sleeps and the pool is not switched off, each queued task has
      a notification on its way or a woken worker; after switch-off a sleeper means that the
      `notify_all` is still to come. */
  lemma NoLostWakeup(p: Pool, w: nat)
    requires Reachable(p) && w < |p.workers| && p.workers[w].Asleep?
    ensures !p.state.Off? ==> |p.queue| <= Pending(p) + Sum(p.workers, WokenCount)
    ensures p.state.Off? ==> p.control.Waking?
  {
    ReachableInv(p);
  }

  ghost function HoldingCount(w: Worker): int { if w.Holding? then 1 else 0 }

  lemma WrapIsExact(x: int, y: int, z: int)
    requires 0 <= x < WORD && 0 <= y < WORD && 0 <= z < WORD
    ensures Wrap(x + y - z) == x <==> y == z
  {
  }

  /** In every reachable state, exactly: `m_ntasks` is the queue length if and only if as many tasks
      have been taken and not counted down as have been queued and not counted up. */
  lemma TaskCounterIff(p: Pool)
    requires Reachable(p) && |p.queue| < WORD && Uncounted(p) < WORD
    ensures p.ntasks == |p.queue| <==> Sum(p.workers, PoppedCount) == Uncounted(p)
  {
    hide Wrap;
    ReachableInv(p);
    SumZero(p.calls, PushedCount);
    SumZero(p.workers, PoppedCount);
    SumBound(p.workers, PoppedCount);
    WrapIsExact(|p.queue|, Sum(p.workers, PoppedCount), Uncounted(p));
  }

  ghost function BetweenCount(w: Worker): int { if w.Leaving? || w.Popped? then 1 else 0 }

  lemma {:induction false} BusyIsSum(ws: seq<Worker>)
    ensures Sum(ws, BusyCount) == Sum(ws, HoldingCount) + Sum(ws, BetweenCount)
    ensures 0 <= Sum(ws, BetweenCount) && 0 <= Sum(ws, HoldingCount)
    ensures Sum(ws, BusyCount) <= |ws|
    ensures Sum(ws, BetweenCount) == 0 <==> forall w :: 0 <= w < |ws| ==> !ws[w].Leaving? && !ws[w].Popped?
  {
    if ws != [] {
      BusyIsSum(ws[1..]);
      assert forall w :: 1 <= w < |ws| ==> ws[w] == ws[1..][w - 1];
    }
  }

  /** And `m_working` is the number of workers holding a task if and only if no worker is between a
      task and the head of its loop, or between taking a task and counting it down. */
  lemma WorkCounterIff(p: Pool)
    requires Reachable(p)
    ensures p.working == Sum(p.workers, HoldingCount)
            <==> forall w :: 0 <= w < |p.workers| ==> !p.workers[w].Leaving? && !p.workers[w].Popped?
  {
    ReachableInv(p);
    BusyIsSum(p.workers);
  }

  lemma {:induction false} SumBound<T>(s: seq<T>, f: T -> int)
    requires forall i :: 0 <= i < |s| ==> f(s[i]) <= 1
    ensures Sum(s, f) <= |s|
  {
    if s != [] {
      SumBound(s[1..], f);
    }
  }

  /** When no thread is between a queue operation and its counter update, `m_ntasks` is the queue
      length and `m_working` the number of workers holding a task. */
  lemma CountersAtRest(p: Pool)
    requires Reachable(p) && |p.queue| < WORD
    requires !p.control.SentPushed? && forall c :: 0 <= c < |p.calls| ==> !p.calls[c].Pushed?
    requires forall w :: 0 <= w < |p.workers| ==> !p.workers[w].Popped? && !p.workers[w].Leaving?
    ensures p.ntasks == |p.queue| && p.working == Sum(p.workers, HoldingCount)
  {
    hide Reachable, Counters, Inv, HoldingCount, BusyCount;
    SumZero(p.calls, PushedCount);
    SumZero(p.workers, PoppedCount);
    TaskCounterIff(p);
    WorkCounterIff(p);
  }

  /** The destructor runs `_destory` without draining: what was dequeued was run exactly once, and
      what was dropped is exactly the rest of the queue. */
  lemma DestructorDropsTheQueue(p: Pool)
    requires Reachable(p) && p.control.Dead?
    ensures p.pushes == p.pops + p.queue && multiset(p.ran) == multiset(p.pops)
    ensures forall c: nat :: c < |p.calls| && !p.calls[c].Refused? ==>
              multiset(p.ran)[Task(c)] + multiset(p.queue)[Task(c)] == 1
  {
    ReachableInv(p);
    NothingHeld(p);
    forall c: nat | c < |p.calls| && !p.calls[c].Refused?
      ensures multiset(p.ran)[Task(c)] + multiset(p.queue)[Task(c)] == 1
    {
      assert multiset(p.pushes) == multiset(p.pops) + multiset(p.queue);
      assert multiset(p.pushes)[Task(c)] == 1;
    }
  }

  /** The destructor has switched the pool off. */
  predicate Destroying(p: Pool)
  {
    p.state.Off? && match p.control
                    case Waking(safe) => !safe
                    case Joining(_, safe) => !safe
                    case Dead => true
                    case _ => false
  }

  /** The queue stays as it is, and no call becomes accepted or refused that was not. */
  ghost predicate QueueStays(p: Pool, q: Pool)
  {
    && q.queue == p.queue && q.pushes == p.pushes && |p.calls| <= |q.calls|
    && forall c :: 0 <= c < |q.calls| ==> (q.calls[c].Refused? <==> c >= |p.calls| || p.calls[c].Refused?)
  }

  lemma DestroyingStep(p: Pool, t: Step)
    requires Destroying(p) && Enabled(p, t)
    ensures Destroying(Apply(p, t)) && QueueStays(p, Apply(p, t))
  {
  }

  /** From the moment the destructor has switched the pool off nothing is queued or dequeued. */
  lemma {:induction false} DestroyingRun(p: Pool, ts: seq<Step>)
    requires Destroying(p) && IsRun(p, ts)
    ensures Destroying(After(p, ts)) && QueueStays(p, After(p, ts))
    decreases |ts|
  {
    hide Apply, Enabled, Destroying;
    if ts != [] {
      DestroyingStep(p, ts[0]);
      DestroyingRun(Apply(p, ts[0]), ts[1..]);
    }
  }

  /** Every accepted task has run, each once. */
  ghost predicate AllAcceptedRan(p: Pool)
  {
    forall c: nat :: c < |p.calls| && !p.calls[c].Refused? ==> multiset(p.ran)[Task(c)] == 1
  }

  predicate HoldsNoTask(queue: seq<Item>)
  {
    forall x :: x in queue ==> !x.Task?
  }

  lemma DeadLosesItsQueue(p: Pool)
    requires Inv(p) && p.control.Dead?
    ensures AllAcceptedRan(p) <==> HoldsNoTask(p.queue)
  {
    NothingHeld(p);
    assert multiset(p.pushes) == multiset(p.pops) + multiset(p.queue);
    if HoldsNoTask(p.queue) {
      forall c: nat | c < |p.calls| && !p.calls[c].Refused? ensures multiset(p.ran)[Task(c)] == 1 {
        assert Task(c) !in p.queue;
        assert multiset(p.pushes)[Task(c)] == 1;
      }
    } else {
      var x :| x in p.queue && x.Task?;
      assert multiset(p.queue)[x] > 0;
      assert multiset(p.pushes)[Task(x.call)] == 1;
      assert multiset(p.ran)[Task(x.call)] == 0;
    }
  }

  /** Exactly when the destructor loses tasks: whatever the threads do after it has taken the lock, the
      queue it drops is the queue it found, and every accepted task has been run if and only if that
      queue held none. */
  lemma DestructorIff(p: Pool, ts: seq<Step>)
    requires Reachable(p) && p.state.Started? && Enabled(p, Destructor)
    requires IsRun(Apply(p, Destructor), ts) && After(Apply(p, Destructor), ts).control.Dead?
    ensures var q := After(Apply(p, Destructor), ts);
            q.queue == p.queue && (AllAcceptedRan(q) <==> HoldsNoTask(p.queue))
  {
    hide AllAcceptedRan, HoldsNoTask, Inv;
    var p1 := Apply(p, Destructor);
    DestroyingRun(p1, ts);
    ReachableInv(p);
    StepKeepsInv(p, Destructor);
    RunKeepsInv(p1, ts);
    DeadLosesItsQueue(After(p1, ts));
  }

  lemma {:induction false} RunConcat(p: Pool, ts: seq<Step>, us: seq<Step>)
    requires IsRun(p, ts) && IsRun(After(p, ts), us)
    ensures IsRun(p, ts + us) && After(p, ts + us) == After(After(p, ts), us)
    decreases |ts|
  {
    if ts == [] {
      assert ts + us == us;
    } else {
      assert (ts + us)[0] == ts[0] && (ts + us)[1..] == ts[1..] + us;
      RunConcat(Apply(p, ts[0]), ts[1..], us);
    }
  }

  lemma ReachableExtends(p: Pool, us: seq<Step>)
    requires Reachable(p) && IsRun(p, us)
    ensures Reachable(After(p, us))
  {
    var ts: seq<Step> :| IsRun(Fresh, ts) && After(Fresh, ts) == p;
    RunConcat(Fresh, ts, us);
  }

  /** After `safe_stop` has returned, `init` starts clean: a run of `init` with any number of
      workers ends in a started pool with an empty queue, nobody at work and only new workers. */
  lemma RestartIsClean(p: Pool, size: nat) returns (ts: seq<Step>)
    requires Reachable(p) && p.control.Idle? && p.state.Off? && 0 < size < WORD
    ensures IsRun(p, ts)
    ensures var q := After(p, ts);
            && Reachable(q) && q.state.Started? && q.control.Idle? && q.queue == [] && q.working == 0
            && |q.workers| == size && (forall w :: 0 <= w < size ==> q.workers[w].Booting?)
            && q.calls == p.calls && q.pushes == p.pushes && q.ran == p.ran
  {
    ReachableInv(p);
    NothingHeld(p);
    var p0 := Apply(p, InitLock(size));
    var us := SpawnAll(p0);
    var p1 := After(p0, us);
    assert IsRun(p1, [InitDone]) && After(p1, [InitDone]) == Apply(p1, InitDone) by {
      assert [InitDone][1..] == [];
    }
    RunConcat(p0, us, [InitDone]);
    ts := [InitLock(size)] + (us + [InitDone]);
    assert ts[0] == InitLock(size) && ts[1..] == us + [InitDone];
    ReachableExtends(p, ts);
  }

  lemma {:induction false} SpawnAll(p: Pool) returns (ts: seq<Step>)
    requires p.control.Spawning? && |p.workers| <= p.size && forall w :: 0 <= w < |p.workers| ==> p.workers[w].Booting?
    ensures IsRun(p, ts)
    ensures var q := After(p, ts);
            && |q.workers| == p.size && (forall w :: 0 <= w < p.size ==> q.workers[w].Booting?)
            && q == p.(workers := q.workers)
    decreases p.size - |p.workers|
  {
    if |p.workers| == p.size {
      ts := [];
    } else {
      var us := SpawnAll(Apply(p, Spawn));
      ts := [Spawn] + us;
      assert ts[0] == Spawn && ts[1..] == us;
    }
  }
}
