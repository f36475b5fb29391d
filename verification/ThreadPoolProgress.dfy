/** Progress of the thread pool: `safe_stop` always returns, and accepted tasks are always run.
    Every step that is not a new request by a client, nor a spurious wakeup, lowers a measure; and
    a state without such a step is at rest.

    Lines are those of UtilityEngine/include/com_thread_pool.hpp. */
module ThreadPoolProgress {
  import opened Sums
  import opened ThreadPool
  import opened ThreadPoolSafety

  /** Steps of work already under way: not a new client request and not a spurious wakeup. */
  predicate Internal(t: Step)
  {
    !t.Schedule? && !t.SafeStop? && !t.InitLock? && !t.Destructor? && !t.Spurious?
  }

  ghost function WorkerWeight(w: Worker): int
  {
    match w
    case Exited => 0
    case Asleep => 1
    case Woken => 2
    case Entering => 2
    case Leaving => 3
    case Booting => 4
    case Holding(_) => 4
    case Popped(_) => 5
  }

  ghost function CallWeight(c: Call): int
  {
    match c
    case Refused => 0
    case Accepted => 0
    case Counted => 2
    case Pushed => 3
  }

  ghost function ControlWeight(p: Pool): int
  {
    var n := |p.workers|;
    match p.control
    case Idle => 0
    case Dead => 0
    case Spawning => 5 * (p.size - n) + 1
    case Joining(k, _) => n - k + 1
    case Waking(_) => 2 * n + 2
    case Closing => 2 * n + 3
    case Awaiting => 2 * n + 4
    case SentCounted => 2 * n + 6
    case SentPushed => 2 * n + 7
  }

  ghost function Measure(p: Pool): int
  {
    4 * |p.queue| + Sum(p.workers, WorkerWeight) + Sum(p.calls, CallWeight) + ControlWeight(p)
  }

  lemma MeasureNonNegative(p: Pool)
    requires Phase(p)
    ensures 0 <= Measure(p)
  {
    SumZero(p.workers, WorkerWeight);
    SumZero(p.calls, CallWeight);
  }

  lemma NotifyWeight(ws: seq<Worker>, k: nat)
    requires CanNotify(ws, k)
    ensures Sum(Notify(ws, k), WorkerWeight) <= Sum(ws, WorkerWeight) + 1
  {
    if k < |ws| {
      SumUpdate(ws, k, Woken, WorkerWeight);
    }
  }

  lemma {:induction false} WakeAllWeight(ws: seq<Worker>)
    ensures Sum(WakeAll(ws), WorkerWeight) <= Sum(ws, WorkerWeight) + |ws|
  {
    if ws != [] {
      assert WakeAll(ws)[1..] == WakeAll(ws[1..]);
      WakeAllWeight(ws[1..]);
    }
  }

  lemma InternalStepDecreases(p: Pool, t: Step)
    requires Phase(p) && Enabled(p, t) && Internal(t)
    ensures Measure(Apply(p, t)) < Measure(p)
  {
    if ByWorker(t) {
      SumUpdate(p.workers, t.w, Apply(p, t).workers[t.w], WorkerWeight);
    } else if ByCaller(t) {
      SumUpdate(p.calls, t.c, Apply(p, t).calls[t.c], CallWeight);
      if t.NotifyCall? {
        NotifyWeight(p.workers, t.woken);
      }
    } else {
      ControlStepDecreases(p, t);
    }
  }

  lemma ControlStepDecreases(p: Pool, t: Step)
    requires Phase(p) && Enabled(p, t) && Internal(t) && !ByWorker(t) && !ByCaller(t)
    ensures Measure(Apply(p, t)) < Measure(p)
  {
    match t
    case NotifySentinel(k) => NotifyWeight(p.workers, k);
    case NotifyAll => WakeAllWeight(p.workers);
    case Spawn => SumPush(p.workers, Booting, WorkerWeight);
    case _ =>
  }

  /** While the pool is not started, requests change nothing the measure sees; a spurious wakeup
      adds one. */
  lemma OtherStepAdds(p: Pool, t: Step)
    requires Enabled(p, t) && (t.Spurious? || (!p.state.Started? && (t.Schedule? || t.SafeStop?)))
    ensures Measure(Apply(p, t)) == Measure(p) + if t.Spurious? then 1 else 0
  {
    if t.Spurious? {
      SumUpdate(p.workers, t.w, Woken, WorkerWeight);
    } else if t.Schedule? {
      SumPush(p.calls, Refused, CallWeight);
    }
  }

  ghost function InternalCount(t: Step): int { if Internal(t) then 1 else 0 }
  ghost function SpuriousCount(t: Step): int { if t.Spurious? then 1 else 0 }

  /** No infinite run: work under way can take at most `Measure(p)` steps, plus one for each
      spurious wakeup, whatever requests arrive meanwhile and are refused. */
  lemma {:induction false} WorkIsBounded(p: Pool, ts: seq<Step>)
    requires Inv(p) && IsRun(p, ts)
    requires forall t :: t in ts ==> Internal(t) || t.Spurious? || t.Schedule? || t.SafeStop?
    requires (exists t :: t in ts && (t.Schedule? || t.SafeStop?)) ==> !p.state.Started? && InitDone !in ts
    ensures Sum(ts, InternalCount) <= Measure(p) + Sum(ts, SpuriousCount)
    decreases |ts|
  {
    if ts == [] {
      MeasureNonNegative(p);
    } else {
      var t, q := ts[0], Apply(p, ts[0]);
      assert t in ts && forall u :: u in ts[1..] ==> u in ts;
      StepKeepsInv(p, t);
      assert !p.state.Started? && !t.InitDone? ==> !q.state.Started? by {
        if !p.state.Started? && !t.InitDone? { StoppedStep(p, t); }
      }
      WorkIsBounded(q, ts[1..]);
      if Internal(t) {
        InternalStepDecreases(p, t);
      } else {
        OtherStepAdds(p, t);
      }
    }
  }

  // ----- no deadlock -----

  ghost predicate AtRest(p: Pool)
  {
    forall t :: Enabled(p, t) ==> !Internal(t)
  }

  lemma RestingThreads(p: Pool)
    requires AtRest(p)
    ensures forall w :: 0 <= w < |p.workers| ==> p.workers[w].Asleep? || p.workers[w].Exited?
    ensures forall c :: 0 <= c < |p.calls| ==> p.calls[c].Refused? || p.calls[c].Accepted?
    ensures !p.control.SentCounted?
  {
    forall w | 0 <= w < |p.workers| ensures p.workers[w].Asleep? || p.workers[w].Exited? {
      assert !Enabled(p, Boot(w)) && !Enabled(p, Leave(w)) && !Enabled(p, Lock(w));
      assert !Enabled(p, CountPop(w)) && !Enabled(p, RunTask(w));
    }
    var k := SomeSleeper(p.workers);
    forall c | 0 <= c < |p.calls| ensures p.calls[c].Refused? || p.calls[c].Accepted? {
      assert !Enabled(p, CountCall(c)) && !Enabled(p, NotifyCall(c, k));
    }
    assert !Enabled(p, NotifySentinel(k));
  }

  lemma SomeSleeper(ws: seq<Worker>) returns (k: nat)
    ensures CanNotify(ws, k)
  {
    if w :| 0 <= w < |ws| && ws[w].Asleep? {
      k := w;
    } else {
      k := |ws|;
    }
  }

  /** With no call pending and nobody woken, a sleeper in a pool that is not off means an empty
      queue; and a pool that is not off has a worker. */
  lemma RestingQueue(p: Pool)
    requires Inv(p) && AtRest(p) && !p.state.Off? && !p.control.Spawning? && !p.control.SentPushed?
    ensures p.queue == [] && forall w :: 0 <= w < |p.workers| ==> p.workers[w].Asleep?
  {
    RestingThreads(p);
    SumZero(p.calls, PendingCount);
    SumZero(p.workers, WokenCount);
    assert p.workers[0].Asleep?;
  }

  /** The marker cannot stay behind: if `safe_stop` waits for it, some step is enabled. */
  lemma AwaitingIsNotRest(p: Pool)
    requires Inv(p) && p.control.Awaiting?
    ensures !AtRest(p)
  {
    if AtRest(p) {
      RestingThreads(p);
      RestingQueue(p);
      var x := Sentinel(p.life);
      SumZero(p.workers, HoldCount(x));
      assert p.pops == p.pushes;
      assert multiset(p.ran)[x] == 1;
      assert Enabled(p, Future);
    }
  }

  /** Deadlock freedom: the only resting states are those in which every request has returned and
      either the pool is started with all workers asleep over an empty queue and both counters
      zero, or it is off. In particular no `safe_stop` is stuck. */
  lemma RestIsQuiescence(p: Pool)
    requires Reachable(p) && AtRest(p)
    ensures p.control.Idle? || p.control.Dead?
    ensures forall c :: 0 <= c < |p.calls| ==> p.calls[c].Refused? || p.calls[c].Accepted?
    ensures p.control.Idle? ==> p.queue == [] && p.ntasks == 0 && p.working == 0
    ensures p.control.Idle? ==> multiset(p.ran) == multiset(p.pushes)
    ensures p.state.Started? ==> forall w :: 0 <= w < |p.workers| ==> p.workers[w].Asleep?
  {
    ReachableInv(p);
    RestingThreads(p);
    if p.control.Awaiting? {
      AwaitingIsNotRest(p);
    } else if !p.control.Idle? && !p.control.Dead? {
      ActiveControlCanMove(p);
    }
    if p.control.Idle? {
      if p.state.Started? {
        RestingQueue(p);
      }
      RestingCounters(p);
    }
  }

  lemma RestingCounters(p: Pool)
    requires Fifo(p) && Accounted(p) && Counters(p) && p.control.Idle? && p.queue == []
    requires forall w :: 0 <= w < |p.workers| ==> p.workers[w].Asleep? || p.workers[w].Exited?
    requires forall c :: 0 <= c < |p.calls| ==> p.calls[c].Refused? || p.calls[c].Accepted?
    ensures p.ntasks == 0 && p.working == 0 && multiset(p.ran) == multiset(p.pushes)
  {
    SumZero(p.calls, PushedCount);
    SumZero(p.workers, PoppedCount);
    SumZero(p.workers, BusyCount);
    assert p.pops == p.pushes;
    forall x: Item ensures multiset(p.ran)[x] == multiset(p.pushes)[x] {
      SumZero(p.workers, HoldCount(x));
    }
  }

  /** Inside `init`, `safe_stop` or `_destory` there is always a next step, the two waits of
      `safe_stop` apart. */
  lemma ActiveControlCanMove(p: Pool)
    requires Phase(p) && Wakeups(p) && !p.control.Idle? && !p.control.Dead?
    requires !p.control.Awaiting? && !p.control.SentCounted?
    requires forall w :: 0 <= w < |p.workers| ==> p.workers[w].Asleep? || p.workers[w].Exited?
    ensures !AtRest(p)
  {
    match p.control
    case Spawning => assert Enabled(p, Spawn) || Enabled(p, InitDone);
    case SentPushed => assert Enabled(p, CountSentinel);
    case Closing => assert Enabled(p, Destroy);
    case Waking(_) => assert Enabled(p, NotifyAll);
    case Joining(k, _) =>
      assert k < |p.workers| ==> !p.workers[k].Asleep?;
      assert Enabled(p, Join) || Enabled(p, JoinsDone);
  }

  // ----- safe_stop returns -----

  /** A thread is inside `safe_stop`, past the test of line 101. */
  ghost predicate InSafeStop(p: Pool)
  {
    match p.control
    case SentPushed => true
    case SentCounted => true
    case Awaiting => true
    case Closing => true
    case Waking(safe) => safe
    case Joining(_, safe) => safe
    case _ => false
  }

  /** Steps other than a new `init` or the destructor. */
  predicate KeepsThePool(t: Step)
  {
    !t.InitLock? && !t.Destructor?
  }

  lemma SafeStopStepGoesOn(p: Pool, t: Step)
    requires Phase(p) && Enabled(p, t) && KeepsThePool(t) && (InSafeStop(p) || (p.control.Idle? && p.state.Off?))
    ensures var q := Apply(p, t); !t.InitDone? && (InSafeStop(q) || (q.control.Idle? && q.state.Off?))
  {
  }

  lemma InvHasPhase(p: Pool)
    requires Inv(p)
    ensures Phase(p)
  {
  }

  lemma {:induction false} SafeStopGoesOn(p: Pool, ts: seq<Step>)
    requires Inv(p) && IsRun(p, ts) && (InSafeStop(p) || (p.control.Idle? && p.state.Off?))
    requires forall t :: t in ts ==> KeepsThePool(t)
    ensures var q := After(p, ts); InSafeStop(q) || (q.control.Idle? && q.state.Off?)
    ensures InitDone !in ts
    decreases |ts|
  {
    hide Apply, Enabled, Inv, InSafeStop, KeepsThePool;
    if ts != [] {
      InvHasPhase(p);
      assert KeepsThePool(ts[0]) && forall t :: t in ts[1..] ==> t in ts;
      StepKeepsInv(p, ts[0]);
      SafeStopStepGoesOn(p, ts[0]);
      SafeStopGoesOn(Apply(p, ts[0]), ts[1..]);
      assert ts == [ts[0]] + ts[1..];
    }
  }

  /** `safe_stop` returns, and drains the pool first: whatever else happens, a run from inside it
      is bounded by its spurious wakeups, and a run that cannot go on has left `safe_stop` with
      exactly the accepted tasks run, none accepted since, and the pool off. */
  lemma SafeStopReturns(p: Pool, ts: seq<Step>)
    requires Reachable(p) && InSafeStop(p) && IsRun(p, ts)
    requires forall t :: t in ts ==> KeepsThePool(t)
    ensures Sum(ts, InternalCount) <= Measure(p) + Sum(ts, SpuriousCount)
    ensures var q := After(p, ts);
            AtRest(q) ==> q.control.Idle? && q.state.Off? && q.queue == [] && q.pushes == p.pushes
                          && multiset(q.ran) == multiset(p.pushes)
  {
    ReachableInv(p);
    SafeStopGoesOn(p, ts);
    NoLateAcceptance(p, ts);
    assert forall t :: t in ts ==> Internal(t) || t.Spurious? || t.Schedule? || t.SafeStop?;
    WorkIsBounded(p, ts);
    ReachableExtends(p, ts);
    var q := After(p, ts);
    if AtRest(q) {
      RestIsQuiescence(q);
    }
  }

  // ----- what can go wrong, by example -----

  lemma ReachableStep(p: Pool, t: Step)
    requires Reachable(p) && Enabled(p, t)
    ensures Reachable(Apply(p, t))
  {
    assert [t][1..] == [];
    assert IsRun(p, [t]) && After(p, [t]) == Apply(p, t);
    ReachableExtends(p, [t]);
  }

  /** A started pool with a single worker. */
  lemma OneWorker() returns (p: Pool)
    ensures Reachable(p) && p == Pool(Started, [], 0, 0, 1, [Booting], [], Idle, 1, [], [], [])
  {
    assert IsRun(Fresh, []) && After(Fresh, []) == Fresh;
    ReachableStep(Fresh, InitLock(1));
    p := Apply(Fresh, InitLock(1));
    ReachableStep(p, Spawn);
    p := Apply(p, Spawn);
    ReachableStep(p, InitDone);
    p := Apply(p, InitDone);
  }

  /** `m_ntasks` can wrap: a worker may take a task, and count it down, before the caller of
      `schedule` has counted it up. */
  lemma TaskCounterCanWrap() returns (p: Pool)
    ensures Reachable(p) && p.queue == [] && p.ntasks == WORD - 1
  {
    p := OneWorker();
    ReachableStep(p, Boot(0));
    p := Apply(p, Boot(0));
    ReachableStep(p, Leave(0));
    p := Apply(p, Leave(0));
    ReachableStep(p, Schedule);
    p := Apply(p, Schedule);
    ReachableStep(p, Lock(0));
    p := Apply(p, Lock(0));
    ReachableStep(p, CountPop(0));
    p := Apply(p, CountPop(0));
  }

  /** The destructor alone can lose a task it accepted. */
  lemma DestructorCanDropATask() returns (p: Pool)
    ensures Reachable(p) && p.control.Dead? && |p.calls| == 1 && !p.calls[0].Refused?
    ensures Task(0) !in p.ran
  {
    p := OneWorker();
    ReachableStep(p, Schedule);
    p := Apply(p, Schedule);
    ReachableStep(p, Destructor);
    p := Apply(p, Destructor);
    ReachableStep(p, NotifyAll);
    p := Apply(p, NotifyAll);
    ReachableStep(p, Boot(0));
    p := Apply(p, Boot(0));
    ReachableStep(p, Leave(0));
    p := Apply(p, Leave(0));
    ReachableStep(p, Lock(0));
    p := Apply(p, Lock(0));
    ReachableStep(p, Join);
    p := Apply(p, Join);
    ReachableStep(p, JoinsDone);
    p := Apply(p, JoinsDone);
  }
}
