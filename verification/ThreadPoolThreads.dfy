/** The pool as one of its threads sees it: which steps are the thread's own, and what any run of the
    other threads leaves as it is between two of them. */
module ThreadPoolThreads {
  import opened ThreadPool
  import opened ThreadPoolSafety

  /** The thread inside `init`, `safe_stop` or the destructor, the thread of a `schedule` call, or a
      worker. */
  datatype Who = Controller | Caller(call: nat) | WorkerThread(worker: nat)

  /** The steps that only this thread takes. */
  predicate Mine(me: Who, t: Step)
  {
    match me
    case Controller => !ByWorker(t) && !ByCaller(t) && !t.SafeStop? && !t.InitLock?
    case Caller(c) => (t.CountCall? || t.NotifyCall?) && t.c == c
    case WorkerThread(w) => ByWorker(t) && !t.Spurious? && t.w == w
  }

  /** A run of the other threads. */
  ghost predicate OthersRun(me: Who, p: Pool, ts: seq<Step>)
  {
    IsRun(p, ts) && forall t :: t in ts ==> !Mine(me, t)
  }

  lemma OthersPush(me: Who, p: Pool, ts: seq<Step>, t: Step)
    requires OthersRun(me, p, ts) && Enabled(After(p, ts), t) && !Mine(me, t)
    ensures OthersRun(me, p, ts + [t]) && After(p, ts + [t]) == Apply(After(p, ts), t)
  {
    hide Apply, Enabled, Mine;
    var q := After(p, ts);
    assert IsRun(q, [t]) && After(q, [t]) == Apply(q, t) by {
      assert [t][1..] == [];
    }
    RunConcat(p, ts, [t]);
  }

  lemma OthersNone(me: Who, p: Pool)
    ensures OthersRun(me, p, []) && After(p, []) == p
  {
  }

  lemma {:induction false} RunPrefix(p: Pool, ts: seq<Step>, i: nat)
    requires IsRun(p, ts) && i < |ts|
    ensures IsRun(p, ts[..i]) && Enabled(After(p, ts[..i]), ts[i])
    decreases i
  {
    hide Apply, Enabled;
    if i == 0 {
      assert ts[..i] == [];
    } else {
      assert ts[..i][1..] == ts[1..][..i - 1];
      RunPrefix(Apply(p, ts[0]), ts[1..], i - 1);
    }
  }

  /** The next step of such a run can be taken where it comes. */
  lemma OthersNext(me: Who, p: Pool, ts: seq<Step>, i: nat)
    requires OthersRun(me, p, ts) && i < |ts|
    ensures IsRun(p, ts[..i]) && Enabled(After(p, ts[..i]), ts[i]) && !Mine(me, ts[i])
  {
    RunPrefix(p, ts, i);
    assert ts[i] in ts;
  }

  // ----- what stays -----

  predicate Active(p: Pool)
  {
    !p.state.Started? && !p.control.Idle? && !p.control.Dead?
  }

  /** While a thread is inside `init`, `safe_stop` or the destructor: the others leave its position,
      the state and the number of workers alone, and queue nothing; once the pool is off, they take
      nothing from the queue either. */
  ghost predicate ControllerStays(p: Pool, q: Pool)
  {
    && q.control == p.control && q.state == p.state && q.size == p.size && q.life == p.life
    && |q.workers| == |p.workers| && Refusing(p, q)
    && (p.state.Off? ==> q.queue == p.queue && q.pops == p.pops)
  }

  lemma ControllerStep(p: Pool, t: Step)
    requires Active(p) && Enabled(p, t) && !Mine(Controller, t)
    ensures ControllerStays(p, Apply(p, t))
  {
  }

  lemma {:induction false} ControllerRun(p: Pool, ts: seq<Step>)
    requires Active(p) && OthersRun(Controller, p, ts)
    ensures ControllerStays(p, After(p, ts))
    decreases |ts|
  {
    hide Apply, Enabled, Mine;
    if ts != [] {
      assert ts[0] in ts && forall t :: t in ts[1..] ==> t in ts;
      ControllerStep(p, ts[0]);
      ControllerRun(Apply(p, ts[0]), ts[1..]);
    }
  }

  /** The others leave the position of a `schedule` call alone. */
  predicate CallerStays(c: nat, p: Pool, q: Pool)
  {
    c < |p.calls| <= |q.calls| && q.calls[c] == p.calls[c]
  }

  lemma CallerStep(c: nat, p: Pool, t: Step)
    requires c < |p.calls| && Enabled(p, t) && !Mine(Caller(c), t)
    ensures CallerStays(c, p, Apply(p, t))
  {
  }

  lemma {:induction false} CallerRun(c: nat, p: Pool, ts: seq<Step>)
    requires c < |p.calls| && OthersRun(Caller(c), p, ts)
    ensures CallerStays(c, p, After(p, ts))
    decreases |ts|
  {
    hide Apply, Enabled, Mine;
    if ts != [] {
      assert ts[0] in ts && forall t :: t in ts[1..] ==> t in ts;
      CallerStep(c, p, ts[0]);
      CallerRun(c, Apply(p, ts[0]), ts[1..]);
    }
  }

  predicate Running(w: nat, p: Pool)
  {
    w < |p.workers| && !p.workers[w].Exited?
  }

  /** The others leave a worker where it is, unless they wake it. */
  predicate WorkerStays(w: nat, p: Pool, q: Pool)
    requires Running(w, p)
  {
    w < |q.workers| && (q.workers[w] == p.workers[w] || (p.workers[w].Asleep? && q.workers[w].Woken?))
  }

  lemma WorkerStep(w: nat, p: Pool, t: Step)
    requires Phase(p) && Running(w, p) && Enabled(p, t) && !Mine(WorkerThread(w), t)
    ensures WorkerStays(w, p, Apply(p, t))
  {
  }

  lemma {:induction false} WorkerRun(w: nat, p: Pool, ts: seq<Step>)
    requires Inv(p) && Running(w, p) && OthersRun(WorkerThread(w), p, ts)
    ensures WorkerStays(w, p, After(p, ts))
    decreases |ts|
  {
    hide Apply, Enabled, Mine, Inv, Phase;
    if ts != [] {
      assert ts[0] in ts && forall t :: t in ts[1..] ==> t in ts;
      InvPhase(p);
      WorkerStep(w, p, ts[0]);
      StepKeepsInv(p, ts[0]);
      WorkerRun(w, Apply(p, ts[0]), ts[1..]);
    }
  }

  lemma InvPhase(p: Pool)
    requires Inv(p)
    ensures Phase(p)
  {
  }

  // ----- the end of safe_stop -----

  /** What `safe_stop` promises when it returns true: everything accepted was dequeued in order and
      run exactly once, nothing else was run, the queue is empty, the workers have ended. */
  ghost predicate IsDrained(p: Pool)
  {
    && p.state.Off? && p.queue == [] && p.pops == p.pushes && Ordered(p) && AllExited(p) && p.working == 0
    && multiset(p.ran) == multiset(p.pushes)
    && forall c: nat :: c < |p.calls| ==> multiset(p.ran)[Task(c)] == if p.calls[c].Refused? then 0 else 1
  }

  lemma StoppedIsDrained(p: Pool)
    requires Inv(p) && p.control.Idle? && p.state.Off?
    ensures IsDrained(p)
  {
    assert p.pops == p.pushes;
    NothingHeld(p);
  }

  lemma NothingQueued(start: Pool, p: Pool, q: Pool)
    requires Refusing(start, p) && q.calls == p.calls && q.pushes == p.pushes && !q.state.Started?
    ensures Refusing(start, q)
  {
  }

  /** Switching off queues nothing either, whatever the state was. */
  lemma DestroyRefuses(p: Pool, safe: bool)
    ensures Refusing(p, DestroyStep(p, safe))
  {
  }

  lemma RefusingSelf(p: Pool)
    requires !p.state.Started?
    ensures Refusing(p, p)
  {
  }

  lemma RefusingOnwards(p: Pool, q: Pool, r: Pool)
    requires Refusing(p, q) && Refusing(q, r)
    ensures Refusing(p, r)
  {
  }

  lemma RefusingQueuesNothing(p: Pool, q: Pool)
    requires Refusing(p, q)
    ensures q.pushes == p.pushes
  {
  }

  // ----- what the invariant says at the end of the other functions -----

  lemma SpawningIsEmpty(p: Pool)
    requires Inv(p) && p.control.Spawning?
    ensures p.queue == [] && p.state.Stopping?
  {
  }

  lemma DeadIsAccounted(p: Pool)
    requires Inv(p) && p.control.Dead?
    ensures p.pushes == p.pops + p.queue && multiset(p.ran) == multiset(p.pops) && AllExited(p)
  {
    NothingHeld(p);
  }

  lemma TicketOf(p: Pool, c: nat)
    requires Inv(p) && c < |p.calls|
    ensures multiset(p.pushes)[Task(c)] == if p.calls[c].Refused? then 0 else 1
  {
  }
}
