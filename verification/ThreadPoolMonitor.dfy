/** The pool object itself, with the source's fields, and its functions as the threads execute them.
    First one method for each atomic section, proved to take the corresponding step of the transition
    system; then `schedule`, `_run` with `get_task`, `init`, `safe_stop` and `_destory` whole: between
    any two of their sections the other threads may do anything they can.

    What the others do is an argument: a list of gaps, each a list of steps. In a gap the steps are
    tried in order; those that are not enabled, or are the thread's own, are passed over. Every run of
    the other threads is such a gap, and is taken as it is. A thread that has to wait when the gaps are used up is left
    waiting.

    Lines are those of UtilityEngine/include/com_thread_pool.hpp. */
module ThreadPoolMonitor {
  import opened ThreadPool
  import opened ThreadPoolProgress
  import opened ThreadPoolSafety
  import opened ThreadPoolThreads

  /** How a call of `safe_stop` stands: it returned false, it returned true, or it is waiting. */
  datatype Stopped = NotStarted | Drained | StillWaiting

  class Monitor {
    var state: PoolState
    var tasks: seq<Item>
    var ntasks: int
    var working: int
    var size: nat
    // The threads: where each worker, each schedule call and the controlling thread is.
    var workers: seq<Worker>
    var calls: seq<Call>
    var control: Control
    var life: nat
    // History: what was queued, dequeued and run.
    var pushes: seq<Item>
    var pops: seq<Item>
    var ran: seq<Item>

    function View(): Pool
      reads this
    {
      Pool(state, tasks, ntasks, working, size, workers, calls, control, life, pushes, pops, ran)
    }

    ghost predicate Valid()
      reads this
    {
      Inv(View())
    }

    constructor ()
      ensures View() == Fresh && Valid()
    {
      state, tasks, ntasks, working, size := Off, [], 0, 0, 0;
      workers, calls, control, life := [], [], Idle, 0;
      pushes, pops, ran := [], [], [];
      new;
      FreshInv();
    }

    // ----- the atomic sections -----

    /** Lines 61-66. */
    method ScheduleLocked() returns (accepted: bool)
      requires Valid() && Enabled(View(), Step.Schedule)
      modifies this
      ensures Valid() && View() == Apply(old(View()), Step.Schedule)
      ensures accepted == old(state).Started?
    {
      hide Inv, Inc, Dec;
      StepKeepsInv(View(), Step.Schedule);
      accepted := state.Started?;
      if !accepted {
        calls := calls + [Refused];
        return;
      }
      tasks, pushes := tasks + [Task(|calls|)], pushes + [Task(|calls|)];
      calls := calls + [Pushed];
    }

    /** Line 68. */
    method ScheduleCount(c: nat)
      requires Valid() && Enabled(View(), CountCall(c))
      modifies this
      ensures Valid() && View() == Apply(old(View()), CountCall(c))
    {
      hide Inv, Inc, Dec;
      StepKeepsInv(View(), CountCall(c));
      ntasks := Inc(ntasks);
      calls := calls[c := Counted];
    }

    /** Line 69: the scheduler wakes the sleeper `woken`, if anyone sleeps. */
    method ScheduleNotify(c: nat, woken: nat)
      requires Valid() && Enabled(View(), NotifyCall(c, woken))
      modifies this
      ensures Valid() && View() == Apply(old(View()), NotifyCall(c, woken))
    {
      hide Inv, Inc, Dec;
      StepKeepsInv(View(), NotifyCall(c, woken));
      if woken < |workers| {
        workers := workers[woken := Woken];
      }
      calls := calls[c := Accepted];
    }

    /** Lines 130-141, from one evaluation of the loop test to the next wait or to the unlock. */
    method GetTaskLocked(w: nat)
      requires Valid() && Enabled(View(), Lock(w))
      modifies this
      ensures Valid() && View() == Apply(old(View()), Lock(w))
      ensures w < |workers| && (workers[w].Popped? <==> old(!state.Off? && tasks != []))
    {
      hide Inv, Inc, Dec, Apply, Enabled;
      ghost var p := View();
      StepKeepsInv(p, Lock(w));
      LockStep(p, w);
      if tasks == [] && !state.Off? {
        workers := workers[w := Asleep];
      } else if state.Off? {
        workers := workers[w := Exited];
      } else {
        working := Inc(working);
        var task := tasks[0];
        tasks, pops := tasks[1..], pops + [task];
        workers := workers[w := Popped(task)];
      }
    }

    /** Line 143. */
    method GetTaskCount(w: nat)
      requires Valid() && Enabled(View(), CountPop(w))
      modifies this
      ensures Valid() && View() == Apply(old(View()), CountPop(w))
    {
      hide Inv, Inc, Dec;
      StepKeepsInv(View(), CountPop(w));
      ntasks := Dec(ntasks);
      workers := workers[w := Holding(workers[w].item)];
    }

    /** Line 154. */
    method RunHeld(w: nat)
      requires Valid() && Enabled(View(), RunTask(w))
      modifies this
      ensures Valid() && View() == Apply(old(View()), RunTask(w))
    {
      hide Inv, Inc, Dec;
      StepKeepsInv(View(), RunTask(w));
      ran := ran + [workers[w].item];
      workers := workers[w := Leaving];
    }

    /** Lines 149 and 152. */
    method RunLoopEdge(w: nat)
      requires Valid() && w < |workers| && (workers[w].Booting? || workers[w].Leaving?)
      modifies this
      ensures Valid() && View() == Apply(old(View()), if old(workers[w]).Booting? then Boot(w) else Leave(w))
    {
      hide Inv, Inc, Dec;
      StepKeepsInv(View(), if workers[w].Booting? then Boot(w) else Leave(w));
      if workers[w].Booting? {
        working, workers := Inc(working), workers[w := Leaving];
      } else {
        working, workers := Dec(working), workers[w := Entering];
      }
    }

    /** Lines 100-113. */
    method SafeStopLocked() returns (stopping: bool)
      requires Valid() && Enabled(View(), Step.SafeStop)
      modifies this
      ensures Valid() && View() == Apply(old(View()), Step.SafeStop)
      ensures stopping == old(state).Started?
    {
      hide Inv, Inc, Dec;
      StepKeepsInv(View(), Step.SafeStop);
      stopping := state.Started?;
      if !stopping {
        return;
      }
      state := Stopping;
      if tasks == [] {
        control := Closing;
        return;
      }
      tasks, pushes := tasks + [Sentinel(life)], pushes + [Sentinel(life)];
      control := SentPushed;
    }

    /** Line 115. */
    method SafeStopCount()
      requires Valid() && Enabled(View(), CountSentinel)
      modifies this
      ensures Valid() && View() == Apply(old(View()), CountSentinel)
    {
      hide Inv, Inc, Dec;
      StepKeepsInv(View(), CountSentinel);
      ntasks, control := Inc(ntasks), SentCounted;
    }

    /** Line 116. */
    method SafeStopNotify(woken: nat)
      requires Valid() && Enabled(View(), NotifySentinel(woken))
      modifies this
      ensures Valid() && View() == Apply(old(View()), NotifySentinel(woken))
    {
      hide Inv, Inc, Dec;
      StepKeepsInv(View(), NotifySentinel(woken));
      if woken < |workers| {
        workers := workers[woken := Woken];
      }
      control := Awaiting;
    }

    /** Lines 171-176, called by `safe_stop` or by the destructor. */
    method DestroyLocked(safe: bool)
      requires Valid() && Enabled(View(), if safe then Destroy else Destructor)
      modifies this
      ensures Valid() && View() == Apply(old(View()), if safe then Destroy else Destructor)
    {
      hide Inv, Inc, Dec;
      StepKeepsInv(View(), if safe then Destroy else Destructor);
      if state.Off? {
        control := if safe then Idle else Dead;
        return;
      }
      state, control := Off, Waking(safe);
    }

    /** Line 178: every sleeper is woken. */
    method DestroyNotifyAll()
      requires Valid() && Enabled(View(), NotifyAll)
      modifies this
      ensures Valid() && View() == Apply(old(View()), NotifyAll)
    {
      hide Inv, Inc, Dec;
      StepKeepsInv(View(), NotifyAll);
      ghost var was := workers;
      var i := 0;
      while i < |workers|
        invariant i <= |workers| == |was|
        invariant forall k :: 0 <= k < |was| ==> workers[k] == if k < i && was[k].Asleep? then Woken else was[k]
        invariant View() == old(View()).(workers := workers)
      {
        if workers[i].Asleep? {
          workers := workers[i := Woken];
        }
        i := i + 1;
      }
      assert workers == WakeAll(was);
      control := Joining(0, control.safe);
    }

    /** Lines 228-233. */
    method InitLocked(n: nat)
      requires Valid() && Enabled(View(), InitLock(n))
      modifies this
      ensures Valid() && View() == Apply(old(View()), InitLock(n))
    {
      hide Inv, Inc, Dec;
      StepKeepsInv(View(), InitLock(n));
      if !state.Off? {
        return;
      }
      state := Stopping;
      size, workers, control, life := n, [], Spawning, life + 1;
    }

    /** Line 163: start one thread. */
    method InitSpawn()
      requires Valid() && Enabled(View(), Spawn)
      modifies this
      ensures Valid() && View() == Apply(old(View()), Spawn)
    {
      hide Inv, Inc, Dec;
      StepKeepsInv(View(), Spawn);
      workers := workers + [Booting];
    }

    /** Lines 165-166: open the pool. */
    method InitFinish()
      requires Valid() && Enabled(View(), InitDone)
      modifies this
      ensures Valid() && View() == Apply(old(View()), InitDone) && state.Started?
    {
      hide Inv, Inc, Dec;
      StepKeepsInv(View(), InitDone);
      state, control := Started, Idle;
    }

    /** Line 118: the future is ready. */
    method FutureReady()
      requires Valid() && Enabled(View(), Future)
      modifies this
      ensures Valid() && View() == Apply(old(View()), Future)
    {
      hide Inv;
      StepKeepsInv(View(), Future);
      control := Closing;
    }

    /** Line 181: one worker has ended. */
    method JoinOne()
      requires Valid() && Enabled(View(), Join)
      modifies this
      ensures Valid() && View() == Apply(old(View()), Join)
    {
      hide Inv;
      StepKeepsInv(View(), Join);
      control := Joining(control.joined + 1, control.safe);
    }

    /** Line 183: all workers have ended. */
    method JoinsFinish()
      requires Valid() && Enabled(View(), JoinsDone)
      modifies this
      ensures Valid() && View() == Apply(old(View()), JoinsDone)
    {
      hide Inv;
      StepKeepsInv(View(), JoinsDone);
      control := if control.safe then Idle else Dead;
    }

    /** A spurious return from the wait of line 132. */
    method WakeSpuriously(w: nat)
      requires Valid() && Enabled(View(), Spurious(w))
      modifies this
      ensures Valid() && View() == Apply(old(View()), Spurious(w))
    {
      hide Inv;
      StepKeepsInv(View(), Spurious(w));
      workers := workers[w := Woken];
    }

    // ----- the other threads -----

    /** Any step, by the section that takes it. */
    method TakeStep(t: Step)
      requires Valid() && Enabled(View(), t)
      modifies this
      ensures Valid() && View() == Apply(old(View()), t)
    {
      hide Inv, Apply;
      match t
      case Schedule => var accepted := ScheduleLocked();
      case CountCall(c) => ScheduleCount(c);
      case NotifyCall(c, k) => ScheduleNotify(c, k);
      case Boot(w) => RunLoopEdge(w);
      case Leave(w) => RunLoopEdge(w);
      case Lock(w) => GetTaskLocked(w);
      case CountPop(w) => GetTaskCount(w);
      case RunTask(w) => RunHeld(w);
      case Spurious(w) => WakeSpuriously(w);
      case InitLock(n) => InitLocked(n);
      case Spawn => InitSpawn();
      case InitDone => InitFinish();
      case SafeStop => var stopping := SafeStopLocked();
      case CountSentinel => SafeStopCount();
      case NotifySentinel(k) => SafeStopNotify(k);
      case Future => FutureReady();
      case Destroy => DestroyLocked(true);
      case NotifyAll => DestroyNotifyAll();
      case Join => JoinOne();
      case JoinsDone => JoinsFinish();
      case Destructor => DestroyLocked(false);
    }

    /** A gap: those of the steps that the other threads can take, in order. */
    method Others(me: Who, steps: seq<Step>) returns (ghost run: seq<Step>)
      requires Valid()
      modifies this
      ensures Valid() && OthersRun(me, old(View()), run) && View() == After(old(View()), run)
      ensures OthersRun(me, old(View()), steps) ==> run == steps
    {
      hide Inv, Apply, Enabled, Mine, IsRun, After;
      OthersNone(me, View());
      run := [];
      var i := 0;
      while i < |steps|
        invariant i <= |steps| && Valid()
        invariant OthersRun(me, old(View()), run) && View() == After(old(View()), run)
        invariant OthersRun(me, old(View()), steps) ==> run == steps[..i]
      {
        if OthersRun(me, old(View()), steps) {
          OthersNext(me, old(View()), steps, i);
        }
        assert steps[..i + 1] == steps[..i] + [steps[i]];
        if !Mine(me, steps[i]) && Enabled(View(), steps[i]) {
          OthersPush(me, old(View()), run, steps[i]);
          TakeStep(steps[i]);
          run := run + [steps[i]];
        }
        i := i + 1;
      }
      assert steps[..i] == steps;
    }

    /** The next gap, if there is one. */
    method Gap(me: Who, others: seq<seq<Step>>, g: nat) returns (next: nat, ghost run: seq<Step>)
      requires Valid() && g <= |others|
      modifies this
      ensures Valid() && OthersRun(me, old(View()), run) && View() == After(old(View()), run)
      ensures g <= next <= |others| && (g < |others| ==> g < next)
      ensures g < |others| && OthersRun(me, old(View()), others[g]) ==> run == others[g]
    {
      hide Inv, OthersRun, IsRun, After;
      if g == |others| {
        run := Others(me, []);
        return g, run;
      }
      run := Others(me, others[g]);
      next := g + 1;
    }

    /** The sleeper that a `notify_one` wakes: the one proposed if it sleeps, otherwise some sleeper,
        and nobody only if nobody sleeps. */
    method PickSleeper(proposed: nat) returns (k: nat)
      ensures CanNotify(workers, k)
    {
      if proposed < |workers| && workers[proposed].Asleep? {
        return proposed;
      }
      k := 0;
      while k < |workers| && !workers[k].Asleep?
        invariant k <= |workers| && forall i :: 0 <= i < k ==> !workers[i].Asleep?
      {
        k := k + 1;
      }
    }

    // ----- the functions, with the other threads in between -----

    /** A gap for the thread inside `init`, `safe_stop` or the destructor. `start` is a state since
        which nothing was accepted. */
    method ControllerGap(others: seq<seq<Step>>, g: nat, ghost start: Pool) returns (next: nat)
      requires Valid() && Active(View()) && g <= |others| && Refusing(start, View())
      modifies this
      ensures Valid() && ControllerStays(old(View()), View()) && Refusing(start, View())
      ensures g <= next <= |others| && (g < |others| ==> g < next)
    {
      hide Inv, OthersRun, Refusing, Active;
      ghost var run, p := [], View();
      next, run := Gap(Controller, others, g);
      ControllerRun(p, run);
      RefusingOnwards(start, p, View());
    }

    /** Lines 180-181: wait for the workers, one after the other. `done` is false while one of them is
        still running and no gap is left. */
    method JoinAll(others: seq<seq<Step>>, from: nat, ghost start: Pool) returns (done: bool, g: nat)
      requires Valid() && state.Off? && control.Joining? && control.joined <= |workers| && from <= |others|
      requires Refusing(start, View())
      modifies this
      ensures Valid() && state.Off? && control.Joining? && control.safe == old(control.safe) && tasks == old(tasks)
      ensures Refusing(start, View()) && (done ==> control.joined == |workers|)
    {
      hide Inv, Refusing;
      g := from;
      while control.joined < |workers|
        invariant Valid() && state.Off? && control.Joining? && control.safe == old(control.safe) && g <= |others|
        invariant control.joined <= |workers| && Refusing(start, View()) && tasks == old(tasks)
        decreases |workers| - control.joined, |others| - g
      {
        ghost var here := View();
        if workers[control.joined].Exited? {
          JoinOne();
          NothingQueued(start, here, View());
        } else if g < |others| {
          g := ControllerGap(others, g, start);
        } else {
          return false, g;
        }
      }
      done := true;
    }

    /** Lines 169-183. */
    method Destory(safe: bool, others: seq<seq<Step>>, from: nat) returns (done: bool)
      requires Valid() && Enabled(View(), if safe then Destroy else Destructor) && from <= |others|
      modifies this
      ensures Valid() && state.Off? && Refusing(old(View()), View()) && tasks == old(tasks)
      ensures done ==> control == (if safe then Idle else Dead)
      ensures !done ==> control.Joining? && control.safe == safe
    {
      hide Inv, Refusing;
      ghost var start := View();
      DestroyLocked(safe);
      DestroyRefuses(start, safe);
      if !control.Waking? {
        return true;
      }
      var g := ControllerGap(others, from, start);
      ghost var here := View();
      DestroyNotifyAll();
      NothingQueued(start, here, View());
      g := ControllerGap(others, g, start);
      done, g := JoinAll(others, g, start);
      if done {
        here := View();
        JoinsFinish();
        NothingQueued(start, here, View());
      }
    }

    /** Lines 115-118: count the marker, notify, and wait for its future. */
    method PassMarker(others: seq<seq<Step>>, from: nat, woken: nat, ghost start: Pool) returns (done: bool, g: nat)
      requires Valid() && state.Stopping? && control.SentPushed? && from <= |others| && Refusing(start, View())
      modifies this
      ensures Valid() && state.Stopping? && g <= |others| && Refusing(start, View())
      ensures if done then control.Closing? else control.Awaiting?
    {
      hide Inv, Refusing;
      ghost var here := View();
      SafeStopCount();
      NothingQueued(start, here, View());
      g := ControllerGap(others, from, start);
      var k := PickSleeper(woken);
      here := View();
      SafeStopNotify(k);
      NothingQueued(start, here, View());
      g := ControllerGap(others, g, start);
      while Sentinel(life) !in ran
        invariant Valid() && state.Stopping? && control.Awaiting? && g <= |others| && Refusing(start, View())
        decreases |others| - g
      {
        if g == |others| {
          return false, g;
        }
        g := ControllerGap(others, g, start);
      }
      here := View();
      FutureReady();
      NothingQueued(start, here, View());
      done := true;
    }

    /** `safe_stop`, lines 98-122. It refuses exactly if the pool is not started. When it returns true
        everything accepted has been run, and nothing was accepted since it took the lock; until then it
        is somewhere past its test. */
    method SafeStop(others: seq<seq<Step>>, woken: nat) returns (r: Stopped)
      requires Valid() && !control.Dead?
      modifies this
      ensures Valid()
      ensures r.NotStarted? <==> !old(state).Started?
      ensures r.NotStarted? ==> View() == old(View())
      ensures r.Drained? ==> IsDrained(View()) && control.Idle?
      ensures r.StillWaiting? ==> InSafeStop(View())
      ensures !r.NotStarted? ==> Refusing(Apply(old(View()), Step.SafeStop), View())
      ensures !r.NotStarted? ==>
                pushes == if old(tasks) == [] then old(pushes) else old(pushes) + [Sentinel(old(life))]
    {
      hide Inv, Refusing, IsDrained;
      var stopping := SafeStopLocked();
      if !stopping {
        return NotStarted;
      }
      ghost var start := View();
      RefusingSelf(start);
      var g := 0;
      g := ControllerGap(others, g, start);
      if control.SentPushed? {
        var done;
        done, g := PassMarker(others, g, woken, start);
        if !done {
          RefusingQueuesNothing(start, View());
          return StillWaiting;
        }
        g := ControllerGap(others, g, start);
      }
      ghost var here := View();
      var done := Destory(true, others, g);
      RefusingOnwards(start, here, View());
      RefusingQueuesNothing(start, View());
      if !done {
        return StillWaiting;
      }
      StoppedIsDrained(View());
      return Drained;
    }

    /** The destructor, lines 193 and 211: `_destory` alone. It drops the queue it found; every accepted
        task has been run exactly if that queue held none. */
    method Destruct(others: seq<seq<Step>>) returns (done: bool)
      requires Valid() && control.Idle?
      modifies this
      ensures Valid() && state.Off? && pushes == old(pushes) && tasks == old(tasks)
      ensures done ==> control.Dead? && pushes == pops + tasks && multiset(ran) == multiset(pops) && AllExited(View())
      ensures done ==> (AllAcceptedRan(View()) <==> HoldsNoTask(old(tasks)))
      ensures !done ==> control.Joining?
    {
      hide Inv, AllAcceptedRan, HoldsNoTask;
      done := Destory(false, others, 0);
      if done {
        DeadIsAccounted(View());
        DeadLosesItsQueue(View());
      }
    }

    /** `init`, lines 225-235, with the loop of `_init`, lines 160-167. It opens the pool exactly if the
        pool was off, with `n` workers, an empty queue, and nothing accepted before it was open. */
    method Init(n: nat, others: seq<seq<Step>>) returns (started: bool)
      requires Valid() && Enabled(View(), InitLock(n))
      modifies this
      ensures Valid() && started == old(state).Off?
      ensures !started ==> View() == old(View())
      ensures started ==> state.Started? && control.Idle? && size == |workers| == n && tasks == []
      ensures started ==> pushes == old(pushes) && life == old(life) + 1
    {
      hide Inv, Refusing;
      started := state.Off?;
      ghost var start := View();
      InitLocked(n);
      if !started {
        return;
      }
      RefusingSelf(start);
      NothingQueued(start, start, View());
      var i, g := 0, 0;
      while i < n
        invariant i <= n && i == |workers| && size == n && life == start.life + 1 && g <= |others|
        invariant Valid() && control.Spawning? && state.Stopping? && Refusing(start, View())
      {
        g := ControllerGap(others, g, start);
        ghost var here := View();
        InitSpawn();
        NothingQueued(start, here, View());
        i := i + 1;
      }
      g := ControllerGap(others, g, start);
      SpawningIsEmpty(View());
      RefusingQueuesNothing(start, View());
      InitFinish();
    }

    /** `schedule`, lines 59-71. It accepts exactly if the pool is started when it takes the lock; then
        its task has been queued exactly once. */
    method Schedule(others: seq<seq<Step>>, woken: nat) returns (accepted: bool, c: nat)
      requires Valid() && !control.Dead?
      modifies this
      ensures Valid() && accepted == old(state).Started?
      ensures c == |old(calls)| && c < |calls| && calls[c] == (if accepted then Accepted else Refused)
      ensures multiset(pushes)[Task(c)] == if accepted then 1 else 0
      ensures !accepted ==> pushes == old(pushes) && tasks == old(tasks)
    {
      hide Inv, OthersRun;
      c := |calls|;
      accepted := ScheduleLocked();
      if accepted {
        ghost var run, here := [], View();
        var g;
        g, run := Gap(Caller(c), others, 0);
        CallerRun(c, here, run);
        ScheduleCount(c);
        here := View();
        g, run := Gap(Caller(c), others, g);
        CallerRun(c, here, run);
        var k := PickSleeper(woken);
        ScheduleNotify(c, k);
      }
      TicketOf(View(), c);
    }

    /** `get_task`, lines 128-145: the wait loop, and the counter once a task was taken. `got` is false
        if the worker has left with nothing, or is asleep and no gap is left. */
    method GetTask(w: nat, others: seq<seq<Step>>, from: nat) returns (got: bool, g: nat)
      requires Valid() && w < |workers| && workers[w].Entering? && from <= |others|
      modifies this
      ensures Valid() && w < |workers| && from <= g <= |others|
      ensures got ==> workers[w].Holding?
      ensures !got ==> (workers[w].Exited? && state.Off?) || (workers[w].Asleep? && g == |others|)
    {
      hide Inv, OthersRun;
      g := from;
      GetTaskLocked(w);
      ghost var run, here := [], View();
      while workers[w].Asleep? && g < |others|
        invariant Valid() && w < |workers| && from <= g <= |others|
        invariant workers[w].Asleep? || workers[w].Popped? || (workers[w].Exited? && state.Off?)
        decreases |others| - g
      {
        here := View();
        g, run := Gap(WorkerThread(w), others, g);
        WorkerRun(w, here, run);
        if workers[w].Woken? {
          GetTaskLocked(w);
        }
      }
      if !workers[w].Popped? {
        return false, g;
      }
      here := View();
      g, run := Gap(WorkerThread(w), others, g);
      WorkerRun(w, here, run);
      GetTaskCount(w);
      got := true;
    }

    /** `_run`, lines 147-158. The worker ends only when the pool is off; otherwise it is asleep or about
        to enter when the gaps are used up. */
    method Run(w: nat, others: seq<seq<Step>>) returns (ended: bool)
      requires Valid() && w < |workers| && workers[w].Booting?
      modifies this
      ensures Valid() && w < |workers|
      ensures ended ==> workers[w].Exited? && state.Off?
      ensures !ended ==> workers[w].Asleep? || workers[w].Leaving?
    {
      hide Inv, OthersRun;
      var g := 0;
      ghost var run, here := [], View();
      RunLoopEdge(w);
      while g < |others|
        invariant Valid() && w < |workers| && workers[w].Leaving? && g <= |others|
        decreases |others| - g
      {
        here := View();
        g, run := Gap(WorkerThread(w), others, g);
        WorkerRun(w, here, run);
        RunLoopEdge(w);
        here := View();
        g, run := Gap(WorkerThread(w), others, g);
        WorkerRun(w, here, run);
        var got;
        got, g := GetTask(w, others, g);
        if !got {
          return workers[w].Exited?;
        }
        here := View();
        g, run := Gap(WorkerThread(w), others, g);
        WorkerRun(w, here, run);
        RunHeld(w);
      }
      ended := false;
    }
  }

  lemma LockStep(p: Pool, w: nat)
    requires Enabled(p, Lock(w))
    ensures w < |p.workers| && Apply(p, Lock(w)) == GetTaskStep(p, w)
  {
  }
}
