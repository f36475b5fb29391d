/** The thread pool as a transition system.

    Every section of code that runs under the pool's mutex is one atomic step; the counter
    updates made outside the lock, the notifications, the joins and the tasks themselves are
    steps of their own. Any number of callers may be inside `schedule` at once, a sleeping worker
    may wake spuriously at any time, and `init` may start the pool again after `safe_stop`.

    Lines are those of UtilityEngine/include/com_thread_pool.hpp. */
module ThreadPool {
  const WORD: int := 0x1_0000_0000_0000_0000

  /** A 64-bit atomic counter wraps around. */
  function Inc(x: int): int { (x + 1) % WORD }
  function Dec(x: int): int { (x - 1) % WORD }

  datatype PoolState = Off | Stopping | Started

  /** What sits in the queue: the task of schedule call number `call`, or the marker `safe_stop`
      queues in the pool's life number `life`. */
  datatype Item = Task(call: nat) | Sentinel(life: nat)

  /** Where a worker is. `Entering` and `Woken` both wait for the lock; only a worker that slept is
      `Woken`. */
  datatype Worker =
    | Booting            // before line 149
    | Leaving            // before line 152
    | Entering           // before line 130
    | Asleep             // in cv.wait, line 132
    | Woken              // notified, about to re-test line 131
    | Popped(item: Item) // between lines 141 and 143
    | Holding(item: Item) // about to run the task, line 154
    | Exited

  /** Where a schedule call is. */
  datatype Call = Refused | Pushed | Counted | Accepted

  /** Where the thread inside `init`, `safe_stop` or the destructor is. At most one is active. */
  datatype Control =
    | Idle
    | Spawning                        // init: before line 233's threads are all running
    | SentPushed                      // safe_stop: before line 115
    | SentCounted                     // safe_stop: before line 116
    | Awaiting                        // safe_stop: line 118
    | Closing                         // safe_stop: before _destory, lines 106 and 119
    | Waking(safe: bool)              // _destory: before line 178
    | Joining(joined: nat, safe: bool) // _destory: line 180
    | Dead                            // the destructor has finished

  datatype Pool = Pool(
    state: PoolState,
    queue: seq<Item>,
    ntasks: int,
    working: int,
    size: nat,
    workers: seq<Worker>,
    calls: seq<Call>,
    control: Control,
    life: nat,
    pushes: seq<Item>,   // history: everything ever queued, in order
    pops: seq<Item>,     // history: everything ever dequeued, in order
    ran: seq<Item>)      // history: everything ever run, in order

  /** A pool made by the default constructor. */
  const Fresh := Pool(Off, [], 0, 0, 0, [], [], Idle, 0, [], [], [])

  datatype Step =
    | Schedule
    | CountCall(c: nat)
    | NotifyCall(c: nat, woken: nat)
    | Boot(w: nat)
    | Leave(w: nat)
    | Lock(w: nat)
    | CountPop(w: nat)
    | RunTask(w: nat)
    | Spurious(w: nat)
    | InitLock(size: nat)
    | Spawn
    | InitDone
    | SafeStop
    | CountSentinel
    | NotifySentinel(woken: nat)
    | Future
    | Destroy
    | NotifyAll
    | Join
    | JoinsDone
    | Destructor

  /** `notify_one` wakes some sleeper if there is one, and is lost otherwise. */
  predicate CanNotify(ws: seq<Worker>, woken: nat)
  {
    if woken < |ws| then ws[woken].Asleep? else forall i :: 0 <= i < |ws| ==> !ws[i].Asleep?
  }

  function Notify(ws: seq<Worker>, woken: nat): (r: seq<Worker>)
    ensures |r| == |ws|
  {
    if woken < |ws| then ws[woken := Woken] else ws
  }

  function WakeAll(ws: seq<Worker>): (r: seq<Worker>)
    ensures |r| == |ws|
    ensures forall i :: 0 <= i < |ws| ==> r[i] == if ws[i].Asleep? then Woken else ws[i]
  {
    seq(|ws|, i requires 0 <= i < |ws| => if ws[i].Asleep? then Woken else ws[i])
  }

  /** May this step happen now? */
  predicate Enabled(p: Pool, t: Step)
  {
    match t
    case Schedule => !p.control.Dead?
    case CountCall(c) => c < |p.calls| && p.calls[c].Pushed?
    case NotifyCall(c, k) => c < |p.calls| && p.calls[c].Counted? && CanNotify(p.workers, k)
    case Boot(w) => w < |p.workers| && p.workers[w].Booting?
    case Leave(w) => w < |p.workers| && p.workers[w].Leaving?
    case Lock(w) => w < |p.workers| && (p.workers[w].Entering? || p.workers[w].Woken?)
    case CountPop(w) => w < |p.workers| && p.workers[w].Popped?
    case RunTask(w) => w < |p.workers| && p.workers[w].Holding?
    case Spurious(w) => w < |p.workers| && p.workers[w].Asleep?
    case InitLock(size) => !p.control.Dead? && (p.state.Off? ==> p.control.Idle?) && 0 < size < WORD
    case Spawn => p.control.Spawning? && |p.workers| < p.size
    case InitDone => p.control.Spawning? && |p.workers| == p.size
    case SafeStop => !p.control.Dead?
    case CountSentinel => p.control.SentPushed?
    case NotifySentinel(k) => p.control.SentCounted? && CanNotify(p.workers, k)
    case Future => p.control.Awaiting? && Sentinel(p.life) in p.ran
    case Destroy => p.control.Closing?
    case NotifyAll => p.control.Waking?
    case Join => p.control.Joining? && p.control.joined < |p.workers| && p.workers[p.control.joined].Exited?
    case JoinsDone => p.control.Joining? && p.control.joined == |p.workers|
    case Destructor => p.control.Idle?
  }

  function Push(p: Pool, x: Item): Pool
  {
    p.(queue := p.queue + [x], pushes := p.pushes + [x])
  }

  function Move(p: Pool, w: nat, to: Worker): Pool
    requires w < |p.workers|
  {
    p.(workers := p.workers[w := to])
  }

  /** The critical section of `schedule`, lines 61-66. */
  function ScheduleStep(p: Pool): Pool
  {
    if p.state != Started then p.(calls := p.calls + [Refused])
    else Push(p, Task(|p.calls|)).(calls := p.calls + [Pushed])
  }

  /** The critical section of `get_task`, lines 130-141, from the loop test on. */
  function GetTaskStep(p: Pool, w: nat): Pool
    requires w < |p.workers|
  {
    if p.queue == [] && p.state != Off then Move(p, w, Asleep)
    else if p.state == Off then Move(p, w, Exited)
    else Move(p, w, Popped(p.queue[0])).(working := Inc(p.working),
                                         queue := p.queue[1..], pops := p.pops + [p.queue[0]])
  }

  /** The critical section of `safe_stop`, lines 100-113. */
  function SafeStopStep(p: Pool): Pool
  {
    if p.state != Started then p
    else if p.queue == [] then p.(state := Stopping, control := Closing)
    else Push(p, Sentinel(p.life)).(state := Stopping, control := SentPushed)
  }

  /** The critical section of `_destory`, lines 171-176. */
  function DestroyStep(p: Pool, safe: bool): Pool
  {
    if p.state == Off then p.(control := if safe then Idle else Dead)
    else p.(state := Off, control := Waking(safe))
  }

  /** The critical section of `init`, lines 228-233. */
  function InitStep(p: Pool, size: nat): Pool
  {
    if p.state != Off then p
    else p.(state := Stopping, size := size, workers := [], control := Spawning, life := p.life + 1)
  }

  function Apply(p: Pool, t: Step): Pool
    requires Enabled(p, t)
  {
    match t
    case Schedule => ScheduleStep(p)
    case CountCall(c) => p.(calls := p.calls[c := Counted], ntasks := Inc(p.ntasks))
    case NotifyCall(c, k) => p.(calls := p.calls[c := Accepted], workers := Notify(p.workers, k))
    case Boot(w) => Move(p, w, Leaving).(working := Inc(p.working))
    case Leave(w) => Move(p, w, Entering).(working := Dec(p.working))
    case Lock(w) => GetTaskStep(p, w)
    case CountPop(w) => Move(p, w, Holding(p.workers[w].item)).(ntasks := Dec(p.ntasks))
    case RunTask(w) => Move(p, w, Leaving).(ran := p.ran + [p.workers[w].item])
    case Spurious(w) => Move(p, w, Woken)
    case InitLock(size) => InitStep(p, size)
    case Spawn => p.(workers := p.workers + [Booting])
    case InitDone => p.(state := Started, control := Idle)
    case SafeStop => SafeStopStep(p)
    case CountSentinel => p.(ntasks := Inc(p.ntasks), control := SentCounted)
    case NotifySentinel(k) => p.(workers := Notify(p.workers, k), control := Awaiting)
    case Future => p.(control := Closing)
    case Destroy => DestroyStep(p, true)
    case NotifyAll => p.(workers := WakeAll(p.workers), control := Joining(0, p.control.safe))
    case Join => p.(control := Joining(p.control.joined + 1, p.control.safe))
    case JoinsDone => p.(control := if p.control.safe then Idle else Dead)
    case Destructor => DestroyStep(p, false)
  }

  /** A run: every step is enabled where it is taken. */
  ghost predicate IsRun(p: Pool, ts: seq<Step>)
    decreases |ts|
  {
    ts == [] || (Enabled(p, ts[0]) && IsRun(Apply(p, ts[0]), ts[1..]))
  }

  ghost function After(p: Pool, ts: seq<Step>): Pool
    requires IsRun(p, ts)
    decreases |ts|
  {
    if ts == [] then p else After(Apply(p, ts[0]), ts[1..])
  }
}
