# Verification of the utility engine and the bundled MySQL++ sources

This project models the parts of the repository whose correctness is hardest to see by reading:
concurrent protocols, streaming algorithms, transactions, ownership, parsers and the fast forms of
simple functions. Each model follows the C++ code branch by branch; what the code promises is proved
about the model for every input, every run or every reachable state.

Code that changes things step by step is modelled by classes and methods with the same fields and
loops. Each method is proved against a specification function, and what the source promises is proved
about that function by lemmas. Where a promise of the source fails for some inputs, the code is kept as
it is, the exact condition is proved, and a lemma gives an input that fails.

## What is modelled

- **Thread pool** (`ThreadPool*.dfy`). A transition system: every section under the mutex is one atomic
  step; the atomic counter updates outside the lock, the notifications, the joins and the tasks are
  steps of their own. Any number of schedulers and workers, spurious wakeups at any time, restarts with
  `init`, and the destructor. `ThreadPoolSafety` proves the invariant over every run, `ThreadPoolProgress`
  that `safe_stop` returns and that nothing deadlocks, `ThreadPoolMonitor` has the class
  itself: one method for each critical section, proved to be the step, and `schedule`, `_run` with `get_task`,
  `init`, `safe_stop` and `_destory` whole, with an arbitrary run of the other threads between any two of
  their sections; `ThreadPoolThreads` says what such a run leaves as it is.
- **Streaming MD5** (`Bits.dfy`, `Md5*.dfy`). The specification is RFC 1321, sections 3.1 to 3.5, written
  with indexed steps; `Md5Bits` ties it to the standard by single bits, by the sine behind the constants and
  by the bytes of the layout. The code is the unrolled transform with rotating roles, the 64-byte buffer, the
  two-word bit counter, padding, and a digest that restores state and count but not the buffer.
- **Batched INSERT and REPLACE** (`BatchPlan.dfy`, `BatchInsert.dfy`). The row loop, the three policies
  (and any policy of the user's own), `exec`, and the transaction object, over a log of statements that a
  server answers as it likes.
- **Template queries** (`TemplateParse.dfy`, `TemplateRoundTrip.dfy`, `TemplateSubst.dfy`). The character
  scanner against a grammar, a printer of every form of parameter, which it undoes, and substitution with
  parameters that are rewritten in place when their list is bound to a query.
- **Ownership** (`RefCounted.dfy`, `ConnectionPool.dfy`, `ConnectionPoolRuns.dfy`). Reference-counted
  pointers on an explicit heap, and the connection pool as a list with in-use flags and times.
- **Fast forms** (`NumericDigit.dfy`, `SkipSpace.dfy`, `DateTimes.dfy`, `Hex.dfy`). The
  divide-and-conquer bit finder, skipping of spaces by words, zero-padded dates, hexadecimal.

Inputs of a model where the source uses its surroundings: current time, results of `create()`, outcome of
`new`, answers of the server, rendered rows, SQL escaping, alignment and word size, the address of a
buffer, which sleeper a notification wakes.

## Where the code differs from its own documentation

- `RefCountedPointer::assign(T*)` (mysql++/include/refcounted.h:136-149) is documented as a no-op for the
  pointer it already holds. It makes a second counter for the same object: `RefCounted.AssignRawIff`, and
  `RefCounted.OwnPointerIsNotNoOp` for what becomes of the object.
- `md5::digest` restores state and count so that the object stays usable, but the padding has gone through
  the buffer: the stream survives exactly under the condition of `Md5.DigestIsHarmlessIff`.
- `update` takes a `size_t` length, but its block loop counts in 32 bits; beyond the bound of
  `Md5.LoopEndsIffFits` and `Md5.FitsIffBelow` it does not end.
- `insertfrom` is documented as transactional. With exceptions off, a refused START TRANSACTION is not
  noticed and the rows are executed outside a transaction; the call is all-or-nothing for every server
  exactly if the connection throws or the rows fit one statement: `BatchInsert.AtomicIff`.
- The maximum-packet policy does not count the header of a statement; the limit holds exactly if every row
  that the policy lets in fits together with its header: `BatchPlan.PacketIff`.
- The size threshold and the packet limit are compared with sizes cast to `int`. Beyond 2^31 characters the cast
  is negative; the promises hold exactly as long as it misleads no comparison: `BatchPlan.ThresholdIff`,
  `BatchPlan.PacketRowsIff`. Short rows and limits are always safe: `BatchPlan.ThresholdWhenSmall`,
  `BatchPlan.PacketWhenSmall`.
- The row-count policy refuses nothing at its largest limit: `BatchPlan.RowCountExactIff`.
- A template position is read as up to three digits and kept in a signed char:
  `TemplateRoundTrip.ParseUndoesPrint`.
- A bound parameter that appears with two options is printed by the first of them everywhere:
  `TemplateSubst.BoundAsUnboundIff`.
- Hours of a `Time` may go up to 255 (mysql++/include/datetime.h:444), but text with more than two digits
  is not read back and does not sort as printed; both hold exactly if every field fits its width:
  `DateTimes.ParseUndoesPrintIff`, `DateTimes.SortsAsPrintedIff`.
- The destructor of a started pool drops tasks it accepted, exactly those it finds in the queue:
  `ThreadPoolSafety.DestructorIff`.
- The task counter of the pool may wrap below zero for a moment. It is the queue length exactly if updates
  up and down that are still to come balance: `ThreadPoolSafety.TaskCounterIff`.

## Model

| member | source | states |
|---|---|---|
| ThreadPoolSafety.StepKeepsInv | UtilityEngine/include/com_thread_pool.hpp:59-183 | every step of every thread keeps the invariant: FIFO, exactly-once accounting, tickets of calls, phases of the control thread, wakeups, counters modulo 2^64 |
| ThreadPoolSafety.RunKeepsInv | UtilityEngine/include/com_thread_pool.hpp:59-183 | so does every run, in any interleaving |
| ThreadPoolSafety.ReachableInv | UtilityEngine/include/com_thread_pool.hpp:56-183 | the invariant holds in every state reachable from construction |
| ThreadPoolSafety.SentinelRanMeansEmpty | UtilityEngine/include/com_thread_pool.hpp:110-119 | once the marker of `safe_stop` has run, nothing is queued behind it |
| ThreadPoolSafety.SafeStopDrains | UtilityEngine/include/com_thread_pool.hpp:98-122 | when `safe_stop` is about to return true, the queue is empty, tasks were dequeued in the order of acceptance, each accepted task ran exactly once and no refused one ran, all workers have ended |
| ThreadPoolSafety.NoLateAcceptance | UtilityEngine/include/com_thread_pool.hpp:61-63 | from a pool that is not started, no run without a completed `init` accepts a task |
| ThreadPoolSafety.NoLostWakeup | UtilityEngine/include/com_thread_pool.hpp:128-145 | while a worker sleeps, queued tasks are at most pending notifications plus woken workers; after switch-off the `notify_all` is still to come |
| ThreadPoolSafety.TaskCounterIff | UtilityEngine/include/com_thread_pool.hpp:66-69 | in every reachable state `m_ntasks` is the queue length exactly if as many tasks were taken and not counted down as were queued and not counted up |
| ThreadPoolSafety.WorkCounterIff | UtilityEngine/include/com_thread_pool.hpp:137-158 | in every reachable state `m_working` is the number of workers holding a task exactly if no worker is between a task and the loop head or between taking and counting |
| ThreadPoolSafety.CountersAtRest | UtilityEngine/include/com_thread_pool.hpp:124-126 | with no thread between queue operation and counter update, `m_ntasks` is the queue length and `m_working` the number of workers holding a task |
| ThreadPoolSafety.DestructorDropsTheQueue | UtilityEngine/include/com_thread_pool.hpp:169-183 | after the destructor each accepted task has either run once or is still in the dropped queue, never both; DestructorIff says which queue that is |
| ThreadPoolSafety.DestructorIff | UtilityEngine/include/com_thread_pool.hpp:169-183 | over every run from the destructor taking the lock to its end: the queue dropped is the queue found, and every accepted task was run once exactly if that queue held no task |
| ThreadPoolSafety.RestartIsClean | UtilityEngine/include/com_thread_pool.hpp:225-235 | after `safe_stop`, `init` with any size can be run to a started pool with an empty queue, new workers only and nobody at work |
| ThreadPoolProgress.InternalStepDecreases | UtilityEngine/include/com_thread_pool.hpp:59-183 | every step of work under way decreases a measure of the whole pool |
| ThreadPoolProgress.WorkIsBounded | UtilityEngine/include/com_thread_pool.hpp:59-183 | a run has at most as many such steps as the measure, plus one for each spurious wakeup, whatever requests are refused meanwhile |
| ThreadPoolProgress.AwaitingIsNotRest | UtilityEngine/include/com_thread_pool.hpp:118-118 | while `safe_stop` waits for its marker some step can be taken |
| ThreadPoolProgress.RestIsQuiescence | UtilityEngine/include/com_thread_pool.hpp:59-183 | deadlock freedom: a reachable state in which nothing can move has no request under way, an empty queue, counters zero and every accepted task run, or is a destroyed pool |
| ThreadPoolProgress.SafeStopReturns | UtilityEngine/include/com_thread_pool.hpp:98-122 | a run from inside `safe_stop` is bounded, and one that cannot go on has left it with exactly the accepted tasks run, none accepted since, and the pool off |
| ThreadPoolProgress.TaskCounterCanWrap | UtilityEngine/include/com_thread_pool.hpp:66-69 | a reachable state in which `m_ntasks` is 2^64 - 1 over an empty queue |
| ThreadPoolProgress.DestructorCanDropATask | UtilityEngine/include/com_thread_pool.hpp:211-211 | a reachable end of the destructor with an accepted task that never ran |
| ThreadPoolMonitor.Monitor.constructor | UtilityEngine/include/com_thread_pool.hpp:45-57 | the new object is the fresh pool and satisfies the invariant |
| ThreadPoolMonitor.Monitor.ScheduleLocked | UtilityEngine/include/com_thread_pool.hpp:61-66 | the critical section of `schedule` is step Schedule, its answer says whether the task was queued |
| ThreadPoolMonitor.Monitor.ScheduleCount | UtilityEngine/include/com_thread_pool.hpp:68-68 | the counter update is step CountCall |
| ThreadPoolMonitor.Monitor.ScheduleNotify | UtilityEngine/include/com_thread_pool.hpp:69-70 | the notification is step NotifyCall |
| ThreadPoolMonitor.Monitor.GetTaskLocked | UtilityEngine/include/com_thread_pool.hpp:128-141 | one evaluation of the wait loop up to the next wait or unlock is step Lock |
| ThreadPoolMonitor.Monitor.GetTaskCount | UtilityEngine/include/com_thread_pool.hpp:143-144 | the decrement is step CountPop |
| ThreadPoolMonitor.Monitor.RunHeld | UtilityEngine/include/com_thread_pool.hpp:153-154 | running the task is step RunTask |
| ThreadPoolMonitor.Monitor.RunLoopEdge | UtilityEngine/include/com_thread_pool.hpp:149-152 | the loop edge is step Boot or Leave |
| ThreadPoolMonitor.Monitor.SafeStopLocked | UtilityEngine/include/com_thread_pool.hpp:100-113 | the critical section of `safe_stop` is step SafeStop, in all three branches |
| ThreadPoolMonitor.Monitor.SafeStopCount | UtilityEngine/include/com_thread_pool.hpp:115-115 | the counter update is step CountSentinel |
| ThreadPoolMonitor.Monitor.SafeStopNotify | UtilityEngine/include/com_thread_pool.hpp:116-116 | the notification is step NotifySentinel |
| ThreadPoolMonitor.Monitor.DestroyLocked | UtilityEngine/include/com_thread_pool.hpp:171-176 | the critical section of `_destory` is step Destroy or Destructor |
| ThreadPoolMonitor.Monitor.DestroyNotifyAll | UtilityEngine/include/com_thread_pool.hpp:178-178 | waking every sleeper is step NotifyAll |
| ThreadPoolMonitor.Monitor.InitLocked | UtilityEngine/include/com_thread_pool.hpp:228-233 | the critical section of `init` is step InitLock |
| ThreadPoolMonitor.Monitor.InitSpawn | UtilityEngine/include/com_thread_pool.hpp:163-163 | starting one thread is step Spawn |
| ThreadPoolMonitor.Monitor.InitFinish | UtilityEngine/include/com_thread_pool.hpp:165-166 | opening the pool is step InitDone |
| ThreadPoolMonitor.Monitor.Others | UtilityEngine/include/com_thread_pool.hpp:59-183 | a gap is a run of the other threads, and every such run is a gap |
| ThreadPoolMonitor.Monitor.Schedule | UtilityEngine/include/com_thread_pool.hpp:59-71 | `schedule` with arbitrary runs of the others between its sections: it accepts exactly if the pool is started when it takes the lock, and then its task was queued exactly once |
| ThreadPoolMonitor.Monitor.GetTask | UtilityEngine/include/com_thread_pool.hpp:128-145 | the wait loop and the count: the worker holds a task, or has left because the pool is off, or is asleep when the others stop |
| ThreadPoolMonitor.Monitor.Run | UtilityEngine/include/com_thread_pool.hpp:147-158 | the worker loop: it ends only when the pool is off |
| ThreadPoolMonitor.Monitor.Init | UtilityEngine/include/com_thread_pool.hpp:160-167 | `init` and the loop of `_init`: started exactly if the pool was off, with n workers, an empty queue and nothing accepted before it opened |
| ThreadPoolMonitor.Monitor.PassMarker | UtilityEngine/include/com_thread_pool.hpp:115-118 | counting, notifying and waiting for the marker, with nothing accepted meanwhile |
| ThreadPoolMonitor.Monitor.JoinAll | UtilityEngine/include/com_thread_pool.hpp:180-181 | the join loop passes only when every worker has ended |
| ThreadPoolMonitor.Monitor.Destory | UtilityEngine/include/com_thread_pool.hpp:169-183 | `_destory` whole: the pool is off, the queue is as it was and nothing was accepted meanwhile |
| ThreadPoolMonitor.Monitor.Destruct | UtilityEngine/include/com_thread_pool.hpp:211-211 | the destructor whole: the queue it found is dropped as it was, what was dequeued was run once, and every accepted task was run exactly if the queue found held none |
| ThreadPoolMonitor.Monitor.SafeStop | UtilityEngine/include/com_thread_pool.hpp:98-122 | `safe_stop` whole: false exactly if the pool was not started, and then nothing changed; true only with everything accepted run exactly once in order of dequeuing, an empty queue, ended workers and nothing accepted since it took the lock, one marker queued if the queue was not empty and none otherwise |
| ThreadPoolThreads.ControllerRun | UtilityEngine/include/com_thread_pool.hpp:97-183 | no run of other threads moves the thread inside `init`, `safe_stop` or `_destory`, changes the state or gets a task accepted |
| ThreadPoolThreads.WorkerRun | UtilityEngine/include/com_thread_pool.hpp:128-158 | the others can only wake a worker, never move it |
| Md5Transform.Round1 | UtilityEngine/src/com_md5.cpp:134-150 | the sixteen unrolled lines with rotating roles compute steps 1 to 16 of RFC 1321 section 3.4, for every state and block |
| Md5Transform.Round2 | UtilityEngine/src/com_md5.cpp:151-167 | the same for steps 17 to 32 |
| Md5Transform.Round3 | UtilityEngine/src/com_md5.cpp:168-184 | the same for steps 33 to 48 |
| Md5Transform.Round4 | UtilityEngine/src/com_md5.cpp:185-201 | the same for steps 49 to 64 |
| Md5Transform.Transform | UtilityEngine/src/com_md5.cpp:43-47 | the macro, whatever the order of its additions, is the operation of RFC 1321 section 3.4 |
| Md5Transform.DecodeInto | UtilityEngine/src/com_md5.cpp:223-228 | the loop fills the array with the words, low-order byte first |
| Md5Transform.EncodeInto | UtilityEngine/src/com_md5.cpp:211-218 | the loop writes the words, low-order byte first |
| Md5Transform.DecodeUndoesEncode | UtilityEngine/src/com_md5.cpp:211-228 | decoding encoded words gives them back |
| Md5Transform.EncodeUndoesDecode | UtilityEngine/src/com_md5.cpp:211-228 | encoding decoded bytes gives them back, for lengths divisible by 4 |
| Md5Spec.Padded | UtilityEngine/src/com_md5.cpp:115-122 | padding and length make any message a whole number of 64-byte blocks |
| Md5Bits.AuxiliaryBits | UtilityEngine/src/com_md5.cpp:35-38 | bit by bit: F lets x choose between y and z, G lets z choose between x and y, H is the parity of the three, I the parity of y and "x or not z" |
| Md5Bits.RotateLeftBits | UtilityEngine/src/com_md5.cpp:40-40 | rotation by s takes bit i to bit i + s modulo 32 |
| Md5Bits.OperationInNumbers | UtilityEngine/src/com_md5.cpp:43-47 | a step adds register, auxiliary value, word and constant modulo 2^32, rotates the sum and adds the next register |
| Md5Bits.InitialBytes | UtilityEngine/src/com_md5.cpp:59-62 | the initial registers are the bytes that section 3.3 of RFC 1321 lists, 01 23 45 67 and so on |
| Md5Bits.ScheduleStarts | UtilityEngine/src/com_md5.cpp:134-201 | the rounds begin with words 0, 1, 5 and 0 |
| Md5Bits.ScheduleSteps | UtilityEngine/src/com_md5.cpp:134-201 | and go on around the block in steps of 1, 5, 3 and 7 |
| Md5Bits.ConstantsAreSines | UtilityEngine/src/com_md5.cpp:134-201 | the 64 constants are those of the sine: the first lies between two sums of its series, the second follows from it, and they all follow one another by the addition theorem within the rounding |
| Md5Bits.ShiftsRepeat | UtilityEngine/src/com_md5.cpp:18-33 | the four shifts of each round repeat through it |
| Md5Bits.FourSteps | UtilityEngine/src/com_md5.cpp:134-201 | four steps change the registers in place in the order a, d, c, b, each from the values at that time |
| Md5Bits.BlockAdds | UtilityEngine/src/com_md5.cpp:202-205 | the steps of a block are added to the registers one by one |
| Md5Bits.DigestBytes | UtilityEngine/src/com_md5.cpp:124-124 | the digest starts with the lowest byte of register a and ends with the highest of d |
| Md5Bits.PaddedLayout | UtilityEngine/src/com_md5.cpp:117-122 | a padded message is the message, 0x80, zeros and its length, whole blocks with the least number of zeros |
| Md5Bits.LengthIsBits | UtilityEngine/src/com_md5.cpp:116-122 | the length is the number of bits modulo 2^64, lowest byte first |
| Md5.CountAdvances | UtilityEngine/src/com_md5.cpp:72-79 | the two words with their carry are the bit length modulo 2^64 after each chunk |
| Md5.ShortChunksFit | UtilityEngine/src/com_md5.cpp:85-87 | chunks of at most 2^32 - 64 bytes keep the 32-bit index from wrapping |
| Md5.LoopEndsIffFits | UtilityEngine/src/com_md5.cpp:85-87 | the block loop ends if and only if the chunk fits that bound |
| Md5.FitsIffBelow | UtilityEngine/src/com_md5.cpp:82-87 | the bound in closed form: the chunk is shorter than 2^32 less the bytes in the buffer |
| Md5.FourGibibytesNeverEnd | UtilityEngine/src/com_md5.cpp:85-87 | for a chunk of 2^32 bytes the loop test holds in every round |
| Md5.Hasher.constructor | UtilityEngine/src/com_md5.cpp:50-50 | the new object stands for the empty message |
| Md5.Hasher.Reset | UtilityEngine/src/com_md5.cpp:54-63 | the object stands for the empty message again |
| Md5.Hasher.TransformBlock | UtilityEngine/src/com_md5.cpp:131-206 | the state becomes the compression of the block by all 64 steps |
| Md5.Hasher.WholeBlocks | UtilityEngine/src/com_md5.cpp:82-88 | completing the buffer and looping over the chunk absorbs all whole blocks of message and chunk, in bounds |
| Md5.Hasher.Update | UtilityEngine/src/com_md5.cpp:69-95 | the object stands for the message and the chunk: state, bit count and leftover; the 64 buffer bytes are stated too |
| Md5.Hasher.Final | UtilityEngine/src/com_md5.cpp:107-128 | the digest is that of RFC 1321; the object then stands for the message with a clobbered tail, if it was 56 bytes or longer |
| Md5.Hasher.TakeDigest | UtilityEngine/src/com_md5.cpp:98-102 | the same; the flag set first is cleared again by the update inside |
| Md5.Hasher.CStr | UtilityEngine/src/com_md5.cpp:230-232 | the kept text if the flag is set, else the digest in lower-case hexadecimal |
| Md5.HashChunks | UtilityEngine/src/com_md5.cpp:69-128 | for any split of a message the text is the digest of the whole message |
| Md5.DigestIsHarmlessIff | UtilityEngine/src/com_md5.cpp:107-128 | a digest leaves the stream undisturbed exactly if the length modulo 64 is below 56 or the tail equals the residue already |
| Md5.DigestCanDisturb | UtilityEngine/src/com_md5.cpp:107-128 | 56 bytes of ones stand for 56 zeros after a digest |
| Md5.DigestIsIdempotent | UtilityEngine/src/com_md5.cpp:98-128 | further digests disturb nothing more |
| Md5.BufferAfterFinal | UtilityEngine/src/com_md5.cpp:115-122 | the buffer bytes that padding and length leave behind |
| Md5.DigestTwice | UtilityEngine/src/com_md5.cpp:98-102 | the first text is the message's digest, the second that of the disturbed message; equal below 56 |
| Hex.BinToHex | UtilityEngine/include/com_hex_caster.hpp:38-54 | two digits a byte and a closing NUL, nothing beyond |
| Hex.HexToBin | UtilityEngine/include/com_hex_caster.hpp:58-64 | each pair of characters gives a byte by the macro, nothing beyond; of an odd length one character more is read |
| Hex.JoinOfDigits | UtilityEngine/include/com_hex_caster.hpp:56-62 | on digits of either case the macro's value is the number they write |
| Hex.DecodeUndoesEncode | UtilityEngine/include/com_hex_caster.hpp:38-64 | decoding undoes encoding, in both alphabets |
| Hex.EncodeUndoesDecode | UtilityEngine/include/com_hex_caster.hpp:38-64 | encoding what an even-length digit string decodes to gives it back in one case |
| BatchPlan.PlanCoversRows | mysql++/include/query.h:1081-1131 | the statements' rows, one after the other, are the input, each once and in order; or the input up to a row the policy refused |
| BatchPlan.StatementReads | mysql++/include/query.h:1083-1126 | a statement is the verb, the table and the field list of its first row, and the value lists of all its rows in order, each in parentheses, and nothing else |
| BatchPlan.LargestRowCountNeverRefuses | mysql++/include/insertpolicy.h:94-104 | at the limit 2^32 - 1 the counter wraps first and all rows go into one statement |
| BatchPlan.RowCountExactIff | mysql++/include/insertpolicy.h:94-104 | a fresh policy gives every statement but the last exactly `max_rows` rows, for every limit below 2^32 - 1, and for that one exactly if there are no more rows than it allows |
| BatchPlan.RowCountReusedIff | mysql++/include/insertpolicy.h:94-104 | a reused policy never exceeds its limit under the same exact condition, and refuses no row unless the limit is zero |
| BatchPlan.ThresholdBound | mysql++/include/insertpolicy.h:142-147 | by the size the policy is told, a statement is below the limit before its last row; every row finds a place exactly if the limit is positive |
| BatchPlan.ThresholdIff | mysql++/include/insertpolicy.h:142-147 | for any set of rows: every list of them gives only statements below the limit before their last row, exactly if the limit lets nothing in or the cast makes no statement within the promise look smaller than the limit |
| BatchPlan.ThresholdCanBeExceeded | mysql++/include/insertpolicy.h:142-147 | beyond 2^31 characters the cast is negative and a statement above the limit takes a further row |
| BatchPlan.PacketBound | mysql++/include/insertpolicy.h:201-215 | by the sizes the policy is told, the last row of a statement fitted behind the others, or alone; every row finds a place if each would alone |
| BatchPlan.PacketIff | mysql++/include/insertpolicy.h:201-215 | for any set of rows and any limit of type int: every list of them gives only statements within the limit exactly if each row the policy lets in fits together with its header |
| BatchPlan.PacketRowsIff | mysql++/include/insertpolicy.h:201-215 | statements of two or more rows are within the limit exactly if the casts let no row in for which there is no room behind a statement within the promise |
| BatchPlan.PacketCanBeExceeded | mysql++/include/insertpolicy.h:201-215 | a single-row statement that passes the policy and exceeds its limit |
| BatchInsert.Connection.Run | mysql++/include/transaction.cpp:45-49 | a statement is sent once; a failure throws if the connection's exceptions are on |
| BatchInsert.Transaction.Begin | mysql++/include/transaction.cpp:40-53 | START TRANSACTION is sent; the object is unfinished unless that threw |
| BatchInsert.Transaction.End | mysql++/include/transaction.cpp:104-119 | COMMIT or ROLLBACK is sent; the object is finished even if the statement failed, unless that threw |
| BatchInsert.Transaction.Destroy | mysql++/include/transaction.cpp:89-99 | an unfinished transaction is rolled back, a finished one sends nothing |
| BatchInsert.InsertPolicy.Ask | mysql++/include/insertpolicy.h:94-215 | the three `can_add` members, with their state |
| BatchInsert.Query.Exec | mysql++/include/query.cpp:141-158 | the buffer is sent, and reset on success only; failure is an exception or false |
| BatchInsert.Query.OfferRow | mysql++/include/query.h:1082-1125 | one turn of the loop: what was sent, what is in the buffer, and how it ends, for each pair of answers of the policy |
| BatchInsert.Query.RowLoop | mysql++/include/query.h:1081-1131 | the statements sent are the first groups of the plan, and the next one if it failed, each with the server's answer; success exactly if the whole plan was executed |
| BatchInsert.Query.InsertFrom | mysql++/include/query.h:1068-1141 | `insertfrom` and, with the other verb, `replacefrom`: transaction start, row loop and end, in every combination of failures and exceptions, each statement with the server's answer |
| BatchInsert.Query.Close | mysql++/include/query.h:1133-1141 | COMMIT after success, ROLLBACK otherwise, and the destructor's ROLLBACK after an exception |
| BatchInsert.AllOrNothing | mysql++/include/query.h:1068-1141 | once the transaction is started, either COMMIT was executed and all rows are in force in order, or nothing of the call is: it was rolled back, or the server refused every end and it is still open |
| BatchInsert.CallAnswersIff | mysql++/include/query.h:1094-1141 | success is reported exactly if every row was executed and no statement about the transaction threw; the call throws exactly if the loop failed with exceptions on or such a statement threw; a failed call sends ROLLBACK last, a second time if the end itself threw |
| BatchInsert.StartIgnored | mysql++/include/transaction.cpp:40-53 | with exceptions off and START refused, exactly the executed statements stay in force, whatever the ending says |
| BatchInsert.ThrownStartIsAtomic | mysql++/include/transaction.cpp:40-53 | with exceptions on a refused START changes nothing at all |
| BatchInsert.RefusedRunBreaks | mysql++/include/query.h:1068-1141 | if more than one statement is needed, a run in which START is refused and only the first statement works leaves that one in force |
| BatchInsert.AtomicIff | mysql++/include/query.h:1068-1141 | for every server, all answers and every run of the call with them: all-or-nothing, exactly if the connection throws or the rows need no more than one statement |
| BatchInsert.InsertInPart | mysql++/include/query.h:1068-1141 | in every other case the call of `insertfrom` on a new connection to a server that refuses START and all but the first statement inserts the rows in part |
| RefCounted.AdoptKeepsInv | mysql++/include/refcounted.h:102-111 | constructing from a new raw pointer keeps exact counts, single ownership and no leak, also when the allocation fails |
| RefCounted.CopyKeepsInv | mysql++/include/refcounted.h:114-121 | so does copying |
| RefCounted.SwapKeepsInv | mysql++/include/refcounted.h:247-251 | so does swapping |
| RefCounted.DropKeepsInv | mysql++/include/refcounted.h:127-133 | so does destroying a handle |
| RefCounted.AssignRawKeepsInv | mysql++/include/refcounted.h:142-149 | so does assigning a new raw pointer; if the allocation fails no handle changes |
| RefCounted.AssignRawSets | mysql++/include/refcounted.h:142-149 | for null or a pointer never handed in: the handle becomes empty or manages it under a new counter of 1, no other handle changes, and the object held before is destroyed exactly if no other handle holds it |
| RefCounted.AdoptIff | mysql++/include/refcounted.h:102-111 | constructing from a raw pointer keeps the invariant exactly if it was never handed in before, whether or not the allocation succeeds |
| RefCounted.AssignFromKeepsInv | mysql++/include/refcounted.h:159-166 | so does assigning another handle, also itself; the two handles then agree |
| RefCounted.AssignRawIff | mysql++/include/refcounted.h:136-149 | assigning a raw pointer keeps the invariant exactly if it was never handed in before, whether or not the allocation succeeds |
| RefCounted.OwnPointerIsNotNoOp | mysql++/include/refcounted.h:136-149 | assigning a handle its own raw pointer gives it a second counter, and destroys the object under it if the first counter was at one |
| RefCounted.AssigningAgainDangles | mysql++/include/refcounted.h:102-149 | two operations from the start leave a handle that points to a destroyed object |
| RefCounted.SelfAssignIsNoOp | mysql++/include/refcounted.h:159-166 | assigning a handle to itself changes nothing at all |
| RefCounted.LastHandleDestroys | mysql++/include/refcounted.h:127-133 | destroying a handle destroys the object exactly if no other handle points to it |
| RefCounted.RunsAreSafe | mysql++/include/refcounted.h:102-251 | over any run: counters equal live handles, each object is destroyed once its last handle is gone and not before, and when all handles are gone nothing is left |
| RefCounted.Heap.Construct | mysql++/include/refcounted.h:102-111 | the method is the constructor's effect on memory |
| RefCounted.Heap.CopyConstruct | mysql++/include/refcounted.h:114-121 | the copy constructor's effect |
| RefCounted.Heap.Destruct | mysql++/include/refcounted.h:127-133 | the destructor's effect |
| RefCounted.Heap.Exchange | mysql++/include/refcounted.h:247-251 | the effect of `swap` |
| RefCounted.Heap.AssignPointer | mysql++/include/refcounted.h:142-149 | temporary, swap and destructor give the effect of assignment; an exception leaves before the swap |
| RefCounted.Heap.AssignHandle | mysql++/include/refcounted.h:159-166 | the same for assigning a handle |
| ConnectionPool.LessIsStrictWeakOrder | mysql++/include/cpool.h:226-237 | the ordering is irreflexive, transitive, and incomparability is transitive |
| ConnectionPool.FirstMaxIsUnique | mysql++/include/cpool.cpp:112-112 | `max_element` is determined by the list |
| ConnectionPool.MaxIsIdleIffAnyIs | mysql++/include/cpool.cpp:109-120 | the maximum is idle exactly if some entry is, and is then the most recently used idle one |
| ConnectionPool.GrabChoosesMru | mysql++/include/cpool.cpp:125-138 | `grab` drops exactly the entries idle too long and keeps the rest in order; it marks and hands out the most recently used idle one, or appends a new connection only if none is idle; nothing else changes |
| ConnectionPool.ReleaseRenews | mysql++/include/cpool.cpp:143-155 | after a release the first entry of the connection is idle and last used now, all others are unchanged |
| ConnectionPool.ReleasedIsGrabbed | mysql++/include/cpool.cpp:125-155 | a `grab` within the idle time does not destroy a released connection, and hands it out if every other idle one was used earlier |
| ConnectionPool.ClearKeeps | mysql++/include/cpool.cpp:71-85 | `shrink` keeps exactly the entries in use, `clear(true)` none |
| ConnectionPool.Pool.Clear | mysql++/include/cpool.cpp:71-85 | the loop removes and destroys exactly the idle entries, or all, in order |
| ConnectionPool.Pool.RemoveOldConnections | mysql++/include/cpool.cpp:195-204 | the find-and-erase loop removes exactly the entries too old and keeps the others in order |
| ConnectionPool.Pool.MaxElement | mysql++/include/cpool.cpp:112-112 | the scan finds the first maximum |
| ConnectionPool.Pool.FindMru | mysql++/include/cpool.cpp:109-120 | the maximum is marked in use and returned if it is idle; otherwise nothing changes |
| ConnectionPool.Pool.Grab | mysql++/include/cpool.cpp:125-138 | list, destroyed connections and result of `grab` |
| ConnectionPool.Pool.Release | mysql++/include/cpool.cpp:143-155 | the first entry of the connection becomes idle with the current time |
| ConnectionPool.Pool.Remove | mysql++/include/cpool.cpp:169-189 | the first entry of the connection is erased and the connection destroyed |
| ConnectionPool.Pool.Exchange | mysql++/include/cpool.cpp:92-101 | a removal and then a grab: the list, the result, and the connections destroyed in order |
| ConnectionPoolRuns.StepKeepsInv | mysql++/include/cpool.cpp:71-189 | every operation keeps: connections created are in the pool or destroyed, once; in-use entries are the outstanding grabs |
| ConnectionPoolRuns.RunKeepsInv | mysql++/include/cpool.cpp:71-189 | so does every run |
| ConnectionPoolRuns.PoolIsExact | mysql++/include/cpool.cpp:71-189 | entries are distinct, in-use entries are exactly the outstanding grabs, created minus destroyed is the pool's size |
| ConnectionPoolRuns.GrabIsExclusive | mysql++/include/cpool.cpp:125-138 | `grab` never returns a connection a caller still holds |
| ConnectionPoolRuns.HeldIsDestroyedIff | mysql++/include/cpool.cpp:71-189 | a connection a caller holds is destroyed by an operation exactly if that is its `remove` or `clear(true)` |
| TemplateParse.Parser.ScanNumber | mysql++/include/query.cpp:290-308 | the nested tests read up to three digits as a number |
| TemplateParse.Parser.ScanNamed | mysql++/include/query.cpp:316-340 | name, optional closing colon and the two maps |
| TemplateParse.Parser.ScanParameter | mysql++/include/query.cpp:286-346 | one parameter, as the grammar has it |
| TemplateParse.Parser.Parse | mysql++/include/query.cpp:266-363 | the pointer walk builds exactly what the grammar's pieces build, up to the first NUL; it is defined exactly if no named position is negative as a signed char |
| TemplateParse.PiecesEndAtNul | mysql++/include/query.cpp:278-359 | nothing from the first NUL on is looked at, wherever in a parameter it stands |
| TemplateRoundTrip.PiecesOfRender | mysql++/include/query.cpp:278-359 | the pieces of a printed list are its literal characters and its parameters, and all of the text is used up; printed in any style: with or without a name, option and closing colon, with one to three digits, with single or doubled percent signs |
| TemplateRoundTrip.ParseUndoesPrint | mysql++/include/query.cpp:266-363 | parsing a list printed in any such style gives back texts, options and positions, with a final element of position -1, exactly if every position is at most 127 |
| TemplateRoundTrip.NamesOfItems | mysql++/include/query.cpp:330-339 | each position is mapped to the last name it was given, each name to its last position; parameters without a name change neither |
| TemplateRoundTrip.CharactersListed | mysql++/include/query.cpp:286-323 | the characters of numbers and of names, one by one |
| TemplateSubst.PrintedForms | mysql++/include/query.cpp:366-423 | SQL null is the word NULL; a value made ready is copied; q escapes and quotes what wants it between single quotes, Q only quotes |
| TemplateSubst.FillWorksIff | mysql++/include/query.cpp:431-455 | filling succeeds exactly if each parameter is in one of the lists; otherwise the text ends in the error mark |
| TemplateSubst.FillIsConcat | mysql++/include/query.cpp:426-464 | from an unbound list the query is, element by element, the text in front and the printed value |
| TemplateSubst.OwnComesFirst | mysql++/include/query.cpp:431-455 | a list that is long enough is used alone, and the defaults stay as they are |
| TemplateSubst.DefaultsStandIn | mysql++/include/query.cpp:431-455 | with an empty list the defaults give what they would give as a bound list of the call |
| TemplateSubst.FillTwice | mysql++/include/query.cpp:426-464 | filling again with the lists as they were left gives the same text, outcome and lists: nothing is quoted or escaped twice |
| TemplateSubst.OneOptionFillsAlike | mysql++/include/query.cpp:366-464 | with one option for each position, a bound and an unbound list give the same text, outcome and defaults |
| TemplateSubst.TwoOptionsTell | mysql++/include/query.cpp:366-464 | with two options for a position there are values for which they do not |
| TemplateSubst.BoundAsUnboundIff | mysql++/include/query.cpp:366-464 | so the two agree for all fresh values and defaults exactly if no position has two options |
| TemplateSubst.Params.Index | mysql++/include/qparms.h:98-105 | `operator[]` pads the list with empty strings and never shortens it |
| TemplateSubst.Query.Pprepare | mysql++/include/query.cpp:366-423 | the text printed, and the value stored if the list is bound |
| TemplateSubst.Query.ProcOne | mysql++/include/query.cpp:431-463 | one turn of the loop: which list is used, what is printed, what is stored, when it throws |
| TemplateSubst.Query.Proc | mysql++/include/query.cpp:426-464 | the loop fills the buffer and the lists as the specification does, exception included |
| TemplateSubst.Query.Str | mysql++/include/query.cpp:613-621 | a query that is no template is returned as it is; a template is filled |
| TemplateSubst.Query.Reset | mysql++/include/query.cpp:467-476 | buffer, elements and defaults are empty |
| TemplateSubst.StrTwice | mysql++/include/query.cpp:613-621 | two calls in a row, with the defaults or any one list, give the same text or the same exception |
| NumericDigit.MasksAreHalves | UtilityEngine/include/com_numeric_digit.hpp:31-44 | at every node of the recursion the two masks are the lower and the upper half of the node's bits |
| NumericDigit.ChildrenAt | UtilityEngine/include/com_numeric_digit.hpp:50-60 | the children are nodes at those halves |
| NumericDigit.MaxFinds | UtilityEngine/include/com_numeric_digit.hpp:34-46 | at any node, `max` finds the highest set bit of its interval |
| NumericDigit.MinFinds | UtilityEngine/include/com_numeric_digit.hpp:35-47 | at any node, `min` finds the lowest one, or the width less two if there is none |
| NumericDigit.MaxIsBitLength | UtilityEngine/include/com_numeric_digit.hpp:34-34 | for every width 2^k, `max` is the bit length of the number |
| NumericDigit.MinIsLowestBit | UtilityEngine/include/com_numeric_digit.hpp:35-35 | `min` is the r such that the number is 2^(r-1) times an odd number; the width less two for zero |
| NumericDigit.FastMaxIsMax | UtilityEngine/include/com_numeric_digit.hpp:80-85 | the macro of matching width computes `max` |
| SkipSpace.SkipIsMaximal | mysql/include/m_string.h:326-328 | the byte loop skips spaces only, and all trailing ones |
| SkipSpace.Uint8korrInjective | mysql/include/byte_order_generic.h:56-69 | equal loads come from equal bytes |
| SkipSpace.SpaceWordIffSpaces | mysql/include/m_string.h:320-325 | the load is the word of spaces exactly if all eight bytes are spaces |
| SkipSpace.LoadedBytes | mysql/include/byte_order_generic.h:56-69 | byte i of an eight-byte load, from the lowest, is the byte at i |
| SkipSpace.LoadOfBytes4 | mysql/include/byte_order_generic.h:83-89 | loading what `int4store` writes gives the number back |
| SkipSpace.StoreOfLoad | mysql/include/byte_order_generic.h:46-54 | the bytes of a four-byte load are the bytes loaded |
| SkipSpace.StoreOfLoad8 | mysql/include/byte_order_generic.h:56-97 | the bytes of an eight-byte load are the bytes loaded |
| SkipSpace.Int4store | mysql/include/byte_order_generic.h:83-89 | the four bytes load as the number, the others are unchanged |
| SkipSpace.Int8store | mysql/include/byte_order_generic.h:91-97 | the eight bytes load as the number, the others are unchanged |
| SkipSpace.SkipTrailingSpace | mysql/include/m_string.h:317-329 | the 8-byte stride gives the result of the byte loop for every buffer and never reads before it |
| SkipSpace.SkipBytes | mysql/include/m_string.h:301-308 | the byte loops down to an address |
| SkipSpace.SkipWords | mysql/include/m_string.h:303-305 | the word loop, with aligned reads inside the buffer only, skips spaces only |
| SkipSpace.WordOfSpaces | mysql/include/m_string.h:282-289 | a word of either size equals its constant exactly if it holds spaces only |
| SkipSpace.SkipAligned | mysql/include/m_string.h:280-310 | the aligned version gives the result of the byte loop at every address, for both word sizes |
| DateTimes.PaddedIsFixed | mysql++/include/datetime.cpp:61-71 | a field printed with fill and width has exactly its decimal digits with leading zeros, if it fits the width |
| DateTimes.TextLayout | mysql++/include/datetime.cpp:61-97 | a value in width prints as YYYY-MM-DD hh:mm:ss, digit by digit |
| DateTimes.DateOrder | mysql++/include/datetime.cpp:215-221 | printed dates have one length and the lexicographic order of `compare` |
| DateTimes.TimeOrder | mysql++/include/datetime.cpp:224-230 | the same order for times |
| DateTimes.CompareIsPrintedOrder | mysql++/include/datetime.cpp:233-250 | the sign of `compare` is the order of the printed texts exactly if none or both are NOW() |
| DateTimes.CompareIsRank | mysql++/include/datetime.cpp:215-250 | `compare` has the sign of the difference of one number, so it is a total order of all stamps; NOW() has the number zero |
| DateTimes.WideFieldPrintsEarlier | mysql++/include/datetime.cpp:61-84 | a field wider than its width prints before the largest number that fits, whatever follows |
| DateTimes.WideSortsElsewhere | mysql++/include/datetime.cpp:214-250 | for every stamp with a wide field there is one in width that it follows and prints before |
| DateTimes.SortsAsPrintedIff | mysql++/include/datetime.cpp:214-250 | a stamp other than NOW() sorts as printed among all stamps in width exactly if it is in width itself |
| DateTimes.WideHoursPrintEarlier | mysql++/include/datetime.cpp:74-84 | 100 hours compare greater than 99 and print before them |
| DateTimes.TwoChars | mysql++/include/datetime.cpp:155-160 | an optional separator and a two-character field, or a read past the end |
| DateTimes.StrtolReads | mysql++/include/datetime.cpp:138-189 | blanks are skipped, a sign counts, and the number ends at the first character that is no digit |
| DateTimes.NegativeField | mysql++/include/datetime.cpp:153-160 | a sign is taken as part of a field, and the cast to unsigned char makes -n into 256 - n |
| DateTimes.Date.Convert | mysql++/include/datetime.cpp:138-163 | the fields and the place reached, as the specification has them |
| DateTimes.Time.Convert | mysql++/include/datetime.cpp:166-189 | the same for a time |
| DateTimes.DateTime.Convert | mysql++/include/datetime.cpp:192-212 | the same for both with an optional blank; the result is not NOW() |
| DateTimes.ParseUndoesPrintIff | mysql++/include/datetime.cpp:87-212 | `convert` undoes printing, with separators and without, exactly if the value is not NOW(), the year is at most 9999 and the other fields are at most 99 |
| DateTimes.DateAndTimeAlone | mysql++/include/datetime.cpp:61-189 | the same for dates and times alone; so hours from 100 on are not read back |
| DateTimes.NowIsNotRead | mysql++/include/datetime.cpp:87-97 | converting the text NOW() reads past its terminator |

## Left out

- Thread pool: assumed is that no `init` takes the lock while another thread is between switching the pool off
  and the last join of `_destory`: it would pass the test of line 229 and replace `m_size` and `pool` under the join
  loop. At any other time a second `init` is refused, and that is a step of the model. Assumed is also that the
  destructor runs while no thread is inside `safe_stop` or `init`, that callables are not empty, and that no task
  throws or calls the pool's own `safe_stop`. `schedule_future` and `schedule_normal` only wrap `schedule`.
- Thread pool: fairness. Progress is bounded by the number of spurious wakeups, and a run is assumed to go on
  while some thread can move; a method whose gaps are used up reports that it is still waiting.
- MD5: whether two different messages share a digest, and the second constructor, which is reset and update.
- Hexadecimal: the buffer classes around the two functions.
- Batched inserts: statements that fail but have effects on the server, isolation levels, a refused row that
  throws only through the policy's own code, `tellp` on a failed stream. Values are assumed to render alike in the
  query and in the policy's stream.
- AllOrNothing: a server that refuses both the end of the transaction and the rollback after it leaves the
  transaction open, and what becomes of it then is not part of this model.
- Query: the many overloads of `execute`, `store`, `use` and `storein`, and SQL escaping, which is an arbitrary
  function here.
- Query parameters: copying a list, which clears the mark of processed values (mysql++/include/stadapter.cpp:46-50),
  also when a vector moves to larger storage; access by name; `operator +`.
- Template parsing: characters above 127 in `isalnum` and `isdigit`, and locales.
- BoundAsUnboundIff: assumes escaping keeps the empty text empty and lengthens some text, and covers the options
  the parser produces.
- Reference counting: the conversion from pointers to other types, and the counters' width.
- Connection pool: `safe_grab`, which repeats `grab` as long as connections do not answer; what callers do with
  connections that `clear(true)` destroyed under them; the clock, which is an argument.
- Bit finder: signed element types, and macro arguments that are not single identifiers.
- Dates: `time_t` conversions, reading the clock, stream flags other than width and fill.
- Buffers, factories and channels whose bodies are in `.inl` files that are not part of this model; sockets,
  sessions, the MySQL client library, results and rows.
