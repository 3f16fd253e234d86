# Zener: a verified model

A Dafny model of the parts of the Zener HTTP server whose correctness is hard to see
from one function at a time: the two timer managers, the blocking deque and the thread
pool, the byte path from socket to socket, the request and form parsers, the response
builder, the file mapping cache and the table of connections.

Everything is checked by `dafny verify dfyconfig.toml` (Dafny 4.11).

## How the model is laid out

| file | models | form |
|---|---|---|
| `HeapTimer.dfy` | the indexed binary heap | class over the vector and the index map |
| `TimerManagerSpec.dfy` | the heap timer manager as a state machine, and its runs | functions and lemmas |
| `TimerManager.dfy` | the heap timer manager | class that refines the state machine |
| `MapTimerSpec.dfy`, `MapTimer.dfy` | the multimap timer manager | the same two layers |
| `TimerDeadlines.dfy`, `MapTimerTimes.dfy` | when the timers of either manager fire, from the operations of a run alone | functions and lemmas over its runs |
| `MapTimerNodes.dfy` | what its nodes add up to: those a dropped timer leaves, and timers without a key | functions and lemmas over its runs |
| `Places.dfy`, `BlockDeque.dfy`, `ThreadPool.dfy` | the two monitors | step relations over any number of threads |
| `Buffers.dfy`, `ConnIo.dfy` | buffer, socket, `Conn::Read`, `Conn::Write` | classes over arrays |
| `Requests.dfy`, `Forms.dfy` | request parser, form decoder | classes, and the printers they undo |
| `Responses.dfy` | response builder | class, the reply it builds, and a reader for what it sends |
| `ReplyTexts.dfy` | what a browser reads | functions and lemmas, with the literals of the source |
| `Serving.dfy`, `Sessions.dfy` | one connection from accept to close: `onRead`, `onProcess`, `onWrite` | state machine over what the server answers to a text, and a class over the classes above that refines it |
| `FileCache.dfy` | cache of file mappings | step relation, and a class that refines it |
| `ConnTable.dfy` | `_users`, the connection timers and the user count | step relation, and a class that refines it |

A *run* is a sequence of steps that are all possible; `Runs.Exec` gives its last state. The
theorems about runs hold for every run. In the two monitors, the file cache and the
connection table a step is what one thread does while it holds the lock, so a run is an
interleaving.

What the outside world answers is arbitrary. Clock readings do not run backwards but
are otherwise free. A user callback is an arbitrary script of calls to the manager that
invoked it, a new one at each call. `readv` and `writev` move any number of bytes they
are allowed to move, and may fail. Allocation may fail; where it matters the allocator's
answer is a parameter. `stat`, `mmap`, `accept`, `epoll_ctl`, `fcntl` and the database may
answer anything.

## What was found

Where a property one would expect of the code does not hold, the model keeps the code and
proves exactly when it does hold.

- `Timer::Adjust` only sifts down: it keeps heap order if and only if the new deadline is
  no earlier than the parent's (`HeapTimer.Timer.Adjust`, `AdjustBreaksOrder`).
- A lower bound on periods and delays makes every `Tick` fire in order of deadline if and
  only if it is at least a millisecond (`OrderNeedsOneMs`, `NoDelayFiresOutOfOrder`).
- `GetNextTick` of either manager narrows a count of milliseconds to `int`; with a timer more
  than 2^31 ms overdue the wait can be up to 2^31 - 1 ms long (`WaitExact`, `LongOverdueWaits`
  in `TimerManager` and `MapTimer`).
- A heap timer with a repeat count below -1 runs once and leaves its entries behind
  (`TimerManagerSpec.FiringCount`).
- A multimap timer with count 0 never calls its function; with count -1 it has one node more
  after each run; a key that does not survive the conversion to `int` loses all its calls
  (`ZeroNeverCalls`, `ForeverMultiplies`, `RepeatCount`). Cancelling leaves the nodes in the
  multimap: they go away, after a fixed number of firings, if and only if the count was not
  negative (`LeftoversLeave`, `NegativeNeverLeaves`).
- `BlockDeque` loses no wake-up until it is closed. After `Close` a woken consumer returns
  false without looking at the deque; if others still sleep and the items were just enough
  for the woken ones, an item is stranded. That is the only step that does it
  (`StepServesConsumers`, `StrandedAfterClose`).
- A `Shutdown` can end gracefully if and only if it finds the queue empty (`GracefulExact`),
  and when its predicate holds every submitted task has finished if and only if no other
  `Shutdown` has thrown tasks away (`GracefulMeansFinished`).
- The overflow guard of `makeSpace` is exact except for the greatest request
  (`Buffers.GuardIsExact`). `ReadFd` loses bytes exactly when a buffer with room for 1024 to
  4095 bytes gets more than fits even after moving, and cannot grow: the first read of every
  connection is one that can (`Buffers.FirstReadLoses`). While memory lasts nothing is lost
  (`ConnIo.Conn.Read`).
- `Conn::Process` without a file leaves the second block of the gathering write as it was
  (`ConnIo.Conn.SetUp`). That does no harm: the handlers call `Process` only when everything
  before has been written, and then nothing is left in that block (`Sessions.Session.Respond`).
- `Request::parse` never fails after the first line (`FailsOnRequestLineOnly`), leaves a body
  in the buffer (`Requests.RoundTrip`), and adds an empty Content-Type header to every POST
  with a body that has none (`Requests.ComesBack`).
- A connection answers each read, and not each request (`Serving.RunAnswers`). A request that
  fills one read is answered once if and only if the form decoder stays inside its body and
  it has no body or does not ask to be kept (`Sessions.OnceExact`); otherwise its body is
  answered as if it were a request (`PrintedRounds`). A head that comes in two reads is
  answered twice (`HeadInTwo`).
- A request that is refused has no path, so `MakeResponse` looks at the static directory
  itself and answers with 404; 400 is sent only if a readable file is found there
  (`Sessions.BadRequestReply`, `ReplyTexts.ErrorText`).
- The form decoder undoes the encoder if and only if nothing had to be escaped and the last
  value is not empty (`Forms.RoundTrip`): an escape keeps its `%`, and the two characters
  behind it become others. It writes past the end of the body if and only if an escape, which
  takes three characters, begins at one of the last two (`Forms.DefinedExact`,
  `PercentAtTheEnd`).
- A response is framed if and only if its mapping is no shorter than `stat` said
  (`Responses.MessageFrames`, `ShortMappingBreaksFrame`); the cache gives a shorter one if and
  only if the file has grown and kept its modification time (`FileCaches.ShortExact`,
  `ShortMapping`).
- `_totalMappedFiles` exceeds the number of mapped files by the number of reloads; a file
  that changes while it is held is unmapped under its holders (`FileCaches.RunKeeps`,
  `FileCaches.StepKeepsHeld`, `TornWhileHeld`).
- The callback of `extentTime` closes a connection only if it is closed already, so a
  connection that has once been extended is never closed by a timer
  (`ConnTable.ExtendedNeverTimesOut`).
- `closeConn` erases whatever is under the descriptor when it gets the lock. A worker closes
  another connection than it means if and only if the descriptor has been reused since it
  looked (`ConnTable.CloseEndsExact`, `ClosesAnother`).

## Model

| member | source | states |
|---|---|---|
| HeapTimer.FrontIsLeast | include/task/timer/heaptimer.h:25-27 | In an ordered heap no node is earlier than the front one |
| HeapTimer.SwapUp | src/task/timer/heaptimer.cpp:22-32 | One turn of siftUp moves the only faulty edge from a node to its parent |
| HeapTimer.SwapDown | src/task/timer/heaptimer.cpp:54-66 | One turn of siftDown, past the earlier child, moves the faulty edges down to that child and settles those above |
| HeapTimer.SwapRef | src/task/timer/heaptimer.cpp:41-43 | Exchanging two nodes and their two index entries keeps the index table an exact inverse and the abstract map unchanged |
| HeapTimer.Timer.SwapNode | src/task/timer/heaptimer.cpp:35-44 | Swaps two nodes in range, does nothing otherwise; the abstract map does not change |
| HeapTimer.Timer.SiftUp | src/task/timer/heaptimer.cpp:15-33 | From a heap wrong only above the start, restores order without changing the abstract map |
| HeapTimer.Timer.SiftDown | src/task/timer/heaptimer.cpp:46-68 | From a heap wrong only around the index, either restores order and reports a move, or changes nothing and leaves only the edge above in doubt |
| HeapTimer.Timer.Del | src/task/timer/heaptimer.cpp:132-156 | At any index, keeps order and the exact index table and acts on the abstract map as a removal of that id |
| HeapTimer.Timer.Add | src/task/timer/heaptimer.cpp:70-102 | Insert or update: keeps order and index table and acts on the abstract map as a put; the repair branch is dead |
| HeapTimer.Timer.Adjust | src/task/timer/heaptimer.cpp:158-164 | Acts as a put of the new deadline; keeps heap order if and only if that is no earlier than the parent's |
| HeapTimer.AdjustBreaksOrder | src/task/timer/heaptimer.cpp:158-164 | Two timers, the later adjusted to be the earlier: it stays behind the other |
| HeapTimer.Timer.Pop | src/task/timer/heaptimer.cpp:207-212 | Removes the front id from the abstract map, if there is one |
| HeapTimer.Timer.Clear | src/task/timer/heaptimer.cpp:214-217 | Leaves an empty map |
| TimerManagerSpec.CancelKeeps | include/task/timer/heaptimer.h:88-130 | Cancelling any key, at any time, keeps the account of every issued id |
| TimerManagerSpec.ArmKeeps | src/task/timer/heaptimer.cpp:296-377 | Arming a fresh id under a free key keeps the account of every issued id |
| TimerManagerSpec.CallKeeps | include/task/timer/heaptimer.h:138-144 | A node in the heap always finds its key in the table, so a firing always reaches the user function |
| TimerManagerSpec.FinishKeeps | src/task/timer/heaptimer.cpp:324-359 | The end of the closure, whatever the user function did meanwhile, books the call or clears the entries |
| TimerManagerSpec.FireKeeps | src/task/timer/heaptimer.cpp:319-366 | One firing with any script keeps the invariant and counts one call for that id and none for any other |
| TimerManagerSpec.RunKeeps | src/task/timer/heaptimer.cpp:233-377 | Every run keeps the invariant, and calls counted are firings in the run |
| TimerManagerSpec.OneNodePerKey | src/task/timer/heaptimer.cpp:308-309 | In every run each key owns at most one node and its entry names that node's id |
| TimerManagerSpec.FiringCount | src/task/timer/heaptimer.cpp:258-278 | In every run, for every repeat count: k calls and then no trace; one call for 0; still set for -1; one call and entries left behind below -1 |
| TimerManagerSpec.DroppedNeverFires | include/task/timer/heaptimer.h:137-146 | A dropped timer never fires again, whatever follows, and no table mentions it |
| TimerManagerSpec.CancelledNeverFires | include/task/timer/heaptimer.h:88-146 | After CancelByKey or ScheduleWithKey on a key, the timer it held never fires again in the run |
| TimerManagerSpec.FiresInOrder | src/task/timer/heaptimer.cpp:166-205 | One Tick fires in nondecreasing order of deadline when no period and no delay is below a millisecond |
| TimerManagerSpec.OrderNeedsOneMs | src/task/timer/heaptimer.cpp:166-205 | Every Tick of a reachable manager with periods and delays of at least ms fires in order if and only if ms >= 1 |
| TimerManagerSpec.NoDelayFiresOutOfOrder | src/task/timer/heaptimer.cpp:174-188 | For every delay of 0 or less, a Tick that fires out of order because the first callback schedules with it |
| TimerDeadlines.ApplyIssues | src/task/timer/heaptimer.cpp:296-377 | A scheduling operation issues the next id; its record has the ms, count and user of the operation, and its node is due ms milliseconds after its reading |
| TimerDeadlines.FinishSets | src/task/timer/heaptimer.cpp:324-359 | The end of a closure sets its own node, if it is set again, its period after the reading, and no other |
| TimerDeadlines.RunDeadlines | src/task/timer/heaptimer.cpp:233-377 | In every run each id stands for the operation that issued it, read off the steps alone, and its node is due exactly its period after it was last set |
| TimerDeadlines.NeverEarly | src/task/timer/heaptimer.cpp:166-205 | In every run a firing that Tick finds due comes more than ms - 1 milliseconds after the operation, or after the end of the firing before |
| TimerDeadlines.NeverForgotten | src/task/timer/heaptimer.cpp:172-188 | In every run a timer that Tick leaves set is still within ms - 1 milliseconds of when it was last set |
| TimerDeadlines.DropsOnlyItsKey | include/task/timer/heaptimer.h:88-146 | An operation drops the timer its key holds and no other; it leaves every other node, count and key as it was, and puts the new ones where they belong |
| TimerManager.WholeMs | src/task/timer/heaptimer.cpp:174-179 | duration_cast to milliseconds rounds towards zero, so it is positive exactly from one millisecond on |
| TimerManager.Manager.CancelByKey | include/task/timer/heaptimer.h:88-130 | Acts as the cancel step of the state machine and keeps the object valid |
| TimerManager.Manager.DoSchedule | src/task/timer/heaptimer.cpp:233-377 | Acts as the arm step, for a timer with a key or without |
| TimerManager.Manager.ScheduleWithKey | include/task/timer/heaptimer.h:133-146 | Cancels the key and arms the new timer under it |
| TimerManager.Manager.CallUser | include/task/timer/heaptimer.h:138-144 | The user function acts as some script of operations at nondecreasing readings |
| TimerManager.Manager.FinishCallback | src/task/timer/heaptimer.cpp:324-359 | Acts as the finish step at the clock reading of the new deadline |
| TimerManager.Manager.RunCallback | src/task/timer/heaptimer.cpp:319-366 | Running a popped closure is the fire step of the state machine |
| TimerManager.Manager.DoWork | src/task/timer/heaptimer.cpp:104-130 | Fires the timer of an id whether or not it is due; does nothing for an unknown id |
| TimerManager.Manager.Tick | src/task/timer/heaptimer.cpp:166-205 | Terminates; is a run of at most 100 firings, each of a least node under a millisecond away at its reading; with fewer, every remaining deadline is a millisecond away or more |
| TimerManager.Manager.GetNextTick | src/task/timer/heaptimer.cpp:219-231 | -1 exactly when nothing is set; otherwise the wait for the nearest timer, and never more than the whole milliseconds left to any |
| TimerManager.WaitExact | src/task/timer/heaptimer.cpp:223-228 | The wait ends in time if and only if the nearest timer is not overdue or the narrowing to int leaves the overdue count at or below 0; it ends within a millisecond of the deadline |
| TimerManager.LongOverdueWaits | src/task/timer/heaptimer.cpp:219-231 | A reachable manager and two readings of the clock, after which the wait is 2^31 - 1 milliseconds although a timer is overdue |
| MapTimerSpec.IntKey | src/task/timer/maptimer.cpp:233-259 | A 64-bit key passes through int unchanged exactly when it is below 2^31 or at least 2^64 - 2^31 |
| MapTimerSpec.InsertSorted | src/task/timer/maptimer.cpp:210-210 | Insertion keeps the multimap sorted by time |
| MapTimerSpec.CountInsert | src/task/timer/maptimer.cpp:81-81 | Insertion adds one node to its owner's count and changes no other |
| MapTimerSpec.CancelKeeps | src/task/timer/maptimer.cpp:400-418 | Cancelling a key keeps every account although its nodes stay queued |
| MapTimerSpec.ArmKeeps | src/task/timer/maptimer.cpp:253-274 | Arming a fresh id under a free key keeps every account |
| MapTimerSpec.CallKeeps | include/task/timer/maptimer.h:77-83 | A current node reaches its user function exactly when its key survives the passage through int |
| MapTimerSpec.FinishRequeueKeeps | src/task/timer/maptimer.cpp:290-332 | Closure and Update together, both of which re-insert, keep the account of the id that fired |
| MapTimerSpec.RequeueKeeps | src/task/timer/maptimer.cpp:27-42 | A node that is not current, or whose count is 0, changes no account when it fires |
| MapTimerSpec.CollectTakesAllDue | src/task/timer/maptimer.cpp:54-61 | Update takes, in order, every node due at its reading, up to 100 |
| MapTimerSpec.RunKeeps | src/task/timer/maptimer.cpp:44-93 | Every run of operations, collections and firings keeps the invariant |
| MapTimerSpec.CallsCounted | src/task/timer/maptimer.cpp:286-287 | The calls recorded for an id are the calling steps of the run |
| MapTimerSpec.RepeatCount | src/task/timer/maptimer.cpp:269-335 | Count k >= 1: calls and owed calls add up to k, a node is queued between Updates while some are owed, and no table mentions the id afterwards |
| MapTimerNodes.PlainCount | src/task/timer/maptimer.cpp:27-42 | A timer without a key: count k >= 1 gives k calls and then no node; 0 gives none; a negative count keeps its one node |
| MapTimerSpec.ZeroNeverCalls | src/task/timer/maptimer.cpp:27-30 | Count 0: the user function is never called and the key stays taken |
| MapTimerSpec.ForeverMultiplies | src/task/timer/maptimer.cpp:316-326 | Count -1: one node more than runs |
| MapTimerSpec.NegativeNeverLeaves | src/task/timer/maptimer.cpp:78-86 | A negative count never leaves the multimap, cancelled or not |
| MapTimerNodes.LeftoverFirings | src/task/timer/maptimer.cpp:78-86 | After a timer with count 0 or more is dropped, the firings of its nodes and those they have left add up to a constant |
| MapTimerNodes.LeftoversLeave | src/task/timer/maptimer.cpp:78-86 | A dropped timer has no node left if and only if its count was not negative and its nodes have fired as often as they had left |
| MapTimerSpec.DroppedNeverCalls | src/task/timer/maptimer.cpp:280-284 | Leftover nodes of a dropped id never call its user function |
| MapTimerSpec.CancelledNeverCalls | include/task/timer/maptimer.h:74-85 | After CancelByKey or ScheduleWithKey on a key, the timer it held is never called again in the run |
| MapTimerTimes.RunPlainTimes | src/task/timer/maptimer.cpp:190-215 | In every run the nodes of a timer without a key have the user of the operation that set it, and are due its period later for each call and one more |
| MapTimerTimes.PlainNeverEarly | src/task/timer/maptimer.cpp:27-86 | In every run the call of a timer without a key that comes after c others is made no less than c + 1 periods, of a millisecond at least, after the operation |
| MapTimerTimes.BatchIsDue | src/task/timer/maptimer.cpp:54-61 | In every run Update has taken only nodes that were due at its reading |
| MapTimerTimes.RunKeyedAll | src/task/timer/maptimer.cpp:233-335 | In every run each id stands for the operation that issued it, and none of its nodes is due before its period after that |
| MapTimerTimes.KeyedNeverEarly | src/task/timer/maptimer.cpp:44-93 | In every run a timer with a key is called for the user of its operation, no less than its period, of a millisecond at least, after it |
| MapTimerTimes.CancelsOnlyItsKey | src/task/timer/maptimer.cpp:395-418 | Cancelling drops the timer its key holds and no other, and leaves every node, and the other counts and keys |
| MapTimerTimes.SchedulesAndDrops | src/task/timer/maptimer.cpp:233-274 | Scheduling drops what its key holds, as given and as an int, and nothing else; without a key it drops nothing |
| MapTimer.Manager.CancelByKey | src/task/timer/maptimer.cpp:395-418 | Acts as the cancel step |
| MapTimer.Manager.DoSchedule | src/task/timer/maptimer.cpp:190-215 | Inserts one node without a key, at least a millisecond ahead |
| MapTimer.Manager.DoScheduleWithKey | src/task/timer/maptimer.cpp:233-274 | Cancels under the key as an int, then acts as the arm step |
| MapTimer.Manager.ScheduleWithKey | include/task/timer/maptimer.h:74-85 | Cancels under both forms of the key and arms |
| MapTimer.Manager.FinishClosure | src/task/timer/maptimer.cpp:290-335 | Acts as the finish step |
| MapTimer.Manager.RunKeyed | src/task/timer/maptimer.cpp:269-335 | The keyed closure, with any script of the user function, acts as the run step |
| MapTimer.Manager.RunPlain | src/task/timer/maptimer.cpp:27-42 | The closure of a timer without a key books one call and runs the script |
| MapTimer.Manager.FireOne | src/task/timer/maptimer.cpp:27-42 | OnTimer and the re-insertion act as the fire step |
| MapTimer.Manager.TakeDue | src/task/timer/maptimer.cpp:53-61 | The collecting loop acts as the collect step |
| MapTimer.Manager.Update | src/task/timer/maptimer.cpp:44-86 | One collection followed by one firing for each node it took |
| MapTimer.Manager.GetNextTick | src/task/timer/maptimer.cpp:217-231 | -1 exactly when nothing is queued; otherwise the wait for the first node, which is the earliest |
| MapTimer.WaitExact | src/task/timer/maptimer.cpp:223-226 | The wait is the time left, or 0 for an overdue node, if and only if the narrowing to int says the same |
| MapTimer.LongOverdueWaits | src/task/timer/maptimer.cpp:217-231 | A reachable manager and a reading at which the wait is 2^31 - 1 milliseconds although a node is overdue |
| BlockDeque.StepKeepsShape | include/utils/blockdeque.h:145-162 | No step takes the size over the capacity |
| BlockDeque.StepConserves | include/utils/blockdeque.h:145-196 | Pushed items are popped, queued or cleared; without push_front and Close they are popped in order |
| BlockDeque.StepServesProducers | include/utils/blockdeque.h:144-162 | While a producer sleeps, each free slot has a woken producer, outside the gap in Close |
| BlockDeque.StepServesConsumers | include/utils/blockdeque.h:183-196 | While a consumer sleeps, each item has a woken consumer; a step breaks that if and only if a woken consumer returns from a closed deque whose items were just enough |
| BlockDeque.RunKeeps | include/utils/blockdeque.h:87-196 | Every interleaving keeps the capacity, the items and the producers served, and until Close the consumers |
| BlockDeque.NobodyStranded | include/utils/blockdeque.h:145-196 | Before Close no item waits for sleepers only, no slot is free for sleepers only, and not everybody sleeps |
| BlockDeque.ServedUnlessAbandoned | include/utils/blockdeque.h:187-191 | Closed or not, consumers are served after a run in which no step abandoned a sleeper |
| BlockDeque.StrandedAfterClose | include/utils/blockdeque.h:183-191 | A run after Close that leaves an item and a consumer asleep with nobody to wake it |
| BlockDeque.GivenIsPushed | include/utils/blockdeque.h:144-162 | In every interleaving each item given to a push is among those pushed, or waits with its producer, as often as it was given |
| BlockDeque.ClosedIsAsked | include/utils/blockdeque.h:87-94 | In every interleaving the deque is closed if and only if Close was called |
| BlockDeque.StepMoves | include/utils/blockdeque.h:87-196 | push_front puts its item before the others and push_back behind them, if there is room; pop takes the first, if there is one; Close throws all away; nothing else moves an item |
| BlockDeque.FlushAndCloseWake | include/utils/blockdeque.h:87-100 | flush wakes one sleeping consumer, and Close everybody |
| ThreadPool.StepKeepsOrder | include/task/threadpool_1.h:27-55 | Tasks leave the queue in order of submission; none starts once the pool is closed |
| ThreadPool.StepKeepsJobs | include/task/threadpool_1.h:30-37 | Started tasks are the finished ones and those of the running workers, each once |
| ThreadPool.StepKeepsCounted | include/task/threadpool_1.h:33-37 | activeThreads is the number of workers in a task or just out of one |
| ThreadPool.StepKeepsAwake | include/task/threadpool_1.h:50-57 | While a worker waits in an open pool, each queued task has a worker about to look or a notification on its way |
| ThreadPool.TasksAccounted | include/task/threadpool_1.h:25-57 | In every interleaving the tasks given to AddTask = started + dropped + queued, in that order and each once; as many have been given as are queued, running, returned and dropped |
| ThreadPool.SubmittedIsGiven | include/task/threadpool_1.h:50-57 | In every interleaving what is submitted is the sequence of the tasks of the AddTask steps, and as many have finished as have returned |
| ThreadPool.TasksCanRun | include/task/threadpool_1.h:25-57 | From every state of an open pool, its workers and notifications alone can finish every task given so far |
| ThreadPool.DrainEmpties | include/task/threadpool_1.h:86-92 | Once a Shutdown has emptied the queue it stays empty until AddTask is called again: what was given has been started or is dropped |
| ThreadPool.ClosedNobodyWaits | include/task/threadpool_1.h:59-68 | In every interleaving no worker waits once the pool is closed |
| ThreadPool.ClosedWorkerLeaves | include/task/threadpool_1.h:27-30 | A worker that looks at a closed pool leaves its loop |
| ThreadPool.NoLostWakeUp | include/task/threadpool_1.h:27-57 | A task queued in an open pool has an awake worker or a pending notification |
| ThreadPool.GracefulMeansFinished | include/task/threadpool_1.h:70-84 | When the predicate of Shutdown holds, every task given to AddTask has finished if and only if none was dropped; those not dropped always have |
| ThreadPool.ClosedStartsNothing | include/task/threadpool_1.h:59-102 | Once closed nothing starts, and a queue with tasks only grows until it is thrown away |
| ThreadPool.WorkersFinish | include/task/threadpool_1.h:33-37 | From every state with an empty queue the workers alone can bring about the predicate of Shutdown |
| ThreadPool.GracefulExact | include/task/threadpool_1.h:59-84 | In a closed pool the predicate can come true without a queue being thrown away if and only if the queue is empty |
| Buffers.GuardIsExact | src/buffer/buffer.cpp:219-225 | The overflow guard admits exactly the requests whose new size does not wrap, except the greatest one |
| Buffers.Buffer.Compact | src/buffer/buffer.cpp:226-234 | The forward overlapping move brings the readable bytes to the front unchanged |
| Buffers.Buffer.MakeSpace | src/buffer/buffer.cpp:206-245 | Never changes the readable bytes; yields the room asked for, grows only if moving the bytes is not enough; says exactly when it overflows or has no memory |
| Buffers.Buffer.EnsureWritable | src/buffer/buffer.cpp:93-98 | Succeeds exactly when there is room, room can be made, or memory is left; changes nothing otherwise |
| Buffers.Buffer.Append | src/buffer/buffer.cpp:82-87 | Appends the bytes behind the readable ones exactly when the buffer can hold them, and changes nothing otherwise |
| Buffers.Buffer.HasWritten | include/buffer/buffer.h:90-93 | Makes the bytes already placed readable |
| Buffers.Buffer.Retrieve | src/buffer/buffer.cpp:42-46 | Takes the first bytes off the readable ones |
| Buffers.Buffer.RetrieveUntil | src/buffer/buffer.cpp:48-51 | Takes the bytes up to a position |
| Buffers.Buffer.RetrieveAll | src/buffer/buffer.cpp:54-60 | Takes everything |
| Buffers.Buffer.RetrieveAllToString | src/buffer/buffer.cpp:62-66 | Returns what was readable and takes it |
| Buffers.Buffer.Take | src/buffer/buffer.cpp:156-184 | Bytes scattered over the two blocks become readable in order; the truncating branch is dead |
| Buffers.Buffer.Prepare | src/buffer/buffer.cpp:122-140 | Below 1024 bytes of room makes more, and says exactly when it cannot |
| Buffers.Buffer.ReadPrepared | src/buffer/buffer.cpp:142-187 | Books what the two blocks have received, in order; what is in the overflow area is lost exactly when it cannot be appended |
| Buffers.LosesIsOverflow | src/buffer/buffer.cpp:121-184 | A read loses its overflow area exactly when there was room for 1024 to 4095 bytes, moving does not make enough, and memory is out |
| Buffers.Buffer.ReadFd | src/buffer/buffer.cpp:100-187 | Appends exactly the bytes taken from the stream, in order, or just the part that fitted; says exactly when, and how the positions and the size stand afterwards |
| Buffers.FirstReadLoses | src/buffer/buffer.cpp:100-187 | Without memory the first read of a connection loses everything past 1024 bytes |
| Buffers.Buffer.WriteFd | src/buffer/buffer.cpp:189-204 | Every byte is sent or still readable, in order |
| ConnIo.KeptIsAll | src/http/conn.cpp:122-156 | What several reads keep is all they took if and only if none of them lost its overflow area, as the start, the results and the allocator decide |
| ConnIo.NothingLost | src/http/conn.cpp:122-156 | While memory lasts, eight reads into a buffer of 2^32 bytes at most lose nothing |
| ConnIo.Conn.Read | src/http/conn.cpp:122-156 | Appends what each read keeps, in order, each read starting from how the one before has left the buffer; loses something exactly when one of them does, and nothing while memory lasts; says when it stops and what it returns |
| ConnIo.Conn.ReadOnce | src/http/conn.cpp:129-129 | One read, from how the buffer stands, adds its bytes to those taken and what it keeps to the buffer |
| ConnIo.Conn.SetUp | src/http/conn.cpp:244-264 | The two blocks cover the response if and only if it has a file or nothing was left in the second block; always after everything has been written |
| ConnIo.Conn.AdvanceFirst | src/http/conn.cpp:199-205 | Stepping over part of the header |
| ConnIo.Conn.AdvanceSecond | src/http/conn.cpp:189-198 | Stepping over the header and part of the file |
| ConnIo.Conn.Write | src/http/conn.cpp:158-218 | Whatever the kernel does, bytes accepted so far followed by bytes still covered are the response; when none is left it went out once, whole and in order; says exactly when it writes once, twice or not at all, and what it returns |
| Requests.RequestLineExact | src/http/request.cpp:88-101 | A line matches in one way, exactly when it has the form of a request line |
| Requests.HeaderExact | src/http/request.cpp:102-109 | A line matches exactly when it has a colon; the name ends at the first one and one space is dropped |
| Requests.FindCrlf | src/http/request.cpp:43-44 | The first CR LF, or the end |
| Requests.Request.ParseLine | src/http/request.cpp:47-65 | One line moves the fields as the line function says |
| Requests.Request.ParsePost | src/http/request.cpp:126-143 | Adds a missing Content-Type, decodes a form in place, and lets the database choose the path of a login or registration |
| Requests.Request.Parse | src/http/request.cpp:37-73 | Terminates, stays before the write position, and leaves fields and buffer as the text function says |
| Requests.HeaderLines | src/http/request.cpp:54-64 | Printed headers are collected one by one; the empty line ends them and the body follows |
| Requests.RoundTrip | src/http/request.cpp:37-143 | Parsing undoes printing, up to what parsePost makes of a body; the body stays in the buffer |
| Requests.ComesBack | src/http/request.cpp:111-143 | All fields come back as printed if and only if there is no body, or the method is not POST, or another Content-Type was printed, or no character of the form is rewritten or stored and it is not a login or registration |
| Requests.FormArrives | src/http/request.cpp:126-143 | A printed form POST ends with its pairs in _post, an empty name and password added on login; its path is the welcome page if and only if name and password are not empty and the database agrees, and else the error page |
| Requests.ServedPathExact | src/http/request.cpp:75-86 | The index for "/", a page for each of six names, and any other target as it is |
| Requests.CollectDistinct | src/http/request.cpp:104-105 | With distinct names each header is found under its name and nothing else is |
| Requests.FailsOnRequestLineOnly | src/http/request.cpp:48-52 | parse fails if and only if the first line is not a request line, and then changes nothing |
| Forms.Form.ParseFromUrlencoded | src/http/request.cpp:145-184 | The in-place scan, escapes included, leaves the decoded pairs and the rewritten body; stays inside the body if and only if no escape begins at one of its last two characters |
| Forms.DefinedExact | src/http/request.cpp:163-168 | Scan and rewriting are undefined if and only if an escape begins at one of the last two characters |
| Forms.PercentAtTheEnd | src/http/request.cpp:163-168 | Bodies that do and do not run over: one percent sign at the end does, three do not |
| Forms.RestoreAt | src/http/request.cpp:152-183 | The rewritten body, character by character: outside escapes a plus sign becomes a space and all else stays; an escape keeps its percent sign |
| Forms.UnescapedIs | src/http/request.cpp:163-168 | The two characters of an escape become its value divided by ten and the remainder, both counted from the digit 0 |
| Forms.EscapeSamples | src/http/request.cpp:118-168 | What four escapes become: upper and lower case letters count as 10 to 15, and digits as their character codes |
| Forms.StaysExact | src/http/request.cpp:145-184 | A body decodes to nothing and stays as it is if and only if it has no plus sign and no ampersand outside escapes, every escape reads as itself, and nothing stands behind the last equals sign |
| Forms.GarbledIsLonger | src/http/request.cpp:118-168 | An encoded word comes back as it was if nothing was escaped, and longer otherwise |
| Forms.ScanPairs | src/http/request.cpp:152-183 | Every encoded pair is stored as its escapes come out, the last one only if its value is not empty and its key is new |
| Forms.RoundTrip | src/http/request.cpp:145-184 | Decoding undoes encoding, for distinct keys and any text, if and only if nothing had to be escaped and the last value is not empty |
| Forms.PutAllFinds | src/http/request.cpp:172-182 | With distinct keys each value is found under its key |
| Responses.DecimalRoundTrip | src/http/response.cpp:140-141 | The decimal of a length reads back as that length |
| Responses.LastDot | src/http/response.cpp:176-179 | find_last_of: the last dot, or none |
| Responses.HeadFrames | src/http/response.cpp:95-146 | A reader finds the end of the head at the first empty line, and the one Content-length field has the number printed |
| Responses.MessageFrames | src/http/response.cpp:66-146 | The whole reply reads back as one head and one body, which the Content-length field counts if and only if the mapping is no shorter than stat said |
| Responses.ShortMappingBreaksFrame | src/http/response.cpp:118-146 | A file mapped at 5 bytes and grown to 9: its reply is not framed |
| Responses.FitsWithout | src/http/response.cpp:66-146 | What fits after moving is appended whatever the allocator answers, and without memory nothing else |
| Responses.FitsWith | src/http/response.cpp:66-146 | With memory everything is appended that can be addressed |
| ReplyTexts.MessageText | src/http/response.cpp:66-146 | The text of any reply: status line, connection lines, type, length, empty line, body |
| ReplyTexts.StatusLines | src/http/response.cpp:95-104 | The four status lines |
| ReplyTexts.FileTypeOf | src/http/response.cpp:174-185 | The type of a path is that of the suffix behind its last dot |
| ReplyTexts.OtherTypes | src/http/response.cpp:174-185 | A suffix that is not one of the nineteen known is plain text |
| ReplyTexts.ErrorPages | src/http/response.cpp:88-93 | Error pages are html |
| ReplyTexts.PageText | src/http/response.cpp:66-146 | A readable file of n bytes, n > 0, asked for with 200: "HTTP/1.1 200 OK", the connection lines, the type of its path, and exactly the first n bytes of its mapping |
| ReplyTexts.ErrorText | src/http/response.cpp:66-93 | A missing file or a directory gives 404, an unreadable one 403, a bad request 400, each with its own page, byte by byte |
| ReplyTexts.NoFileText | src/http/response.cpp:118-146 | An empty file has an empty body; one that cannot be mapped gives the generated page |
| Responses.Response.ErrorHtml | src/http/response.cpp:88-93 | An error code with a page turns path and stat to that page |
| Responses.Response.AddStateLine | src/http/response.cpp:95-104 | Appends the status line exactly if the buffer can hold it; an unknown code becomes 400 |
| Responses.Response.AddHeader | src/http/response.cpp:106-115 | Appends the connection and type lines exactly if the buffer can hold them |
| Responses.Response.AddContent | src/http/response.cpp:118-146 | Ends the head with the length of the body, which is empty, the mapped file, or the generated page, exactly if the buffer can hold it |
| Responses.Response.ErrorContent | src/http/response.cpp:187-203 | Ends the head with the length of the generated page and appends it, exactly if the buffer can hold them |
| Responses.Response.MakeResponse | src/http/response.cpp:66-82 | Succeeds exactly when every append of the reply to the request can be held; then the reply is in the buffer and its mapping in file |
| Serving.RunKeeps | src/core/server.cpp:673-783 | In every run what has been sent is whole replies, each to a request taken from the stream where the one before stopped, and a first part of the last |
| Serving.RunAnswers | src/core/server.cpp:673-783 | In every run of an open connection, the texts answered and those left are what each read, for itself, comes to |
| Serving.InCloses | src/core/server.cpp:673-742 | A read closes the connection if and only if it ends or fails, epoll refuses, or what is there cannot be answered; else the reply stands ready, or it waits |
| Serving.OutCloses | src/core/server.cpp:745-783 | A write closes it if and only if it fails other than by blocking with something left, or the reply is out and it is not kept, epoll refuses or what is there cannot be answered; else it goes on |
| Serving.WritesReply | src/core/server.cpp:745-783 | While a reply goes out, what has been sent and what is left of it come to the same |
| Serving.ReplyGoesOut | src/core/server.cpp:745-783 | In every run a reply that stands ready goes out from its first byte to its last, however many writes that takes, unless the connection is closed on the way; then, if kept, it waits for more |
| Sessions.AnswerIs | src/http/conn.cpp:220-265 | What the server answers to a text: parsed, and replied to, with 400 if it is refused |
| Sessions.ServerIsSteady | src/http/request.cpp:29-73 | What is left of a text, and whether the connection is kept, does not depend on the database; it is kept only if something was taken |
| Sessions.RunFramed | src/core/server.cpp:673-783 | In every run all replies are framed, if no mapping is shorter than stat said |
| Sessions.PrintedRounds | src/core/server.cpp:712-783 | A printed request that arrives alone is answered once; not at all if the decoder runs past its form; twice if it has a body and the connection is kept |
| Sessions.OnceExact | src/core/server.cpp:712-783 | It is answered once if and only if the decoder stays inside its form and it has no body or does not ask to be kept |
| Sessions.RequestsAnswered | src/core/server.cpp:673-783 | In every run of an open connection whose reads bring such requests, one each, these are answered, in order, once |
| Sessions.RequestIsAnswered | src/core/server.cpp:673-742 | A waiting connection that reads a printed request, with memory and epoll willing, is armed for output with the reply to that request ready |
| Sessions.ReplyIsSent | src/core/server.cpp:745-783 | A write that accepts all of a reply sends it; then the connection waits for more if it is kept, and is closed if not |
| Sessions.PrintedReply | src/http/conn.cpp:220-265 | The reply to a printed request without a body for a file that is there, byte by byte |
| Sessions.PageIsServed | src/core/server.cpp:673-783 | In every run, from the read of such a request on, what the peer gets is that page from its first byte on, and all of it once as many bytes have gone out; a kept connection then waits for more |
| Sessions.BadRequestReply | src/http/conn.cpp:229-237 | A text that is no request is answered with 404 and its page, not 400, when there is no file at the static directory or it is a directory |
| Sessions.HeadInTwo | src/http/request.cpp:37-73 | A head without its empty line is answered as a whole request, and the empty line as a bad one |
| Sessions.Session.TakeRequest | src/http/conn.cpp:226-228 | Parses one request off the read buffer |
| Sessions.Session.Build | src/http/conn.cpp:229-243 | Puts the head of the reply to the text into the write buffer exactly if it can hold it |
| Sessions.Session.Respond | src/http/conn.cpp:229-264 | With everything before written, succeeds exactly when the write buffer can hold the head, and then the blocks cover the reply to the text |
| Sessions.Session.Process | src/http/conn.cpp:220-265 | Succeeds exactly when the request is defined and the reply can be held; then the request is logged and its reply set up |
| Sessions.Session.OnProcess | src/core/server.cpp:712-742 | Acts as the processing step: waits for input if there is none, writes exactly if a reply was set up and epoll takes the registration, closes otherwise |
| Sessions.Session.OnRead | src/core/server.cpp:673-709 | Acts as the reading step; closes on end, error, refusal of epoll, or if what is there cannot be answered, and in no other case; else the reply to what is there stands ready |
| Sessions.Session.OnWrite | src/core/server.cpp:745-783 | Acts as the writing step; closes if a write fails with something left, or, with the reply out, if it is not kept, epoll refuses or what is there cannot be answered, and in no other case; sends exactly what the kernel accepts |
| Sessions.Session.Serve | src/core/server.cpp:673-783 | Any events of a connection are a run of the state machine |
| FileCaches.StepKeepsMapped | src/http/file_cache.cpp:21-131 | After every step the existing mappings are exactly those in the table, one for a path; the counter exceeds the table by the reloads |
| FileCaches.StepKeepsHeld | src/http/file_cache.cpp:43-62 | Counts equal holders and nothing held is unmapped after a step if and only if the step does not reload a file that is held |
| FileCaches.CleanupHeld | src/http/file_cache.cpp:95-131 | Cleanup leaves what is held alone |
| FileCaches.ReleaseHeld | src/http/file_cache.cpp:76-93 | Release gives back exactly the reference of its holder |
| FileCaches.RunKeeps | src/http/file_cache.cpp:21-131 | Both facts over every interleaving |
| FileCaches.HeldIsMapped | src/http/response.cpp:148-172 | In every interleaving in which files do not change while held, what a response holds is mapped and counted |
| FileCaches.TornWhileHeld | src/http/file_cache.cpp:43-93 | A run in which a file changes while held: the holder loses its mapping, and its release takes the reference of another |
| FileCaches.ShortExact | src/http/file_cache.cpp:24-73 | A look gets a mapping shorter than stat said if and only if the table has the path with the same modification time and less of it |
| FileCaches.ShortMapping | src/http/file_cache.cpp:24-73 | A run in which a response gets 5 bytes of a file of 9 |
| FileCaches.LookExact | src/http/file_cache.cpp:21-73 | A look gets the entry of its path with the modification time it asked for, exactly if that is in the table or, at the second look, the file loads; its count goes up by one and every other entry stays |
| FileCaches.ReleaseExact | src/http/file_cache.cpp:76-93 | A release takes one reference off the entry of its path, and changes nothing else |
| FileCaches.CleanupExact | src/http/file_cache.cpp:95-131 | Cleanup unmaps exactly the entries without references whose last look is more than the given number of whole seconds ago |
| FileCaches.FileCache.GetShared | src/http/file_cache.cpp:24-40 | The look under the shared lock is the first step |
| FileCaches.FileCache.GetExclusive | src/http/file_cache.cpp:42-73 | The second look and the load under the exclusive lock are the second step |
| FileCaches.FileCache.ReleaseFileMapping | src/http/file_cache.cpp:76-93 | Acts as the release step |
| FileCaches.FileCache.CleanupCache | src/http/file_cache.cpp:95-131 | The erasing loop removes exactly the idle entries |
| ConnTable.AcceptKeeps | src/core/server.cpp:366-476 | A connection is entered exactly when the server is not full, the table has no entry for the descriptor, and the kernel plays along; the invariant is kept |
| ConnTable.StepKeeps | src/core/server.cpp:225-286 | Every handler and every half of a worker's close keeps ids nonzero, distinct and equal to their Conn's, and the user count exact |
| ConnTable.RunKeeps | src/core/server.cpp:503-511 | In every interleaving the user count is the number of connections, between 0 and MAX_FD |
| ConnTable.StepIssues | src/core/server.cpp:377-378 | A connection in the table is an old one or has the next id |
| ConnTable.NeverReissued | src/core/server.cpp:377-413 | In every run an id that has left the table never comes back |
| ConnTable.TimerClosesOnlyItsOwn | src/core/server.cpp:432-453 | A timer closes a connection if and only if addClient armed it for that connection, and no other, even after the descriptor is reused |
| ConnTable.CloseEndsExact | src/core/server.cpp:225-286 | A worker that ends a close erases what is under the descriptor by then; it spares every connection but its own if and only if the descriptor was not reused |
| ConnTable.ClosesAnother | src/core/server.cpp:225-286 | A run in which a worker closes another connection than the one it means |
| ConnTable.ExtendedNeverTimesOut | src/core/server.cpp:603-653 | In every run a connection once extended is never closed by a timer |
| ConnTable.ClosesExactly | src/core/server.cpp:225-286 | Closing a connection takes its entry, its descriptor and one off the count, and leaves every other as it was |
| ConnTable.AcceptExact | src/core/server.cpp:366-476 | A new connection gets its descriptor, the next id and, with a time limit, its timer; a refused one is closed |
| ConnTable.ReadyExact | src/core/server.cpp:157-188 | An event puts off the timer of the connection and no other; without a connection it only closes the descriptor |
| ConnTable.IdleTimesOut | src/core/server.cpp:432-453 | In every run the timer of a connection that nothing has touched since it was accepted closes it |
| ConnTable.Server.AddClient | src/core/server.cpp:366-476 | Acts as the entering step, with all its failure branches |
| ConnTable.Server.DealListen | src/core/server.cpp:517-533 | accept, the check for room, and addClient |
| ConnTable.Server.CloseClient | src/core/server.cpp:225-286 | Erases the entry of the client's descriptor with its Conn |
| ConnTable.Server.BeginClose | src/core/server.cpp:233-235 | The first half of closeConn in a worker: take the Conn |
| ConnTable.Server.EndClose | src/core/server.cpp:266-285 | The second half: erase the entry of its descriptor under the lock |
| ConnTable.Server.ExtentTime | src/core/server.cpp:603-653 | Replaces the timer of the descriptor by the refreshed one |
| ConnTable.Server.OnTimer | src/core/server.cpp:632-652 | Either callback acts as the timer step, default entry included |
| ConnTable.Server.CheckFdAndMatchId | src/core/server.cpp:868-893 | True exactly for the Conn that the table has under its descriptor |

## Left out

- Requests.Request.ParsePost: the database is a function of name, password and kind; what userVerify asks and inserts is not modelled.
- Forms.Form.ParseFromUrlencoded: where an escape begins in the last two places the source writes past the body, which is undefined; the model stops there.
- Sessions.Session.Serve: `writev` past the end of a mapping that is shorter than `stat` said is excluded; one connection is served by one handler at a time, as its one-shot registration demands.
- ConnTable.StepKeeps: a Conn that is destroyed while a worker still has its address is not modelled; reading it is undefined.
- FileCaches.FileCache.ReleaseFileMapping: the compare-and-swap succeeds at once, as it must eventually under the exclusive lock; spurious failures are not modelled.
- BlockDeque.RunKeeps: the timed `pop`, `clear` and the accessors are outside the wake-up protocol.
- ThreadPool.WorkersFinish: that the workers can finish; whether the scheduler and the tasks let them within the time limit is not modelled.
- Ids and connection numbers are unbounded; the source's wrap after 2^31 timers and 2^64 connections.
- Callbacks and user functions that throw; the catch blocks only log.
- Callbacks that run the manager's own `Tick` or `Update`.
- `CleanupCancelledTimers`, which copies the multimap and then keeps the old one, and the dummy timer that `Stop` inserts.
- `Timer` nodes of the multimap are values, as the source copies them; `Conn` objects in the connection table and `CachedFile` objects are values with a handle for their address.
- Memory order of the atomics in `Buffer`; each is used by one thread at a time here.
- Logging, configuration, MySQL, epoll and socket options, the older thread pool, moves of `Conn` and `Response`, `closeConnAsync`.
