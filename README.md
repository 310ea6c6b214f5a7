# CPU scheduling simulator, modelled in Dafny

This project models the four scheduling simulations of `simulator.py`:

- first-come-first-served (`FCFS_scheduling`);
- round robin with a fixed quantum and a FIFO `deque` (`RR_scheduling`);
- preemptive shortest-remaining-time-first over a priority queue (`SRTF_scheduling`);
- non-preemptive shortest-predicted-job-first, with one FIFO per process id and a burst prediction per id that is smoothed exponentially after every job (`SJF_scheduling`).

Each scheduler is an imperative method with the same loop structure as the source:

- an integer clock `currentTime`;
- the admission cursor `i`;
- the ready population;
- the count of unfinished processes `remaining`;
- the schedule of `Dispatch(time, id)` entries;
- the waiting-time total.

Each scheduler returns the schedule, the integer waiting total and the average, which is the total divided by the number of processes.

Beside the real results, every method also returns a ghost trace `runs`. Each `Run(pos, start, len)` in it explains one schedule entry: the list position that ran, from which tick, and for how long. The contracts are stated over this trace, and the shared notions live in module `Trace`:

- `ValidTrace`: no run starts before its process arrives, and runs never overlap.
- `Complete`: every process receives exactly its burst.
- `TotalWait`: the sum over processes of completion - arrival - burst.
- `Eager`: every run starts when the CPU is free and its process has arrived, whichever is later.
- `Announces`: schedule entry j names the process of run j at the tick it starts.

Each policy's rule is a predicate over the trace, stated run by run against the runs before it:

- `FcfsRun` for FCFS: list order, each run for the whole burst.
- Round robin has two predicates:
  - `QuantumRule` fixes how long each run lasts: min(quantum, owed), which is positive.
  - `RrStep` fixes which process runs: run j takes the head of the queue it was dispatched from, recorded in a ghost sequence `lines` of `Line(queue, admitted)` values. That queue is `Admission` (a quantum of look-ahead, and the jump to the next arrival when nothing is queued) applied to what the runs before left. After each run the head leaves, and it goes back to the tail when it still owes time (`Leave`, `Left`).
  - `RrUnique` shows the two predicates together with eager starts leave no choice: two complete traces that obey them are equal.
- `SrtfStep` for SRTF: the run owes least among the admitted positions that still owe time, and it lasts min(owed, ticks to the next arrival). `Admits` fixes admission: one position per round, and only when it arrives at exactly that tick.
- `SjfStep` for SJF: the least prediction among ids with a queued job, the earliest queued job of that id, and the whole burst.

Round robin, SRTF and SJF are also work-conserving (`Trace.NoIdle`). Every run starts at the later of two ticks: when the CPU became free, and the arrival of the first position that still owes time. So the CPU never idles while an arrived process owes time (`NoIdleBusy`). For round robin this rests on an extra loop invariant, `Rr.Busy`: an entry queued ahead of one listed before it has already arrived when the CPU becomes free, and the last admitted position arrives within a quantum of that tick.

The source's mutable `Process.remaining_time` becomes a sequence `rem` indexed by list position. It is local to each scheduler run and is reset to the burst on admission, as the source does. Module `Ledger` holds the bookkeeping of round robin and SRTF: what each position still owes, which positions are queued, and which are done. Module `IdQueues` holds the SJF bookkeeping.

SRTF reproduces a quirk of the source. Two processes that arrive at the same tick are admitted in two loop rounds. In between, the queued entry with the least remaining time gets a dispatch of length 0, which is still recorded in the schedule. That entry is not necessarily the process admitted first. `SrtfStep` allows a zero-length run exactly when the next position arrives at the run's start.

The whole project verifies with

    dafny verify --resource-limit 2000000 --verification-time-limit 0 --warn-contradictory-assumptions fcfs.dfy ledger.dfy processes.dfy queues.dfy rr.dfy sjf.dfy srtf.dfy trace.dfy

## Model

| member | source | states |
|---|---|---|
| Fcfs.FcfsScheduling | simulator.py:41-53 | One schedule entry per process, in list order. Each run lasts the whole burst and starts at the later of the previous run's end and the arrival; the first starts at its arrival. The trace is valid and complete. The waiting total equals the sum of completion - arrival - burst and is >= 0. The average is total / n and is >= 0. |
| Fcfs.ShapedAppend | simulator.py:47-51 | Appending the next position's run, started at max(previous end, arrival), keeps the trace in FCFS shape. |
| Fcfs.ShapedPrefix | simulator.py:46 | Dropping the last run of a non-empty FCFS-shaped trace leaves an FCFS-shaped trace. |
| Fcfs.ShapedValid | simulator.py:46-51 | An FCFS-shaped trace never starts a run before its arrival and never overlaps runs. |
| Fcfs.ShapedWorkFinish | simulator.py:49-51 | In an FCFS trace each position ran exactly once, for its burst, and completes at the end of that run. |
| Fcfs.ShapedWaits | simulator.py:50 | FCFS's running sum of start - arrival equals the sum of completion - arrival - burst. |
| Processes.Arrived | simulator.py:68 | Every position from i up to the result arrives by the limit, and the one at the result, if any, arrives later. |
| Rr.Admit | simulator.py:68-71 | The cursor moves to `Arrived(i, clock + quantum)`: exactly the not-yet-admitted positions arriving by clock + quantum join the back of the queue, in list order, with their remaining time reset to the burst. Nothing else changes, and the books stay kept. |
| Rr.QuantumAppend | simulator.py:82 | A run lasting min(quantum, owed) > 0 extends a trace that obeys the quantum rule. |
| Rr.QuantumBounds | simulator.py:82 | Under the quantum rule every run lasts more than 0 and at most the quantum. |
| Rr.QuantumSteps | simulator.py:82 | Run by run: run j is of a listed position and lasts min(quantum, what it owed before run j), which is positive. |
| Rr.RrAppend | simulator.py:73-92 | Dispatching the head of the queue the next admission yields keeps the FIFO order. What is left is that queue less its head, with the head back at the tail when it still owes time. |
| Rr.HeadOrder | simulator.py:75-92 | The queue the dispatch leaves (rest of the queue, head re-appended when still owing) is exactly what the FIFO order says the runs leave. |
| Rr.AdmitLine | simulator.py:68-71 | The admission the loop performs at the clock equals `Admission` at the moment the CPU became free, including after a jump to the next arrival. |
| Rr.SameStep | simulator.py:66-95 | After a common prefix, two traces obeying the FIFO order, the quantum rule and eager starts take the same next run from the same queue. |
| Rr.RrPrefix | simulator.py:66-95 | Two traces obeying the FIFO order, the quantum rule and eager starts agree on their first n runs and queues. |
| Rr.NoLonger | simulator.py:66 | No trace obeying the rules goes on past a complete one. |
| Rr.RrUnique | simulator.py:58-98 | Round robin leaves no choice: two complete traces obeying the FIFO order, the quantum rule and eager starts are equal, with equal queues. |
| Rr.HeadKeeps | simulator.py:75-92 | The dispatch of the head for min(owed, quantum) from max(CPU free, arrival) keeps the loop invariant, and the outstanding work strictly decreases. |
| Rr.HeadBooks | simulator.py:82-92 | The head owed its remaining time, more than 0, and runs for min(quantum, owed). The books and the remaining count are kept, the waiting total grows by completion - arrival - burst exactly when the head finishes, and the outstanding work drops. |
| Rr.HeadTrace | simulator.py:75-92 | Dispatching the head of the admitted queue from max(CPU free, arrival) for min(quantum, owed) keeps the schedule announcing the trace, the FIFO order, the quantum rule and eager starts, and leaves the CPU free at the run's end. |
| Rr.AdmitBusy | simulator.py:68-71 | After admission with a quantum of look-ahead, every queued position has been admitted and arrives within a quantum of the clock, and an entry queued ahead of one listed before it has arrived by the time the CPU became free. |
| Rr.HeadBusy | simulator.py:75-92 | Dispatching the head of such a queue keeps `Busy`: the trace stays work-conserving, and the arrival-order and look-ahead facts carry over to the queue left behind. |
| Rr.RoundBusy | simulator.py:66-95 | One loop round, whether it dispatches or jumps the clock to the next arrival, keeps `Busy`. |
| Rr.RunHead | simulator.py:73-92 | Pops head p, which still owes time, and starts it at max(clock, arrival). It records the entry `(start, id)` and runs p for min(owed, quantum). p goes back to the tail exactly when it still owes time; otherwise one fewer process remains and completion - arrival - burst is added. The trace grows by exactly that run, `lines` by the queue it came from, and p's remaining time drops by exactly min(remaining, quantum). The FIFO order and the invariant are kept, and the outstanding work strictly decreases. |
| Rr.Round | simulator.py:66-95 | The cursor moves to `Arrived(i, clock + quantum)`. If the queue plus the newly admitted positions is non-empty, its head p runs as in `RunHead` and the new state is stated exactly: trace, queue, schedule, clock, waiting total and remaining count. Otherwise the clock jumps to exactly the arrival of position i and nothing else changes. Work done, admission or a clock move towards the next arrival makes progress. |
| Rr.RrScheduling | simulator.py:58-98 | The schedule announces the trace. Every run lasts min(quantum, owed), 1..quantum ticks. Run j takes the head of the FIFO queue that admission with a quantum of look-ahead yields from what the runs before left (`RrStep`, all j). The trace is valid, complete and eager. It is work-conserving: run j starts at max(CPU free, arrival of the first position still owing). The waiting total is the sum of completion - arrival - burst, and it and the average are >= 0. |
| Ledger.AdmitKeepsBooks | simulator.py:68-71 | Admitting positions i..i'-1, each owing its burst, keeps the books: the queue is distinct, admitted and owing, and each position's work equals burst - remaining. |
| Ledger.Drop | simulator.py:75 | Taking out the entry at index m leaves the other entries in order. |
| Ledger.Requeue | simulator.py:86-92 | Dropping the run entry, and re-appending it while it still owes time, keeps the queue distinct and made of admitted positions that owe time. |
| Ledger.RunKeepsBooks | simulator.py:82-92 | A run of a queued entry for at most what it owes keeps the books. The entry leaves the queue, and goes back to the end or into `done`. What it owed was its burst minus its work so far. |
| Ledger.BooksPending | simulator.py:84 | While the books hold, no position received more than its burst, so the outstanding work is >= 0. |
| Ledger.BooksClosed | simulator.py:66 | Once everything is admitted and the queue is empty, every position is done and received its whole burst. |
| Ledger.BooksStart | simulator.py:59-64 | Before any admission the books hold with an empty queue and an empty trace. |
| Ledger.IdleOwing | simulator.py:137-139 | With an empty queue, the first position still owing time is the next unadmitted one. |
| Srtf.ExtractMin | simulator.py:119 | Returns an index whose remaining time is least in the ready population. |
| Srtf.AdmitArrived | simulator.py:112-115 | The cursor becomes `Admits(i, clock)`. Position i joins the queue owing its burst exactly when it arrives at the current tick; at most one position joins, and otherwise nothing changes. The books stay kept. |
| Srtf.ShortestPicks | simulator.py:119-125 | The entry taken is admitted, unfinished and arrived, and starts eagerly. Its slice is >= 0, and it is > 0 unless the next position arrives at this very tick. |
| Srtf.SliceStep | simulator.py:122-125 | A dispatch of a least-owing admitted position, for min(owed, ticks to the next arrival), or for all it owes when none is left, follows the SRTF rule. |
| Srtf.BooksShortest | simulator.py:114-119 | The least remaining time in the queue is least among all admitted positions that still owe time. |
| Srtf.ShortestBooks | simulator.py:126-135 | After the dispatch the books and the SRTF rule both hold for the extended trace. |
| Srtf.SrtfStepShortest | simulator.py:119 | Under the SRTF rule the position run owes no more than any admitted position that still owes time. |
| Srtf.SrtfRuleAll | simulator.py:117-135 | Every run of the trace follows the SRTF rule after the runs before it, and lasts no negative time. |
| Srtf.Admits | simulator.py:112-115 | The cursor advances by one exactly when position c arrives at tick t, and otherwise stays. |
| Srtf.AdmitsAll | simulator.py:112-115 | Run by run: the dispatch of run j was preceded by admission of only the position arriving at its start. |
| Srtf.ShortestKeeps | simulator.py:117-135 | The dispatch of a least-remaining queued entry for its slice keeps the loop invariant, with work conservation. The outstanding work does not grow, and it strictly drops unless the next position arrives at this very tick. |
| Srtf.DispatchKeeps | simulator.py:117-135 | The new state `RunShortest` states keeps the loop invariant. The outstanding work does not grow, and it shrinks unless a position arrives at this very tick. |
| Srtf.RunShortest | simulator.py:117-135 | Takes a queued entry p whose remaining time is least and which still owes time, and records `(clock, id)`. It runs p for `Slice`: min(owed, ticks to the next arrival), or all it owes when none is left. The clock advances by exactly that length. p is retired, adding completion - arrival - burst, exactly when the slice covers what it owed; otherwise it is put back with its new remaining time. The new state is stated exactly. |
| Srtf.Round | simulator.py:110-139 | The cursor moves to `Admits(i, clock)`. When an admitted position still owes time, one run of some such p at the clock for its slice is appended, and the clock, schedule, remaining count and waiting total change accordingly. Otherwise the clock jumps to exactly the arrival of position i and nothing else changes. The invariant is kept. Work, admission or a clock move towards the next arrival makes progress. |
| Srtf.SrtfScheduling | simulator.py:101-142 | The schedule announces the trace. Every run follows the SRTF rule. Run j was preceded by admission of only the position arriving at its start (`Admits`, all j). The trace is valid, complete and eager. It is work-conserving: run j starts at max(CPU free, arrival of the first position still owing). The waiting total is the sum of completion - arrival - burst, and it and the average are >= 0. |
| IdQueues.QueuesStart | simulator.py:149-152 | No queues and no runs satisfy the SJF books. |
| IdQueues.AdmitOne | simulator.py:163-168 | Appending position i to its id's FIFO, created when missing, keeps the books and the lower bound on queued positions. |
| IdQueues.PopRun | simulator.py:181-188 | Running a FIFO head for its burst keeps the books. The head was admitted and had not run, and every earlier position with its id had already run. |
| IdQueues.QueuesClosed | simulator.py:154 | When as many positions are done as there are processes, every process received its whole burst. |
| IdQueues.QueuesIdle | simulator.py:194-196 | With every queue empty and a process unfinished, an unadmitted position exists, so `process_list[i]` is in range. |
| IdQueues.IdleOwing | simulator.py:194-196 | With every FIFO empty, the first position still owing time is the next unadmitted one. |
| Sjf.Smooth | simulator.py:192 | The new prediction lies between the old one and the burst. alpha = 1 keeps the old prediction and alpha = 0 takes the burst. |
| Sjf.Mean | simulator.py:192 | A value r = alpha * guess + (1 - alpha) * burst, with 0 <= alpha <= 1, lies between guess and burst. |
| Sjf.PredictionAppend | simulator.py:192 | A job smooths the prediction of its own id and of no other id. |
| Sjf.PredictionUnseen | simulator.py:160-161 | An id none of whose processes has run still predicts 5. |
| Sjf.PredictionRange | simulator.py:192 | Every prediction lies between the least and the greatest of 5 and the bursts of its id. |
| Sjf.TwoJobs | simulator.py:192 | Two jobs of one id leave alpha * (alpha * 5 + (1 - alpha) * b1) + (1 - alpha) * b2. |
| Sjf.SeedKeeps | simulator.py:160-161 | Seeding a new id with 5 keeps the predictions equal to what the trace determines. |
| Sjf.SmoothKeeps | simulator.py:192 | Smoothing the id that ran keeps the predictions equal to what the extended trace determines. |
| Sjf.AdmitNext | simulator.py:158-168 | Position i goes to the back of its id's FIFO, created when missing, and a never-seen id gets 5. The books are kept. |
| Sjf.Admit | simulator.py:157-168 | The cursor moves to `Arrived(i, clock)`: every position arriving by the clock is admitted, and none beyond. The books are kept. |
| Sjf.ReadyCount | simulator.py:171-173 | The count is 0 exactly when every FIFO is empty. |
| Sjf.PickShortest | simulator.py:178-182 | Returns an id with a non-empty FIFO whose prediction is least among such ids. |
| Sjf.BooksLeast | simulator.py:178-182 | The head of the chosen FIFO predicts no more than any admitted position that has not run. |
| Sjf.JobStep | simulator.py:178-192 | Running the chosen head to completion follows the SJF rule, and keeps the books after smoothing. |
| Sjf.JobClock | simulator.py:185 | The job starts at the later of the CPU becoming free and its arrival, and also at the later of the CPU becoming free and the arrival of the first position still owing time. |
| Sjf.JobKeeps | simulator.py:185-192 | Running the chosen FIFO head to completion at the clock, smoothing its id and counting it finished keeps the main loop invariant, including work conservation. |
| Sjf.RunJob | simulator.py:175-192 | Pops the head of a FIFO whose id has least prediction among non-empty FIFOs, and records `(clock, id)`. It advances the clock by exactly the burst, adds completion - arrival - burst, and counts one process finished. Only that id's prediction is smoothed. The new state is stated exactly and the invariant is kept. |
| Sjf.Round | simulator.py:154-196 | The cursor moves to `Arrived(i, clock)`. When an admitted process has not run, one job p is run to completion at the clock, and the trace, schedule, clock, remaining count and waiting total change accordingly. Otherwise the clock jumps to exactly the arrival of position i and nothing else changes. The invariant is kept. A job finishes, a position is admitted, or the clock gets closer to the next arrival. |
| Sjf.IdleKeeps | simulator.py:194-196 | With every FIFO empty after admission, position i exists, is the first still owing time, and arrives later. Jumping the clock to its arrival keeps the invariant. |
| Sjf.SjfStart | simulator.py:146-152 | Before the loop, with nothing admitted, queued or run, the invariant holds. |
| Sjf.SjfRuleAll | simulator.py:178-189 | Every run of the trace follows the SJF rule after the runs before it. |
| Sjf.SjfOrder | simulator.py:178-189 | No position is dispatched twice, and processes sharing an id are dispatched in list order. |
| Sjf.SjfClosed | simulator.py:198 | At loop exit the schedule has one entry per process and announces the trace. Every run follows the SJF rule, and same-id processes run in list order. The trace is valid, complete, eager and work-conserving, and the waiting total is the sum of completion - arrival - burst, >= 0. |
| Sjf.SjfScheduling | simulator.py:145-198 | One entry per process. Every run follows the SJF rule. No position runs twice, and same-id processes run in list order. The trace is valid, complete and eager. It is work-conserving: run j starts at max(CPU free, arrival of the first position still owing). The waiting total and the average are >= 0. |
| Trace.Average | simulator.py:52 | average * n == total, and the average is >= 0 exactly when the total is. |
| Trace.FinishRun | simulator.py:87-89 | A run that finishes its process adds completion - arrival - burst to the waiting total. |
| Trace.ContinueRun | simulator.py:90-92 | A run that leaves its process unfinished leaves the waiting total unchanged. |
| Trace.RunWaits | simulator.py:130-135 | A run adds completion - arrival - burst when it finishes its process, and nothing otherwise. |
| Trace.PendingAppend | simulator.py:84 | The total still owed by positions below n drops by exactly the run's length when the run's position is below n, and is unchanged otherwise. |
| Trace.EagerValid | simulator.py:78-81 | An eager trace with no negative-length run is valid. |
| Trace.EagerStarts | simulator.py:78-81 | Run by run, each run starts at max(tick the CPU became free, arrival). |
| Trace.AnnouncedEntries | simulator.py:81 | Schedule entry j is (start of run j, id of its process). |
| Trace.TotalWaitNonNegative | simulator.py:89 | For a valid, complete trace the waiting total is >= 0. |
| Trace.OwingLeast | simulator.py:137-139 | A position from k on that still owes time is no earlier than the first such position. |
| Trace.OwingOwes | simulator.py:94-95 | The first position from k on that still owes time lies between k and the end; nothing before it owes time, and it owes time when it exists. |
| Trace.OwingIs | simulator.py:137-139 | When nothing from k up to m owes time and m does, m is the first position from k on that owes time. |
| Trace.NoIdleAppend | simulator.py:117-126 | A run starting at max(CPU free, arrival of the first position still owing) keeps the trace work-conserving. |
| Trace.NoIdleStarts | simulator.py:117-126 | Run by run, a work-conserving trace starts run j at max(CPU free, arrival of the first position still owing). |
| Trace.NoIdleBusy | simulator.py:137-139 | In a work-conserving trace, when some arrived position still owes time, run j starts the moment the CPU is free. |
| Trace.AppendKeeps | simulator.py:124-135 | A work-conserving, eager run appended to the trace keeps it announced, eager and work-conserving. It adds completion - arrival - burst when it finishes its process and reduces the outstanding work by its length. |

## Left out

- `read_input`, `write_output` and `main` (simulator.py:200-249) are file I/O and the driver that sweeps the quantum and alpha. They are not part of this model.
- `Process.__repr__` only formats text. The unused class attribute `last_scheduled_time` is not modelled.
- The average is exact `real` division, not an IEEE float. Predictions and `alpha` are exact reals too.
- SRTF's `float("inf")` ("no next arrival") is the `None` of an `Option`.
- `remaining_time` lives on shared `Process` objects that `main` reuses across runs. Here it is a sequence local to each run, initialised to the bursts.
- SJF runs a job for its `remaining_time`. Admission has just reset that to the burst and nothing changes it before dispatch, so the model uses the burst.
- The priority queue's thread safety is not modelled; it is used sequentially.
- Srtf.ExtractMin: ties go to some least entry. The source breaks them by comparing `Process` objects under Python 2; that order is not modelled.
- Sjf.PickShortest: scans every id instead of sorting `predicted_burst`, and returns some id of least prediction with a non-empty FIFO. The tie order of Python 2's `sorted` over dict keys is not modelled.
- Sjf.ReadyCount: states only that the count is zero exactly when every FIFO is empty, the one fact the source uses. It does not state that the count equals the sum of the FIFO lengths.
- Sjf.Admit: states the range admitted and that the books are kept, not the final maps as a closed formula. Sjf.AdmitNext states each step's map updates exactly.
- Non-empty, sorted input with non-negative arrivals and positive bursts, quantum > 0 and 0 <= alpha <= 1 are preconditions. The source divides by zero or fails on index 0 for an empty list.
