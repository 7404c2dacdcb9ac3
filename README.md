# SRTF scheduler simulation — a Dafny model

`SRTF.c` simulates Shortest Remaining Time First CPU scheduling. It reads up to ten
processes, each with an arrival time and a burst time, and runs a clock one time unit at
a time. In each unit it promotes arrived processes from NEW to READY, runs the eligible
process with the least remaining time for one unit (ties go to the lowest index), and
records the pid or an idle unit in a Gantt timeline. It stops when every process has
completed or the clock reaches `MAX_TIME` (1000). It then computes turnaround, waiting
and response times and cuts the timeline into segments for the chart.

The model has these modules:

- `Options` (options.dfy) holds `Option`, `Outcome` and `Result`. `Option` replaces the
  program's `-1` sentinels for an idle slot, an unset start, completion or response, and
  for "no process chosen".
- `Processes` (processes.dfy) holds the process record, its four states, the constants and
  input validation.
- `Selection` (selection.dfy) holds the per-tick scan for the shortest eligible process.
- `Scheduler` (scheduler.dfy) holds:
  - the simulation state `Sim` and the functions `Step` (one tick) and `Final` (the whole
    loop);
  - the run invariant `Inv` and the lemmas about a tick and a run;
  - the class `Srtf`, which holds the process table and the timeline in arrays and updates
    them in place with `Tick`, `Serve` and `Run`.
- `Makespan` (makespan.dfy) bounds when a run ends.
- `Timeline` (timeline.dfy) holds the run-length encoder that turns the timeline into
  chart segments, and its inverse.
- `Metrics` (metrics.dfy) holds the per-process metrics and the integer totals behind the
  printed averages.
- `Simulation` (simulation.dfy) runs the whole pipeline: validate, build, run, metrics,
  segments, totals.

`Final(Initial(entries))` is the program's run on the given entries. The methods of
`Srtf` are proved to compute exactly that state. The lemmas state what holds of it:

- the selection is the shortest eligible process;
- every unit of service appears once in the timeline;
- each process's start, response and completion agree with the slots holding its pid;
- a run completes every process when the last arrival plus the total burst fits within
  `MAX_TIME`.

The model follows the code in two places where a reader might expect otherwise:

- A preempted process is never moved back to READY. It keeps the state RUNNING until it
  completes (SRTF.c:238-239 only ever sets RUNNING). So "Running" in the model means
  "has run at least once and is not finished".
- `max_time` is updated only after a busy unit (SRTF.c:261 comes after the idle
  `continue` at SRTF.c:235). The model's `horizon` is therefore the end of the last busy
  unit, and idle units after it are not charted.

## Model

| member | source | states |
|---|---|---|
| Processes.Validate | SRTF.c:153-183 | The input passes exactly when the count is 1..10 and every arrival is ≥ 0 and every burst > 0. A failure names the first offending item in reading order: the count, else process k's arrival, else process k's burst, where all processes before k were accepted. |
| Scheduler.Srtf.constructor | SRTF.c:186-205 | Records get pid i+1, the entry's arrival and burst, remaining = burst, state NEW and no start, completion or response. Every timeline slot is idle, and time and max_time are 0. The resulting state satisfies the run invariant. |
| Scheduler.InitialInv | SRTF.c:186-205 | The initial state satisfies the run invariant `Inv`. |
| Scheduler.Srtf.AllCompleted | SRTF.c:23-29 | Returns true exactly when every record in the table is COMPLETED. |
| Selection.PickShortest | SRTF.c:217-229 | Returns None exactly when no process among the first n is eligible (READY or RUNNING, remaining > 0, arrived). Otherwise returns the eligible process with the least remaining time, the lowest index among ties. |
| Selection.ShortestFirstUnique | SRTF.c:224 | The strict comparison makes the choice unique: at most one index is eligible, minimal, and strictly below every eligible process before it. |
| Selection.SelectShortest | SRTF.c:217-229 | The selection loop over the array returns the index `PickShortest` specifies, so it has the same eligibility, minimality and tie-break guarantees. |
| Selection.PickShortestAsWritten | SRTF.c:217-229 | The scan as written, with its running minimum starting at INT_MAX. It picks nothing exactly when every eligible process has remaining ≥ INT_MAX. Otherwise it picks the shortest-first process. |
| Selection.AsWrittenAgreesBelowIntMax | SRTF.c:218 | When some eligible process has remaining below INT_MAX, the scan as written and the intended scan choose the same process. |
| Selection.AsWrittenIdlesOnIntMaxBurst | SRTF.c:218 | A single READY process with burst INT_MAX at time 0 is eligible. The scan as written picks nothing; the intended scan picks it. |
| Scheduler.Srtf.Tick | SRTF.c:210-262 | One pass of the loop body transforms the arrays and fields exactly as `Step` specifies. |
| Scheduler.Srtf.Serve | SRTF.c:238-261 | For the selected process, the record becomes `Dispatch` of it: RUNNING; start and response set on the first run; remaining decremented; COMPLETED with completion = time+1 at 0. The pid is written to `gantt[time]`, time advances, and max_time becomes the new time. Nothing else changes. |
| Scheduler.Step | SRTF.c:210-262 | A tick keeps the table and timeline sizes, advances time by 1, leaves every other slot alone, and never changes a pid, arrival or burst. |
| Scheduler.IdleTick | SRTF.c:212-236 | With no eligible process, the tick writes an idle slot and leaves max_time alone. No record changes beyond NEW→READY promotion, and every remaining time is unchanged. |
| Scheduler.BusyTick | SRTF.c:238-261 | With process k selected: k is eligible after promotion, and its pid is written at `time`. max_time becomes time+1. Only k's remaining drops, by exactly 1. k's start is set to `time` only if it was unset. Every other record changes only by promotion. |
| Scheduler.TickMarks | SRTF.c:238-259 | A start once set never changes. A COMPLETED record is never changed or selected again. A process completes exactly when its remaining reaches 0, with completion = the advanced clock. |
| Scheduler.IdleIffNothingWaiting | SRTF.c:217-236 | Under the invariant, a tick idles exactly when every process has not arrived yet or has completed. The scheduler never idles while work is waiting. |
| Scheduler.EligibleIffArrived | SRTF.c:212-222 | Under the invariant, a process is eligible after promotion exactly when it has arrived and is not complete. |
| Scheduler.StepPreservesInv | SRTF.c:210-262 | A tick preserves the run invariant. Remaining stays within [0, burst]. Start, response and completion agree with the timeline. Each process's pid appears in exactly burst − remaining slots. The busy slots up to max_time equal the total service received. |
| Scheduler.FinalPreservesInv | SRTF.c:210 | The whole loop, ending when all complete or at MAX_TIME, preserves the run invariant. |
| Scheduler.Final | SRTF.c:210 | The loop ends with every process COMPLETED or with the clock at MAX_TIME, and the clock never moves backwards. |
| Scheduler.Srtf.Run | SRTF.c:210-262 | Running the loop on the arrays yields exactly the state `Final` specifies and keeps the invariant. On exit all processes are complete or time = MAX_TIME. |
| Scheduler.CompletedProcess | SRTF.c:241-256 | For a COMPLETED record under the invariant: arrival ≤ start < completion ≤ max_time, and start + burst ≤ completion. completion − arrival − burst ≥ 0, and the pid occupies exactly burst slots. |
| Scheduler.CompletedRun | SRTF.c:232-261 | When all processes complete, the busy slots in gantt[0, max_time) number exactly the sum of bursts. Every process has arrival ≤ start < completion ≤ max_time and non-negative waiting. Some process completes exactly at max_time. |
| Scheduler.TotalBurstPositive | SRTF.c:180-183 | A non-empty table of positive bursts has a positive total burst. |
| Makespan.StepKeepsIdleBound | SRTF.c:210-236 | While some process is unfinished, a tick adds an idle unit only before the last arrival. The number of idle units stays ≤ the last arrival. |
| Makespan.FinalKeepsIdleBound | SRTF.c:210 | The loop keeps that idle bound and the total burst. |
| Makespan.ServedShortOfBurst | SRTF.c:246 | Service received is at most the total burst, and strictly less when some process has remaining time. |
| Makespan.FinishesInTime | SRTF.c:210 | A run ends by (last arrival + total burst). If that sum is ≤ MAX_TIME, every process completes. |
| Timeline.Encode | SRTF.c:34-68 | For max_time ≤ 0 there are no segments. Otherwise the segments: start at 0 and end at max_time; are non-empty and contiguous; each slot in a segment holds its pid; adjacent pids differ; there are at most max_time of them. Expanding them gives back gantt[0, max_time). |
| Timeline.ExpandInverts | SRTF.c:50-68 | Expanding any segmentation of the first n slots gives back exactly those slots. |
| Timeline.EncodingUnique | SRTF.c:50-68 | The first n slots have only one segmentation into maximal runs, so the segments are determined by the timeline. |
| Timeline.EndIsChange | SRTF.c:55 | A segment ends either at max_time, being the last one, or exactly where the slot value changes. |
| Metrics.ComputeMetrics | SRTF.c:264-267 | Every record gets turnaround = completion − arrival and waiting = turnaround − burst, using -1 for a missing completion as the program does. |
| Metrics.MetricsOfCompleted | SRTF.c:241-267 | For a COMPLETED record under the invariant: turnaround = completion − arrival, and burst ≤ turnaround ≤ max_time − arrival. waiting = turnaround − burst, and 0 ≤ response ≤ waiting. |
| Metrics.MetricsOfIncomplete | SRTF.c:264-267 | A process that never completed gets turnaround −1 − arrival and waiting −1 − arrival − burst. Both are negative. |
| Metrics.MetricsKeepInv | SRTF.c:264-267 | Computing the metrics keeps the run invariant, since it touches only turnaround and waiting. |
| Metrics.WaitingTotal | SRTF.c:266 | Summed over the table, total waiting = total turnaround − total burst. |
| Metrics.TotalsBounded | SRTF.c:282-284 | Per-record bounds 0 ≤ response ≤ waiting and burst ≤ turnaround carry over to the totals. |
| Metrics.CompletedTotals | SRTF.c:264-284 | When all complete: 0 ≤ total response ≤ total waiting, and total turnaround = total waiting + the busy units of the chart. |
| Metrics.Totals | SRTF.c:275-285 | The loop's integer sums of turnaround, waiting and response equal the specified totals. A never-started process contributes -1 to the response sum. |
| Simulation.Simulate | SRTF.c:143-285 | Invalid input is rejected, and valid input is always simulated. A report holds: the final records of `Final(Initial(entries))` with metrics; its max_time; the segmentation of its timeline, which expands back to the timeline; and the three totals. |

## Left out

- Terminal I/O is not modelled. This covers every `printf`, the per-tick trace rows, the
  ASCII rendering of the chart (SRTF.c:70-125), `state_to_string` (SRTF.c:128-141), and
  the prompt and restart loop of `main` (SRTF.c:295-311).
- A `scanf` that fails to read a number is not modelled. Input arrives as a count and a
  sequence of (arrival, burst) pairs of 32-bit values. Validation sees exactly `count`
  entries when the count is in range.
- The floating-point averages (SRTF.c:287-289) are not modelled. Only the integer totals
  they divide are. The totals of ten 32-bit values are exact in a `double`, so only the
  division is left out.
- The fixed `seg[200]` buffer (SRTF.c:47) is not modelled. Segments are a sequence, and
  `Timeline.Encode` proves at most max_time of them.
- The process table has capacity `MAX_PROCESSES` in the program. The model's array holds
  exactly the n records in use.
- Before the metrics loop the program holds 0 in turnaround and waiting. The model holds
  None there, because no member reads them before `Metrics.ComputeMetrics` sets them.
- Scheduler.Srtf.Tick, Selection.SelectShortest and the rest of the scheduler use the
  intended scan `Selection.PickShortest`, not the INT_MAX-seeded scan as written. The two
  differ only for a process whose remaining time is 2147483647 (see Findings).
- Integer width: arrivals and bursts are limited to 32-bit values, as `scanf("%d")` would
  read them. Time stays below 1000, and remaining only decreases from burst. So no
  arithmetic of the loop can overflow.
- Metrics.ComputeMetrics: computed on unbounded integers. For an incomplete process with
  very large arrival and burst, the program's `int` result of `-1 - arrival - burst` could
  wrap; the model does not reproduce that wrap.

## Findings

| source | as written | input that shows it | evidently intended | confidence | as-written member | corrected member |
|---|---|---|---|---|---|---|
| SRTF.c:218-224 | `min_remaining` starts at INT_MAX and the comparison is strict, so an eligible process whose remaining time is INT_MAX is never selected. Validation accepts burst 2147483647. | One process, arrival 0, burst 2147483647: every tick is idle until MAX_TIME and the process never runs | pick the eligible process with the least remaining time, whatever its value | high, not executed | Selection.PickShortestAsWritten, Selection.AsWrittenIdlesOnIntMaxBurst | Selection.PickShortest |
