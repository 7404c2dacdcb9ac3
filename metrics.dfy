/**
 * The per-process metrics computed once the scheduling loop has stopped, and the
 * integer totals behind the printed averages.
 *
 * The program stores "no completion" and "not yet responded" as -1 and computes the
 * metrics with that sentinel in place; `CompletionOrSentinel` and `ResponseOrSentinel`
 * make that arithmetic explicit.
 */
module Metrics {
  import opened Options
  import opened Processes
  import opened Scheduler

  /** The completion time as the program stores it: -1 while the process has not completed. */
  function CompletionOrSentinel(p: Process): int {
    if p.completion.Some? then p.completion.value else -1
  }

  /** The response time as the program stores it: -1 while the process has not started. */
  function ResponseOrSentinel(p: Process): int {
    if p.response.Some? then p.response.value else -1
  }

  /** Turnaround is completion minus arrival, waiting is turnaround minus burst. */
  function WithMetrics(p: Process): Process {
    var turnaround := CompletionOrSentinel(p) - p.arrival;
    p.(turnaround := Some(turnaround), waiting := Some(turnaround - p.burst))
  }

  function AllMetrics(ps: seq<Process>): seq<Process> {
    seq(|ps|, i requires 0 <= i < |ps| => WithMetrics(ps[i]))
  }

  /** Fills in turnaround and waiting time of every record, in place. */
  method ComputeMetrics(a: array<Process>)
    modifies a
    ensures a[..] == AllMetrics(old(a[..]))
  {
    for i := 0 to a.Length
      invariant forall j :: 0 <= j < i ==> a[j] == WithMetrics(old(a[j]))
      invariant forall j :: i <= j < a.Length ==> a[j] == old(a[j])
    {
      a[i] := WithMetrics(a[i]);
    }
  }

  /**
   * For a completed process the metrics are the usual ones: turnaround covers at least
   * the burst and ends by the last busy unit, waiting is the time spent ready but not
   * running, and the first response came no later than the total wait.
   */
  lemma MetricsOfCompleted(p: Process, g: seq<Slot>, time: nat, horizon: nat)
    requires horizon <= time <= |g| && ProcInv(p, g, time) && p.state == Completed
    requires forall t :: horizon <= t < |g| ==> g[t] == None
    ensures var q := WithMetrics(p);
      && q.turnaround == Some(p.completion.value - p.arrival)
      && p.burst <= q.turnaround.value <= horizon - p.arrival
      && q.waiting == Some(q.turnaround.value - p.burst)
      && q.response.Some? && 0 <= q.response.value <= q.waiting.value
  {
  }

  /** A process that never completed gets the sentinel arithmetic: both metrics negative. */
  lemma MetricsOfIncomplete(p: Process)
    requires p.completion.None? && 0 <= p.arrival && 0 < p.burst
    ensures var q := WithMetrics(p);
      && q.turnaround == Some(-1 - p.arrival) && q.turnaround.value < 0
      && q.waiting == Some(-1 - p.arrival - p.burst) && q.waiting.value < q.turnaround.value
  {
  }

  /** Computing the metrics touches no field the scheduling invariant speaks of. */
  lemma MetricsKeepInv(s: Sim)
    requires Inv(s)
    ensures Inv(s.(procs := AllMetrics(s.procs)))
  {
    var ms := AllMetrics(s.procs);
    forall i | 0 <= i < |ms|
      ensures ms[i].pid == i + 1 && ProcInv(ms[i], s.gantt, s.time)
    {
      MetricsKeepProcInv(s.procs[i], s.gantt, s.time);
    }
    ServedMetrics(s.procs);
  }

  lemma MetricsKeepProcInv(p: Process, g: seq<Slot>, time: nat)
    requires time <= |g| && ProcInv(p, g, time)
    ensures WithMetrics(p).pid == p.pid && ProcInv(WithMetrics(p), g, time)
  {
  }

  lemma {:induction false} ServedMetrics(ps: seq<Process>)
    ensures Served(AllMetrics(ps)) == Served(ps)
  {
    if ps != [] {
      assert AllMetrics(ps)[..|ps| - 1] == AllMetrics(ps[..|ps| - 1]);
      ServedMetrics(ps[..|ps| - 1]);
    }
  }

  function TotalTurnaround(ps: seq<Process>): int {
    if ps == [] then 0
    else TotalTurnaround(ps[..|ps| - 1]) + Or(ps[|ps| - 1].turnaround, 0)
  }

  function TotalWaiting(ps: seq<Process>): int {
    if ps == [] then 0
    else TotalWaiting(ps[..|ps| - 1]) + Or(ps[|ps| - 1].waiting, 0)
  }

  function TotalResponse(ps: seq<Process>): int {
    if ps == [] then 0
    else TotalResponse(ps[..|ps| - 1]) + ResponseOrSentinel(ps[|ps| - 1])
  }

  /** The value of `o`, or `d` when there is none (the program's initial 0). */
  function Or(o: Option<int>, d: int): int {
    if o.Some? then o.value else d
  }

  /** Summed over the table, waiting time is turnaround time minus the total burst. */
  lemma {:induction false} WaitingTotal(ps: seq<Process>)
    ensures TotalWaiting(AllMetrics(ps)) == TotalTurnaround(AllMetrics(ps)) - TotalBurst(ps)
  {
    if ps != [] {
      assert AllMetrics(ps)[..|ps| - 1] == AllMetrics(ps[..|ps| - 1]);
      WaitingTotal(ps[..|ps| - 1]);
    }
  }

  /** Per-record bounds add up to bounds on the totals. */
  lemma {:induction false} TotalsBounded(ms: seq<Process>)
    requires forall i :: 0 <= i < |ms| ==> 0 <= ResponseOrSentinel(ms[i]) <= Or(ms[i].waiting, 0)
    requires forall i :: 0 <= i < |ms| ==> ms[i].burst <= Or(ms[i].turnaround, 0)
    ensures 0 <= TotalResponse(ms) <= TotalWaiting(ms)
    ensures TotalBurst(ms) <= TotalTurnaround(ms)
  {
    if ms != [] {
      TotalsBounded(ms[..|ms| - 1]);
    }
  }

  /**
   * When every process completed, the totals behind the printed averages satisfy
   * 0 <= response <= waiting, and turnaround is waiting plus the total burst, which is
   * the number of busy units in the chart.
   */
  lemma CompletedTotals(s: Sim)
    requires Inv(s) && AllDone(s.procs)
    ensures var ms := AllMetrics(s.procs);
      && 0 <= TotalResponse(ms) <= TotalWaiting(ms)
      && TotalTurnaround(ms) == TotalWaiting(ms) + Busy(s.gantt[..s.horizon])
  {
    var ms := AllMetrics(s.procs);
    forall i | 0 <= i < |ms|
      ensures 0 <= ResponseOrSentinel(ms[i]) <= Or(ms[i].waiting, 0)
      ensures ms[i].burst <= Or(ms[i].turnaround, 0)
    {
      MetricsOfCompleted(s.procs[i], s.gantt, s.time, s.horizon);
    }
    TotalsBounded(ms);
    WaitingTotal(s.procs);
    CompletedRun(s);
  }

  /** The three integer totals the program accumulates before dividing by the count. */
  method Totals(a: array<Process>) returns (turnaround: int, waiting: int, response: int)
    ensures turnaround == TotalTurnaround(a[..])
    ensures waiting == TotalWaiting(a[..])
    ensures response == TotalResponse(a[..])
  {
    turnaround, waiting, response := 0, 0, 0;
    for i := 0 to a.Length
      invariant turnaround == TotalTurnaround(a[..i])
      invariant waiting == TotalWaiting(a[..i])
      invariant response == TotalResponse(a[..i])
    {
      assert a[..i + 1][..i] == a[..i];
      turnaround := turnaround + Or(a[i].turnaround, 0);
      waiting := waiting + Or(a[i].waiting, 0);
      response := response + ResponseOrSentinel(a[i]);
    }
    assert a[..] == a[..a.Length];
  }
}
