/**
 * How long a run takes. SRTF never idles while an arrived process is unfinished, so idle
 * time units only occur before the last arrival; a run therefore ends by the last arrival
 * plus the total burst, and completes every process whenever that fits in `MaxTime`.
 */
module Makespan {
  import opened Options
  import opened Processes
  import opened Scheduler

  /**
   * Every arrival is at most `lastArrival`, and the idle units so far (the clock minus
   * the busy units) number at most `lastArrival`.
   */
  ghost predicate IdleBound(s: Sim, lastArrival: int)
    requires s.time <= |s.gantt|
  {
    && (forall i :: 0 <= i < |s.procs| ==> s.procs[i].arrival <= lastArrival)
    && s.time <= Busy(s.gantt[..s.time]) + lastArrival
  }

  /** A tick taken while some process is unfinished keeps the idle bound. */
  lemma StepKeepsIdleBound(s: Sim, lastArrival: int)
    requires Inv(s) && s.time < MaxTime && !AllDone(s.procs) && IdleBound(s, lastArrival)
    ensures IdleBound(Step(s), lastArrival)
  {
    match Selected(s)
    case None =>
      // nothing is eligible, yet someone is unfinished: it has not arrived
      IdleIffNothingWaiting(s);
      var i :| 0 <= i < |s.procs| && s.procs[i].state != Completed;
      IdleStepKeepsIdleBound(s, lastArrival, i);
    case Some(k) =>
      BusyStepKeepsIdleBound(s, lastArrival, k);
  }

  lemma IdleStepKeepsIdleBound(s: Sim, lastArrival: int, i: nat)
    requires s.time < |s.gantt| && Selected(s).None? && IdleBound(s, lastArrival)
    requires i < |s.procs| && s.time < s.procs[i].arrival
    ensures IdleBound(Step(s), lastArrival)
  {
  }

  lemma BusyStepKeepsIdleBound(s: Sim, lastArrival: int, k: nat)
    requires s.time < |s.gantt| && Selected(s) == Some(k) && IdleBound(s, lastArrival)
    ensures IdleBound(Step(s), lastArrival)
  {
    BusyTick(s, k);
    WriteExtendsPrefix(s.gantt, s.time, Some(s.procs[k].pid), None);
  }

  /** Bursts are the same record by record, so are their totals. */
  lemma {:induction false} SameBursts(a: seq<Process>, b: seq<Process>)
    requires |a| == |b| && forall i :: 0 <= i < |a| ==> a[i].burst == b[i].burst
    ensures TotalBurst(a) == TotalBurst(b)
  {
    if a != [] {
      SameBursts(a[..|a| - 1], b[..|b| - 1]);
    }
  }

  /** The whole loop keeps the idle bound and the total burst. */
  lemma {:induction false} FinalKeepsIdleBound(s: Sim, lastArrival: int)
    requires Inv(s) && IdleBound(s, lastArrival)
    ensures IdleBound(Final(s), lastArrival)
    ensures TotalBurst(Final(s).procs) == TotalBurst(s.procs)
    decreases MaxTime - s.time
  {
    if !(AllDone(s.procs) || s.time == MaxTime) {
      StepKeepsIdleBound(s, lastArrival);
      StepPreservesInv(s);
      SameBursts(s.procs, Step(s).procs);
      FinalKeepsIdleBound(Step(s), lastArrival);
    }
  }

  /** Unless every process is finished, the service received falls short of the total burst. */
  lemma {:induction false} ServedShortOfBurst(ps: seq<Process>)
    requires forall i :: 0 <= i < |ps| ==> 0 <= ps[i].remaining
    ensures Served(ps) <= TotalBurst(ps)
    ensures (exists i :: 0 <= i < |ps| && ps[i].remaining > 0) ==> Served(ps) < TotalBurst(ps)
  {
    if ps != [] {
      var n := |ps|;
      ServedShortOfBurst(ps[..n - 1]);
      if exists i :: 0 <= i < n && ps[i].remaining > 0 {
        var i :| 0 <= i < n && ps[i].remaining > 0;
        if i < n - 1 {
          assert ps[..n - 1][i] == ps[i];
        }
      }
    }
  }

  /**
   * If every process arrives by `lastArrival` and `lastArrival` plus the total burst fits
   * within `MaxTime`, the loop stops with every process completed, and the clock stops by
   * `lastArrival` plus the total burst.
   */
  lemma FinishesInTime(entries: seq<Entry>, lastArrival: int)
    requires ValidInput(entries)
    requires forall i :: 0 <= i < |entries| ==> entries[i].arrival <= lastArrival
    ensures var s0 := Initial(entries); var s := Final(s0);
      && s.time <= lastArrival + TotalBurst(s0.procs)
      && (lastArrival + TotalBurst(s0.procs) <= MaxTime ==> AllDone(s.procs))
  {
    var s0 := Initial(entries);
    InitialInv(entries);
    FinalKeepsIdleBound(s0, lastArrival);
    FinalPreservesInv(s0);
    var s := Final(s0);
    ServedShortOfBurst(s.procs);
    if !AllDone(s.procs) {
      var i :| 0 <= i < |s.procs| && s.procs[i].state != Completed;
      assert s.procs[i].remaining > 0;
    }
  }
}
