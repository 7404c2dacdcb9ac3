/**
 * The SRTF scheduling engine: a time-stepped loop over the process table that records,
 * for every time unit, which process ran (or that the processor was idle).
 *
 * `Sim` is the abstract state of one run and `Step` and `Final` specify one tick and the
 * whole loop; the class `Srtf` holds the same state in arrays and updates it in place.
 */
module Scheduler {
  import opened Options
  import opened Processes
  import opened Selection

  /**
   * The state of one simulation run: the process table, the whole timeline (MaxTime slots),
   * the clock, and `horizon`, the program's `max_time`: the clock after the latest tick that
   * ran a process.
   */
  datatype Sim = Sim(procs: seq<Process>, gantt: seq<Slot>, time: nat, horizon: nat)

  /** The state before the first tick: fresh records, an all-idle timeline, time 0. */
  function Initial(entries: seq<Entry>): Sim
  {
    Sim(seq(|entries|, i requires 0 <= i < |entries| => NewProcess(i + 1, entries[i])),
        seq(MaxTime, _ => None), 0, 0)
  }

  predicate AllDone(ps: seq<Process>) {
    forall i :: 0 <= i < |ps| ==> ps[i].state == Completed
  }

  /** New -> Ready once the clock has reached the arrival time. */
  function PromoteOne(p: Process, time: int): Process
  {
    if p.state == New && p.arrival <= time then p.(state := Ready) else p
  }

  function Promote(ps: seq<Process>, time: int): seq<Process>
  {
    seq(|ps|, i requires 0 <= i < |ps| => PromoteOne(ps[i], time))
  }

  /** The selected process runs for the unit starting at `time`. */
  function Dispatch(p: Process, time: int): Process
  {
    var running := p.(state := Running);
    var started := if running.start.None?
                   then running.(start := Some(time), response := Some(time - running.arrival))
                   else running;
    var served := started.(remaining := started.remaining - 1);
    if served.remaining == 0 then served.(state := Completed, completion := Some(time + 1))
    else served
  }

  /** One tick of the scheduling loop. */
  function Step(s: Sim): (r: Sim)
    requires s.time < |s.gantt|
    ensures |r.procs| == |s.procs| && |r.gantt| == |s.gantt| && r.time == s.time + 1
    ensures forall t :: 0 <= t < |s.gantt| && t != s.time ==> r.gantt[t] == s.gantt[t]
    ensures forall i :: 0 <= i < |s.procs| ==>
              r.procs[i].pid == s.procs[i].pid && r.procs[i].arrival == s.procs[i].arrival &&
              r.procs[i].burst == s.procs[i].burst
  {
    var ps := Promote(s.procs, s.time);
    match PickShortest(ps, s.time, |ps|)
    case None =>
      Sim(ps, s.gantt[s.time := None], s.time + 1, s.horizon)
    case Some(k) =>
      Sim(ps[k := Dispatch(ps[k], s.time)], s.gantt[s.time := Some(ps[k].pid)], s.time + 1, s.time + 1)
  }

  /** The process a tick runs, if any: the shortest eligible one after promotion. */
  function Selected(s: Sim): Option<nat>
  {
    PickShortest(Promote(s.procs, s.time), s.time, |s.procs|)
  }

  /**
   * With no eligible process the tick records an idle unit, leaves `max_time` alone, and
   * changes no record beyond New -> Ready promotion.
   */
  lemma IdleTick(s: Sim)
    requires s.time < |s.gantt| && Selected(s).None?
    ensures Step(s).gantt[s.time] == None && Step(s).horizon == s.horizon
    ensures Step(s).procs == Promote(s.procs, s.time)
    ensures forall i :: 0 <= i < |s.procs| ==> Step(s).procs[i].remaining == s.procs[i].remaining
  {
  }

  /**
   * When process `k` is selected, the tick records its pid, moves `max_time` to the advanced
   * clock, decrements only `k`'s remaining time, sets `k`'s start on its first selection,
   * and changes no other record beyond promotion.
   */
  lemma BusyTick(s: Sim, k: nat)
    requires s.time < |s.gantt| && Selected(s) == Some(k)
    ensures k < |s.procs| && Eligible(Promote(s.procs, s.time)[k], s.time)
    ensures Step(s).gantt[s.time] == Some(s.procs[k].pid) && Step(s).horizon == s.time + 1
    ensures Step(s).procs[k].remaining == s.procs[k].remaining - 1
    ensures Step(s).procs[k].start ==
            (if s.procs[k].start.None? then Some(s.time) else s.procs[k].start)
    ensures forall j :: 0 <= j < |s.procs| && j != k ==>
              Step(s).procs[j] == PromoteOne(s.procs[j], s.time) &&
              Step(s).procs[j].remaining == s.procs[j].remaining
  {
  }

  /**
   * A start time, once set, never changes; a completed record never changes (so a completed
   * process is never selected again); and a process completes exactly when its remaining
   * time reaches 0, with the advanced clock as its completion time.
   */
  lemma TickMarks(s: Sim)
    requires s.time < |s.gantt|
    ensures forall i :: 0 <= i < |s.procs| && s.procs[i].start.Some? ==>
              Step(s).procs[i].start == s.procs[i].start
    ensures forall i :: 0 <= i < |s.procs| && s.procs[i].state == Completed ==>
              Step(s).procs[i] == s.procs[i] && Selected(s) != Some(i)
    ensures forall i :: 0 <= i < |s.procs| && s.procs[i].state != Completed &&
                        Step(s).procs[i].state == Completed ==>
              Step(s).procs[i].remaining == 0 && Step(s).procs[i].completion == Some(s.time + 1)
  {
  }

  /** The scheduling loop: tick until every process is complete or the clock hits MaxTime. */
  function Final(s: Sim): (r: Sim)
    requires |s.gantt| == MaxTime && s.time <= MaxTime
    ensures |r.gantt| == MaxTime && |r.procs| == |s.procs| && s.time <= r.time <= MaxTime
    ensures AllDone(r.procs) || r.time == MaxTime
    decreases MaxTime - s.time
  {
    if AllDone(s.procs) || s.time == MaxTime then s else Final(Step(s))
  }

  // ---------------------------------------------------------------------------------------
  // Counting over the timeline and the process table

  /** Number of slots of `g` holding `x`. */
  function Count(g: seq<Slot>, x: Slot): (c: nat)
    ensures c <= |g|
  {
    if g == [] then 0 else Count(g[..|g| - 1], x) + (if g[|g| - 1] == x then 1 else 0)
  }

  /** Number of non-idle slots of `g`. */
  function Busy(g: seq<Slot>): (c: nat)
    ensures c <= |g|
  {
    if g == [] then 0 else Busy(g[..|g| - 1]) + (if g[|g| - 1].Some? then 1 else 0)
  }

  /** Units of service received so far, summed over the table. */
  function Served(ps: seq<Process>): int
  {
    if ps == [] then 0
    else Served(ps[..|ps| - 1]) + (ps[|ps| - 1].burst - ps[|ps| - 1].remaining)
  }

  function TotalBurst(ps: seq<Process>): int
  {
    if ps == [] then 0 else TotalBurst(ps[..|ps| - 1]) + ps[|ps| - 1].burst
  }

  lemma CountAppend(g: seq<Slot>, x: Slot, y: Slot)
    ensures Count(g + [x], y) == Count(g, y) + (if x == y then 1 else 0)
    ensures Busy(g + [x]) == Busy(g) + (if x.Some? then 1 else 0)
  {
  }

  /** Writing slot `t` and taking the first `t + 1` slots extends the old prefix by one. */
  lemma WriteExtendsPrefix(g: seq<Slot>, t: nat, x: Slot, y: Slot)
    requires t < |g|
    ensures g[t := x][..t + 1] == g[..t] + [x]
    ensures Count(g[t := x][..t + 1], y) == Count(g[..t], y) + (if x == y then 1 else 0)
    ensures Busy(g[t := x][..t + 1]) == Busy(g[..t]) + (if x.Some? then 1 else 0)
  {
  }

  lemma {:induction false} ServedUpdate(ps: seq<Process>, k: nat, p: Process)
    requires k < |ps|
    ensures Served(ps[k := p]) ==
            Served(ps) - (ps[k].burst - ps[k].remaining) + (p.burst - p.remaining)
    decreases |ps|
  {
    var n := |ps|;
    if k == n - 1 {
      assert ps[k := p][..n - 1] == ps[..n - 1];
    } else {
      assert ps[k := p][..n - 1] == ps[..n - 1][k := p];
      ServedUpdate(ps[..n - 1], k, p);
    }
  }

  lemma {:induction false} ServedPromote(ps: seq<Process>, time: int)
    ensures Served(Promote(ps, time)) == Served(ps)
    decreases |ps|
  {
    if ps != [] {
      assert Promote(ps, time)[..|ps| - 1] == Promote(ps[..|ps| - 1], time);
      ServedPromote(ps[..|ps| - 1], time);
    }
  }

  /** Nothing has been served while every process still has its whole burst left. */
  lemma {:induction false} ServedNone(ps: seq<Process>)
    requires forall i :: 0 <= i < |ps| ==> ps[i].remaining == ps[i].burst
    ensures Served(ps) == 0
    decreases |ps|
  {
    if ps != [] {
      ServedNone(ps[..|ps| - 1]);
    }
  }

  /** Once every process has no remaining time, the service received is the total burst. */
  lemma {:induction false} ServedAll(ps: seq<Process>)
    requires forall i :: 0 <= i < |ps| ==> ps[i].remaining == 0
    ensures Served(ps) == TotalBurst(ps)
    decreases |ps|
  {
    if ps != [] {
      ServedAll(ps[..|ps| - 1]);
    }
  }

  // ---------------------------------------------------------------------------------------
  // The invariant of a run

  /**
   * What holds of one record `p` at clock `time`, given the timeline `g` written so far:
   * the lifecycle agrees with the service received, the timing marks are ordered, and the
   * marks agree with the slots of `g` that hold `p`'s pid.
   */
  ghost predicate ProcInv(p: Process, g: seq<Slot>, time: nat)
    requires time <= |g|
  {
    && 0 <= p.arrival && 0 < p.burst && 0 <= p.remaining <= p.burst
    && (p.state == New ==> p.remaining == p.burst && time <= p.arrival)
    && (p.state == Ready ==> p.start.None?)
    && (p.state == Running ==> p.start.Some? && 0 < p.remaining)
    && (p.state == Completed <==> p.remaining == 0)
    && (p.start.None? <==> p.remaining == p.burst)
    && p.response == (if p.start.Some? then Some(p.start.value - p.arrival) else None)
    && (p.start.Some? ==>
          p.arrival <= p.start.value < time && p.start.value + (p.burst - p.remaining) <= time &&
          g[p.start.value] == Some(p.pid))
    && (p.completion.Some? <==> p.state == Completed)
    && (p.completion.Some? ==>
          p.start.Some? && p.start.value + p.burst <= p.completion.value <= time &&
          g[p.completion.value - 1] == Some(p.pid) &&
          forall t :: p.completion.value <= t < time ==> g[t] != Some(p.pid))
    && (forall t :: 0 <= t < time && (p.start.None? || t < p.start.value) ==> g[t] != Some(p.pid))
    && Count(g[..time], Some(p.pid)) == p.burst - p.remaining
  }

  /** Every record is consistent with the timeline, and records are numbered 1, 2, ... in order. */
  ghost predicate ProcsInv(ps: seq<Process>, g: seq<Slot>, time: nat)
    requires time <= |g|
  {
    forall i :: 0 <= i < |ps| ==> ps[i].pid == i + 1 && ProcInv(ps[i], g, time)
  }

  /**
   * The timeline holds only pids of the table, nothing after `horizon` (the program's
   * `max_time`), a busy slot just before it, and one busy slot per unit of service.
   */
  ghost predicate TimelineInv(ps: seq<Process>, g: seq<Slot>, time: nat, horizon: nat)
    requires horizon <= time <= |g|
  {
    && (forall t :: 0 <= t < time && g[t].Some? ==> 1 <= g[t].value <= |ps|)
    && (forall t :: horizon <= t < |g| ==> g[t] == None)
    && (horizon > 0 ==> g[horizon - 1].Some?)
    && Busy(g[..time]) == Served(ps)
    && Busy(g[..horizon]) == Busy(g[..time])
  }

  /** The invariant of a run. */
  ghost predicate Inv(s: Sim) {
    && 1 <= |s.procs| <= MaxProcesses
    && |s.gantt| == MaxTime && s.horizon <= s.time <= MaxTime
    && ProcsInv(s.procs, s.gantt, s.time)
    && TimelineInv(s.procs, s.gantt, s.time, s.horizon)
  }

  /** A record the tick does not select keeps its invariant at the next clock. */
  lemma NotSelectedKeepsInv(p: Process, g: seq<Slot>, t: nat, x: Slot)
    requires t < |g| && ProcInv(p, g, t) && x != Some(p.pid)
    ensures ProcInv(PromoteOne(p, t), g[t := x], t + 1)
  {
    WriteExtendsPrefix(g, t, x, Some(p.pid));
  }

  /** The selected record keeps its invariant after running for one unit. */
  lemma SelectedKeepsInv(p: Process, g: seq<Slot>, t: nat)
    requires t < |g| && ProcInv(p, g, t) && Eligible(PromoteOne(p, t), t)
    ensures ProcInv(Dispatch(PromoteOne(p, t), t), g[t := Some(p.pid)], t + 1)
  {
    WriteExtendsPrefix(g, t, Some(p.pid), Some(p.pid));
  }

  /** The state before the first tick satisfies the invariant. */
  lemma InitialInv(entries: seq<Entry>)
    requires ValidInput(entries)
    ensures Inv(Initial(entries))
  {
    var s := Initial(entries);
    ServedNone(s.procs);
  }

  /** An idle tick keeps every record consistent. */
  lemma IdleTickKeepsProcs(ps: seq<Process>, g: seq<Slot>, t: nat)
    requires t < |g| && ProcsInv(ps, g, t)
    ensures ProcsInv(Promote(ps, t), g[t := None], t + 1)
  {
    forall i | 0 <= i < |ps|
      ensures ProcInv(Promote(ps, t)[i], g[t := None], t + 1)
    {
      NotSelectedKeepsInv(ps[i], g, t, None);
    }
  }

  /** A tick that runs process `k` keeps every record consistent. */
  lemma BusyTickKeepsProcs(ps: seq<Process>, g: seq<Slot>, t: nat, k: nat)
    requires t < |g| && ProcsInv(ps, g, t) && k < |ps| && Eligible(Promote(ps, t)[k], t)
    ensures var qs := Promote(ps, t);
            ProcsInv(qs[k := Dispatch(qs[k], t)], g[t := Some(k + 1)], t + 1)
  {
    var qs := Promote(ps, t);
    var rs := qs[k := Dispatch(qs[k], t)];
    forall i | 0 <= i < |ps|
      ensures ProcInv(rs[i], g[t := Some(k + 1)], t + 1)
    {
      if i == k {
        SelectedKeepsInv(ps[i], g, t);
      } else {
        NotSelectedKeepsInv(ps[i], g, t, Some(k + 1));
      }
    }
  }

  /** An idle tick keeps the timeline accounting. */
  lemma IdleTickKeepsTimeline(ps: seq<Process>, g: seq<Slot>, t: nat, horizon: nat)
    requires horizon <= t < |g| && TimelineInv(ps, g, t, horizon)
    ensures TimelineInv(Promote(ps, t), g[t := None], t + 1, horizon)
  {
    ServedPromote(ps, t);
    WriteExtendsPrefix(g, t, None, None);
    assert g[t := None][..horizon] == g[..horizon];
  }

  /** A tick that runs process `k` keeps the timeline accounting. */
  lemma BusyTickKeepsTimeline(ps: seq<Process>, g: seq<Slot>, t: nat, horizon: nat, k: nat)
    requires horizon <= t < |g| && TimelineInv(ps, g, t, horizon) && k < |ps|
    requires Promote(ps, t)[k].remaining > 0
    ensures var qs := Promote(ps, t);
            TimelineInv(qs[k := Dispatch(qs[k], t)], g[t := Some(k + 1)], t + 1, t + 1)
  {
    var qs := Promote(ps, t);
    ServedPromote(ps, t);
    ServedUpdate(qs, k, Dispatch(qs[k], t));
    WriteExtendsPrefix(g, t, Some(k + 1), None);
  }

  /** One tick preserves the invariant. */
  lemma StepPreservesInv(s: Sim)
    requires Inv(s) && s.time < MaxTime
    ensures Inv(Step(s))
  {
    var t, ps := s.time, Promote(s.procs, s.time);
    match PickShortest(ps, t, |ps|)
    case None =>
      IdleStepKeepsInv(s);
    case Some(k) =>
      BusyStepKeepsInv(s, k);
  }

  lemma IdleStepKeepsInv(s: Sim)
    requires Inv(s) && s.time < MaxTime && Selected(s).None?
    ensures Inv(Step(s))
  {
    var t := s.time;
    var r := Sim(Promote(s.procs, t), s.gantt[t := None], t + 1, s.horizon);
    assert Step(s) == r;
    IdleTickKeepsProcs(s.procs, s.gantt, t);
    IdleTickKeepsTimeline(s.procs, s.gantt, t, s.horizon);
  }

  lemma BusyStepKeepsInv(s: Sim, k: nat)
    requires Inv(s) && s.time < MaxTime && Selected(s) == Some(k)
    ensures Inv(Step(s))
  {
    var t, ps := s.time, Promote(s.procs, s.time);
    assert k < |ps| && Eligible(ps[k], t);
    assert ps[k].pid == k + 1;
    var r := Sim(ps[k := Dispatch(ps[k], t)], s.gantt[t := Some(k + 1)], t + 1, t + 1);
    assert Step(s) == r;
    BusyTickKeepsProcs(s.procs, s.gantt, t, k);
    BusyTickKeepsTimeline(s.procs, s.gantt, t, s.horizon, k);
  }

  /** The whole loop preserves the invariant. */
  lemma {:induction false} FinalPreservesInv(s: Sim)
    requires Inv(s)
    ensures Inv(Final(s))
    decreases MaxTime - s.time
  {
    if !(AllDone(s.procs) || s.time == MaxTime) {
      StepPreservesInv(s);
      FinalPreservesInv(Step(s));
    }
  }

  // ---------------------------------------------------------------------------------------
  // What the invariant gives

  /** Under the invariant, a process is eligible after promotion exactly when it has arrived and is not complete. */
  lemma EligibleIffArrived(p: Process, g: seq<Slot>, t: nat)
    requires t <= |g| && ProcInv(p, g, t)
    ensures Eligible(PromoteOne(p, t), t) <==> p.arrival <= t && p.state != Completed
  {
  }

  /**
   * The processor idles in a tick exactly when every process either has not arrived yet or
   * is already complete: the scheduler never idles while work is waiting.
   */
  lemma IdleIffNothingWaiting(s: Sim)
    requires Inv(s)
    ensures Selected(s).None? <==>
            forall i :: 0 <= i < |s.procs| ==> s.procs[i].arrival > s.time || s.procs[i].state == Completed
  {
    var ps := Promote(s.procs, s.time);
    forall i | 0 <= i < |s.procs|
      ensures Eligible(ps[i], s.time) <==> s.procs[i].arrival <= s.time && s.procs[i].state != Completed
    {
      EligibleIffArrived(s.procs[i], s.gantt, s.time);
    }
  }

  lemma {:induction false} TotalBurstPositive(ps: seq<Process>)
    requires |ps| > 0 && forall i :: 0 <= i < |ps| ==> ps[i].burst > 0
    ensures TotalBurst(ps) > 0
    decreases |ps|
  {
    if |ps| > 1 {
      TotalBurstPositive(ps[..|ps| - 1]);
    }
  }

  /** A completed record ran exactly its burst between its start and its completion, within `[0, horizon)`. */
  lemma CompletedProcess(p: Process, g: seq<Slot>, time: nat, horizon: nat)
    requires horizon <= time <= |g| && ProcInv(p, g, time) && p.state == Completed
    requires forall t :: horizon <= t < |g| ==> g[t] == None
    ensures p.start.Some? && p.completion.Some?
    ensures p.arrival <= p.start.value < p.completion.value <= horizon
    ensures p.start.value + p.burst <= p.completion.value
    ensures p.completion.value - p.arrival - p.burst >= 0
    ensures Count(g[..time], Some(p.pid)) == p.burst
  {
  }

  /**
   * When every process has completed: the busy slots of `gantt[0..max_time)` add up to the
   * total burst; each process ran exactly its burst, first at its start time and last just
   * before its completion time; arrival <= start < completion <= max_time and
   * completion - arrival - burst >= 0; and `max_time` is the latest completion time.
   */
  lemma CompletedRun(s: Sim)
    requires Inv(s) && AllDone(s.procs)
    ensures Busy(s.gantt[..s.horizon]) == TotalBurst(s.procs)
    ensures forall i :: 0 <= i < |s.procs| ==>
              var p := s.procs[i];
              p.start.Some? && p.completion.Some? &&
              p.arrival <= p.start.value < p.completion.value <= s.horizon &&
              p.start.value + p.burst <= p.completion.value &&
              p.completion.value - p.arrival - p.burst >= 0 &&
              Count(s.gantt[..s.time], Some(p.pid)) == p.burst
    ensures exists i :: 0 <= i < |s.procs| && s.procs[i].completion == Some(s.horizon)
  {
    ServedAll(s.procs);
    TotalBurstPositive(s.procs);
    forall i | 0 <= i < |s.procs|
      ensures var p := s.procs[i];
              p.start.Some? && p.completion.Some? &&
              p.arrival <= p.start.value < p.completion.value <= s.horizon &&
              p.start.value + p.burst <= p.completion.value &&
              p.completion.value - p.arrival - p.burst >= 0 &&
              Count(s.gantt[..s.time], Some(p.pid)) == p.burst
    {
      CompletedProcess(s.procs[i], s.gantt, s.time, s.horizon);
    }
    LastBusyCompletes(s);
  }

  /** The process in the last busy slot completes exactly at `horizon`. */
  lemma LastBusyCompletes(s: Sim)
    requires Inv(s) && AllDone(s.procs) && s.horizon > 0
    ensures exists i :: 0 <= i < |s.procs| && s.procs[i].completion == Some(s.horizon)
  {
    var h := s.horizon;
    var v := s.gantt[h - 1].value;
    CompletedProcess(s.procs[v - 1], s.gantt, s.time, h);
    assert s.procs[v - 1].completion == Some(h);
  }

  // ---------------------------------------------------------------------------------------
  // The engine, updating its state in place

  /** One simulation run: the process table, the timeline, the clock and `max_time`. */
  class Srtf {
    const procs: array<Process>
    const gantt: array<Slot>
    var time: nat
    var horizon: nat

    /** The abstract state held by the arrays and fields. */
    ghost function Snapshot(): Sim
      reads this, procs, gantt
    {
      Sim(procs[..], gantt[..], time, horizon)
    }

    ghost predicate Valid()
      reads this, procs, gantt
    {
      Inv(Snapshot())
    }

    /** Builds the records of validated entries (pids 1..n) and an all-idle timeline. */
    constructor (entries: seq<Entry>)
      requires ValidInput(entries)
      ensures Valid() && Snapshot() == Initial(entries)
      ensures fresh(procs) && fresh(gantt)
    {
      procs := new Process[|entries|](i requires 0 <= i < |entries| => NewProcess(i + 1, entries[i]));
      gantt := new Slot[MaxTime](_ => None);
      time, horizon := 0, 0;
      new;
      assert procs[..] == Initial(entries).procs;
      assert gantt[..] == Initial(entries).gantt;
      InitialInv(entries);
    }

    /** Whether every process has completed. */
    method AllCompleted() returns (done: bool)
      ensures done <==> AllDone(procs[..])
    {
      for i := 0 to procs.Length
        invariant forall j :: 0 <= j < i ==> procs[j].state == Completed
      {
        if procs[i].state != Completed {
          return false;
        }
      }
      return true;
    }

    /**
     * One tick, the body of the scheduling loop: promote arrivals, select, then run the
     * selected process for one unit or record an idle unit.
     */
    method Tick()
      requires time < gantt.Length
      modifies this, procs, gantt
      ensures Snapshot() == Step(old(Snapshot()))
    {
      ghost var s := Snapshot();
      var t := time;
      for i := 0 to procs.Length
        modifies procs
        invariant forall j :: 0 <= j < i ==> procs[j] == PromoteOne(s.procs[j], t)
        invariant forall j :: i <= j < procs.Length ==> procs[j] == s.procs[j]
      {
        if procs[i].arrival <= t && procs[i].state == New {
          procs[i] := procs[i].(state := Ready);
        }
      }
      ghost var ps := procs[..];
      assert ps == Promote(s.procs, t);
      var sel := SelectShortest(procs, t);
      if sel.None? {
        gantt[t] := None;
        time := t + 1;
        assert gantt[..] == s.gantt[t := None];
        assert Snapshot() == Step(s);
      } else {
        var k := sel.value;
        Serve(k);
        assert procs[..] == ps[k := Dispatch(ps[k], t)];
        assert Snapshot() == Step(s);
      }
    }

    /**
     * The selected process `k` runs for the unit starting at the current clock: it becomes
     * Running, gets its start (and response) time on its first run, loses one unit of
     * remaining time, fills the current timeline slot, and completes when nothing remains;
     * the clock and `max_time` advance.
     */
    method Serve(k: nat)
      requires k < procs.Length && time < gantt.Length && procs[k].remaining > 0
      modifies this, procs, gantt
      ensures procs[..] == old(procs[..])[k := Dispatch(old(procs[k]), old(time))]
      ensures gantt[..] == old(gantt[..])[old(time) := Some(old(procs[k].pid))]
      ensures time == old(time) + 1 && horizon == time
    {
      var p := procs[k];
      if p.state != Running {
        p := p.(state := Running);
      }
      if p.start.None? {
        p := p.(start := Some(time), response := Some(time - p.arrival));
      }
      p := p.(remaining := p.remaining - 1);
      gantt[time] := Some(p.pid);
      time := time + 1;
      if p.remaining == 0 {
        p := p.(state := Completed, completion := Some(time));
      }
      procs[k] := p;
      horizon := time;
    }

    /** The scheduling loop: tick while some process is incomplete and the clock is below MaxTime. */
    method Run()
      requires Valid()
      modifies this, procs, gantt
      ensures Valid() && Snapshot() == Final(old(Snapshot()))
      ensures AllDone(procs[..]) || time == MaxTime
    {
      var done := AllCompleted();
      while !done && time < MaxTime
        invariant Valid() && Final(Snapshot()) == Final(old(Snapshot()))
        invariant done <==> AllDone(procs[..])
        decreases MaxTime - time
      {
        StepPreservesInv(Snapshot());
        Tick();
        done := AllCompleted();
      }
    }
  }
}
