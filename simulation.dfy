/**
 * One run of the program from validated input to report: build the process table, run
 * the scheduling loop, compute the metrics, cut the chart into segments and sum the
 * metrics for the averages.
 */
module Simulation {
  import opened Options
  import opened Processes
  import opened Scheduler
  import opened Timeline
  import opened Metrics

  /** What a run reports: the final records, the chart's segments and the metric totals. */
  datatype Report = Report(
    procs: seq<Process>, segments: seq<Segment>, horizon: nat,
    turnaround: int, waiting: int, response: int)

  /** The state in which the scheduling loop stops for the given entries. */
  ghost function Outcome(entries: seq<Entry>): Sim
    requires ValidInput(entries)
  {
    Final(Initial(entries))
  }

  /** Validates the input, then simulates it; invalid input is reported, not simulated. */
  method Simulate(count: int, entries: seq<Entry>) returns (r: Result<Report, InputError>)
    requires 1 <= count <= MaxProcesses ==> |entries| == count
    requires forall i :: 0 <= i < |entries| ==> Representable(entries[i])
    ensures r.Failure? <==> !(1 <= count <= MaxProcesses && ValidInput(entries))
    ensures r.Success? ==>
              var s, rep := Outcome(entries), r.value;
              && Inv(s)
              && rep.procs == AllMetrics(s.procs)
              && rep.horizon == s.horizon
              && Encodes(rep.segments, s.gantt, s.horizon)
              && Expand(rep.segments) == s.gantt[..s.horizon]
              && rep.turnaround == TotalTurnaround(rep.procs)
              && rep.waiting == TotalWaiting(rep.procs)
              && rep.response == TotalResponse(rep.procs)
  {
    var v := Validate(count, entries);
    if v.Fail? {
      return Failure(v.error);
    }
    var sim := new Srtf(entries);
    sim.Run();
    FinalPreservesInv(Initial(entries));
    ComputeMetrics(sim.procs);
    var segs := Encode(sim.gantt, sim.horizon);
    if sim.horizon == 0 {
      ExpandInverts(segs, sim.gantt[..], 0);
    }
    var tat, wt, rt := Totals(sim.procs);
    return Success(Report(sim.procs[..], segs, sim.horizon, tat, wt, rt));
  }
}
