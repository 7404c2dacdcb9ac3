/**
 * The process record of the SRTF simulator, its lifecycle states, the fixed limits of the
 * program, and the validation of the typed input that the records are built from.
 */
module Processes {
  import opened Options

  /** Capacity of the process table (MAX_PROCESSES). */
  const MaxProcesses := 10
  /** Safety ceiling on simulated time units, and the length of the timeline (MAX_TIME). */
  const MaxTime := 1000
  /** Largest value of a C `int` (INT_MAX); every field of a record is an `int`. */
  const IntMax := 0x7FFF_FFFF

  datatype State = New | Ready | Running | Completed

  /** One timeline slot: the pid that ran in that time unit, or `None` for an idle unit. */
  type Slot = Option<nat>

  /**
   * One schedulable unit. The C sentinel `-1` of `start`, `completion` and `response`
   * is `None` here; `turnaround` and `waiting` are `None` until the metrics pass fills them.
   */
  datatype Process = Process(
    pid: nat,
    arrival: int,
    burst: int,
    remaining: int,
    completion: Option<int>,
    start: Option<int>,
    response: Option<int>,
    turnaround: Option<int>,
    waiting: Option<int>,
    state: State)

  /** One process as typed at the prompt. */
  datatype Entry = Entry(arrival: int, burst: int)

  /** The reasons the input is rejected before any simulation; `process` numbers from 1. */
  datatype InputError =
    | InvalidCount(count: int)
    | InvalidArrival(process: nat)
    | InvalidBurst(process: nat)

  /** What `scanf("%d")` can deliver: a value of a C `int`. */
  predicate IsInt(x: int) {
    -IntMax - 1 <= x <= IntMax
  }

  predicate Representable(e: Entry) {
    IsInt(e.arrival) && IsInt(e.burst)
  }

  /** An entry the validation accepts: non-negative arrival, positive burst. */
  predicate ValidEntry(e: Entry) {
    Representable(e) && 0 <= e.arrival && 0 < e.burst
  }

  /** A process table the simulation can start from. */
  predicate ValidInput(entries: seq<Entry>) {
    1 <= |entries| <= MaxProcesses &&
    forall i :: 0 <= i < |entries| ==> ValidEntry(entries[i])
  }

  /** Every entry before position `k` was accepted. */
  ghost predicate AcceptedBefore(entries: seq<Entry>, k: nat)
    requires k <= |entries|
  {
    forall j :: 0 <= j < k ==> ValidEntry(entries[j])
  }

  /**
   * Checks the process count and then each entry in input order, arrival before burst,
   * and reports the first violation, as the reading loop of the program does.
   */
  method Validate(count: int, entries: seq<Entry>) returns (r: Outcome<InputError>)
    requires 1 <= count <= MaxProcesses ==> |entries| == count
    requires forall i :: 0 <= i < |entries| ==> Representable(entries[i])
    ensures r.Pass? <==> 1 <= count <= MaxProcesses && ValidInput(entries)
    ensures r.Fail? && r.error.InvalidCount? ==>
              r.error.count == count && !(1 <= count <= MaxProcesses)
    ensures r.Fail? && r.error.InvalidArrival? ==>
              1 <= count <= MaxProcesses && 1 <= r.error.process <= |entries| &&
              AcceptedBefore(entries, r.error.process - 1) &&
              entries[r.error.process - 1].arrival < 0
    ensures r.Fail? && r.error.InvalidBurst? ==>
              1 <= count <= MaxProcesses && 1 <= r.error.process <= |entries| &&
              AcceptedBefore(entries, r.error.process - 1) &&
              0 <= entries[r.error.process - 1].arrival &&
              entries[r.error.process - 1].burst <= 0
  {
    if count < 1 || count > MaxProcesses {
      return Fail(InvalidCount(count));
    }
    for i := 0 to count
      invariant AcceptedBefore(entries, i)
    {
      if entries[i].arrival < 0 {
        return Fail(InvalidArrival(i + 1));
      }
      if entries[i].burst <= 0 {
        return Fail(InvalidBurst(i + 1));
      }
    }
    return Pass;
  }

  /** The record built for the `i`-th accepted entry: pid `i + 1`, all marks unset. */
  function NewProcess(pid: nat, e: Entry): (p: Process)
  {
    Process(pid, e.arrival, e.burst, e.burst, None, None, None, None, None, New)
  }

  /** A process may run at `time`: arrived, not finished, and Ready or Running. */
  predicate Eligible(p: Process, time: int) {
    (p.state == Ready || p.state == Running) && p.remaining > 0 && p.arrival <= time
  }
}
