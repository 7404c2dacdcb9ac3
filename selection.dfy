/**
 * The per-tick choice of the SRTF scheduler: a left-to-right scan for the eligible process
 * with the strictly smallest remaining time, so that on a tie the lowest index wins.
 */
module Selection {
  import opened Options
  import opened Processes

  /**
   * `k` is the process the scan must pick among the first `n`: it is eligible, no eligible
   * process has less remaining time, and every eligible process before it has more.
   */
  ghost predicate IsShortestFirst(ps: seq<Process>, time: int, n: nat, k: nat)
    requires n <= |ps|
  {
    k < n && Eligible(ps[k], time) &&
    (forall j :: 0 <= j < n && Eligible(ps[j], time) ==> ps[k].remaining <= ps[j].remaining) &&
    (forall j :: 0 <= j < k && Eligible(ps[j], time) ==> ps[k].remaining < ps[j].remaining)
  }

  /** At most one index meets `IsShortestFirst`, so the choice is determined by it. */
  lemma ShortestFirstUnique(ps: seq<Process>, time: int, n: nat, k1: nat, k2: nat)
    requires n <= |ps|
    requires IsShortestFirst(ps, time, n, k1) && IsShortestFirst(ps, time, n, k2)
    ensures k1 == k2
  {
  }

  /**
   * The scan over the first `n` processes with "nothing chosen yet" as its starting point:
   * the first eligible process is taken, and a later one replaces it only with strictly
   * less remaining time.
   */
  function PickShortest(ps: seq<Process>, time: int, n: nat): (r: Option<nat>)
    requires n <= |ps|
    ensures r.None? <==> forall j :: 0 <= j < n ==> !Eligible(ps[j], time)
    ensures r.Some? ==> IsShortestFirst(ps, time, n, r.value)
  {
    if n == 0 then None
    else
      var best := PickShortest(ps, time, n - 1);
      if Eligible(ps[n - 1], time) && (best.None? || ps[n - 1].remaining < ps[best.value].remaining)
      then Some(n - 1)
      else best
  }

  /**
   * The scan as the program writes it: the running minimum starts at INT_MAX, so only a
   * process with remaining time below INT_MAX can ever be taken.
   */
  function PickShortestAsWritten(ps: seq<Process>, time: int, n: nat): (r: Option<nat>)
    requires n <= |ps|
    ensures r.None? <==>
              forall j :: 0 <= j < n && Eligible(ps[j], time) ==> ps[j].remaining >= IntMax
    ensures r.Some? ==> IsShortestFirst(ps, time, n, r.value)
  {
    if n == 0 then None
    else
      var best := PickShortestAsWritten(ps, time, n - 1);
      var least := if best.None? then IntMax else ps[best.value].remaining;
      if Eligible(ps[n - 1], time) && ps[n - 1].remaining < least
      then Some(n - 1)
      else best
  }

  /** The two scans agree whenever some eligible process has less than INT_MAX remaining. */
  lemma AsWrittenAgreesBelowIntMax(ps: seq<Process>, time: int, n: nat, j: nat)
    requires n <= |ps| && j < n
    requires Eligible(ps[j], time) && ps[j].remaining < IntMax
    ensures PickShortestAsWritten(ps, time, n) == PickShortest(ps, time, n)
  {
  }

  /**
   * A lone process with burst INT_MAX (which the input validation accepts) is eligible at
   * its arrival, yet the scan as written picks nothing and the tick is recorded as idle;
   * the intended scan picks it.
   */
  lemma AsWrittenIdlesOnIntMaxBurst()
    ensures var ps := [Process(1, 0, IntMax, IntMax, None, None, None, None, None, Ready)];
            Eligible(ps[0], 0) &&
            PickShortestAsWritten(ps, 0, 1) == None &&
            PickShortest(ps, 0, 1) == Some(0)
  {
  }

  /** The selection loop of one tick, over the whole process table. */
  method SelectShortest(a: array<Process>, time: int) returns (idx: Option<nat>)
    ensures idx == PickShortest(a[..], time, a.Length)
    ensures idx.None? <==> forall j :: 0 <= j < a.Length ==> !Eligible(a[j], time)
    ensures idx.Some? ==> IsShortestFirst(a[..], time, a.Length, idx.value)
  {
    idx := None;
    var minRemaining := 0;
    for i := 0 to a.Length
      invariant idx == PickShortest(a[..], time, i)
      invariant idx.Some? ==> minRemaining == a[idx.value].remaining
    {
      if Eligible(a[i], time) && (idx.None? || a[i].remaining < minRemaining) {
        minRemaining := a[i].remaining;
        idx := Some(i);
      }
    }
    assert a[..] == a[..a.Length];
  }
}
