/**
 * The segment detection of the Gantt chart: the timeline `gantt[0..max_time)` is turned into
 * maximal runs of equal slots, each a `(pid, start, end)` segment.
 */
module Timeline {
  import opened Options
  import opened Processes

  /** The slots `[start, end)` all hold `pid` (`None` for an idle run). */
  datatype Segment = Segment(pid: Slot, start: nat, end: nat)

  /**
   * `segs` is the maximal run-length encoding of the first `n` slots of `g`: the segments are
   * non-empty, start at 0, follow each other without gap or overlap up to `n`, every slot of a
   * segment holds the segment's pid, and neighbouring segments have different pids.
   */
  ghost predicate Encodes(segs: seq<Segment>, g: seq<Slot>, n: nat)
    requires n <= |g|
  {
    && (segs == [] <==> n == 0)
    && (segs != [] ==> segs[0].start == 0 && segs[|segs| - 1].end == n)
    && (forall i :: 0 <= i < |segs| ==> segs[i].start < segs[i].end <= n)
    && (forall i, j :: 0 <= i && j == i + 1 && j < |segs| ==>
          segs[i].end == segs[j].start && segs[i].pid != segs[j].pid)
    && (forall i, t :: 0 <= i < |segs| && segs[i].start <= t < segs[i].end ==> g[t] == segs[i].pid)
  }

  /** The slots a segment stands for. */
  function Slots(sg: Segment): (r: seq<Slot>)
  {
    seq(if sg.start <= sg.end then sg.end - sg.start else 0, _ => sg.pid)
  }

  /** The timeline the segments stand for, laid out one after the other. */
  function Expand(segs: seq<Segment>): (r: seq<Slot>)
  {
    if segs == [] then [] else Expand(segs[..|segs| - 1]) + Slots(segs[|segs| - 1])
  }

  /** The first `k` segments of an encoding lay out exactly the slots up to the end of segment `k - 1`. */
  lemma {:induction false} ExpandPrefix(segs: seq<Segment>, g: seq<Slot>, n: nat, k: nat)
    requires n <= |g| && Encodes(segs, g, n) && 1 <= k <= |segs|
    ensures Expand(segs[..k]) == g[..segs[k - 1].end]
  {
    var last := segs[k - 1];
    assert segs[..k][..k - 1] == segs[..k - 1];
    if k == 1 {
      assert Expand(segs[..k]) == Slots(last);
    } else {
      ExpandPrefix(segs, g, n, k - 1);
      assert segs[k - 2].end == last.start;
      assert g[..last.end] == g[..last.start] + g[last.start..last.end];
    }
  }

  /** Decoding an encoding of the first `n` slots gives those slots back. */
  lemma ExpandInverts(segs: seq<Segment>, g: seq<Slot>, n: nat)
    requires n <= |g| && Encodes(segs, g, n)
    ensures Expand(segs) == g[..n]
  {
    if segs != [] {
      ExpandPrefix(segs, g, n, |segs|);
      assert segs[..|segs|] == segs;
    }
  }

  /** A segment ends at `n` or where the slot value changes. */
  lemma EndIsChange(segs: seq<Segment>, g: seq<Slot>, n: nat, i: nat)
    requires n <= |g| && Encodes(segs, g, n) && i < |segs|
    ensures i < |segs| - 1 <==> segs[i].end < n
    ensures segs[i].end < n ==> g[segs[i].end] != segs[i].pid
  {
    if i < |segs| - 1 {
      assert segs[i].end == segs[i + 1].start;
      assert g[segs[i + 1].start] == segs[i + 1].pid;
    }
  }

  /** The first position at or after `t` that does not hold `x`, or `n`. */
  function RunEnd(g: seq<Slot>, n: nat, x: Slot, t: nat): (e: nat)
    requires t <= n <= |g|
    decreases n - t
  {
    if t == n || g[t] != x then t else RunEnd(g, n, x, t + 1)
  }

  /** A run of `x` over `[t, e)` that stops at `n` or at a change ends where `RunEnd` says. */
  lemma {:induction false} RunEndAt(g: seq<Slot>, n: nat, x: Slot, t: nat, e: nat)
    requires t <= e <= n <= |g|
    requires forall u :: t <= u < e ==> g[u] == x
    requires e == n || g[e] != x
    ensures RunEnd(g, n, x, t) == e
    decreases e - t
  {
    if t < e {
      RunEndAt(g, n, x, t + 1, e);
    }
  }

  /** Two encodings of the same slots agree on their first `k` segments. */
  lemma {:induction false} EncodingsAgreeUpTo(a: seq<Segment>, b: seq<Segment>, g: seq<Slot>, n: nat, k: nat)
    requires n <= |g| && Encodes(a, g, n) && Encodes(b, g, n)
    requires k <= |a| && k <= |b|
    ensures forall j :: 0 <= j < k ==> a[j] == b[j]
  {
    if k > 0 {
      EncodingsAgreeUpTo(a, b, g, n, k - 1);
      var i := k - 1;
      if i > 0 {
        assert a[i - 1] == b[i - 1];
      }
      // both segments start at the same slot, hence hold the same pid ...
      assert a[i].start == b[i].start;
      assert g[a[i].start] == a[i].pid && g[b[i].start] == b[i].pid;
      // ... and both end at the first change after it
      EndIsChange(a, g, n, i);
      EndIsChange(b, g, n, i);
      RunEndAt(g, n, a[i].pid, a[i].start, a[i].end);
      RunEndAt(g, n, b[i].pid, b[i].start, b[i].end);
    }
  }

  /** The slots have exactly one maximal run-length encoding, so encoding is deterministic. */
  lemma EncodingUnique(a: seq<Segment>, b: seq<Segment>, g: seq<Slot>, n: nat)
    requires n <= |g| && Encodes(a, g, n) && Encodes(b, g, n)
    ensures a == b
  {
    var m := if |a| <= |b| then |a| else |b|;
    EncodingsAgreeUpTo(a, b, g, n, m);
    if m > 0 {
      assert a[m - 1] == b[m - 1];
      EndIsChange(a, g, n, m - 1);
      EndIsChange(b, g, n, m - 1);
    }
  }

  /** An encoding of the first `s` slots extended by the run `[s, e)` encodes the first `e`. */
  lemma AppendRun(segs: seq<Segment>, g: seq<Slot>, pid: Slot, s: nat, e: nat)
    requires s < e <= |g| && Encodes(segs, g, s)
    requires forall u :: s <= u < e ==> g[u] == pid
    requires segs != [] ==> segs[|segs| - 1].pid != pid
    ensures Encodes(segs + [Segment(pid, s, e)], g, e)
  {
  }

  /** Segment detection over `gantt[0..maxTime)`; nothing for an empty or negative `maxTime`. */
  method Encode(gantt: array<Slot>, maxTime: int) returns (segs: seq<Segment>)
    requires maxTime <= gantt.Length
    ensures maxTime <= 0 ==> segs == []
    ensures maxTime > 0 ==> Encodes(segs, gantt[..], maxTime) && |segs| <= maxTime
    ensures maxTime > 0 ==> Expand(segs) == gantt[..maxTime]
  {
    if maxTime <= 0 {
      return [];
    }
    ghost var g := gantt[..];
    segs := [];
    var currentPid := gantt[0];
    var start := 0;
    for t := 1 to maxTime
      invariant 0 <= start < t
      invariant |segs| <= start
      invariant Encodes(segs, g, start)
      invariant currentPid == g[start]
      invariant forall u :: start <= u < t ==> g[u] == currentPid
      invariant segs != [] ==> segs[|segs| - 1].pid != currentPid
    {
      if gantt[t] != currentPid {
        AppendRun(segs, g, currentPid, start, t);
        segs := segs + [Segment(currentPid, start, t)];
        currentPid := gantt[t];
        start := t;
      }
    }
    AppendRun(segs, g, currentPid, start, maxTime);
    segs := segs + [Segment(currentPid, start, maxTime)];
    ExpandInverts(segs, g, maxTime);
  }
}
