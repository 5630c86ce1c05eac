/**
 Trapezoidal integration of a sampled power trace over a time window, against the exact
 integral of the piecewise-linear power curve through the samples.
 Follows AppleSiliconMonitor in src/vetch/calibrate_metal.py. Times are milliseconds, power
 is watts, energy is watt-hours.
 */
module PowerIntegral {
  import opened Wrappers

  const MS_PER_HOUR := 3600000.0

  datatype Sample = Sample(t: real, w: real)

  ghost predicate Sorted(s: seq<Sample>) {
    forall i, j :: 0 <= i < j < |s| ==> s[i].t <= s[j].t
  }

  // Sum of g over consecutive pairs.
  function PairSum(s: seq<Sample>, g: (Sample, Sample) -> real): real {
    if |s| < 2 then 0.0 else PairSum(s[..|s| - 1], g) + g(s[|s| - 2], s[|s| - 1])
  }

  // ---------- the reference: the exact integral ----------

  function Clamp(x: real, lo: real, hi: real): real {
    if x < lo then lo else if x > hi then hi else x
  }

  function Slope(p: Sample, q: Sample): real
    requires p.t < q.t
  {
    (q.w - p.w) / (q.t - p.t)
  }

  // The line through p and q.
  function Line(p: Sample, q: Sample, x: real): real
    requires p.t < q.t
  {
    p.w + Slope(p, q) * (x - p.t)
  }

  // Its antiderivative vanishing at p.
  function Primitive(p: Sample, q: Sample, x: real): real
    requires p.t < q.t
  {
    p.w * (x - p.t) + Slope(p, q) * (x - p.t) * (x - p.t) / 2.0
  }

  // Watt-hours under the segment from p to q between times a and b.
  function Segment(a: real, b: real): (Sample, Sample) -> real {
    (p: Sample, q: Sample) =>
      if p.t < q.t then
        (Primitive(p, q, Clamp(b, p.t, q.t)) - Primitive(p, q, Clamp(a, p.t, q.t))) / MS_PER_HOUR
      else 0.0
  }

  // Watt-hours under the whole piecewise-linear curve between a and b, nothing outside it.
  function CurveWh(s: seq<Sample>, a: real, b: real): real {
    PairSum(s, Segment(a, b))
  }

  // Milliseconds of [a, b] the curve covers.
  function Covered(s: seq<Sample>, a: real, b: real): real {
    if s == [] then 0.0
    else Clamp(b, s[0].t, s[|s| - 1].t) - Clamp(a, s[0].t, s[|s| - 1].t)
  }

  // ---------- the code's functions ----------

  function TrapezoidPair(): (Sample, Sample) -> real {
    (p: Sample, q: Sample) => (q.w + p.w) / 2.0 * ((q.t - p.t) / MS_PER_HOUR)
  }

  function Trapezoid(e: seq<Sample>): real {
    PairSum(e, TrapezoidPair())
  }

  // The last sample strictly before a.
  function LeftAnchor(s: seq<Sample>, a: real): Option<Sample> {
    if s == [] then None
    else if s[|s| - 1].t < a then Some(s[|s| - 1])
    else LeftAnchor(s[..|s| - 1], a)
  }

  // The first sample strictly after b.
  function RightAnchor(s: seq<Sample>, b: real): Option<Sample> {
    if s == [] then None
    else if s[0].t > b then Some(s[0])
    else RightAnchor(s[1..], b)
  }

  function Window(s: seq<Sample>, a: real, b: real): seq<Sample> {
    if s == [] then []
    else Window(s[..|s| - 1], a, b) + if a <= s[|s| - 1].t <= b then [s[|s| - 1]] else []
  }

  function Interp(p: Sample, q: Sample, t: real): Sample
    requires p.t != q.t
  {
    var frac := (t - p.t) / (q.t - p.t);
    Sample(t, p.w + frac * (q.w - p.w))
  }

  // A sample interpolated at t between two neighbours, when there are two in order.
  function Edge(left: Option<Sample>, right: Option<Sample>, t: real): seq<Sample> {
    if left.Some? && right.Some? && right.value.t > left.value.t
    then [Interp(left.value, right.value, t)] else []
  }

  function Effective(s: seq<Sample>, a: real, b: real): seq<Sample> {
    var left, right, window := LeftAnchor(s, a), RightAnchor(s, b), Window(s, a, b);
    Edge(left, if window != [] then Some(window[0]) else right, a)
    + window
    + Edge(if window != [] then Some(window[|window| - 1]) else left, right, b)
  }

  function IntegrateWh(s: seq<Sample>, a: real, b: real): real {
    var e := Effective(s, a, b);
    if |e| == 0 then 0.0
    else if |e| == 1 then e[0].w * ((b - a) / MS_PER_HOUR)
    else Trapezoid(e)
  }

  // ---------- the monitor ----------

  // The samples one finished batch contributes: the last sits at tAfter, the others at
  // interval spacing before it.
  function BatchSamples(watts: seq<real>, tAfter: real, intervalMs: real): (batch: seq<Sample>)
    ensures |batch| == |watts|
  {
    seq(|watts|, i requires 0 <= i < |watts| =>
      Sample(tAfter - ((|watts| - 1 - i) as real) * intervalMs, watts[i]))
  }

  class AppleSiliconMonitor {
    const intervalMs: real
    var samples: seq<Sample>

    constructor (intervalMs: real)
      ensures samples == [] && this.intervalMs == intervalMs
    {
      this.intervalMs := intervalMs;
      samples := [];
    }

    // _collect_loop, one batch.
    method CollectBatch(watts: seq<real>, tAfter: real)
      modifies this
      ensures samples == old(samples) + BatchSamples(watts, tAfter, intervalMs)
    {
      var n := |watts|;
      for i := 0 to n
        invariant samples == old(samples) + BatchSamples(watts, tAfter, intervalMs)[..i]
      {
        var monoMs := tAfter - ((n - 1 - i) as real) * intervalMs;
        ghost var batch := BatchSamples(watts, tAfter, intervalMs);
        assert |batch| == n && batch[i] == Sample(monoMs, watts[i]);
        assert batch[..i + 1] == batch[..i] + [batch[i]];
        samples := samples + [Sample(monoMs, watts[i])];
      }
    }

    method Integrate(tStart: real, tEnd: real) returns (wh: real)
      ensures wh == IntegrateWh(samples, tStart, tEnd)
    {
      hide Trapezoid, Interp, PairSum;
      var all := samples;
      if all == [] {
        return 0.0;
      }
      var left, right, window := FindAnchors(all, tStart, tEnd);
      var rightFirst := if window != [] then Some(window[0]) else right;
      var boundary := Edge(left, rightFirst, tStart);
      var leftLast := if window != [] then Some(window[|window| - 1]) else left;
      var tail := Edge(leftLast, right, tEnd);
      var effective := boundary + window + tail;
      if |effective| < 2 {
        if effective == [] {
          return 0.0;
        }
        return effective[0].w * ((tEnd - tStart) / MS_PER_HOUR);
      }
      wh := SumTrapezoids(effective);
    }
  }

  // The scans for the anchors, from the end and from the start, and the window filter.
  method FindAnchors(all: seq<Sample>, tStart: real, tEnd: real)
    returns (left: Option<Sample>, right: Option<Sample>, window: seq<Sample>)
    ensures left == LeftAnchor(all, tStart)
    ensures right == RightAnchor(all, tEnd)
    ensures window == Window(all, tStart, tEnd)
  {
    assert all[..|all|] == all;
    left := None;
    for i := |all| downto 0
      invariant left.None?
      invariant LeftAnchor(all, tStart) == LeftAnchor(all[..i], tStart)
    {
      assert all[..i + 1][..i] == all[..i];
      if all[i].t < tStart {
        left := Some(all[i]);
        break;
      }
    }
    right := None;
    for i := 0 to |all|
      invariant right.None?
      invariant RightAnchor(all, tEnd) == RightAnchor(all[i..], tEnd)
    {
      assert all[i..][1..] == all[i + 1..];
      if all[i].t > tEnd {
        right := Some(all[i]);
        break;
      }
    }
    window := [];
    for i := 0 to |all|
      invariant window == Window(all[..i], tStart, tEnd)
    {
      assert all[..i + 1][..i] == all[..i];
      if tStart <= all[i].t <= tEnd {
        window := window + [all[i]];
      }
    }
  }

  // The closing loop of integrate.
  method SumTrapezoids(e: seq<Sample>) returns (wh: real)
    requires |e| >= 2
    ensures wh == Trapezoid(e)
  {
    wh := 0.0;
    for i := 1 to |e|
      invariant wh == Trapezoid(e[..i])
    {
      var dtH := (e[i].t - e[i - 1].t) / MS_PER_HOUR;
      var avgW := (e[i].w + e[i - 1].w) / 2.0;
      wh := wh + avgW * dtH;
      assert e[..i + 1][..i] == e[..i];
    }
    assert e[..|e|] == e;
  }

  // A batch carries its readings in order, one interval apart, the last at the return.
  lemma BatchEndsAtReturn(watts: seq<real>, tAfter: real, intervalMs: real, i: nat)
    requires i < |watts|
    ensures
      var b := BatchSamples(watts, tAfter, intervalMs);
      && b[i].w == watts[i]
      && if i < |watts| - 1 then b[i + 1].t == b[i].t + intervalMs else b[i].t == tAfter
  {
    var n := (|watts| - 1 - i) as real;
    assert n * intervalMs == (n - 1.0) * intervalMs + intervalMs;
  }

  // A batch is in time order, and appending it keeps the trace in order exactly when it does
  // not start before the trace ends.
  lemma BatchKeepsOrderIff(s: seq<Sample>, watts: seq<real>, tAfter: real, intervalMs: real)
    requires Sorted(s) && intervalMs >= 0.0
    ensures Sorted(s + BatchSamples(watts, tAfter, intervalMs)) <==>
            s == [] || watts == [] || s[|s| - 1].t <= tAfter - ((|watts| - 1) as real) * intervalMs
  {
    hide Sorted;
    var b := BatchSamples(watts, tAfter, intervalMs);
    BatchIsSorted(watts, tAfter, intervalMs);
    SortedConcatIff(s, b);
    if watts != [] { assert b[0].t == tAfter - ((|watts| - 1) as real) * intervalMs; }
  }

  lemma BatchIsSorted(watts: seq<real>, tAfter: real, intervalMs: real)
    requires intervalMs >= 0.0
    ensures Sorted(BatchSamples(watts, tAfter, intervalMs))
  {
    var b := BatchSamples(watts, tAfter, intervalMs);
    forall i, j | 0 <= i < j < |b| ensures b[i].t <= b[j].t {
      StepsBack((|watts| - 1 - i) as real, (|watts| - 1 - j) as real, intervalMs);
    }
  }

  lemma StepsBack(m: real, n: real, intervalMs: real)
    requires m >= n && intervalMs >= 0.0
    ensures m * intervalMs >= n * intervalMs
  {
    assert (m - n) * intervalMs >= 0.0;
  }

  lemma SortedConcatIff(s: seq<Sample>, b: seq<Sample>)
    requires Sorted(s) && Sorted(b)
    ensures Sorted(s + b) <==> s == [] || b == [] || s[|s| - 1].t <= b[0].t
  {
    var all := s + b;
    assert forall i :: 0 <= i < |s| ==> all[i] == s[i];
    assert forall j :: 0 <= j < |b| ==> all[|s| + j] == b[j];
    if s != [] && b != [] {
      assert all[|s| - 1] == s[|s| - 1] && all[|s|] == b[0];
      if s[|s| - 1].t <= b[0].t {
        forall i, j | 0 <= i < j < |all| ensures all[i].t <= all[j].t {
          if i < |s| && |s| <= j {
            assert s[i].t <= s[|s| - 1].t && b[0].t <= b[j - |s|].t;
          }
        }
      }
    } else {
      assert all == s || all == b;
    }
  }
}
