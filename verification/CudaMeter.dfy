/**
 The CUDA energy meter: a cumulative hardware counter read at marks, or power samples
 integrated with the edge readings held. Also net energy after idle subtraction.
 Follows _CudaEnergyMeter and _net_energy_wh in src/vetch/calibrate_cuda.py.
 */
module CudaMeter {
  import opened Wrappers
  import opened PowerIntegral
  import opened IntegralTheorems

  // A point in time with, in counter mode, the cumulative energy in millijoules.
  datatype Mark = Mark(t: real, energy: Option<real>)

  datatype MeterError = NoReading | WentBackwards | SamplerFailed

  // ---------- counter mode ----------

  function CounterEnergy(start: Mark, end: Mark): Result<real, MeterError>
    requires start.energy.Some? && end.energy.Some?
  {
    var delta := end.energy.value - start.energy.value;
    if delta < 0.0 then Err(WentBackwards) else Ok(delta / MS_PER_HOUR)
  }

  ghost predicate Read(marks: seq<Mark>) {
    forall i :: 0 <= i < |marks| ==> marks[i].energy.Some?
  }

  // Energy window by window along a chain of marks, failing with the first bad window.
  function ChainEnergy(marks: seq<Mark>): Result<real, MeterError>
    requires Read(marks)
  {
    if |marks| < 2 then Ok(0.0)
    else
      var n := |marks|;
      var before := ChainEnergy(marks[..n - 1]);
      var last := CounterEnergy(marks[n - 2], marks[n - 1]);
      if before.Err? then before else if last.Err? then last else Ok(before.result + last.result)
  }

  // A chain yields a value exactly when the counter never decreased along it ...
  lemma {:induction false} ChainYieldsIffMonotone(marks: seq<Mark>)
    requires Read(marks)
    ensures ChainEnergy(marks).Ok? <==>
            forall i :: 0 < i < |marks| ==> marks[i - 1].energy.value <= marks[i].energy.value
  {
    var n := |marks|;
    if n >= 2 {
      ChainYieldsIffMonotone(marks[..n - 1]);
      if ChainEnergy(marks[..n - 1]).Err? {
        var i :| 0 < i < n - 1 && marks[..n - 1][i - 1].energy.value > marks[..n - 1][i].energy.value;
        assert marks[i - 1].energy.value > marks[i].energy.value;
      }
    }
  }

  // ... and then the windows telescope: their sum is the energy between the two end marks.
  lemma {:induction false} CounterTelescopes(marks: seq<Mark>)
    requires Read(marks) && |marks| >= 1 && ChainEnergy(marks).Ok?
    ensures CounterEnergy(marks[0], marks[|marks| - 1]) == ChainEnergy(marks)
  {
    var n := |marks|;
    if n >= 2 {
      CounterTelescopes(marks[..n - 1]);
    }
  }

  // A counter that ends lower than it began is caught in some window of every chain.
  lemma {:induction false} ResetNeverHidden(marks: seq<Mark>)
    requires Read(marks) && |marks| >= 1
    requires marks[|marks| - 1].energy.value < marks[0].energy.value
    ensures ChainEnergy(marks) == Err(WentBackwards)
  {
    var n := |marks|;
    if n >= 2 && marks[n - 2].energy.value < marks[0].energy.value {
      ResetNeverHidden(marks[..n - 1]);
    } else if n >= 2 {
      ChainErrorIsReset(marks[..n - 1]);
    }
  }

  lemma {:induction false} ChainErrorIsReset(marks: seq<Mark>)
    requires Read(marks)
    ensures ChainEnergy(marks).Err? ==> ChainEnergy(marks) == Err(WentBackwards)
  {
    if |marks| >= 2 { ChainErrorIsReset(marks[..|marks| - 1]); }
  }

  // Reading only the ends can miss a reset in between that the counter recovered from.
  lemma EndsCanMissAReset()
    ensures var m := [Mark(0.0, Some(5.0)), Mark(1.0, Some(2.0)), Mark(2.0, Some(9.0))];
      CounterEnergy(m[0], m[2]).Ok? && ChainEnergy(m) == Err(WentBackwards)
  {
    var m := [Mark(0.0, Some(5.0)), Mark(1.0, Some(2.0)), Mark(2.0, Some(9.0))];
    ChainYieldsIffMonotone(m);
    assert m[0].energy.value > m[1].energy.value;
    ChainErrorIsReset(m);
  }

  // ---------- sampling mode ----------

  function Distance(p: Sample, t: real): real {
    if p.t < t then t - p.t else p.t - t
  }

  // The first sample nearest to t.
  function Nearest(s: seq<Sample>, t: real): (p: Sample)
    requires s != []
    ensures p in s && forall q :: q in s ==> Distance(p, t) <= Distance(q, t)
  {
    if |s| == 1 then s[0]
    else
      var before := Nearest(s[..|s| - 1], t);
      var last := s[|s| - 1];
      assert forall q :: q in s <==> q in s[..|s| - 1] || q == last;
      if Distance(last, t) < Distance(before, t) then last else before
  }

  function HeldWh(s: seq<Sample>, t0: real, t1: real): real {
    var pts := Window(s, t0, t1);
    if |pts| < 2 then
      if s == [] then 0.0 else Nearest(s, (t0 + t1) / 2.0).w * ((t1 - t0) / MS_PER_HOUR)
    else
      Trapezoid(pts)
      + pts[0].w * ((pts[0].t - t0) / MS_PER_HOUR)
      + pts[|pts| - 1].w * ((t1 - pts[|pts| - 1].t) / MS_PER_HOUR)
  }

  class CudaEnergyMeter {
    const useCounter: bool
    var samples: seq<Sample>
    var samplerFailed: bool

    constructor (useCounter: bool)
      ensures this.useCounter == useCounter && samples == [] && !samplerFailed
    {
      this.useCounter := useCounter;
      samples := [];
      samplerFailed := false;
    }

    // One turn of _sample_loop: a failed reading stops the sampler for good.
    method SampleOnce(now: real, watts: Option<real>)
      modifies this
      ensures samplerFailed == (old(samplerFailed) || watts.None?)
      ensures samples == if samplerFailed then old(samples) else old(samples) + [Sample(now, watts.value)]
    {
      if samplerFailed {
        return;
      }
      if watts.None? {
        samplerFailed := true;
        return;
      }
      samples := samples + [Sample(now, watts.value)];
    }

    // A mark that EnergyBetween can use: in counter mode it carries a reading.
    predicate Usable(m: Mark) { useCounter ==> m.energy.Some? }

    // Every mark taken is usable; the counter's silence is refused, never marked as nothing.
    method TakeMark(now: real, reading: Option<real>) returns (m: Result<Mark, MeterError>)
      ensures m.Err? <==> useCounter && reading.None?
      ensures m.Err? ==> m.error == NoReading
      ensures m.Ok? ==> Usable(m.result) && m.result.t == now
      ensures m.Ok? ==> m.result.energy == None || m.result.energy == reading
      ensures m.Ok? && m.result.energy.Some? ==> useCounter
    {
      if useCounter {
        if reading.None? {
          return Err(NoReading);
        }
        return Ok(Mark(now, reading));
      }
      return Ok(Mark(now, None));
    }

    method EnergyBetween(start: Mark, end: Mark) returns (wh: Result<real, MeterError>)
      requires Usable(start) && Usable(end)
      ensures wh == if useCounter then CounterEnergy(start, end)
                    else if samplerFailed then Err(SamplerFailed)
                    else Ok(HeldWh(samples, start.t, end.t))
    {
      if useCounter {
        var delta := end.energy.value - start.energy.value;
        if delta < 0.0 {
          return Err(WentBackwards);
        }
        return Ok(delta / MS_PER_HOUR);
      }
      if samplerFailed {
        return Err(SamplerFailed);
      }
      var e := IntegrateHeld(start.t, end.t);
      return Ok(e);
    }

    method NearestPower(t0: real, t1: real) returns (w: Option<real>)
      ensures w == if samples == [] then None else Some(Nearest(samples, (t0 + t1) / 2.0).w)
    {
      if samples == [] {
        return None;
      }
      var mid := (t0 + t1) / 2.0;
      var best := samples[0];
      for i := 1 to |samples|
        invariant best == Nearest(samples[..i], mid)
      {
        assert samples[..i + 1][..i] == samples[..i];
        if Distance(samples[i], mid) < Distance(best, mid) {
          best := samples[i];
        }
      }
      assert samples[..|samples|] == samples;
      return Some(best.w);
    }

    // _integrate
    method IntegrateHeld(t0: real, t1: real) returns (wh: real)
      ensures wh == HeldWh(samples, t0, t1)
    {
      hide Trapezoid, Nearest;
      var pts: seq<Sample> := [];
      for i := 0 to |samples|
        invariant pts == Window(samples[..i], t0, t1)
      {
        assert samples[..i + 1][..i] == samples[..i];
        if t0 <= samples[i].t <= t1 {
          pts := pts + [samples[i]];
        }
      }
      assert samples[..|samples|] == samples;
      if |pts| < 2 {
        var nearest := NearestPower(t0, t1);
        if nearest.None? {
          return 0.0;
        }
        return nearest.value * ((t1 - t0) / MS_PER_HOUR);
      }
      wh := SumTrapezoids(pts);
      wh := wh + pts[0].w * ((pts[0].t - t0) / MS_PER_HOUR);
      wh := wh + pts[|pts| - 1].w * ((t1 - pts[|pts| - 1].t) / MS_PER_HOUR);
    }
  }

  lemma {:induction false} WindowIsSorted(s: seq<Sample>, a: real, b: real)
    requires Sorted(s)
    ensures Sorted(Window(s, a, b))
    ensures forall p :: p in Window(s, a, b) ==> p in s && a <= p.t <= b
  {
    if s != [] {
      var r, last := s[..|s| - 1], s[|s| - 1];
      WindowIsSorted(r, a, b);
      var w := Window(r, a, b);
      forall p | p in w ensures p in s && p.t <= last.t {
        var k :| 0 <= k < |r| && r[k] == p;
        assert s[k] == r[k];
      }
      AppendSorted(w, last);
      hide Sorted;
    }
  }

  lemma AppendSorted(w: seq<Sample>, last: Sample)
    requires Sorted(w) && forall p :: p in w ==> p.t <= last.t
    ensures Sorted(w + [last])
  {
  }

  // The window's samples with the first and last reading held out to its edges.
  function HeldCurve(pts: seq<Sample>, a: real, b: real): seq<Sample>
    requires pts != []
  {
    [Sample(a, pts[0].w)] + pts + [Sample(b, pts[|pts| - 1].w)]
  }

  lemma HeldCurveInOrder(pts: seq<Sample>, a: real, b: real)
    requires Sorted(pts) && pts != [] && forall p :: p in pts ==> a <= p.t <= b
    ensures Sorted(HeldCurve(pts, a, b))
    ensures forall i :: 0 <= i < |pts| + 2 ==> a <= HeldCurve(pts, a, b)[i].t <= b
  {
    var first, last := Sample(a, pts[0].w), Sample(b, pts[|pts| - 1].w);
    assert forall p :: p in pts + [last] <==> p in pts || p == last;
    AppendSorted(pts, last);
    PrependSorted(first, pts + [last]);
    assert HeldCurve(pts, a, b) == [first] + (pts + [last]);
    assert a <= pts[0].t <= b by { assert pts[0] in pts; }
    hide Sorted, HeldCurve;
    forall i | 0 <= i < |pts| + 2 ensures a <= HeldCurve(pts, a, b)[i].t <= b {
      if 0 < i <= |pts| { assert HeldCurve(pts, a, b)[i] == pts[i - 1] && pts[i - 1] in pts; }
    }
  }

  lemma PrependSorted(first: Sample, w: seq<Sample>)
    requires Sorted(w) && forall p :: p in w ==> first.t <= p.t
    ensures Sorted([first] + w)
  {
    var s := [first] + w;
    forall i, j | 0 <= i < j < |s| ensures s[i].t <= s[j].t {
      assert s[j] == w[j - 1] && w[j - 1] in w;
      if i > 0 { assert s[i] == w[i - 1]; }
    }
  }

  // The held estimate is exact for the curve that keeps the first and last reading out to the
  // window's edges.
  lemma HeldIsExactOfHeldCurve(s: seq<Sample>, a: real, b: real)
    requires Sorted(s) && |Window(s, a, b)| >= 2
    ensures Sorted(HeldCurve(Window(s, a, b), a, b))
    ensures HeldWh(s, a, b) == CurveWh(HeldCurve(Window(s, a, b), a, b), a, b)
  {
    hide Trapezoid, CurveWh, PairSum, Window, Nearest;
    var pts := Window(s, a, b);
    WindowIsSorted(s, a, b);
    HeldCurveInOrder(pts, a, b);
    InsideIsTrapezoid(HeldCurve(pts, a, b), a, b);
    TrapezoidEnds([Sample(a, pts[0].w)], pts, [Sample(b, pts[|pts| - 1].w)]);
  }

  lemma Between(w: real, h: real, lo: real, hi: real)
    requires lo <= w <= hi && h >= 0.0
    ensures lo * h <= w * h <= hi * h
  {
    assert (w - lo) * h >= 0.0;
    assert (hi - w) * h >= 0.0;
  }

  // For any non-empty ordered trace, short windows and unsampled edges included, the estimate
  // lies between the least and greatest power times the full window.
  lemma HeldBounded(s: seq<Sample>, a: real, b: real, lo: real, hi: real)
    requires Sorted(s) && s != [] && a <= b && forall p :: p in s ==> lo <= p.w <= hi
    ensures lo * ((b - a) / MS_PER_HOUR) <= HeldWh(s, a, b) <= hi * ((b - a) / MS_PER_HOUR)
  {
    hide Trapezoid, Window;
    if |Window(s, a, b)| < 2 {
      var nearest := Nearest(s, (a + b) / 2.0);
      assert nearest in s;
      Between(nearest.w, (b - a) / MS_PER_HOUR, lo, hi);
    } else {
      HeldCurveBounded(s, a, b, lo, hi);
    }
  }

  lemma HeldCurveBounded(s: seq<Sample>, a: real, b: real, lo: real, hi: real)
    requires Sorted(s) && |Window(s, a, b)| >= 2 && a <= b && forall p :: p in s ==> lo <= p.w <= hi
    ensures lo * ((b - a) / MS_PER_HOUR) <= HeldWh(s, a, b) <= hi * ((b - a) / MS_PER_HOUR)
  {
    hide HeldWh, CurveWh, Window;
    var pts := Window(s, a, b);
    WindowIsSorted(s, a, b);
    var held := HeldCurve(pts, a, b);
    HeldIsExactOfHeldCurve(s, a, b);
    forall i | 0 <= i < |held| ensures lo <= held[i].w <= hi {
      assert pts[0] in pts && pts[|pts| - 1] in pts;
      if 0 < i <= |pts| { assert held[i] == pts[i - 1]; }
    }
    CurveBounded(held, a, b, lo, hi);
  }

  // The two meters agree on a window that starts and ends on a sample.
  lemma HeldAgreesOnSampleBoundaries(s: seq<Sample>, a: real, b: real)
    requires Sorted(s) && a < b
    requires (exists i :: 0 <= i < |s| && s[i].t == a) && exists i :: 0 <= i < |s| && s[i].t == b
    ensures HeldWh(s, a, b) == IntegrateWh(s, a, b)
  {
    hide Trapezoid, CurveWh, PairSum, IntegrateWh, HeldWh, Window, LeftAnchor, RightAnchor;
    var i :| 0 <= i < |s| && s[i].t == a;
    var j :| 0 <= j < |s| && s[j].t == b;
    var lo, hi := WindowSplits(s, a, b);
    assert lo <= i < hi && lo <= j < hi && i < j;
    assert s[lo].t <= s[i].t && s[j].t <= s[hi - 1].t;
    IntegrateIsExact(s, a, b);
    HeldIsTrapezoid(s, a, b, lo, hi);
    CurveIsTrapezoid(s, a, b, lo, hi);
  }

  lemma HeldIsTrapezoid(s: seq<Sample>, a: real, b: real, lo: nat, hi: nat)
    requires Splits(s, a, b, lo, hi) && lo < hi - 1 && s[lo].t == a && s[hi - 1].t == b
    ensures HeldWh(s, a, b) == Trapezoid(s[lo..hi])
  {
    hide Trapezoid, Window, LeftAnchor, RightAnchor, Nearest;
    var pts := s[lo..hi];
    assert pts[0] == s[lo] && pts[|pts| - 1] == s[hi - 1];
  }

  lemma CurveIsTrapezoid(s: seq<Sample>, a: real, b: real, lo: nat, hi: nat)
    requires Sorted(s) && a < b && Splits(s, a, b, lo, hi) && lo < hi && s[lo].t == a && s[hi - 1].t == b
    ensures CurveWh(s, a, b) == Trapezoid(s[lo..hi])
  {
    hide Trapezoid, CurveWh, Interp, TrapezoidPair, Window, LeftAnchor, RightAnchor;
    WindowOfCurve(s, a, b, lo, hi);
    HeadOfCurve(s, a, b, lo);
    TailOfCurve(s, a, b, hi);
    if lo > 0 { InterpTime(s[lo - 1], s[lo], a); ZeroWidth(Interp(s[lo - 1], s[lo], a), s[lo]); }
    if hi < |s| { InterpTime(s[hi - 1], s[hi], b); ZeroWidth(s[hi - 1], Interp(s[hi - 1], s[hi], b)); }
  }

  lemma InterpTime(p: Sample, q: Sample, t: real)
    requires p.t != q.t
    ensures Interp(p, q, t).t == t
  {
  }

  lemma ZeroWidth(p: Sample, q: Sample)
    requires p.t == q.t
    ensures TrapezoidPair()(p, q) == 0.0
  {
  }

  // So in sampling mode too, energy is additive over a split on a sample ...
  lemma HeldAdditiveOnSamples(s: seq<Sample>, a: real, b: real, c: real)
    requires Sorted(s) && a < b < c
    requires exists i :: 0 <= i < |s| && s[i].t == a
    requires exists i :: 0 <= i < |s| && s[i].t == b
    requires exists i :: 0 <= i < |s| && s[i].t == c
    ensures HeldWh(s, a, b) + HeldWh(s, b, c) == HeldWh(s, a, c)
  {
    hide HeldWh, IntegrateWh;
    HeldAgreesOnSampleBoundaries(s, a, b);
    HeldAgreesOnSampleBoundaries(s, b, c);
    HeldAgreesOnSampleBoundaries(s, a, c);
    IntegrateAdditive(s, a, b, c);
  }

  // ... but not over a split inside a gap.
  const GAP_TRACE := [Sample(0.0, 0.0), Sample(10.0, 3600000.0), Sample(20.0, 0.0)]

  lemma HeldNotAdditiveInGap()
    ensures Sorted(GAP_TRACE)
    ensures HeldWh(GAP_TRACE, 0.0, 12.0) == 7.0
    ensures HeldWh(GAP_TRACE, 12.0, 20.0) == 0.0
    ensures HeldWh(GAP_TRACE, 0.0, 20.0) == 10.0
  {
    hide Nearest, Trapezoid, Window;
    var p, q, r := Sample(0.0, 0.0), Sample(10.0, 3600000.0), Sample(20.0, 0.0);
    assert GAP_TRACE == [p, q, r];
    ThreeSampleWindow(p, q, r, 0.0, 12.0);
    ThreeSampleWindow(p, q, r, 12.0, 20.0);
    ThreeSampleWindow(p, q, r, 0.0, 20.0);
    ThreeSampleTrapezoid(p, q, r);
    assert TrapezoidPair()(p, q) == 5.0 && TrapezoidPair()(q, r) == 5.0;
    assert Window(GAP_TRACE, 0.0, 12.0) == [p, q] && Window(GAP_TRACE, 0.0, 20.0) == [p, q, r];
    var near := Nearest(GAP_TRACE, 16.0);
    assert Distance(r, 16.0) == 4.0 && r in GAP_TRACE;
    assert near == r;
  }

  lemma ThreeSampleTrapezoid(p: Sample, q: Sample, r: Sample)
    ensures Trapezoid([p, q]) == TrapezoidPair()(p, q)
    ensures Trapezoid([p, q, r]) == TrapezoidPair()(p, q) + TrapezoidPair()(q, r)
  {
    PairSumTwo(p, q, TrapezoidPair());
    assert [p, q, r][..2] == [p, q];
  }

  lemma ThreeSampleWindow(p: Sample, q: Sample, r: Sample, a: real, b: real)
    ensures Window([p, q, r], a, b)
            == (if a <= p.t <= b then [p] else []) + (if a <= q.t <= b then [q] else []) + if a <= r.t <= b then [r] else []
  {
    assert [p, q, r][..2] == [p, q] && [p, q][..1] == [p] && [p][..0] == [];
    assert Window([p], a, b) == if a <= p.t <= b then [p] else [];
    assert Window([p, q], a, b) == Window([p], a, b) + if a <= q.t <= b then [q] else [];
  }

  // ---------- net energy ----------

  function NetEnergyWh(rawWh: real, idleWatts: real, durationMs: real): real {
    var net := rawWh - idleWatts * (durationMs / MS_PER_HOUR);
    if net < 0.0 then 0.0 else net
  }

  // Idle subtraction at the meter and idle subtraction sample by sample agree over a covered
  // window whose power never drops below idle.
  lemma NetIsIntegralAboveIdle(s: seq<Sample>, a: real, b: real, idleWatts: real)
    requires Sorted(s) && a <= b && Covers(s, a, b) && forall i :: 0 <= i < |s| ==> s[i].w >= idleWatts
    ensures NetEnergyWh(IntegrateWh(s, a, b), idleWatts, b - a) == IntegrateWh(LessIdle(s, idleWatts), a, b)
  {
    hide IntegrateWh;
    IntegrateLessIdle(s, a, b, idleWatts);
    var hi := MaxPower(s);
    IntegrateBounded(s, a, b, idleWatts, hi);
  }

  lemma {:induction false} MaxPower(s: seq<Sample>) returns (hi: real)
    ensures forall i :: 0 <= i < |s| ==> s[i].w <= hi
  {
    if s == [] {
      hi := 0.0;
    } else {
      hi := MaxPower(s[..|s| - 1]);
      if hi < s[|s| - 1].w { hi := s[|s| - 1].w; }
    }
  }

  // ---------- short windows, and the clamp ----------

  // The i-th sample is the earliest of those closest to t.
  ghost predicate EarliestClosest(s: seq<Sample>, t: real, i: int) {
    && 0 <= i < |s|
    && (forall j :: 0 <= j < |s| ==> Away(s[i].t, t) <= Away(s[j].t, t))
    && (forall j :: 0 <= j < i ==> Away(s[i].t, t) < Away(s[j].t, t))
  }

  // The reading held over a short window is such a sample's.
  lemma {:induction false} NearestIsClosest(s: seq<Sample>, t: real) returns (i: int)
    requires s != []
    ensures EarliestClosest(s, t, i) && Nearest(s, t) == s[i]
  {
    var n := |s| - 1;
    NearestStep(s, t);
    if n == 0 {
      i := 0;
    } else {
      i := NearestIsClosest(s[..n], t);
      assert forall j :: 0 <= j < n ==> s[..n][j] == s[j];
      if Away(s[n].t, t) < Away(s[i].t, t) {
        i := n;
      }
      hide Nearest, Away;
    }
  }

  lemma NearestStep(s: seq<Sample>, t: real)
    requires s != []
    ensures
      var n := |s| - 1;
      Nearest(s, t)
      == if n == 0 then s[0]
         else if Away(s[n].t, t) < Away(Nearest(s[..n], t).t, t) then s[n] else Nearest(s[..n], t)
  {
  }

  // |t - u|
  function Away(t: real, u: real): real { if t >= u then t - u else u - t }

  lemma ShortWindowIsHeld(s: seq<Sample>, a: real, b: real)
    requires |Window(s, a, b)| < 2
    ensures s == [] ==> HeldWh(s, a, b) == 0.0
    ensures s != [] ==> HeldWh(s, a, b) * 3600000.0 == Nearest(s, a + (b - a) / 2.0).w * (b - a)
  {
    hide Window, Nearest;
    assert (a + b) / 2.0 == a + (b - a) / 2.0;
    if s != [] { HoursOf(Nearest(s, (a + b) / 2.0).w, b - a); }
  }

  lemma HoursOf(w: real, ms: real)
    ensures w * (ms / MS_PER_HOUR) * 3600000.0 == w * ms
  {
  }

  // Net energy is the gross less the idle draw, and nothing when the idle draw is more.
  lemma NetIsClamped(raw: real, idleWatts: real, ms: real)
    ensures
      var net := raw - idleWatts * (ms / 3600000.0);
      NetEnergyWh(raw, idleWatts, ms) == if net >= 0.0 then net else 0.0
  {
  }

  // ---------- the two modes measure one thing ----------

  // Watts times milliseconds under the power curve: the millijoules a hardware counter adds up.
  // It is the area of each segment's trapezoid, clipped to the window.
  function CurveMillijoules(s: seq<Sample>, a: real, b: real): real {
    if |s| < 2 then 0.0
    else CurveMillijoules(s[..|s| - 1], a, b) + SegmentMillijoules(s[|s| - 2], s[|s| - 1], a, b)
  }

  function SegmentMillijoules(p: Sample, q: Sample, a: real, b: real): real {
    if p.t < q.t then
      var x, y := Clamp(a, p.t, q.t), Clamp(b, p.t, q.t);
      (Line(p, q, x) + Line(p, q, y)) / 2.0 * (y - x)
    else 0.0
  }

  // 3 600 000 of them are a watt-hour.
  lemma {:induction false} MillijoulesAreWh(s: seq<Sample>, a: real, b: real)
    ensures CurveMillijoules(s, a, b) == CurveWh(s, a, b) * 3600000.0
  {
    hide SegmentMillijoules, Segment;
    if |s| >= 2 {
      MillijoulesAreWh(s[..|s| - 1], a, b);
      SegmentInWh(s[|s| - 2], s[|s| - 1], a, b);
    }
  }

  lemma SegmentInWh(p: Sample, q: Sample, a: real, b: real)
    ensures SegmentMillijoules(p, q, a, b) == Segment(a, b)(p, q) * 3600000.0
  {
    if p.t < q.t {
      var x, y := Clamp(a, p.t, q.t), Clamp(b, p.t, q.t);
      var d := Primitive(p, q, y) - Primitive(p, q, x);
      PrimitiveIsIntegral(p, q, x, y);
      hide Primitive, Line, Clamp;
      assert Segment(a, b)(p, q) == d / MS_PER_HOUR;
      assert SegmentMillijoules(p, q, a, b) == d;
    }
  }

  /**
   A counter that rises by the integral of the power curve gives, between two marks, exactly the
   watt-hours of the curve over that window, which over a covered window is what the sampled
   integral of the same trace gives.
   */
  lemma CounterAgreesWithCurve(s: seq<Sample>, start: Mark, end: Mark)
    requires Sorted(s) && start.energy.Some? && end.energy.Some? && start.t <= end.t
    requires end.energy.value - start.energy.value == CurveMillijoules(s, start.t, end.t) >= 0.0
    ensures CounterEnergy(start, end) == Ok(CurveWh(s, start.t, end.t))
    ensures |s| >= 2 ==> CounterEnergy(start, end) == Ok(IntegrateWh(s, start.t, end.t))
  {
    hide CurveMillijoules, CurveWh, IntegrateWh;
    MillijoulesAreWh(s, start.t, end.t);
    IntegrateIsExact(s, start.t, end.t);
  }

  // At a constant power that is the power times the hours.
  lemma CounterAtConstantPower(start: Mark, end: Mark, watts: real)
    requires start.energy.Some? && end.energy.Some? && start.t <= end.t && watts >= 0.0
    requires end.energy.value - start.energy.value == watts * (end.t - start.t)
    ensures CounterEnergy(start, end) == Ok(watts * (end.t - start.t) / 3600000.0)
  {
    assert watts * (end.t - start.t) >= 0.0;
  }
}
