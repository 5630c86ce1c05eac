/**
 The metered energy of a window is the exact integral of the power curve.
 */
module IntegralTheorems {
  import opened Wrappers
  import opened PowerIntegral

  // ---------- sums over consecutive pairs ----------

  lemma {:induction false} PairSumSplit(s: seq<Sample>, j: int, g: (Sample, Sample) -> real)
    requires 0 <= j < |s|
    ensures PairSum(s, g) == PairSum(s[..j + 1], g) + PairSum(s[j..], g)
  {
    var n := |s|;
    if j == n - 1 {
      assert s[..j + 1] == s;
    } else {
      var r := s[..n - 1];
      PairSumSplit(r, j, g);
      assert r[..j + 1] == s[..j + 1];
      assert s[j..][..n - j - 1] == r[j..];
    }
  }

  lemma {:induction false} PairSumZero(s: seq<Sample>, g: (Sample, Sample) -> real)
    requires forall i :: 0 < i < |s| ==> g(s[i - 1], s[i]) == 0.0
    ensures PairSum(s, g) == 0.0
  {
    if |s| >= 2 { PairSumZero(s[..|s| - 1], g); }
  }

  lemma {:induction false} PairSumEqual(s: seq<Sample>, g: (Sample, Sample) -> real, h: (Sample, Sample) -> real)
    requires forall i :: 0 < i < |s| ==> g(s[i - 1], s[i]) == h(s[i - 1], s[i])
    ensures PairSum(s, g) == PairSum(s, h)
  {
    if |s| >= 2 { PairSumEqual(s[..|s| - 1], g, h); }
  }

  lemma PairSumTwo(p: Sample, q: Sample, g: (Sample, Sample) -> real)
    ensures PairSum([p, q], g) == g(p, q)
  {
    assert [p, q][..1] == [p];
  }

  // ---------- one segment ----------

  // The antiderivative is one: over any stretch of the segment it yields the trapezoid.
  lemma PrimitiveIsIntegral(p: Sample, q: Sample, x: real, y: real)
    requires p.t < q.t
    ensures Primitive(p, q, y) - Primitive(p, q, x) == (Line(p, q, x) + Line(p, q, y)) / 2.0 * (y - x)
  {
    var k, u, v := Slope(p, q), x - p.t, y - p.t;
    assert (Line(p, q, x) + Line(p, q, y)) / 2.0 * (y - x) == (p.w + k * (u + v) / 2.0) * (v - u);
    assert k * (u + v) / 2.0 * (v - u) == k * v * v / 2.0 - k * u * u / 2.0;
  }

  lemma LineEnds(p: Sample, q: Sample)
    requires p.t < q.t
    ensures Line(p, q, p.t) == p.w && Line(p, q, q.t) == q.w
  {
    var k := Slope(p, q);
    assert Line(p, q, p.t) == p.w + k * 0.0;
    assert Line(p, q, q.t) == p.w + k * (q.t - p.t);
    assert Slope(p, q) * (q.t - p.t) == q.w - p.w;
  }

  lemma InterpOnLine(p: Sample, q: Sample, t: real)
    requires p.t < q.t
    ensures Interp(p, q, t) == Sample(t, Line(p, q, t))
  {
    var d, e, f := q.t - p.t, t - p.t, q.w - p.w;
    var frac, k := e / d, f / d;
    assert frac * d == e && k * d == f;
    assert (frac * f - k * e) * d == 0.0;
  }

  // The clipped segment is the trapezoid over the part of [a, b] it covers.
  lemma SegmentIsTrapezoid(p: Sample, q: Sample, a: real, b: real)
    requires p.t < q.t
    ensures var x, y := Clamp(a, p.t, q.t), Clamp(b, p.t, q.t);
      Segment(a, b)(p, q) == TrapezoidPair()(Sample(x, Line(p, q, x)), Sample(y, Line(p, q, y)))
  {
    var x, y := Clamp(a, p.t, q.t), Clamp(b, p.t, q.t);
    PrimitiveIsIntegral(p, q, x, y);
    assert Segment(a, b)(p, q) == (Primitive(p, q, y) - Primitive(p, q, x)) / MS_PER_HOUR;
    hide Primitive, Line, Clamp, Segment;
    MoveDivision((Line(p, q, x) + Line(p, q, y)) / 2.0, y - x);
  }

  lemma MoveDivision(w: real, d: real)
    ensures w * d / MS_PER_HOUR == w * (d / MS_PER_HOUR)
  {
  }

  lemma SegmentOutside(p: Sample, q: Sample, a: real, b: real)
    requires p.t <= q.t && a <= b && (q.t <= a || b <= p.t)
    ensures Segment(a, b)(p, q) == 0.0
  {
  }

  lemma SegmentInside(p: Sample, q: Sample, a: real, b: real)
    requires a <= p.t <= q.t <= b
    ensures Segment(a, b)(p, q) == TrapezoidPair()(p, q)
  {
    if p.t < q.t {
      SegmentIsTrapezoid(p, q, a, b);
      LineEnds(p, q);
    }
  }

  // ---------- the pieces of the window ----------

  // Number of samples strictly before a, and at or before b, of a sorted trace.
  function CountBefore(s: seq<Sample>, a: real): nat {
    if s == [] then 0 else CountBefore(s[..|s| - 1], a) + if s[|s| - 1].t < a then 1 else 0
  }

  function CountUpTo(s: seq<Sample>, b: real): nat {
    if s == [] then 0 else CountUpTo(s[..|s| - 1], b) + if s[|s| - 1].t <= b then 1 else 0
  }

  lemma {:induction false} CountBeforeSplits(s: seq<Sample>, a: real)
    requires Sorted(s)
    ensures var n := CountBefore(s, a);
      && n <= |s|
      && (forall i :: 0 <= i < n ==> s[i].t < a) && (forall i :: n <= i < |s| ==> a <= s[i].t)
      && LeftAnchor(s, a) == (if n == 0 then None else Some(s[n - 1]))
  {
    if s != [] {
      var r := s[..|s| - 1];
      CountBeforeSplits(r, a);
      forall i | 0 <= i < |s| - 1 ensures s[i] == r[i] {}
      if s[|s| - 1].t < a {
        forall i | 0 <= i < |s| ensures s[i].t < a {}
      }
    }
  }

  lemma {:induction false} CountUpToSplits(s: seq<Sample>, b: real)
    requires Sorted(s)
    ensures var n := CountUpTo(s, b);
      && n <= |s|
      && (forall i :: 0 <= i < n ==> s[i].t <= b) && (forall i :: n <= i < |s| ==> b < s[i].t)
  {
    if s != [] {
      var r := s[..|s| - 1];
      CountUpToSplits(r, b);
      forall i | 0 <= i < |s| - 1 ensures s[i] == r[i] {}
      if s[|s| - 1].t <= b {
        forall i | 0 <= i < |s| ensures s[i].t <= b {}
      }
    }
  }

  lemma {:induction false} RightAnchorAt(s: seq<Sample>, b: real, n: nat)
    requires n <= |s|
    requires (forall i :: 0 <= i < n ==> s[i].t <= b) && (forall i :: n <= i < |s| ==> b < s[i].t)
    ensures RightAnchor(s, b) == if n == |s| then None else Some(s[n])
  {
    if s != [] && n > 0 { RightAnchorAt(s[1..], b, n - 1); }
  }

  lemma {:induction false} WindowAt(s: seq<Sample>, a: real, b: real, lo: nat, hi: nat)
    requires lo <= hi <= |s|
    requires forall i :: 0 <= i < |s| ==> (a <= s[i].t <= b <==> lo <= i < hi)
    ensures Window(s, a, b) == s[lo..hi]
  {
    if s != [] {
      var n := |s| - 1;
      var r := s[..n];
      assert a <= s[n].t <= b <==> lo <= n < hi;
      if hi == |s| && lo < hi {
        WindowAt(r, a, b, lo, n);
        SliceEnd(s, lo);
      } else if hi <= n {
        WindowAt(r, a, b, lo, hi);
        assert s[lo..hi] == r[lo..hi];
      } else {
        WindowAt(r, a, b, n, n);
        assert s[lo..hi] == [];
      }
    }
  }

  lemma SliceEnd(s: seq<Sample>, lo: nat)
    requires lo < |s|
    ensures s[lo..] == s[..|s| - 1][lo..] + [s[|s| - 1]]
    ensures s[lo..|s|] == s[lo..] && s[..|s| - 1][lo..|s| - 1] == s[..|s| - 1][lo..]
  {
  }

  lemma {:induction false} CountsOrdered(s: seq<Sample>, a: real, b: real)
    requires a <= b
    ensures CountBefore(s, a) <= CountUpTo(s, b)
  {
    if s != [] { CountsOrdered(s[..|s| - 1], a, b); }
  }

  // All that a sorted trace offers a window: lo samples before it, hi up to its end.
  ghost predicate Splits(s: seq<Sample>, a: real, b: real, lo: nat, hi: nat) {
    && lo <= hi <= |s|
    && (forall i :: 0 <= i < lo ==> s[i].t < a)
    && (forall i :: lo <= i < hi ==> a <= s[i].t <= b)
    && (forall i :: hi <= i < |s| ==> b < s[i].t)
    && LeftAnchor(s, a) == (if lo == 0 then None else Some(s[lo - 1]))
    && RightAnchor(s, b) == (if hi == |s| then None else Some(s[hi]))
    && Window(s, a, b) == s[lo..hi]
  }

  lemma WindowSplits(s: seq<Sample>, a: real, b: real) returns (lo: nat, hi: nat)
    requires Sorted(s) && a <= b
    ensures Splits(s, a, b, lo, hi)
  {
    CountBeforeSplits(s, a);
    CountUpToSplits(s, b);
    lo, hi := CountBefore(s, a), CountUpTo(s, b);
    CountsOrdered(s, a, b);
    RightAnchorAt(s, b, hi);
    WindowAt(s, a, b, lo, hi);
  }

  // What a stretch of samples outside the window contributes: nothing.
  lemma OutsideIsZero(s: seq<Sample>, a: real, b: real)
    requires Sorted(s) && a <= b
    requires (forall i :: 0 <= i < |s| ==> s[i].t <= a) || (forall i :: 0 <= i < |s| ==> b <= s[i].t)
    ensures CurveWh(s, a, b) == 0.0
  {
    forall i | 0 < i < |s| ensures Segment(a, b)(s[i - 1], s[i]) == 0.0 {
      SegmentOutside(s[i - 1], s[i], a, b);
    }
    PairSumZero(s, Segment(a, b));
  }

  lemma InsideIsTrapezoid(s: seq<Sample>, a: real, b: real)
    requires Sorted(s) && forall i :: 0 <= i < |s| ==> a <= s[i].t <= b
    ensures CurveWh(s, a, b) == Trapezoid(s)
  {
    forall i | 0 < i < |s| ensures Segment(a, b)(s[i - 1], s[i]) == TrapezoidPair()(s[i - 1], s[i]) {
      SegmentInside(s[i - 1], s[i], a, b);
    }
    PairSumEqual(s, Segment(a, b), TrapezoidPair());
  }

  // The part of the curve up to the first window sample: only the segment entering it counts.
  lemma HeadOfCurve(s: seq<Sample>, a: real, b: real, lo: nat)
    requires Sorted(s) && a <= b && lo < |s|
    requires (forall i :: 0 <= i < lo ==> s[i].t < a) && a <= s[lo].t <= b
    ensures CurveWh(s[..lo + 1], a, b)
            == if lo == 0 then 0.0 else TrapezoidPair()(Interp(s[lo - 1], s[lo], a), s[lo])
  {
    if lo > 0 {
      var p, q := s[lo - 1], s[lo];
      assert s[..lo + 1][..lo] == s[..lo];
      OutsideIsZero(s[..lo], a, b);
      SegmentIsTrapezoid(p, q, a, b);
      LineEnds(p, q);
      InterpOnLine(p, q, a);
    }
  }

  // The part from the last window sample on: only the segment leaving it counts.
  lemma TailOfCurve(s: seq<Sample>, a: real, b: real, hi: nat)
    requires Sorted(s) && a <= b && 0 < hi <= |s|
    requires (forall i :: hi <= i < |s| ==> b < s[i].t) && a <= s[hi - 1].t <= b
    ensures CurveWh(s[hi - 1..], a, b)
            == if hi == |s| then 0.0 else TrapezoidPair()(s[hi - 1], Interp(s[hi - 1], s[hi], b))
  {
    if hi < |s| {
      var p, q := s[hi - 1], s[hi];
      var r := s[hi - 1..];
      PairSumSplit(r, 1, Segment(a, b));
      assert r[..2] == [p, q] && r[1..] == s[hi..];
      PairSumTwo(p, q, Segment(a, b));
      OutsideIsZero(s[hi..], a, b);
      LeavingSegment(p, q, a, b);
    }
  }

  lemma LeavingSegment(p: Sample, q: Sample, a: real, b: real)
    requires a <= p.t <= b < q.t
    ensures Segment(a, b)(p, q) == TrapezoidPair()(p, Interp(p, q, b))
  {
    SegmentIsTrapezoid(p, q, a, b);
    LineEnds(p, q);
    InterpOnLine(p, q, b);
  }

  // At most one more sample on either end adds at most one pair.
  lemma PairSumEnds(first: seq<Sample>, last: seq<Sample>, g: (Sample, Sample) -> real)
    requires |first| + |last| <= 2
    ensures PairSum(first + last, g) == if |first| + |last| < 2 then 0.0 else g((first + last)[0], (first + last)[1])
  {
    var e := first + last;
    if |e| == 2 {
      assert e == [e[0], e[1]];
      PairSumTwo(e[0], e[1], g);
    }
  }

  lemma LeftEnd(left: seq<Sample>, rest: seq<Sample>, g: (Sample, Sample) -> real)
    requires |left| <= 1 && rest != []
    ensures PairSum(left + rest, g) == (if left == [] then 0.0 else g(left[0], rest[0])) + PairSum(rest, g)
  {
    hide PairSum;
    var e := left + rest;
    PairSumSplit(e, |left|, g);
    assert e[..|left| + 1] == left + [rest[0]] && e[|left|..] == rest;
    PairSumEnds(left, [rest[0]], g);
  }

  lemma RightEnd(rest: seq<Sample>, right: seq<Sample>, g: (Sample, Sample) -> real)
    requires |right| <= 1 && rest != []
    ensures PairSum(rest + right, g)
            == PairSum(rest, g) + if right == [] then 0.0 else g(rest[|rest| - 1], right[0])
  {
    hide PairSum;
    var e, last := rest + right, [rest[|rest| - 1]];
    PairSumSplit(e, |rest| - 1, g);
    assert e[..|rest| - 1 + 1] == rest && e[|rest| - 1..] == last + right;
    PairSumEnds(last, right, g);
  }

  lemma TrapezoidEnds(left: seq<Sample>, window: seq<Sample>, right: seq<Sample>)
    requires |left| <= 1 && |right| <= 1 && window != []
    ensures Trapezoid(left + window + right)
            == (if left == [] then 0.0 else TrapezoidPair()(left[0], window[0])) + Trapezoid(window)
               + if right == [] then 0.0 else TrapezoidPair()(window[|window| - 1], right[0])
  {
    hide TrapezoidPair, PairSum;
    assert left + window + right == left + (window + right);
    LeftEnd(left, window + right, TrapezoidPair());
    RightEnd(window, right, TrapezoidPair());
  }

  // ---------- the theorem ----------

  // Both anchors and no sample between them: the window lies inside one segment.
  lemma GapOfCurve(s: seq<Sample>, a: real, b: real, lo: nat)
    requires Sorted(s) && a <= b && 0 < lo < |s|
    requires (forall i :: 0 <= i < lo ==> s[i].t < a) && (forall i :: lo <= i < |s| ==> b < s[i].t)
    ensures CurveWh(s, a, b) == TrapezoidPair()(Interp(s[lo - 1], s[lo], a), Interp(s[lo - 1], s[lo], b))
  {
    var p, q := s[lo - 1], s[lo];
    assert Clamp(a, p.t, q.t) == a && Clamp(b, p.t, q.t) == b;
    hide Segment, TrapezoidPair, Interp, Line, Clamp, PairSum;
    SegmentIsTrapezoid(p, q, a, b);
    InterpOnLine(p, q, a);
    InterpOnLine(p, q, b);
    OnlySegment(s, a, b, lo);
  }

  // Outside the one segment the curve adds nothing.
  lemma OnlySegment(s: seq<Sample>, a: real, b: real, lo: nat)
    requires Sorted(s) && a <= b && 0 < lo < |s|
    requires (forall i :: 0 <= i < lo ==> s[i].t < a) && (forall i :: lo <= i < |s| ==> b < s[i].t)
    ensures CurveWh(s, a, b) == Segment(a, b)(s[lo - 1], s[lo])
  {
    hide Segment, PairSum;
    var g := Segment(a, b);
    PairSumSplit(s, lo - 1, g);
    assert s[..lo - 1 + 1] == s[..lo];
    OutsideIsZero(s[..lo], a, b);
    var r := s[lo - 1..];
    PairSumSplit(r, 1, g);
    assert r[..2] == [s[lo - 1], s[lo]] && r[1..] == s[lo..];
    PairSumTwo(s[lo - 1], s[lo], g);
    OutsideIsZero(s[lo..], a, b);
  }

  lemma WindowOfCurve(s: seq<Sample>, a: real, b: real, lo: nat, hi: nat)
    requires Sorted(s) && lo < hi <= |s| && forall i :: lo <= i < hi ==> a <= s[i].t <= b
    ensures CurveWh(s, a, b) == CurveWh(s[..lo + 1], a, b) + Trapezoid(s[lo..hi]) + CurveWh(s[hi - 1..], a, b)
  {
    hide PairSum, Segment, Trapezoid;
    var g := Segment(a, b);
    PairSumSplit(s, lo, g);
    var r := s[lo..];
    PairSumSplit(r, hi - lo - 1, g);
    assert r[..hi - lo] == s[lo..hi] && r[hi - lo - 1..] == s[hi - 1..];
    InsideIsTrapezoid(s[lo..hi], a, b);
  }

  // The interpolated sample before a window that starts at lo, and the one after hi.
  function HeadSample(s: seq<Sample>, a: real, lo: nat): seq<Sample>
    requires lo < |s| && (lo > 0 ==> s[lo - 1].t != s[lo].t)
  {
    if lo == 0 then [] else [Interp(s[lo - 1], s[lo], a)]
  }

  function TailSample(s: seq<Sample>, b: real, hi: nat): seq<Sample>
    requires 0 < hi <= |s| && (hi < |s| ==> s[hi - 1].t != s[hi].t)
  {
    if hi == |s| then [] else [Interp(s[hi - 1], s[hi], b)]
  }

  lemma EffectiveWithWindow(s: seq<Sample>, a: real, b: real, lo: nat, hi: nat)
    requires Sorted(s) && a <= b && Splits(s, a, b, lo, hi) && lo < hi
    ensures lo > 0 ==> s[lo - 1].t != s[lo].t
    ensures hi < |s| ==> s[hi - 1].t != s[hi].t
    ensures Effective(s, a, b) == HeadSample(s, a, lo) + s[lo..hi] + TailSample(s, b, hi)
  {
    hide Interp;
    assert s[lo..hi][0] == s[lo] && s[lo..hi][hi - lo - 1] == s[hi - 1];
  }

  lemma EffectiveInGap(s: seq<Sample>, a: real, b: real, lo: nat)
    requires Sorted(s) && a <= b && Splits(s, a, b, lo, lo)
    ensures Effective(s, a, b)
            == if lo == 0 || lo == |s| then []
               else [Interp(s[lo - 1], s[lo], a), Interp(s[lo - 1], s[lo], b)]
  {
    hide Interp;
    assert s[lo..lo] == [];
  }

  /**
   For every time-ordered trace and every window, the metered energy is exactly the integral
   of the piecewise-linear power curve over the part of the window the curve covers. The one
   exception is a trace of a single sample, inside the window: its power is held throughout.
   */
  lemma IntegrateIsExact(s: seq<Sample>, a: real, b: real)
    requires Sorted(s) && a <= b
    ensures IntegrateWh(s, a, b)
            == if |s| == 1 && a <= s[0].t <= b then s[0].w * ((b - a) / MS_PER_HOUR) else CurveWh(s, a, b)
  {
    hide IntegrateWh, CurveWh, Splits;
    var lo, hi := WindowSplits(s, a, b);
    if lo < hi {
      WindowIsExact(s, a, b, lo, hi);
    } else {
      GapIsExact(s, a, b, lo);
    }
  }

  lemma WindowIsExact(s: seq<Sample>, a: real, b: real, lo: nat, hi: nat)
    requires Sorted(s) && a <= b && Splits(s, a, b, lo, hi) && lo < hi
    ensures IntegrateWh(s, a, b)
            == if |s| == 1 && a <= s[0].t <= b then s[0].w * ((b - a) / MS_PER_HOUR) else CurveWh(s, a, b)
  {
    EffectiveWithWindow(s, a, b, lo, hi);
    WindowTrapezoid(s, a, b, lo, hi);
    var e := Effective(s, a, b);
    var inside := s[lo..hi];
    assert |inside| == hi - lo >= 1;
    assert |s| == 1 ==> e == s;
    assert |e| == (if lo == 0 then 0 else 1) + |inside| + if hi == |s| then 0 else 1;
    hide Sorted, Splits, Effective, CurveWh, Trapezoid;
  }

  // The trapezoids over the window and its interpolated ends are the curve.
  lemma WindowTrapezoid(s: seq<Sample>, a: real, b: real, lo: nat, hi: nat)
    requires Sorted(s) && a <= b && Splits(s, a, b, lo, hi) && lo < hi
    ensures Trapezoid(Effective(s, a, b)) == CurveWh(s, a, b)
  {
    hide Effective, CurveWh, Trapezoid, Interp, PairSum, TrapezoidPair, HeadSample, TailSample, Segment;
    EffectiveWithWindow(s, a, b, lo, hi);
    var inside := s[lo..hi];
    assert inside[0] == s[lo] && inside[|inside| - 1] == s[hi - 1];
    HeadOfCurve(s, a, b, lo);
    TailOfCurve(s, a, b, hi);
    HeadTerm(s, a, lo);
    TailTerm(s, b, hi);
    WindowOfCurve(s, a, b, lo, hi);
    hide Sorted, Splits;
    TrapezoidEnds(HeadSample(s, a, lo), inside, TailSample(s, b, hi));
  }

  lemma HeadTerm(s: seq<Sample>, a: real, lo: nat)
    requires lo < |s| && (lo > 0 ==> s[lo - 1].t != s[lo].t)
    ensures
      var head := HeadSample(s, a, lo);
      && |head| <= 1
      && (if head == [] then 0.0 else TrapezoidPair()(head[0], s[lo]))
         == if lo == 0 then 0.0 else TrapezoidPair()(Interp(s[lo - 1], s[lo], a), s[lo])
  {
    hide Interp, TrapezoidPair;
  }

  lemma TailTerm(s: seq<Sample>, b: real, hi: nat)
    requires 0 < hi <= |s| && (hi < |s| ==> s[hi - 1].t != s[hi].t)
    ensures
      var tail := TailSample(s, b, hi);
      && |tail| <= 1
      && (if tail == [] then 0.0 else TrapezoidPair()(s[hi - 1], tail[0]))
         == if hi == |s| then 0.0 else TrapezoidPair()(s[hi - 1], Interp(s[hi - 1], s[hi], b))
  {
    hide Interp, TrapezoidPair;
  }

  lemma GapIsExact(s: seq<Sample>, a: real, b: real, lo: nat)
    requires Sorted(s) && a <= b && Splits(s, a, b, lo, lo)
    ensures IntegrateWh(s, a, b) == CurveWh(s, a, b)
    ensures !(|s| == 1 && a <= s[0].t <= b)
  {
    hide Effective, CurveWh, Interp;
    EffectiveInGap(s, a, b, lo);
    if lo == 0 || lo == |s| {
      OutsideIsZero(s, a, b);
    } else {
      GapOfCurve(s, a, b, lo);
      PairSumTwo(Interp(s[lo - 1], s[lo], a), Interp(s[lo - 1], s[lo], b), TrapezoidPair());
    }
  }

  // ---------- consequences ----------

  lemma {:induction false} CurveAdditive(s: seq<Sample>, a: real, b: real, c: real)
    ensures CurveWh(s, a, b) + CurveWh(s, b, c) == CurveWh(s, a, c)
  {
    if |s| >= 2 {
      CurveAdditive(s[..|s| - 1], a, b, c);
    }
  }

  // Energy is additive over any split of any window, on a sample or in a gap, unless the
  // trace is a single sample.
  lemma IntegrateAdditive(s: seq<Sample>, a: real, b: real, c: real)
    requires Sorted(s) && a <= b <= c && |s| != 1
    ensures IntegrateWh(s, a, b) + IntegrateWh(s, b, c) == IntegrateWh(s, a, c)
  {
    hide IntegrateWh, CurveWh;
    IntegrateIsExact(s, a, b);
    IntegrateIsExact(s, b, c);
    IntegrateIsExact(s, a, c);
    CurveAdditive(s, a, b, c);
  }

  // With one sample additivity fails exactly when the held power is lost on one side.
  lemma SingleSampleAdditiveIff(p: Sample, a: real, b: real, c: real)
    requires a <= b <= c
    ensures IntegrateWh([p], a, b) + IntegrateWh([p], b, c) == IntegrateWh([p], a, c)
            <==> p.w == 0.0 || p.t < a || p.t > c || p.t == b || (p.t < b && b == c) || (b < p.t && a == b)
  {
    hide IntegrateWh;
    IntegrateIsExact([p], a, b);
    IntegrateIsExact([p], b, c);
    IntegrateIsExact([p], a, c);
    assert p.w * ((b - a) / MS_PER_HOUR) + p.w * ((c - b) / MS_PER_HOUR) == p.w * ((c - a) / MS_PER_HOUR);
    assert p.w != 0.0 && b != c ==> p.w * ((c - b) / MS_PER_HOUR) != 0.0;
    assert p.w != 0.0 && a != b ==> p.w * ((b - a) / MS_PER_HOUR) != 0.0;
  }

  lemma LineBetween(p: Sample, q: Sample, x: real, lo: real, hi: real)
    requires p.t < q.t && p.t <= x <= q.t && lo <= p.w <= hi && lo <= q.w <= hi
    ensures lo <= Line(p, q, x) <= hi
  {
    var k, d, e := Slope(p, q), q.t - p.t, x - p.t;
    assert k * d == q.w - p.w;
    assert k * (d - e) == k * d - k * e;
    if k >= 0.0 {
      assert k * e >= 0.0 && k * (d - e) >= 0.0;
    } else {
      assert k * e <= 0.0 && k * (d - e) <= 0.0;
    }
  }

  // The mean power over the covered part of a segment.
  function Mean(p: Sample, q: Sample, x: real, y: real): real
    requires p.t < q.t
  {
    (Line(p, q, y) + Line(p, q, x)) / 2.0
  }

  lemma SegmentIsMean(p: Sample, q: Sample, a: real, b: real)
    requires p.t < q.t && a <= b
    ensures
      var x, y := Clamp(a, p.t, q.t), Clamp(b, p.t, q.t);
      && p.t <= x <= y <= q.t
      && Segment(a, b)(p, q) == Mean(p, q, x, y) * ((y - x) / MS_PER_HOUR)
  {
    hide Line, Segment;
    SegmentIsTrapezoid(p, q, a, b);
  }

  lemma MeanBetween(p: Sample, q: Sample, x: real, y: real, lo: real, hi: real)
    requires p.t < q.t && p.t <= x <= q.t && p.t <= y <= q.t && lo <= p.w <= hi && lo <= q.w <= hi
    ensures lo <= Mean(p, q, x, y) <= hi
  {
    hide Line;
    LineBetween(p, q, x, lo, hi);
    LineBetween(p, q, y, lo, hi);
  }

  lemma SegmentBounded(p: Sample, q: Sample, a: real, b: real, lo: real, hi: real)
    requires p.t <= q.t && a <= b && lo <= p.w <= hi && lo <= q.w <= hi
    ensures var d := Clamp(b, p.t, q.t) - Clamp(a, p.t, q.t);
      lo * (d / MS_PER_HOUR) <= Segment(a, b)(p, q) <= hi * (d / MS_PER_HOUR)
  {
    hide Mean, Segment, Clamp;
    if p.t < q.t {
      var x, y := Clamp(a, p.t, q.t), Clamp(b, p.t, q.t);
      SegmentIsMean(p, q, a, b);
      MeanBetween(p, q, x, y, lo, hi);
      ScaleBetween(Mean(p, q, x, y), y - x, lo, hi);
    } else {
      EmptySegment(p, q, a, b);
      assert lo * 0.0 == 0.0 && hi * 0.0 == 0.0;
    }
  }

  lemma ScaleBetween(w: real, d: real, lo: real, hi: real)
    requires d >= 0.0 && lo <= w <= hi
    ensures lo * (d / MS_PER_HOUR) <= w * (d / MS_PER_HOUR) <= hi * (d / MS_PER_HOUR)
  {
    var h := d / MS_PER_HOUR;
    assert (w - lo) * h >= 0.0 && (hi - w) * h >= 0.0;
  }

  lemma CoveredStep(s: seq<Sample>, a: real, b: real)
    requires Sorted(s) && |s| >= 2 && a <= b
    ensures var n := |s|;
      Covered(s, a, b) == Covered(s[..n - 1], a, b)
                          + (Clamp(b, s[n - 2].t, s[n - 1].t) - Clamp(a, s[n - 2].t, s[n - 1].t))
  {
    assert s[0].t <= s[|s| - 2].t <= s[|s| - 1].t;
  }

  lemma CurveStep(s: seq<Sample>, a: real, b: real)
    ensures var n := |s|;
      if n < 2 then CurveWh(s, a, b) == 0.0 && Covered(s, a, b) == 0.0
      else CurveWh(s, a, b) == CurveWh(s[..n - 1], a, b) + Segment(a, b)(s[n - 2], s[n - 1])
  {
    hide Segment;
  }

  // The integral lies between the extreme powers times the covered time.
  lemma {:induction false} CurveBounded(s: seq<Sample>, a: real, b: real, lo: real, hi: real)
    requires Sorted(s) && a <= b && forall i :: 0 <= i < |s| ==> lo <= s[i].w <= hi
    ensures lo * (Covered(s, a, b) / MS_PER_HOUR) <= CurveWh(s, a, b) <= hi * (Covered(s, a, b) / MS_PER_HOUR)
  {
    hide Segment, Clamp, Covered, CurveWh;
    var n := |s|;
    CurveStep(s, a, b);
    if n >= 2 {
      CurveBounded(s[..n - 1], a, b, lo, hi);
      SegmentBounded(s[n - 2], s[n - 1], a, b, lo, hi);
      CoveredStep(s, a, b);
      var c, d := Covered(s[..n - 1], a, b), Clamp(b, s[n - 2].t, s[n - 1].t) - Clamp(a, s[n - 2].t, s[n - 1].t);
      Distribute(lo, c, d);
      Distribute(hi, c, d);
    }
  }

  lemma Distribute(k: real, c: real, d: real)
    ensures k * ((c + d) / MS_PER_HOUR) == k * (c / MS_PER_HOUR) + k * (d / MS_PER_HOUR)
  {
  }

  // The window is covered when the trace starts no later and ends no earlier.
  ghost predicate Covers(s: seq<Sample>, a: real, b: real) {
    |s| >= 2 && s[0].t <= a && b <= s[|s| - 1].t
  }

  // A covered window costs its duration at some power between the least and the greatest.
  lemma IntegrateBounded(s: seq<Sample>, a: real, b: real, lo: real, hi: real)
    requires Sorted(s) && a <= b && Covers(s, a, b) && forall i :: 0 <= i < |s| ==> lo <= s[i].w <= hi
    ensures lo * ((b - a) / MS_PER_HOUR) <= IntegrateWh(s, a, b) <= hi * ((b - a) / MS_PER_HOUR)
  {
    hide IntegrateWh, CurveWh;
    IntegrateIsExact(s, a, b);
    CurveBounded(s, a, b, lo, hi);
  }

  // Subtracting a constant idle draw from every sample.
  function LessIdle(s: seq<Sample>, idle: real): seq<Sample> {
    seq(|s|, i requires 0 <= i < |s| => Sample(s[i].t, s[i].w - idle))
  }

  lemma SegmentLessIdle(p: Sample, q: Sample, a: real, b: real, idle: real)
    requires p.t <= q.t && a <= b
    ensures Segment(a, b)(Sample(p.t, p.w - idle), Sample(q.t, q.w - idle))
            == Segment(a, b)(p, q) - idle * ((Clamp(b, p.t, q.t) - Clamp(a, p.t, q.t)) / MS_PER_HOUR)
  {
    hide Primitive, Clamp, Segment;
    if p.t < q.t {
      var p', q' := Sample(p.t, p.w - idle), Sample(q.t, q.w - idle);
      var x, y := Clamp(a, p.t, q.t), Clamp(b, p.t, q.t);
      SegmentIs(p, q, a, b);
      SegmentIs(p', q', a, b);
      PrimitiveLessIdle(p, q, x, idle);
      PrimitiveLessIdle(p, q, y, idle);
      ShiftDivided(Primitive(p, q, y), Primitive(p, q, x), idle, y - p.t, x - p.t);
      assert (y - p.t) - (x - p.t) == y - x;
    } else {
      EmptySegment(p, q, a, b);
      EmptySegment(Sample(p.t, p.w - idle), Sample(q.t, q.w - idle), a, b);
      assert idle * 0.0 == 0.0;
    }
  }

  lemma SegmentIs(p: Sample, q: Sample, a: real, b: real)
    requires p.t < q.t
    ensures Segment(a, b)(p, q)
            == (Primitive(p, q, Clamp(b, p.t, q.t)) - Primitive(p, q, Clamp(a, p.t, q.t))) / MS_PER_HOUR
  {
    hide Primitive, Clamp;
  }

  lemma EmptySegment(p: Sample, q: Sample, a: real, b: real)
    requires p.t == q.t
    ensures Segment(a, b)(p, q) == 0.0 && Clamp(a, p.t, q.t) == Clamp(b, p.t, q.t)
  {
  }

  lemma ShiftDivided(y: real, x: real, idle: real, dy: real, dx: real)
    ensures ((y - idle * dy) - (x - idle * dx)) / MS_PER_HOUR
            == (y - x) / MS_PER_HOUR - idle * ((dy - dx) / MS_PER_HOUR)
  {
    assert idle * (dy - dx) == idle * dy - idle * dx;
    MoveDivision(idle, dy - dx);
  }

  lemma PrimitiveLessIdle(p: Sample, q: Sample, x: real, idle: real)
    requires p.t < q.t
    ensures Primitive(Sample(p.t, p.w - idle), Sample(q.t, q.w - idle), x) == Primitive(p, q, x) - idle * (x - p.t)
  {
    var p', q' := Sample(p.t, p.w - idle), Sample(q.t, q.w - idle);
    assert Slope(p', q') == Slope(p, q);
    hide Slope;
    assert (p.w - idle) * (x - p.t) == p.w * (x - p.t) - idle * (x - p.t);
  }

  lemma {:induction false} CurveLessIdle(s: seq<Sample>, a: real, b: real, idle: real)
    requires Sorted(s) && a <= b
    ensures CurveWh(LessIdle(s, idle), a, b) == CurveWh(s, a, b) - idle * (Covered(s, a, b) / MS_PER_HOUR)
  {
    hide Segment, Clamp, Covered, CurveWh;
    var n := |s|;
    CurveStep(s, a, b);
    CurveStep(LessIdle(s, idle), a, b);
    if n >= 2 {
      CurveLessIdle(s[..n - 1], a, b, idle);
      assert LessIdle(s, idle)[..n - 1] == LessIdle(s[..n - 1], idle);
      SegmentLessIdle(s[n - 2], s[n - 1], a, b, idle);
      CoveredStep(s, a, b);
      Distribute(idle, Covered(s[..n - 1], a, b), Clamp(b, s[n - 2].t, s[n - 1].t) - Clamp(a, s[n - 2].t, s[n - 1].t));
    }
  }

  // Over a covered window, subtracting idle power sample by sample shifts the energy by
  // exactly idle times duration.
  lemma IntegrateLessIdle(s: seq<Sample>, a: real, b: real, idle: real)
    requires Sorted(s) && a <= b && Covers(s, a, b)
    ensures IntegrateWh(LessIdle(s, idle), a, b) == IntegrateWh(s, a, b) - idle * ((b - a) / MS_PER_HOUR)
  {
    hide IntegrateWh, CurveWh;
    IntegrateIsExact(s, a, b);
    IntegrateIsExact(LessIdle(s, idle), a, b);
    CurveLessIdle(s, a, b, idle);
  }

  // An uncovered edge is dropped: with the trace ending before the window does, the energy is
  // that of the shorter window.
  lemma UncoveredEdgeIsDropped(s: seq<Sample>, a: real, b: real)
    requires Sorted(s) && |s| >= 2 && a <= s[|s| - 1].t <= b
    ensures IntegrateWh(s, a, b) == IntegrateWh(s, a, s[|s| - 1].t)
  {
    hide IntegrateWh, CurveWh;
    var last := s[|s| - 1].t;
    IntegrateAdditive(s, a, last, b);
    IntegrateIsExact(s, last, b);
    OutsideIsZero(s, last, b);
  }

  // And so is a leading one: with the trace starting only inside the window, the energy is that
  // of the window from its first sample on.
  lemma LeadingEdgeIsDropped(s: seq<Sample>, a: real, b: real)
    requires Sorted(s) && |s| >= 2 && a <= s[0].t <= b
    ensures IntegrateWh(s, a, b) == IntegrateWh(s, s[0].t, b)
  {
    hide IntegrateWh, CurveWh;
    var first := s[0].t;
    IntegrateAdditive(s, a, first, b);
    IntegrateIsExact(s, a, first);
    OutsideIsZero(s, a, first);
  }
}
