/**
 The design of the run grid: how often a prefill point is repeated, which points fit the
 server's context, and which regressions the planned rows can identify.
 Follows prefill_repeats_for, fits_context and v2_grid_design in src/vetch/calibrate_v2.py.
 */
module Grid {
  import opened Wrappers
  import opened Reals
  import opened RunTable

  const WINDOW_TARGET_MS := 4000.0
  const TOKENS_PER_MS := 30.0
  const MAX_REPEATS := 64
  const CONTEXT_SAFETY := 0.9

  // ---------- repeats of a prefill point ----------

  // math.ceil
  function Ceil(x: real): (c: int)
    ensures x <= c as real < x + 1.0
  {
    -(-x).Floor
  }

  function PrefillRate(measured: Option<real>): (rate: real)
    ensures rate > 0.0
  {
    if measured.Some? && measured.value > 0.0 then measured.value else TOKENS_PER_MS
  }

  // How long one request of a prefill point is taken to last.
  function RequestMs(tokens: nat, measured: Option<real>): (ms: real)
    ensures ms >= 1.0
  {
    Max(1.0, tokens as real / PrefillRate(measured))
  }

  function PrefillRepeats(tokens: nat, measured: Option<real>): (repeats: nat)
    ensures 1 <= repeats <= MAX_REPEATS
  {
    var needed := Ceil(WINDOW_TARGET_MS / RequestMs(tokens, measured));
    var capped := if needed < MAX_REPEATS then needed else MAX_REPEATS;
    if capped > 1 then capped else 1
  }

  // The repeats fill the target window unless they are capped, and one fewer would not.
  lemma RepeatsAreLeastFilling(tokens: nat, measured: Option<real>)
    ensures
      var n, ms := PrefillRepeats(tokens, measured), RequestMs(tokens, measured);
      && (n as real * ms >= WINDOW_TARGET_MS || n == MAX_REPEATS)
      && (n > 1 ==> (n - 1) as real * ms < WINDOW_TARGET_MS)
  {
    var n, ms := PrefillRepeats(tokens, measured), RequestMs(tokens, measured);
    var needed := Ceil(WINDOW_TARGET_MS / ms);
    assert WINDOW_TARGET_MS / ms * ms == WINDOW_TARGET_MS;
    if n < MAX_REPEATS {
      ScaleLe(WINDOW_TARGET_MS / ms, n as real, ms);
      assert n as real * ms >= WINDOW_TARGET_MS;
    }
    if n > 1 {
      ScaleLt((n - 1) as real, WINDOW_TARGET_MS / ms, ms);
      assert (n - 1) as real * ms < WINDOW_TARGET_MS;
    }
  }

  // A faster accelerator never gets fewer repeats.
  lemma FasterNeedsNoFewer(tokens: nat, slow: real, fast: real)
    requires 0.0 < slow <= fast
    ensures PrefillRepeats(tokens, Some(slow)) <= PrefillRepeats(tokens, Some(fast))
  {
    var m, n := PrefillRepeats(tokens, Some(slow)), PrefillRepeats(tokens, Some(fast));
    var long, short := RequestMs(tokens, Some(slow)), RequestMs(tokens, Some(fast));
    QuotientAnti(tokens as real, slow, fast);
    assert short <= long;
    if n < m {
      RepeatsAreLeastFilling(tokens, Some(slow));
      RepeatsAreLeastFilling(tokens, Some(fast));
      ProductMono((m - 1) as real, n as real, long, short);
      assert false;
    }
  }

  lemma QuotientAnti(a: real, slow: real, fast: real)
    requires a >= 0.0 && 0.0 < slow <= fast
    ensures a / fast <= a / slow
  {
    var q := a / slow;
    assert q * slow == a;
    ScaleOrZero(q, slow, fast);
    var r := a / fast;
    assert r * fast == a;
    if r > q {
      ScaleLt(q, r, fast);
    }
  }

  lemma ScaleOrZero(q: real, slow: real, fast: real)
    requires 0.0 < slow <= fast && q * slow >= 0.0
    ensures q * slow <= q * fast
  {
  }

  lemma ProductMono(m: real, n: real, long: real, short: real)
    requires m >= n >= 0.0 && long >= short > 0.0
    ensures m * long >= n * short
  {
    ScaleLe(n, m, long);
    assert n * long >= n * short;
  }

  // ---------- the context limit ----------

  predicate FitsContext(tokens: nat, maxTokens: nat, limit: Option<int>) {
    limit.None? || limit.value <= 0 || (tokens + maxTokens) as real <= limit.value as real * CONTEXT_SAFETY
  }

  // ---------- the design ----------

  datatype Arm = Prefill | Decode | Verify

  // A requested prompt length and a requested generation length.
  datatype Point = Point(tokens: nat, maxTokens: nat)

  datatype Spec = Spec(images: nat, point: Point, replicate: bool, arm: Arm, requests: Option<nat>)

  function Points(arm: Arm, quick: bool): seq<Point> {
    match (arm, quick)
    case (Prefill, true) => [Point(1024, 8), Point(4096, 8), Point(8192, 8)]
    case (Decode, true) => [Point(32, 512), Point(32, 2048), Point(32, 4096)]
    case (Verify, true) => [Point(2048, 256), Point(512, 1024)]
    case (Prefill, false) => [Point(1024, 8), Point(4096, 8), Point(8192, 8), Point(16384, 8), Point(32768, 8)]
    case (Decode, false) => [Point(32, 512), Point(32, 1024), Point(32, 2048), Point(32, 4096)]
    case (Verify, false) => [Point(2048, 256), Point(1024, 1024), Point(4096, 128), Point(512, 2048)]
  }

  function Fitting(points: seq<Point>, limit: Option<int>): (fitting: seq<Point>)
    ensures forall p :: p in fitting <==> p in points && FitsContext(p.tokens, p.maxTokens, limit)
  {
    if points == [] then []
    else (if FitsContext(points[0].tokens, points[0].maxTokens, limit) then [points[0]] else [])
         + Fitting(points[1..], limit)
  }

  function SpecOf(p: Point, replicate: bool, arm: Arm, measured: Option<real>): Spec {
    Spec(0, p, replicate, arm, if arm == Prefill then Some(PrefillRepeats(p.tokens, measured)) else None)
  }

  // Prefill and decode points are measured twice at both ends of their range.
  predicate Corner(arm: Arm, i: int, n: nat) {
    arm != Verify && (i == 0 || i == n - 1)
  }

  // The specs of the first k points of an arm.
  function ArmSpecs(points: seq<Point>, arm: Arm, measured: Option<real>, k: nat): seq<Spec>
    requires k <= |points|
  {
    if k == 0 then []
    else
      ArmSpecs(points, arm, measured, k - 1)
      + [SpecOf(points[k - 1], false, arm, measured)]
      + if Corner(arm, k - 1, |points|) then [SpecOf(points[k - 1], true, arm, measured)] else []
  }

  function ArmDesign(arm: Arm, quick: bool, limit: Option<int>, measured: Option<real>): seq<Spec> {
    var points := Fitting(Points(arm, quick), limit);
    ArmSpecs(points, arm, measured, |points|)
  }

  function TextDesign(quick: bool, limit: Option<int>, measured: Option<real>): seq<Spec> {
    ArmDesign(Prefill, quick, limit, measured) + ArmDesign(Decode, quick, limit, measured)
    + ArmDesign(Verify, quick, limit, measured)
  }

  function ImageCopies(grid: seq<Spec>): seq<Spec> {
    if grid == [] then []
    else
      var last := grid[|grid| - 1];
      ImageCopies(grid[..|grid| - 1])
      + if last.arm != Prefill && !last.replicate then [last.(images := 1)] else []
  }

  function GridDesign(vision: bool, quick: bool, limit: Option<int>, measured: Option<real>): seq<Spec> {
    var text := TextDesign(quick, limit, measured);
    text + if vision then ImageCopies(text) else []
  }

  method AddDecode(before: seq<Spec>, decode: seq<Point>, measured: Option<real>) returns (grid: seq<Spec>)
    ensures grid == before + ArmSpecs(decode, Decode, measured, |decode|)
  {
    grid := before;
    for i := 0 to |decode|
      invariant grid == before + ArmSpecs(decode, Decode, measured, i)
    {
      var spec := SpecOf(decode[i], false, Decode, measured);
      grid := grid + [spec];
      if i == 0 || i == |decode| - 1 {
        grid := grid + [spec.(replicate := true)];
      }
    }
  }

  method AddImageCopies(text: seq<Spec>) returns (grid: seq<Spec>)
    ensures grid == text + ImageCopies(text)
  {
    grid := text;
    for i := 0 to |text|
      invariant grid == text + ImageCopies(text[..i])
    {
      assert text[..i + 1][..i] == text[..i];
      if text[i].arm != Prefill && !text[i].replicate {
        grid := grid + [text[i].(images := 1)];
      }
    }
    assert text[..|text|] == text;
  }

  method V2GridDesign(vision: bool, quick: bool, limit: Option<int>, measured: Option<real>)
    returns (grid: seq<Spec>)
    ensures grid == GridDesign(vision, quick, limit, measured)
    ensures forall s :: s in grid ==> FitsContext(s.point.tokens, s.point.maxTokens, limit)
  {
    hide FitsContext, PrefillRepeats, Points, Fitting;
    grid := [];
    var prefill := Fitting(Points(Prefill, quick), limit);
    for i := 0 to |prefill|
      invariant grid == ArmSpecs(prefill, Prefill, measured, i)
    {
      var spec := SpecOf(prefill[i], false, Prefill, measured);
      grid := grid + [spec];
      if i == 0 || i == |prefill| - 1 {
        grid := grid + [spec.(replicate := true)];
      }
    }
    var decode := Fitting(Points(Decode, quick), limit);
    var verify := Fitting(Points(Verify, quick), limit);
    grid := AddDecode(grid, decode, measured);
    ghost var before := grid;
    for i := 0 to |verify|
      invariant grid == before + ArmSpecs(verify, Verify, measured, i)
    {
      grid := grid + [SpecOf(verify[i], false, Verify, measured)];
    }
    if vision {
      grid := AddImageCopies(grid);
    }
    DesignFits(vision, quick, limit, measured);
  }

  lemma DesignFits(vision: bool, quick: bool, limit: Option<int>, measured: Option<real>)
    ensures
      forall s :: s in GridDesign(vision, quick, limit, measured) ==>
        FitsContext(s.point.tokens, s.point.maxTokens, limit)
  {
    forall s | s in GridDesign(vision, quick, limit, measured)
      ensures FitsContext(s.point.tokens, s.point.maxTokens, limit)
    {
      InGridIff(s, vision, quick, limit, measured);
    }
  }

  // ---------- which specs the design holds ----------

  // Some point of the list is at an end of it.
  predicate AtCorner(p: Point, points: seq<Point>) {
    points != [] && (p == points[0] || p == points[|points| - 1])
  }

  lemma {:induction false} InArmSpecsIff(s: Spec, points: seq<Point>, arm: Arm, measured: Option<real>, k: nat)
    requires k <= |points|
    ensures
      s in ArmSpecs(points, arm, measured, k) <==>
        && s == SpecOf(s.point, s.replicate, arm, measured)
        && exists i ::
             && 0 <= i < k
             && points[i] == s.point
             && (s.replicate ==> Corner(arm, i, |points|))
  {
    hide PrefillRepeats;
    if k > 0 {
      InArmSpecsIff(s, points, arm, measured, k - 1);
      var plain, copy := SpecOf(points[k - 1], false, arm, measured), SpecOf(points[k - 1], true, arm, measured);
      assert s in ArmSpecs(points, arm, measured, k) <==>
        || s in ArmSpecs(points, arm, measured, k - 1)
        || s == plain
        || (Corner(arm, k - 1, |points|) && s == copy);
    }
  }

  lemma {:induction false} InImageCopiesIff(s: Spec, grid: seq<Spec>)
    ensures
      s in ImageCopies(grid) <==>
        exists t :: t in grid && t.arm != Prefill && !t.replicate && s == t.(images := 1)
  {
    if grid != [] {
      var rest, last := grid[..|grid| - 1], grid[|grid| - 1];
      InImageCopiesIff(s, rest);
      assert grid == rest + [last];
    }
  }

  // The text design holds exactly the listed points that fit, plain, and replicated at the
  // ends of what fits of a prefill or decode arm.
  lemma InTextDesignIff(s: Spec, quick: bool, limit: Option<int>, measured: Option<real>)
    ensures
      s in TextDesign(quick, limit, measured) <==>
        && s == SpecOf(s.point, s.replicate, s.arm, measured)
        && s.point in Points(s.arm, quick)
        && FitsContext(s.point.tokens, s.point.maxTokens, limit)
        && (s.replicate ==> s.arm != Verify && AtCorner(s.point, Fitting(Points(s.arm, quick), limit)))
  {
    hide FitsContext, PrefillRepeats, Points;
    InArmDesignIff(s, Prefill, quick, limit, measured);
    InArmDesignIff(s, Decode, quick, limit, measured);
    InArmDesignIff(s, Verify, quick, limit, measured);
    hide ArmDesign, Fitting, AtCorner;
    assert s in TextDesign(quick, limit, measured) <==>
      || s in ArmDesign(Prefill, quick, limit, measured)
      || s in ArmDesign(Decode, quick, limit, measured)
      || s in ArmDesign(Verify, quick, limit, measured);
  }

  lemma InArmDesignIff(s: Spec, arm: Arm, quick: bool, limit: Option<int>, measured: Option<real>)
    ensures
      s in ArmDesign(arm, quick, limit, measured) <==>
        && s.arm == arm
        && s == SpecOf(s.point, s.replicate, arm, measured)
        && s.point in Points(arm, quick)
        && FitsContext(s.point.tokens, s.point.maxTokens, limit)
        && (s.replicate ==> arm != Verify && AtCorner(s.point, Fitting(Points(arm, quick), limit)))
  {
    hide FitsContext, PrefillRepeats, Points, ArmSpecs;
    var points := Fitting(Points(arm, quick), limit);
    InArmSpecsIff(s, points, arm, measured, |points|);
    assert s.point in points <==> exists i :: 0 <= i < |points| && points[i] == s.point;
  }

  // The whole grid: the text design, and with vision one image copy of every plain decode or
  // verification point.  Every point of it fits the context.
  lemma InGridIff(s: Spec, vision: bool, quick: bool, limit: Option<int>, measured: Option<real>)
    ensures
      s in GridDesign(vision, quick, limit, measured) <==>
        || s in TextDesign(quick, limit, measured)
        || (&& vision && s.images == 1 && s.arm != Prefill && !s.replicate
            && s.(images := 0) in TextDesign(quick, limit, measured))
    ensures s in GridDesign(vision, quick, limit, measured) ==> FitsContext(s.point.tokens, s.point.maxTokens, limit)
    ensures s in GridDesign(vision, quick, limit, measured) ==> s.point in Points(s.arm, quick)
  {
    hide FitsContext, PrefillRepeats, Points;
    var text := TextDesign(quick, limit, measured);
    InImageCopiesIff(s, text);
    InTextDesignIff(s, quick, limit, measured);
    InTextDesignIff(s.(images := 0), quick, limit, measured);
    forall t | t in text ensures t.images == 0 {
      InTextDesignIff(t, quick, limit, measured);
    }
  }

  function Twice(n: nat, k: nat): nat { if k == 0 then n else 2 * Twice(n, k - 1) }

  // The prefill points double their prompt from 1024 tokens up, without 2048, five times in the
  // full grid and three in the quick one, at eight tokens of answer; the decode points double their
  // answer from 512 tokens up, from a prompt of 32, without 1024 in the quick grid.
  lemma PointsDouble(p: Point, quick: bool)
    ensures
      p in Points(Prefill, quick) <==>
        p.maxTokens == 8 && exists k: nat :: k <= (if quick then 3 else 5) && k != 1 && p.tokens == Twice(1024, k)
    ensures
      p in Points(Decode, quick) <==>
        p.tokens == 32 && exists k: nat :: k <= 3 && !(quick && k == 1) && p.maxTokens == Twice(512, k)
    ensures quick ==> (p in Points(Verify, quick) <==> p == Point(2048, 256) || p == Point(512, 1024))
    ensures
      !quick ==>
        (p in Points(Verify, quick) <==>
           p == Point(2048, 256) || p == Point(1024, 1024) || p == Point(4096, 128) || p == Point(512, 2048))
  {
    Doubles(1024);
    Doubles(512);
  }

  lemma Doubles(n: nat)
    ensures Twice(n, 0) == n && Twice(n, 1) == 2 * n && Twice(n, 2) == 4 * n
    ensures Twice(n, 3) == 8 * n && Twice(n, 4) == 16 * n && Twice(n, 5) == 32 * n
  {
  }

  // A prefill point of the grid is repeated just often enough to fill four seconds at the
  // measured rate, or thirty tokens a millisecond, and at most 64 times; other points carry no
  // repeats.
  lemma PrefillFillsItsWindow(s: Spec, vision: bool, quick: bool, limit: Option<int>, measured: Option<real>)
    requires s in GridDesign(vision, quick, limit, measured)
    ensures s.arm != Prefill ==> s.requests.None?
    ensures s.arm == Prefill ==>
      var ms := PointMs(s.point.tokens, measured);
      && s.requests.Some? && 1 <= s.requests.value <= 64
      && (Times(s.requests.value as real, ms) >= 4000.0 || s.requests.value == 64)
      && (s.requests.value > 1 ==> Times((s.requests.value - 1) as real, ms) < 4000.0)
  {
    hide GridDesign, PrefillRepeats, RequestMs, PointMs;
    RepeatsOfGrid(s, vision, quick, limit, measured);
    if s.arm == Prefill {
      RepeatsInTimes(s.point.tokens, measured);
      RequestTakes(s.point.tokens, measured);
    }
    hide Times;
  }

  lemma RepeatsInTimes(tokens: nat, measured: Option<real>)
    ensures
      var n, ms := PrefillRepeats(tokens, measured), RequestMs(tokens, measured);
      && (Times(n as real, ms) >= 4000.0 || n == 64)
      && (n > 1 ==> Times((n - 1) as real, ms) < 4000.0)
  {
    hide PrefillRepeats, RequestMs;
    RepeatsAreLeastFilling(tokens, measured);
  }

  lemma RepeatsOfGrid(s: Spec, vision: bool, quick: bool, limit: Option<int>, measured: Option<real>)
    requires s in GridDesign(vision, quick, limit, measured)
    ensures s.requests == if s.arm == Prefill then Some(PrefillRepeats(s.point.tokens, measured)) else None
  {
    hide GridDesign, TextDesign, Points, Fitting, FitsContext, PrefillRepeats;
    InGridIff(s, vision, quick, limit, measured);
    InTextDesignIff(s, quick, limit, measured);
    InTextDesignIff(s.(images := 0), quick, limit, measured);
  }

  // Milliseconds of one request: at least one.
  function PointMs(tokens: nat, measured: Option<real>): real {
    var rate := if measured.Some? && measured.value > 0.0 then measured.value else 30.0;
    if tokens as real / rate > 1.0 then tokens as real / rate else 1.0
  }

  lemma RequestTakes(tokens: nat, measured: Option<real>)
    ensures RequestMs(tokens, measured) == PointMs(tokens, measured)
  {
  }

  // ---------- what the planned rows identify ----------

  // The row a spec yields when the realised counts are the requested ones: totals over its
  // aggregated requests.
  function PlannedRow(s: Spec): Row {
    var n := if s.requests.Some? then s.requests.value as real else 1.0;
    Row(Absent, Absent, Amount(s.point.maxTokens as real * n), Amount(s.point.tokens as real * n),
        Amount(s.images as real * n), if s.requests.Some? then Amount(n) else Absent, Absent)
  }

  function PlannedRows(grid: seq<Spec>): (rows: seq<Row>)
    ensures |rows| == |grid|
    ensures forall i :: 0 <= i < |grid| ==> rows[i] == PlannedRow(grid[i])
  {
    if grid == [] then [] else [PlannedRow(grid[0])] + PlannedRows(grid[1..])
  }

  predicate Counted(s: Spec) {
    s.requests.Some? ==> s.requests.value >= 1
  }

  lemma TimesOver(a: real, n: real)
    requires n > 0.0
    ensures a * n / n == a
  {
  }

  // Aggregation does not move the design point.
  lemma PlannedDesignPoint(s: Spec)
    requires Counted(s)
    ensures TextPer(PlannedRow(s)) == s.point.tokens as real
    ensures OutputPer(PlannedRow(s)) == s.point.maxTokens as real
    ensures ImagesPer(PlannedRow(s)) == s.images as real
  {
    var n := if s.requests.Some? then s.requests.value as real else 1.0;
    TimesOver(s.point.tokens as real, n);
    TimesOver(s.point.maxTokens as real, n);
    TimesOver(s.images as real, n);
  }

  lemma {:induction false} TextRange(rows: seq<Row>)
    requires rows != []
    ensures forall r :: r in rows ==> MinText(rows) <= TextPer(r) <= MaxText(rows)
    ensures exists r :: r in rows && TextPer(r) == MaxText(rows)
    ensures exists r :: r in rows && TextPer(r) == MinText(rows)
  {
    hide TextPer;
    assert rows[0] in rows;
    if |rows| > 1 {
      TextRange(rows[1..]);
      assert rows == [rows[0]] + rows[1..];
      assert forall r :: r in rows[1..] ==> r in rows;
    }
  }

  lemma {:induction false} ArmCountSplits(a: seq<Row>, b: seq<Row>)
    ensures PrefillArmCount(a + b) == PrefillArmCount(a) + PrefillArmCount(b)
    ensures WithImageCount(a + b) == WithImageCount(a) + WithImageCount(b)
    ensures WithoutImageCount(a + b) == WithoutImageCount(a) + WithoutImageCount(b)
  {
    hide InPrefillArm, ImagesPer;
    if a == [] {
      assert a + b == b;
    } else {
      assert (a + b)[1..] == a[1..] + b;
      ArmCountSplits(a[1..], b);
    }
  }

  lemma PlannedSplit(a: seq<Spec>, b: seq<Spec>)
    ensures PlannedRows(a + b) == PlannedRows(a) + PlannedRows(b)
  {
  }

  // A grid identifies the prefill axis exactly when no limit is set or the limit holds 2560
  // tokens: with less, no planned prompt is far enough from the shortest one.
  lemma InputArmPassesIff(vision: bool, quick: bool, limit: Option<int>, measured: Option<real>)
    ensures
      InputDesignLeverage(PlannedRows(GridDesign(vision, quick, limit, measured))) <==>
        limit.None? || limit.value <= 0 || limit.value >= 2560
  {
    if limit.None? || limit.value <= 0 || limit.value >= 2560 {
      InputArmPasses(vision, quick, limit, measured);
    } else {
      InputArmFails(vision, quick, limit, measured);
    }
  }

  lemma GridIsCounted(vision: bool, quick: bool, limit: Option<int>, measured: Option<real>)
    ensures forall s :: s in GridDesign(vision, quick, limit, measured) ==> Counted(s)
  {
    hide FitsContext, Points, GridDesign;
    forall s | s in GridDesign(vision, quick, limit, measured) ensures Counted(s) {
      InGridIff(s, vision, quick, limit, measured);
      InTextDesignIff(s, quick, limit, measured);
      InTextDesignIff(s.(images := 0), quick, limit, measured);
    }
  }

  lemma InputArmPasses(vision: bool, quick: bool, limit: Option<int>, measured: Option<real>)
    requires limit.None? || limit.value <= 0 || limit.value >= 2560
    ensures InputDesignLeverage(PlannedRows(GridDesign(vision, quick, limit, measured)))
  {
    hide PrefillRepeats, GridDesign, TextDesign;
    var grid := GridDesign(vision, quick, limit, measured);
    var rows := PlannedRows(grid);
    var long := SpecOf(Point(2048, 256), false, Verify, measured);
    var short := SpecOf(Point(32, 512), false, Decode, measured);
    InTextDesignIff(long, quick, limit, measured);
    InTextDesignIff(short, quick, limit, measured);
    InGridIff(long, vision, quick, limit, measured);
    InGridIff(short, vision, quick, limit, measured);
    RowOf(grid, long);
    RowOf(grid, short);
    PlannedDesignPoint(long);
    PlannedDesignPoint(short);
    TextRange(rows);
    PrefillArmCovered(vision, quick, limit, measured);
  }

  lemma RowOf(grid: seq<Spec>, s: Spec)
    requires s in grid
    ensures PlannedRow(s) in PlannedRows(grid)
  {
    var i :| 0 <= i < |grid| && grid[i] == s;
    assert PlannedRows(grid)[i] == PlannedRow(s);
  }

  lemma {:induction false} ArmStarts(points: seq<Point>, measured: Option<real>, k: nat)
    requires 1 <= k <= |points|
    ensures
      var arm := ArmSpecs(points, Prefill, measured, k);
      && |arm| >= 2
      && arm[0] == SpecOf(points[0], false, Prefill, measured)
      && arm[1] == SpecOf(points[0], true, Prefill, measured)
  {
    hide PrefillRepeats;
    if k > 1 { ArmStarts(points, measured, k - 1); }
  }

  lemma GridStarts(vision: bool, quick: bool, limit: Option<int>, measured: Option<real>)
    requires FitsContext(1024, 8, limit)
    ensures
      var grid := GridDesign(vision, quick, limit, measured);
      && |grid| >= 2
      && grid[0] == SpecOf(Point(1024, 8), false, Prefill, measured)
      && grid[1] == SpecOf(Point(1024, 8), true, Prefill, measured)
  {
    hide ArmDesign, ImageCopies, SpecOf, FitsContext;
    ArmHead(quick, limit, measured);
    assert TextDesign(quick, limit, measured)[..2] == ArmDesign(Prefill, quick, limit, measured)[..2];
    hide TextDesign;
  }

  lemma ArmHead(quick: bool, limit: Option<int>, measured: Option<real>)
    requires FitsContext(1024, 8, limit)
    ensures
      var arm := ArmDesign(Prefill, quick, limit, measured);
      && |arm| >= 2
      && arm[0] == SpecOf(Point(1024, 8), false, Prefill, measured)
      && arm[1] == SpecOf(Point(1024, 8), true, Prefill, measured)
  {
    hide FitsContext, SpecOf, ArmSpecs;
    FirstPrefillFits(quick, limit);
    hide Fitting, Points;
    var points := Fitting(Points(Prefill, quick), limit);
    ArmStarts(points, measured, |points|);
  }

  lemma FirstPrefillFits(quick: bool, limit: Option<int>)
    requires FitsContext(1024, 8, limit)
    ensures
      var points := Fitting(Points(Prefill, quick), limit);
      points != [] && points[0] == Point(1024, 8)
  {
    hide FitsContext;
    assert Points(Prefill, quick)[0] == Point(1024, 8);
  }

  // The shortest prefill point is always planned twice.
  lemma PrefillArmCovered(vision: bool, quick: bool, limit: Option<int>, measured: Option<real>)
    requires FitsContext(1024, 8, limit)
    ensures PrefillArmCount(PlannedRows(GridDesign(vision, quick, limit, measured))) >= 2
  {
    hide FitsContext, PrefillRepeats, InPrefillArm, PlannedRow, GridDesign;
    GridStarts(vision, quick, limit, measured);
    var grid := GridDesign(vision, quick, limit, measured);
    InArm(grid[0]);
    InArm(grid[1]);
    assert grid == grid[..2] + grid[2..];
    PlannedSplit(grid[..2], grid[2..]);
    ArmCountSplits(PlannedRows(grid[..2]), PlannedRows(grid[2..]));
    TwoInArm(PlannedRows(grid[..2]));
  }

  lemma InArm(s: Spec)
    requires Counted(s) && s.point.tokens >= 1024 && s.point.maxTokens <= 8
    ensures InPrefillArm(PlannedRow(s))
  {
    PlannedDesignPoint(s);
  }

  lemma TwoInArm(two: seq<Row>)
    requires |two| == 2 && InPrefillArm(two[0]) && InPrefillArm(two[1])
    ensures PrefillArmCount(two) == 2
  {
    assert PrefillArmCount(two[1..]) == 1;
  }

  lemma InputArmFails(vision: bool, quick: bool, limit: Option<int>, measured: Option<real>)
    requires limit.Some? && 0 < limit.value < 2560
    ensures !InputDesignLeverage(PlannedRows(GridDesign(vision, quick, limit, measured)))
  {
    hide PrefillRepeats, GridDesign, TextDesign, TextPer;
    var grid := GridDesign(vision, quick, limit, measured);
    var rows := PlannedRows(grid);
    forall r | r in rows ensures 32.0 <= TextPer(r) <= 1024.0 {
      var i :| 0 <= i < |rows| && rows[i] == r;
      var s := grid[i];
      InGridIff(s, vision, quick, limit, measured);
      GridIsCounted(vision, quick, limit, measured);
      PlannedDesignPoint(s);
      assert 32 <= s.point.tokens <= 1024;
    }
    if rows != [] { TextRange(rows); }
  }

  // ---------- the image arm ----------

  lemma {:induction false} CopiesSplit(a: seq<Spec>, b: seq<Spec>)
    ensures ImageCopies(a + b) == ImageCopies(a) + ImageCopies(b)
  {
    if b == [] {
      assert a + b == a;
    } else {
      assert (a + b)[..|a + b| - 1] == a + b[..|b| - 1];
      CopiesSplit(a, b[..|b| - 1]);
    }
  }

  lemma {:induction false} CopiesOfArm(points: seq<Point>, arm: Arm, measured: Option<real>, k: nat)
    requires k <= |points|
    ensures |ImageCopies(ArmSpecs(points, arm, measured, k))| == if arm == Prefill then 0 else k
  {
    hide PrefillRepeats;
    if k > 0 {
      CopiesOfArm(points, arm, measured, k - 1);
      var plain := [SpecOf(points[k - 1], false, arm, measured)];
      var copy := if Corner(arm, k - 1, |points|) then [SpecOf(points[k - 1], true, arm, measured)] else [];
      CopiesSplit(ArmSpecs(points, arm, measured, k - 1), plain);
      CopiesSplit(ArmSpecs(points, arm, measured, k - 1) + plain, copy);
      assert |ImageCopies(plain)| == if arm == Prefill then 0 else 1;
      assert ImageCopies(copy) == [];
    }
  }

  // One image copy for every decode and every verification point that fits.
  lemma CopiesCount(quick: bool, limit: Option<int>, measured: Option<real>)
    ensures |ImageCopies(TextDesign(quick, limit, measured))|
            == |Fitting(Points(Decode, quick), limit)| + |Fitting(Points(Verify, quick), limit)|
  {
    hide ArmSpecs, Points, Fitting, ImageCopies;
    var a := ArmDesign(Prefill, quick, limit, measured);
    var b := ArmDesign(Decode, quick, limit, measured);
    var c := ArmDesign(Verify, quick, limit, measured);
    CopiesSplit(a, b);
    CopiesSplit(a + b, c);
    forall arm: Arm
      ensures |ImageCopies(ArmDesign(arm, quick, limit, measured))|
              == if arm == Prefill then 0 else |Fitting(Points(arm, quick), limit)|
    {
      var points := Fitting(Points(arm, quick), limit);
      CopiesOfArm(points, arm, measured, |points|);
    }
  }

  lemma {:induction false} CountImages(grid: seq<Spec>, images: nat)
    requires forall s :: s in grid ==> s.images == images && Counted(s)
    ensures WithImageCount(PlannedRows(grid)) == if images > 0 then |grid| else 0
    ensures WithoutImageCount(PlannedRows(grid)) == if images > 0 then 0 else |grid|
  {
    hide ImagesPer, PlannedRow;
    if grid != [] {
      CountImages(grid[1..], images);
      PlannedDesignPoint(grid[0]);
      assert PlannedRows(grid)[1..] == PlannedRows(grid[1..]);
    }
  }

  // How many decode and verification points fit decides the image arm.
  lemma ImageArmCounts(vision: bool, quick: bool, limit: Option<int>, measured: Option<real>)
    ensures
      var fit := |Fitting(Points(Decode, quick), limit)| + |Fitting(Points(Verify, quick), limit)|;
      ImageDesignLeverage(PlannedRows(GridDesign(vision, quick, limit, measured))) <==> vision && fit >= 2
  {
    hide FitsContext, PrefillRepeats, Points, ImageCopies, TextDesign, Fitting;
    var text := TextDesign(quick, limit, measured);
    var copies := if vision then ImageCopies(text) else [];
    var grid := GridDesign(vision, quick, limit, measured);
    assert grid == text + copies;
    forall s | s in text ensures s.images == 0 && Counted(s) {
      InTextDesignIff(s, quick, limit, measured);
      GridIsCounted(vision, quick, limit, measured);
      assert s in grid;
    }
    forall s | s in copies ensures s.images == 1 && Counted(s) {
      InImageCopiesIff(s, text);
      GridIsCounted(vision, quick, limit, measured);
      assert s in grid;
    }
    CountImages(text, 0);
    CountImages(copies, 1);
    PlannedSplit(text, copies);
    ArmCountSplits(PlannedRows(text), PlannedRows(copies));
    CopiesCount(quick, limit, measured);
    CopiesAreFewer(text);
  }

  lemma {:induction false} CopiesAreFewer(grid: seq<Spec>)
    ensures |ImageCopies(grid)| <= |grid|
  {
    if grid != [] { CopiesAreFewer(grid[..|grid| - 1]); }
  }

  // How many of the points fit.
  lemma FittingCount(points: seq<Point>, limit: Option<int>)
    requires points != []
    ensures |Fitting(points, limit)|
            == (if FitsContext(points[0].tokens, points[0].maxTokens, limit) then 1 else 0)
               + |Fitting(points[1..], limit)|
  {
  }

  lemma FittingTwo(a: Point, b: Point, limit: Option<int>)
    ensures |Fitting([a, b], limit)|
            == (if FitsContext(a.tokens, a.maxTokens, limit) then 1 else 0)
               + (if FitsContext(b.tokens, b.maxTokens, limit) then 1 else 0)
  {
    hide FitsContext;
    FittingCount([a, b], limit);
    assert [a, b][1..] == [b];
    FittingCount([b], limit);
  }

  lemma FittingThree(a: Point, b: Point, c: Point, limit: Option<int>)
    ensures |Fitting([a, b, c], limit)|
            == (if FitsContext(a.tokens, a.maxTokens, limit) then 1 else 0) + |Fitting([b, c], limit)|
  {
    FittingCount([a, b, c], limit);
    assert [a, b, c][1..] == [b, c];
  }

  lemma FittingFour(a: Point, b: Point, c: Point, d: Point, limit: Option<int>)
    ensures |Fitting([a, b, c, d], limit)|
            == (if FitsContext(a.tokens, a.maxTokens, limit) then 1 else 0) + |Fitting([b, c, d], limit)|
  {
    FittingCount([a, b, c, d], limit);
    assert [a, b, c, d][1..] == [b, c, d];
  }

  lemma EnoughFitIff(quick: bool, limit: Option<int>)
    ensures
      |Fitting(Points(Decode, quick), limit)| + |Fitting(Points(Verify, quick), limit)| >= 2 <==>
        limit.None? || limit.value <= 0 || limit.value >= if quick then 1707 else 1174
  {
    hide Fitting;
    if quick {
      FittingThree(Point(32, 512), Point(32, 2048), Point(32, 4096), limit);
      FittingTwo(Point(32, 2048), Point(32, 4096), limit);
      FittingTwo(Point(2048, 256), Point(512, 1024), limit);
    } else {
      FittingFour(Point(32, 512), Point(32, 1024), Point(32, 2048), Point(32, 4096), limit);
      FittingThree(Point(32, 1024), Point(32, 2048), Point(32, 4096), limit);
      FittingTwo(Point(32, 2048), Point(32, 4096), limit);
      FittingFour(Point(2048, 256), Point(1024, 1024), Point(4096, 128), Point(512, 2048), limit);
      FittingThree(Point(1024, 1024), Point(4096, 128), Point(512, 2048), limit);
      FittingTwo(Point(4096, 128), Point(512, 2048), limit);
    }
  }

  // A vision grid identifies the image axis exactly when two decode or verification points
  // fit: 1174 tokens for the full grid, 1707 for the quick one.
  lemma ImageArmPassesIff(vision: bool, quick: bool, limit: Option<int>, measured: Option<real>)
    ensures
      ImageDesignLeverage(PlannedRows(GridDesign(vision, quick, limit, measured))) <==>
        && vision
        && (limit.None? || limit.value <= 0 || limit.value >= if quick then 1707 else 1174)
  {
    hide GridDesign, ImageDesignLeverage, Fitting, Points;
    ImageArmCounts(vision, quick, limit, measured);
    EnoughFitIff(quick, limit);
  }
}
