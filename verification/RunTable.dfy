/**
 The measured run table: which rows are admitted, the per-request design point of a row, the
 design arms, and the regression columns handed to the estimator.
 Follows admit_rows, _requests, _per_request, input_design_leverage, image_design_leverage,
 detect_residuals_structured, attributed_levels and the column set-up of fit_nested_models in
 src/vetch/calibrate_v2.py.
 */
module RunTable {
  import opened Wrappers
  import opened Reals
  import opened Rungs
  import opened AxisGate
  import opened NestedFit

  // A row's field as read from JSON. A string that parses as a number is an Amount.
  datatype Field = Absent | NullField | Flag(b: bool) | Unparseable | Infinite | Amount(v: real)

  datatype Row = Row(
    rawEnergy: Field,
    energy: Field,
    output: Field,
    text: Field,
    images: Field,
    requests: Field,
    duration: Field)

  datatype Entry = NotAMapping | Entry(row: Row)

  const DURATION_FLOOR_MS := 2000.0

  // ---------- admission ----------

  // _finite_field: a missing field is zero, a present one must be a finite number.
  function FiniteField(f: Field): Option<real> {
    match f
    case Absent => Some(0.0)
    case Amount(v) => Some(v)
    case _ => None
  }

  // float(row.get("raw_energy_wh") or 0.0), None when that raises or is not finite.
  function RawEnergy(f: Field): Option<real> {
    match f
    case Amount(v) => Some(v)
    case Flag(b) => Some(if b then 1.0 else 0.0)
    case Unparseable => None
    case Infinite => None
    case _ => Some(0.0)
  }

  datatype Fate = Admitted | ZeroRaw | Malformed | UnderFloor

  function FateOf(e: Entry, sampling: bool): Fate {
    if e.NotAMapping? then Malformed
    else
      var r := e.row;
      if RawEnergy(r.rawEnergy).None? || RawEnergy(r.rawEnergy).value <= 0.0 then ZeroRaw
      else if FiniteField(r.energy).None? || FiniteField(r.output).None? || FiniteField(r.text).None?
           || FiniteField(r.images).None? || FiniteField(r.requests).None? then Malformed
      else if FiniteField(r.duration).None? then Malformed
      else if r.requests != Absent && FiniteField(r.requests).value <= 0.0 then Malformed
      else if sampling && FiniteField(r.duration).value < DURATION_FLOOR_MS then UnderFloor
      else Admitted
  }

  function AdmittedRows(table: seq<Entry>, sampling: bool): (rows: seq<Row>)
    ensures forall r :: r in rows ==> FateOf(Entry(r), sampling) == Admitted
  {
    if table == [] then []
    else
      var rest := AdmittedRows(table[..|table| - 1], sampling);
      var last := table[|table| - 1];
      if FateOf(last, sampling) == Admitted then rest + [last.row] else rest
  }

  function CountFate(table: seq<Entry>, sampling: bool, fate: Fate): nat {
    if table == [] then 0
    else CountFate(table[..|table| - 1], sampling, fate)
         + if FateOf(table[|table| - 1], sampling) == fate then 1 else 0
  }

  // Every row is admitted in order or counted under exactly one reason.
  lemma {:induction false} NoRowIsLostSilently(table: seq<Entry>, sampling: bool)
    ensures |AdmittedRows(table, sampling)| + CountFate(table, sampling, ZeroRaw)
            + CountFate(table, sampling, Malformed) + CountFate(table, sampling, UnderFloor) == |table|
  {
    if table != [] { NoRowIsLostSilently(table[..|table| - 1], sampling); }
  }

  // Which row meets which fate, told from its fields: a row without a positive raw reading is
  // counted as zero, any other with a field that is no finite number or with no request as
  // malformed, and a sampled one without two seconds on the clock as too short.
  lemma FateIff(r: Row)
    ensures FateOf(NotAMapping, true) == FateOf(NotAMapping, false) == Malformed
    ensures forall sampling ::
      FateOf(Entry(r), sampling) == ZeroRaw <==> r.rawEnergy != Flag(true) && !(r.rawEnergy.Amount? && r.rawEnergy.v > 0.0)
    ensures
      FateOf(Entry(r), false) == Admitted <==>
        && FateOf(Entry(r), false) != ZeroRaw
        && (forall f :: f in [r.energy, r.output, r.text, r.images, r.requests, r.duration] ==> f == Absent || f.Amount?)
        && !(r.requests.Amount? && r.requests.v <= 0.0)
    ensures
      FateOf(Entry(r), true) ==
        if FateOf(Entry(r), false) == Admitted && !(r.duration.Amount? && r.duration.v >= 2000.0) then UnderFloor
        else FateOf(Entry(r), false)
    ensures FateOf(Entry(r), false) != UnderFloor
  {
    var fields := [r.energy, r.output, r.text, r.images, r.requests, r.duration];
    assert fields[0] in fields && fields[1] in fields && fields[2] in fields;
    assert fields[3] in fields && fields[4] in fields && fields[5] in fields;
  }

  method AdmitRows(table: seq<Entry>, sampling: bool)
    returns (admitted: seq<Row>, zeroRaw: nat, malformed: nat, underFloor: nat)
    ensures admitted == AdmittedRows(table, sampling)
    ensures zeroRaw == CountFate(table, sampling, ZeroRaw)
    ensures malformed == CountFate(table, sampling, Malformed)
    ensures underFloor == CountFate(table, sampling, UnderFloor)
    ensures |admitted| + zeroRaw + malformed + underFloor == |table|
  {
    assert FiniteField(Absent) == Some(0.0);
    hide FiniteField, RawEnergy;
    admitted, zeroRaw, malformed, underFloor := [], 0, 0, 0;
    for i := 0 to |table|
      invariant admitted == AdmittedRows(table[..i], sampling)
      invariant zeroRaw == CountFate(table[..i], sampling, ZeroRaw)
      invariant malformed == CountFate(table[..i], sampling, Malformed)
      invariant underFloor == CountFate(table[..i], sampling, UnderFloor)
    {
      assert table[..i + 1][..i] == table[..i];
      if table[i].NotAMapping? {
        malformed := malformed + 1;
        continue;
      }
      var row := table[i].row;
      var raw := RawEnergy(row.rawEnergy);
      if raw.None? || raw.value <= 0.0 {
        zeroRaw := zeroRaw + 1;
        continue;
      }
      if FiniteField(row.energy).None? || FiniteField(row.output).None? || FiniteField(row.text).None?
         || FiniteField(row.images).None? || FiniteField(row.requests).None? {
        malformed := malformed + 1;
        continue;
      }
      if row.duration != Absent && FiniteField(row.duration).None? {
        malformed := malformed + 1;
        continue;
      }
      if row.requests != Absent && FiniteField(row.requests).value <= 0.0 {
        malformed := malformed + 1;
        continue;
      }
      if sampling {
        var duration := FiniteField(row.duration).value;
        if duration < DURATION_FLOOR_MS {
          underFloor := underFloor + 1;
          continue;
        }
      }
      admitted := admitted + [row];
    }
    assert table[..|table|] == table;
    NoRowIsLostSilently(table, sampling);
  }

  // ---------- the per-request design point ----------

  // float(row.get(key) or 0) of an admitted row.
  function Total(f: Field): real {
    match f
    case Amount(v) => v
    case _ => 0.0
  }

  // Requests aggregated into the row's timing window, at least one.
  function Requests(r: Row): (n: real)
    ensures n > 0.0
  {
    match r.requests
    case Amount(v) => if v > 0.0 then v else 1.0
    case _ => 1.0
  }

  function PerRequest(r: Row, f: Field): real {
    Total(f) / Requests(r)
  }

  function EnergyPer(r: Row): real { PerRequest(r, r.energy) }
  function OutputPer(r: Row): real { PerRequest(r, r.output) }
  function TextPer(r: Row): real { PerRequest(r, r.text) }
  function ImagesPer(r: Row): real { PerRequest(r, r.images) }

  // A row that stands for n requests gives each an n-th of its totals; one that states no
  // positive count stands for a single request.
  lemma PerRequestIs(r: Row, total: real)
    ensures r.requests.Amount? && r.requests.v > 0.0 ==>
      && (r.energy == Amount(total) ==> EnergyPer(r) * r.requests.v == total)
      && (r.output == Amount(total) ==> OutputPer(r) * r.requests.v == total)
      && (r.text == Amount(total) ==> TextPer(r) * r.requests.v == total)
      && (r.images == Amount(total) ==> ImagesPer(r) * r.requests.v == total)
    ensures !(r.requests.Amount? && r.requests.v > 0.0) ==>
      && (r.energy == Amount(total) ==> EnergyPer(r) == total)
      && (r.output == Amount(total) ==> OutputPer(r) == total)
      && (r.text == Amount(total) ==> TextPer(r) == total)
      && (r.images == Amount(total) ==> ImagesPer(r) == total)
  {
  }

  // ---------- the design arms ----------

  const PREFILL_MIN_INPUT := 1024.0
  const PREFILL_MAX_OUTPUT := 8.0
  const PREFILL_MIN_ROWS := 2
  const PREFILL_MIN_SPAN := 1024.0
  const IMAGE_MIN_ROWS_EACH := 2

  function MaxText(rows: seq<Row>): real
    requires rows != []
  {
    if |rows| == 1 then TextPer(rows[0]) else Max(TextPer(rows[0]), MaxText(rows[1..]))
  }

  function MinText(rows: seq<Row>): real
    requires rows != []
  {
    if |rows| == 1 then TextPer(rows[0]) else Min(TextPer(rows[0]), MinText(rows[1..]))
  }

  predicate InPrefillArm(r: Row) {
    TextPer(r) >= PREFILL_MIN_INPUT && OutputPer(r) <= PREFILL_MAX_OUTPUT
  }

  function PrefillArmCount(rows: seq<Row>): nat {
    if rows == [] then 0 else (if InPrefillArm(rows[0]) then 1 else 0) + PrefillArmCount(rows[1..])
  }

  predicate InputDesignLeverage(rows: seq<Row>) {
    && rows != []
    && MaxText(rows) >= PREFILL_MIN_INPUT
    && MaxText(rows) - MinText(rows) >= PREFILL_MIN_SPAN
    && PrefillArmCount(rows) >= PREFILL_MIN_ROWS
  }

  function WithImageCount(rows: seq<Row>): nat {
    if rows == [] then 0 else (if ImagesPer(rows[0]) > 0.0 then 1 else 0) + WithImageCount(rows[1..])
  }

  function WithoutImageCount(rows: seq<Row>): nat {
    if rows == [] then 0 else (if ImagesPer(rows[0]) <= 0.0 then 1 else 0) + WithoutImageCount(rows[1..])
  }

  predicate ImageDesignLeverage(rows: seq<Row>) {
    WithImageCount(rows) >= IMAGE_MIN_ROWS_EACH && WithoutImageCount(rows) >= IMAGE_MIN_ROWS_EACH
  }

  // ---------- structured residuals ----------

  function GroupSum(flags: seq<bool>, residuals: seq<real>, which: bool): real
    requires |flags| == |residuals|
  {
    if flags == [] then 0.0
    else (if flags[0] == which then residuals[0] else 0.0) + GroupSum(flags[1..], residuals[1..], which)
  }

  function GroupCount(flags: seq<bool>, which: bool): nat {
    if flags == [] then 0 else (if flags[0] == which then 1 else 0) + GroupCount(flags[1..], which)
  }

  // Both groups occur, their mean residuals have strictly opposite signs and differ by more
  // than 0.0005.
  predicate Opposed(flags: seq<bool>, residuals: seq<real>)
    requires |flags| == |residuals|
  {
    var n0, n1 := GroupCount(flags, false), GroupCount(flags, true);
    n0 > 0 && n1 > 0 &&
    var m0 := GroupSum(flags, residuals, false) / n0 as real;
    var m1 := GroupSum(flags, residuals, true) / n1 as real;
    ((m0 < 0.0 < m1) || (m1 < 0.0 < m0)) && Max(m0, m1) - Min(m0, m1) > 0.0005
  }

  function ImageFlags(rows: seq<Row>): (flags: seq<bool>)
    ensures |flags| == |rows|
  {
    seq(|rows|, i requires 0 <= i < |rows| => ImagesPer(rows[i]) > 0.0)
  }

  function LongOutputFlags(rows: seq<Row>): (flags: seq<bool>)
    ensures |flags| == |rows|
  {
    seq(|rows|, i requires 0 <= i < |rows| => OutputPer(rows[i]) >= 50.0)
  }

  predicate ResidualsStructured(rows: seq<Row>, residuals: seq<real>) {
    && |rows| >= 8 && |residuals| == |rows|
    && (Opposed(ImageFlags(rows), residuals) || Opposed(LongOutputFlags(rows), residuals))
  }

  // ---------- what the arms and the residual flag ask of the rows ----------

  predicate PromptOnly(r: Row) { TextPer(r) >= 1024.0 && OutputPer(r) <= 8.0 }

  // The rows resolve the input axis exactly when two of them are long prompts with next to no
  // answer, and the prompts of some two rows are 1024 tokens apart.
  lemma InputArmIff(rows: seq<Row>)
    ensures
      InputDesignLeverage(rows) <==>
        && (exists i, j :: 0 <= i < j < |rows| && PromptOnly(rows[i]) && PromptOnly(rows[j]))
        && exists a, b :: a in rows && b in rows && TextPer(a) - TextPer(b) >= 1024.0
  {
    var flags := seq(|rows|, i requires 0 <= i < |rows| => PromptOnly(rows[i]));
    ArmCounts(rows, flags, ImageFlags(rows));
    TwoIff(flags, true);
    if rows != [] { TextExtremes(rows); }
  }

  // And the image axis exactly when two of them carry images and two carry none.
  lemma ImageArmIff(rows: seq<Row>)
    ensures
      ImageDesignLeverage(rows) <==>
        && (exists i, j :: 0 <= i < j < |rows| && ImagesPer(rows[i]) > 0.0 && ImagesPer(rows[j]) > 0.0)
        && exists i, j :: 0 <= i < j < |rows| && ImagesPer(rows[i]) <= 0.0 && ImagesPer(rows[j]) <= 0.0
  {
    var flags := seq(|rows|, i requires 0 <= i < |rows| => PromptOnly(rows[i]));
    var images := seq(|rows|, i requires 0 <= i < |rows| => ImagesPer(rows[i]) > 0.0);
    ArmCounts(rows, flags, images);
    TwoIff(images, true);
    TwoIff(images, false);
  }

  lemma {:induction false} ArmCounts(rows: seq<Row>, flags: seq<bool>, images: seq<bool>)
    requires |flags| == |rows| == |images|
    requires forall i :: 0 <= i < |rows| ==> flags[i] == PromptOnly(rows[i]) && images[i] == (ImagesPer(rows[i]) > 0.0)
    ensures PrefillArmCount(rows) == GroupCount(flags, true)
    ensures WithImageCount(rows) == GroupCount(images, true)
    ensures WithoutImageCount(rows) == GroupCount(images, false)
  {
    if rows != [] { ArmCounts(rows[1..], flags[1..], images[1..]); }
  }

  lemma {:induction false} TwoIff(flags: seq<bool>, which: bool)
    ensures GroupCount(flags, which) >= 1 <==> which in flags
    ensures GroupCount(flags, which) >= 2 <==> exists i, j :: 0 <= i < j < |flags| && flags[i] == flags[j] == which
  {
    if flags != [] {
      var rest := flags[1..];
      TwoIff(rest, which);
      if i, j :| 0 <= i < j < |rest| && rest[i] == rest[j] == which {
        assert flags[i + 1] == flags[j + 1] == which;
      }
      if flags[0] == which && which in rest {
        var j :| 0 <= j < |rest| && rest[j] == which;
        assert flags[0] == flags[j + 1] == which;
      }
      if i, j :| 0 <= i < j < |flags| && flags[i] == flags[j] == which {
        assert rest[j - 1] == which;
        if i > 0 { assert rest[i - 1] == rest[j - 1] == which; }
      }
      assert flags == [flags[0]] + rest;
    }
  }

  lemma {:induction false} TextExtremes(rows: seq<Row>)
    requires rows != []
    ensures forall r :: r in rows ==> MinText(rows) <= TextPer(r) <= MaxText(rows)
    ensures exists r :: r in rows && TextPer(r) == MaxText(rows)
    ensures exists r :: r in rows && TextPer(r) == MinText(rows)
  {
    if |rows| == 1 {
      assert rows[0] in rows;
    } else {
      TextExtremes(rows[1..]);
      assert forall r :: r in rows <==> r == rows[0] || r in rows[1..];
    }
  }

  // The deviations of a group's residuals from a level, summed.
  function DeviationSum(flags: seq<bool>, residuals: seq<real>, which: bool, level: real): real
    requires |flags| == |residuals|
  {
    if flags == [] then 0.0
    else
      var n := |flags| - 1;
      DeviationSum(flags[..n], residuals[..n], which, level) + if flags[n] == which then residuals[n] - level else 0.0
  }

  // Some rows are flagged and some are not, and the levels around which either group's residuals
  // balance lie on either side of zero, more than 0.0005 apart.
  ghost predicate Leans(flags: seq<bool>, residuals: seq<real>)
    requires |flags| == |residuals|
  {
    && true in flags && false in flags
    && exists a, b ::
      && DeviationSum(flags, residuals, false, a) == 0.0 && DeviationSum(flags, residuals, true, b) == 0.0
      && (a < 0.0 < b || b < 0.0 < a) && (a - b > 0.0005 || b - a > 0.0005)
  }

  // The residuals of eight rows or more are structured exactly when they lean with the images, or
  // with answers of fifty tokens and more.
  lemma StructuredIff(rows: seq<Row>, residuals: seq<real>)
    ensures
      ResidualsStructured(rows, residuals) <==>
        && |rows| >= 8 && |residuals| == |rows|
        && (|| Leans(seq(|rows|, i requires 0 <= i < |rows| => ImagesPer(rows[i]) > 0.0), residuals)
            || Leans(seq(|rows|, i requires 0 <= i < |rows| => OutputPer(rows[i]) >= 50.0), residuals))
  {
    if |residuals| == |rows| {
      assert ImageFlags(rows) == seq(|rows|, i requires 0 <= i < |rows| => ImagesPer(rows[i]) > 0.0);
      assert LongOutputFlags(rows) == seq(|rows|, i requires 0 <= i < |rows| => OutputPer(rows[i]) >= 50.0);
      OpposedIff(ImageFlags(rows), residuals);
      OpposedIff(LongOutputFlags(rows), residuals);
      hide Opposed, Leans;
    }
  }

  lemma OpposedIff(flags: seq<bool>, residuals: seq<real>)
    requires |flags| == |residuals|
    ensures Opposed(flags, residuals) <==> Leans(flags, residuals)
  {
    hide GroupSum, GroupCount, DeviationSum;
    TwoIff(flags, true);
    TwoIff(flags, false);
    if true in flags && false in flags {
      forall which, level ensures
        DeviationSum(flags, residuals, which, level) == 0.0
        <==> level == GroupSum(flags, residuals, which) / GroupCount(flags, which) as real
      {
        BalancedIff(flags, residuals, which, level);
      }
      var a := GroupSum(flags, residuals, false) / GroupCount(flags, false) as real;
      var b := GroupSum(flags, residuals, true) / GroupCount(flags, true) as real;
      assert DeviationSum(flags, residuals, false, a) == 0.0 && DeviationSum(flags, residuals, true, b) == 0.0;
    }
  }

  lemma BalancedIff(flags: seq<bool>, residuals: seq<real>, which: bool, level: real)
    requires |flags| == |residuals| && GroupCount(flags, which) >= 1
    ensures
      DeviationSum(flags, residuals, which, level) == 0.0
      <==> level == GroupSum(flags, residuals, which) / GroupCount(flags, which) as real
  {
    hide GroupSum, GroupCount, DeviationSum;
    DeviationsOf(flags, residuals, which, level);
    QuotientIff(GroupSum(flags, residuals, which), GroupCount(flags, which) as real, level);
  }

  lemma QuotientIff(a: real, b: real, q: real)
    requires b > 0.0
    ensures a - Times(q, b) == 0.0 <==> q == a / b
  {
    assert (a / b) * b == a;
    assert (q - a / b) * b == q * b - a;
  }

  lemma {:induction false} DeviationsOf(flags: seq<bool>, residuals: seq<real>, which: bool, level: real)
    requires |flags| == |residuals|
    ensures DeviationSum(flags, residuals, which, level)
            == GroupSum(flags, residuals, which) - Times(level, GroupCount(flags, which) as real)
  {
    if flags != [] {
      var n := |flags| - 1;
      DeviationsOf(flags[..n], residuals[..n], which, level);
      GroupsGrow(flags, residuals, which);
      OneMore(level, GroupCount(flags[..n], which) as real);
      hide GroupSum, GroupCount, Times;
    } else {
      OneMore(level, 0.0);
    }
  }

  lemma OneMore(x: real, n: real)
    ensures Times(x, n + 1.0) == Times(x, n) + x
    ensures Times(x, 0.0) == 0.0
  {
  }

  lemma {:induction false} GroupsGrow(flags: seq<bool>, residuals: seq<real>, which: bool)
    requires |flags| == |residuals| && flags != []
    ensures
      var n := |flags| - 1;
      && GroupSum(flags, residuals, which)
         == GroupSum(flags[..n], residuals[..n], which) + (if flags[n] == which then residuals[n] else 0.0)
      && GroupCount(flags, which) == GroupCount(flags[..n], which) + if flags[n] == which then 1 else 0
  {
    var n := |flags| - 1;
    if n > 0 {
      GroupsGrow(flags[1..], residuals[1..], which);
      assert flags[..n][1..] == flags[1..][..n - 1] && residuals[..n][1..] == residuals[1..][..n - 1];
    } else {
      assert flags[1..] == [] && residuals[1..] == [];
    }
  }

  // ---------- the regressions ----------

  // What _ols_with_bootstrap returns for one list of columns.
  datatype Ols = Ols(coeffs: seq<real>, r2: Float, cond: Float, cis: seq<Option<Interval>>, residuals: seq<real>)

  // Least squares with a seeded bootstrap: any function of the columns and the response.
  type Estimator = (seq<seq<real>>, seq<real>) -> Ols

  ghost predicate Aligned(ols: Estimator) {
    forall cols, y :: |ols(cols, y).coeffs| == |cols| && |ols(cols, y).cis| == |cols|
  }

  // The regression's column order.
  function Columns(r: set<Term>): (ts: seq<Term>)
    ensures forall t :: t in r ==> t in ts
  {
    assert forall t :: t in r ==> t == Intercept || t == Input || t == Output || t == Image;
    var intercept := if Intercept in r then [Intercept] else [];
    var input := if Input in r then [Input] else [];
    var output := if Output in r then [Output] else [];
    var image := if Image in r then [Image] else [];
    var ts := intercept + input + output + image;
    InOneOf(intercept, input, output, image);
    ts
  }

  lemma InOneOf(a: seq<Term>, b: seq<Term>, c: seq<Term>, d: seq<Term>)
    ensures forall t :: t in a || t in b || t in c || t in d ==> t in a + b + c + d
  {
  }

  function ColumnEntry(t: Term, r: Row, visualTokens: real): real {
    match t
    case Intercept => 1.0
    case Input => Max(0.0, TextPer(r) - ImagesPer(r) * visualTokens) / 1000.0
    case Output => OutputPer(r) / 1000.0
    case Image => ImagesPer(r)
  }

  function Column(t: Term, rows: seq<Row>, visualTokens: real): seq<real> {
    seq(|rows|, i requires 0 <= i < |rows| => ColumnEntry(t, rows[i], visualTokens))
  }

  function DesignMatrix(ts: seq<Term>, rows: seq<Row>, visualTokens: real): (m: seq<seq<real>>)
    ensures |m| == |ts|
  {
    seq(|ts|, i requires 0 <= i < |ts| => Column(ts[i], rows, visualTokens))
  }

  function Response(rows: seq<Row>): seq<real> {
    seq(|rows|, i requires 0 <= i < |rows| => EnergyPer(rows[i]))
  }

  function IndexIn(ts: seq<Term>, t: Term): (i: nat)
    requires t in ts
    ensures i < |ts| && ts[i] == t
  {
    if ts[0] == t then 0 else 1 + IndexIn(ts[1..], t)
  }

  function FitRung(ols: Estimator, r: Rung, rows: seq<Row>, visualTokens: real): (f: RungFit)
    requires Aligned(ols)
    ensures f.coeffs.Keys == r && f.ci.Keys == r
  {
    var ts := Columns(r);
    var o := ols(DesignMatrix(ts, rows, visualTokens), Response(rows));
    RungFit(map t | t in r :: o.coeffs[IndexIn(ts, t)],
            map t | t in r :: o.cis[IndexIn(ts, t)],
            o.r2, o.cond, o.residuals)
  }

  // The columns of a rung are those of its terms, each once.
  lemma ColumnsAreTerms(r: Rung)
    ensures |Columns(r)| == |r|
    ensures forall t :: t in Columns(r) <==> t in r
    ensures forall i, j :: 0 <= i < j < |Columns(r)| ==> Columns(r)[i] != Columns(r)[j]
  {
    var ts := Columns(r);
    ColumnsAreDistinct(r);
    SizeOfDistinct(ts);
    assert (set t | t in ts) == r;
  }

  lemma ColumnsAreDistinct(r: Rung)
    ensures forall t :: t in Columns(r) <==> t in r
    ensures forall i, j :: 0 <= i < j < |Columns(r)| ==> Columns(r)[i] != Columns(r)[j]
  {
  }

  lemma {:induction false} SizeOfDistinct(ts: seq<Term>)
    requires forall i, j :: 0 <= i < j < |ts| ==> ts[i] != ts[j]
    ensures |set t | t in ts| == |ts|
  {
    if ts != [] {
      var n := |ts| - 1;
      SizeOfDistinct(ts[..n]);
      assert (set t | t in ts) == (set t | t in ts[..n]) + {ts[n]};
    }
  }

  // Each coefficient and interval of a rung's fit is what the estimator gives for that term's own
  // column, when handed the columns of the rung's terms and no other.
  lemma CoefficientIsOfItsColumn(ols: Estimator, r: Rung, rows: seq<Row>, visualTokens: real, t: Term)
    requires Aligned(ols) && t in r
    ensures
      exists cols: seq<seq<real>>, y: seq<real>, i ::
        && OfTerms(r, rows, visualTokens, t, cols, i) && Energies(y, rows)
        && GivenFor(FitRung(ols, r, rows, visualTokens), ols, t, cols, y, i)
  {
    var cols, y, i := DesignMatrix(Columns(r), rows, visualTokens), Response(rows), IndexIn(Columns(r), t);
    MatrixIsColumns(r, rows, visualTokens, t);
    RungReports(ols, r, rows, visualTokens, t);
    hide Columns, Column, DesignMatrix, FitRung, OfTerms, GivenFor;
    assert Energies(y, rows);
    assert OfTerms(r, rows, visualTokens, t, cols, i) && GivenFor(FitRung(ols, r, rows, visualTokens), ols, t, cols, y, i);
  }

  lemma MatrixIsColumns(r: Rung, rows: seq<Row>, visualTokens: real, t: Term)
    requires t in r
    ensures
      OfTerms(r, rows, visualTokens, t, DesignMatrix(Columns(r), rows, visualTokens), IndexIn(Columns(r), t))
  {
    ColumnsAreTerms(r);
    hide Columns, Column;
    var ts := Columns(r);
    var cols := DesignMatrix(ts, rows, visualTokens);
    forall c | c in cols ensures exists q :: q in r && c == Column(q, rows, visualTokens) {
      var k :| 0 <= k < |cols| && cols[k] == c;
      assert ts[k] in ts;
    }
    forall q | q in r ensures Column(q, rows, visualTokens) in cols {
      var k :| 0 <= k < |ts| && ts[k] == q;
      assert cols[k] == Column(q, rows, visualTokens);
    }
  }

  lemma RungReports(ols: Estimator, r: Rung, rows: seq<Row>, visualTokens: real, t: Term)
    requires Aligned(ols) && t in r
    ensures
      GivenFor(FitRung(ols, r, rows, visualTokens), ols, t, DesignMatrix(Columns(r), rows, visualTokens), Response(rows),
               IndexIn(Columns(r), t))
  {
    hide Column, Response, DesignMatrix;
  }

  // The columns are those of the rung's terms, and the i-th is that of t.
  ghost predicate OfTerms(r: Rung, rows: seq<Row>, visualTokens: real, t: Term, cols: seq<seq<real>>, i: int) {
    && |cols| == |r| && 0 <= i < |cols|
    && (forall c :: c in cols ==> exists q :: q in r && c == Column(q, rows, visualTokens))
    && (forall q :: q in r ==> Column(q, rows, visualTokens) in cols)
    && cols[i] == Column(t, rows, visualTokens)
  }

  // The response is the energy of one request of every row.
  ghost predicate Energies(y: seq<real>, rows: seq<Row>) {
    |y| == |rows| && forall i :: 0 <= i < |rows| ==> y[i] == EnergyPer(rows[i])
  }

  // And the fit reports for t what the estimator gives for the i-th column.
  ghost predicate GivenFor(f: RungFit, ols: Estimator, t: Term, cols: seq<seq<real>>, y: seq<real>, i: int)
    requires Aligned(ols)
  {
    var o := ols(cols, y);
    && 0 <= i < |cols|
    && t in f.coeffs && f.coeffs[t] == o.coeffs[i] && t in f.ci && f.ci[t] == o.cis[i]
    && f.r2 == o.r2 && f.cond == o.cond && f.residuals == o.residuals
  }

  predicate HasImage(rows: seq<Row>) {
    exists r :: r in rows && ImagesPer(r) > 0.0
  }

  function ProblemOf(ols: Estimator, rows: seq<Row>, visualTokens: real): (p: Problem)
    requires Aligned(ols)
    ensures p.Valid()
  {
    var lattice := Lattice(Optional(HasImage(rows)));
    Problem(|rows|, HasImage(rows), InputDesignLeverage(rows), ImageDesignLeverage(rows),
            map r | r in lattice :: FitRung(ols, r, rows, visualTokens))
  }

  // The design the search sees of the rows.
  lemma DesignOf(ols: Estimator, rows: seq<Row>, visualTokens: real)
    requires Aligned(ols)
    ensures
      var p := ProblemOf(ols, rows, visualTokens);
      && p.rows == |rows|
      && (p.hasImage <==> exists i :: 0 <= i < |rows| && ImagesPer(rows[i]) > 0.0)
      && (p.inputArm <==> InputDesignLeverage(rows)) && (p.imageArm <==> ImageDesignLeverage(rows))
      && forall r :: r in p.Rungs() ==> p.fits[r] == FitRung(ols, r, rows, visualTokens)
  {
    hide FitRung, Lattice, ImagesPer, InputDesignLeverage, ImageDesignLeverage;
    if HasImage(rows) {
      var r :| r in rows && ImagesPer(r) > 0.0;
    }
    if i :| 0 <= i < |rows| && ImagesPer(rows[i]) > 0.0 { assert rows[i] in rows; }
  }

  // ---------- the whole fit ----------

  datatype TableFit = TableFit(
    fit: Fit,
    residualsStructured: bool,
    admitted: nat,
    zeroRaw: nat,
    malformed: nat,
    underFloor: nat)

  // A row may be admitted with no energy_wh at all, and the fit then indexes the missing key.
  datatype FitError = MissingEnergyKey

  predicate ReadsMissingEnergy(rows: seq<Row>, idleWatts: Option<real>) {
    |rows| >= 3 && idleWatts.Some? && idleWatts.value > 0.0 && exists r :: r in rows && r.energy == Absent
  }

  function FitTable(ols: Estimator, table: seq<Entry>, sampling: bool, idleWatts: Option<real>,
                    visualTokens: real): Result<TableFit, FitError>
    requires Aligned(ols)
  {
    var rows := AdmittedRows(table, sampling);
    if ReadsMissingEnergy(rows, idleWatts) then Err(MissingEnergyKey)
    else
      var p := ProblemOf(ols, rows, visualTokens);
      var fit := Outcome(p, idleWatts);
      var barren := |rows| < 3 || idleWatts.None? || idleWatts.value <= 0.0;
      Ok(TableFit(
        fit,
        !barren && fit.publishedRung in p.fits && ResidualsStructured(rows, p.fits[fit.publishedRung].residuals),
        |rows|,
        CountFate(table, sampling, ZeroRaw),
        CountFate(table, sampling, Malformed),
        CountFate(table, sampling, UnderFloor)))
  }

  function FatesOf(table: seq<Entry>, sampling: bool): seq<Fate> {
    seq(|table|, i requires 0 <= i < |table| => FateOf(table[i], sampling))
  }

  // What a fit of the table says: how many rows met each fate, what the search makes of the
  // admitted ones, and whether the residuals of the published rung are structured, which is asked
  // only of three rows and more with a positive idle figure.
  lemma TableFitSays(ols: Estimator, table: seq<Entry>, sampling: bool, idleWatts: Option<real>, visualTokens: real)
    requires Aligned(ols) && FitTable(ols, table, sampling, idleWatts, visualTokens).Ok?
    ensures
      var t, fates := FitTable(ols, table, sampling, idleWatts, visualTokens).result, multiset(FatesOf(table, sampling));
      var rows := AdmittedRows(table, sampling);
      var p := ProblemOf(ols, rows, visualTokens);
      && t.admitted == fates[Admitted] == |rows| && t.zeroRaw == fates[ZeroRaw]
      && t.malformed == fates[Malformed] && t.underFloor == fates[UnderFloor]
      && t.fit == Outcome(p, idleWatts)
      && (t.residualsStructured <==>
            && t.admitted >= 3 && idleWatts.Some? && idleWatts.value > 0.0
            && t.fit.publishedRung in p.fits && ResidualsStructured(rows, p.fits[t.fit.publishedRung].residuals))
  {
    hide FateOf, ProblemOf, Outcome, ResidualsStructured, FatesOf, ReadsMissingEnergy;
    AdmittedAre(table, sampling);
    forall fate ensures multiset(FatesOf(table, sampling))[fate] == CountFate(table, sampling, fate) {
      FatesCounted(table, sampling, fate);
    }
  }

  lemma {:induction false} FatesCounted(table: seq<Entry>, sampling: bool, fate: Fate)
    ensures multiset(FatesOf(table, sampling))[fate] == CountFate(table, sampling, fate)
  {
    hide FateOf;
    if table != [] {
      var n := |table| - 1;
      FatesCounted(table[..n], sampling, fate);
      assert FatesOf(table, sampling) == FatesOf(table[..n], sampling) + [FateOf(table[n], sampling)];
    }
  }

  lemma {:induction false} AdmittedAre(table: seq<Entry>, sampling: bool)
    ensures |AdmittedRows(table, sampling)| == CountFate(table, sampling, Admitted)
    ensures forall r :: r in AdmittedRows(table, sampling) <==> Entry(r) in table && FateOf(Entry(r), sampling) == Admitted
  {
    hide FateOf;
    if table != [] {
      var n := |table| - 1;
      AdmittedAre(table[..n], sampling);
      assert table == table[..n] + [table[n]];
      assert FateOf(table[n], sampling) == Admitted ==> table[n].Entry? by { OnlyMappings(table[n], sampling); }
    }
  }

  lemma OnlyMappings(e: Entry, sampling: bool)
    ensures FateOf(e, sampling) == Admitted ==> e.Entry?
  {
  }

  // The fit fails on a missing energy exactly when idle power is known, three rows or more are
  // fit to admit, and one of them has no energy at all.
  lemma FailsOnMissingEnergyIff(ols: Estimator, table: seq<Entry>, sampling: bool, idleWatts: Option<real>,
                                visualTokens: real)
    requires Aligned(ols)
    ensures
      FitTable(ols, table, sampling, idleWatts, visualTokens) == Err(MissingEnergyKey) <==>
        && idleWatts.Some? && idleWatts.value > 0.0
        && CountFate(table, sampling, Admitted) >= 3
        && exists e :: e in table && FateOf(e, sampling) == Admitted && e.row.energy == Absent
  {
    hide FateOf, ProblemOf, Outcome, ResidualsStructured;
    AdmittedAre(table, sampling);
    forall e | e in table && FateOf(e, sampling) == Admitted ensures e.Entry? { OnlyMappings(e, sampling); }
    if r :| r in AdmittedRows(table, sampling) && r.energy == Absent {
      assert Entry(r) in table;
    }
  }

  // A counter reading, an output, and no energy.
  const ENERGYLESS := Row(Amount(1.0), Absent, Amount(100.0), Absent, Absent, Absent, Absent)

  lemma MissingEnergyExample(ols: Estimator)
    requires Aligned(ols)
    ensures
      var table := [Entry(ENERGYLESS), Entry(ENERGYLESS), Entry(ENERGYLESS)];
      FitTable(ols, table, false, Some(50.0), 0.0) == Err(MissingEnergyKey)
  {
    hide ProblemOf, Outcome, ResidualsStructured, FitTable;
    var e := Entry(ENERGYLESS);
    var table := [e, e, e];
    assert table[..2] == [e, e] && [e, e][..1] == [e] && [e][..0] == [];
    assert CountFate([e], false, Admitted) == 1 && CountFate([e, e], false, Admitted) == 2;
    FailsOnMissingEnergyIff(ols, table, false, Some(50.0), 0.0);
  }

  // The lane as it runs: admit, refuse a table that lacks an energy, then search the lattice.
  method FitRunTable(ols: Estimator, table: seq<Entry>, sampling: bool, idleWatts: Option<real>,
                     visualTokens: real)
    returns (r: Result<TableFit, FitError>)
    requires Aligned(ols)
    ensures r == FitTable(ols, table, sampling, idleWatts, visualTokens)
  {
    hide Outcome;
    var rows, zeroRaw, malformed, underFloor := AdmitRows(table, sampling);
    if ReadsMissingEnergy(rows, idleWatts) {
      return Err(MissingEnergyKey);
    }
    var p := ProblemOf(ols, rows, visualTokens);
    var fit := FitNestedModels(p, idleWatts);
    var structured := false;
    if |rows| >= 3 && idleWatts.Some? && idleWatts.value > 0.0 && fit.publishedRung in p.fits {
      structured := ResidualsStructured(rows, p.fits[fit.publishedRung].residuals);
    }
    return Ok(TableFit(fit, structured, |rows|, zeroRaw, malformed, underFloor));
  }
}
