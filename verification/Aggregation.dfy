/**
 Aggregation invariance: a row that stands for k identical requests in one timing window is
 the same design point as one request, so it changes nothing the fit decides. Also the
 attributed energy levels, which weigh rows by their totals and do change.
 */
module Aggregation {
  import opened Wrappers
  import opened Rungs
  import opened NestedFit
  import opened RunTable

  function Scale(f: Field, k: real): Field {
    match f
    case Amount(v) => Amount(k * v)
    case _ => f
  }

  // k requests like the ones in row r, measured in one window.
  function Aggregate(r: Row, k: real): Row {
    Row(Scale(r.rawEnergy, k), Scale(r.energy, k), Scale(r.output, k), Scale(r.text, k),
        Scale(r.images, k), Amount(k * Requests(r)), Scale(r.duration, k))
  }

  lemma QuotientScales(k: real, a: real, b: real)
    requires k > 0.0 && b > 0.0
    ensures (k * a) / (k * b) == a / b
  {
    var q := a / b;
    assert q * b == a;
    assert q * (k * b) == k * (q * b);
  }

  lemma SamePoint(r: Row, k: real, f: Field)
    requires k > 0.0
    ensures Requests(Aggregate(r, k)) == k * Requests(r)
    ensures PerRequest(Aggregate(r, k), Scale(f, k)) == PerRequest(r, f)
  {
    QuotientScales(k, Total(f), Requests(r));
    match f {
      case Amount(v) =>
      case _ => assert 0.0 / (k * Requests(r)) == 0.0 / Requests(r) by { QuotientScales(k, 0.0, Requests(r)); }
    }
  }

  // The per-request values of a row, and whether it stores an energy, are all the fit reads.
  predicate SameDesignPoint(r: Row, q: Row) {
    && EnergyPer(r) == EnergyPer(q) && OutputPer(r) == OutputPer(q)
    && TextPer(r) == TextPer(q) && ImagesPer(r) == ImagesPer(q)
    && (r.energy == Absent <==> q.energy == Absent)
  }

  lemma AggregateIsSameDesignPoint(r: Row, k: real)
    requires k > 0.0
    ensures SameDesignPoint(Aggregate(r, k), r)
  {
    SamePoint(r, k, r.energy);
    SamePoint(r, k, r.output);
    SamePoint(r, k, r.text);
    SamePoint(r, k, r.images);
  }

  // An aggregate of at least one request is admitted wherever its row was.
  lemma AggregateStaysAdmitted(r: Row, k: real, sampling: bool)
    requires k >= 1.0 && FateOf(Entry(r), sampling) == Admitted
    ensures FateOf(Entry(Aggregate(r, k)), sampling) == Admitted
  {
    ScaledStaysPositive(r.rawEnergy, k);
    var d := FiniteField(r.duration).value;
    if d >= 0.0 { assert (k - 1.0) * d >= 0.0; }
  }

  lemma ScaledStaysPositive(f: Field, k: real)
    requires k >= 1.0
    ensures RawEnergy(f).Some? && RawEnergy(f).value > 0.0 ==>
            RawEnergy(Scale(f, k)).Some? && RawEnergy(Scale(f, k)).value > 0.0
    ensures FiniteField(f).Some? ==> FiniteField(Scale(f, k)).Some?
  {
  }

  // table2 is table1 with some admitted rows replaced by aggregates of themselves.
  ghost predicate Aggregates(table1: seq<Entry>, table2: seq<Entry>, sampling: bool) {
    && |table1| == |table2|
    && forall i :: 0 <= i < |table1| ==> EntryAggregates(table1[i], table2[i], sampling)
  }

  ghost predicate EntryAggregates(e1: Entry, e2: Entry, sampling: bool) {
    e2 == e1 || (FateOf(e1, sampling) == Admitted && exists k: real :: k >= 1.0 && e2 == Entry(Aggregate(e1.row, k)))
  }

  lemma EntryKeepsFate(e1: Entry, e2: Entry, sampling: bool)
    requires EntryAggregates(e1, e2, sampling)
    ensures FateOf(e1, sampling) == FateOf(e2, sampling)
    ensures FateOf(e1, sampling) == Admitted ==> SameDesignPoint(e2.row, e1.row)
  {
    if e2 != e1 {
      var k: real :| k >= 1.0 && e2 == Entry(Aggregate(e1.row, k));
      AggregateStaysAdmitted(e1.row, k, sampling);
      AggregateIsSameDesignPoint(e1.row, k);
    }
  }

  ghost predicate SameDesign(rows1: seq<Row>, rows2: seq<Row>) {
    |rows1| == |rows2| && forall i :: 0 <= i < |rows1| ==> SameDesignPoint(rows2[i], rows1[i])
  }

  lemma {:induction false} AdmissionKept(table1: seq<Entry>, table2: seq<Entry>, sampling: bool)
    requires Aggregates(table1, table2, sampling)
    ensures SameDesign(AdmittedRows(table1, sampling), AdmittedRows(table2, sampling))
    ensures forall fate :: CountFate(table1, sampling, fate) == CountFate(table2, sampling, fate)
  {
    hide FateOf, EntryAggregates, SameDesignPoint;
    if table1 != [] {
      var n := |table1| - 1;
      AdmissionKept(table1[..n], table2[..n], sampling);
      EntryKeepsFate(table1[n], table2[n], sampling);
    }
  }

  lemma {:induction false} ArmsKept(rows1: seq<Row>, rows2: seq<Row>)
    requires SameDesign(rows1, rows2)
    ensures rows1 != [] ==> MaxText(rows1) == MaxText(rows2) && MinText(rows1) == MinText(rows2)
    ensures PrefillArmCount(rows1) == PrefillArmCount(rows2)
    ensures WithImageCount(rows1) == WithImageCount(rows2)
    ensures WithoutImageCount(rows1) == WithoutImageCount(rows2)
  {
    if rows1 != [] {
      assert SameDesignPoint(rows2[0], rows1[0]);
      ArmsKept(rows1[1..], rows2[1..]);
    }
  }

  lemma ColumnsKept(rows1: seq<Row>, rows2: seq<Row>, visualTokens: real)
    requires SameDesign(rows1, rows2)
    ensures ImageFlags(rows1) == ImageFlags(rows2) && LongOutputFlags(rows1) == LongOutputFlags(rows2)
    ensures Response(rows1) == Response(rows2)
    ensures forall t :: Column(t, rows1, visualTokens) == Column(t, rows2, visualTokens)
  {
    forall i | 0 <= i < |rows1| ensures SameDesignPoint(rows2[i], rows1[i]) {}
    forall t ensures Column(t, rows1, visualTokens) == Column(t, rows2, visualTokens) {
      forall i | 0 <= i < |rows1|
        ensures Column(t, rows1, visualTokens)[i] == Column(t, rows2, visualTokens)[i] {
        assert SameDesignPoint(rows2[i], rows1[i]);
      }
    }
    assert Response(rows1) == Response(rows2);
  }

  lemma HasImageKept(rows1: seq<Row>, rows2: seq<Row>)
    requires SameDesign(rows1, rows2)
    ensures HasImage(rows1) == HasImage(rows2)
  {
    if HasImage(rows1) {
      var i :| 0 <= i < |rows1| && ImagesPer(rows1[i]) > 0.0;
      assert SameDesignPoint(rows2[i], rows1[i]);
      assert rows2[i] in rows2;
    }
    if HasImage(rows2) {
      var i :| 0 <= i < |rows2| && ImagesPer(rows2[i]) > 0.0;
      assert SameDesignPoint(rows2[i], rows1[i]);
      assert rows1[i] in rows1;
    }
  }

  lemma RungKept(ols: Estimator, r: Rung, rows1: seq<Row>, rows2: seq<Row>, visualTokens: real)
    requires Aligned(ols) && SameDesign(rows1, rows2)
    ensures FitRung(ols, r, rows1, visualTokens) == FitRung(ols, r, rows2, visualTokens)
  {
    hide Column, Response, Columns, SameDesign, Aligned;
    ColumnsKept(rows1, rows2, visualTokens);
    var ts := Columns(r);
    assert DesignMatrix(ts, rows1, visualTokens) == DesignMatrix(ts, rows2, visualTokens);
  }

  lemma DesignKept(ols: Estimator, rows1: seq<Row>, rows2: seq<Row>, visualTokens: real)
    requires Aligned(ols) && SameDesign(rows1, rows2)
    ensures ProblemOf(ols, rows1, visualTokens) == ProblemOf(ols, rows2, visualTokens)
  {
    hide Lattice, FitRung, HasImage, SameDesignPoint;
    ArmsKept(rows1, rows2);
    HasImageKept(rows1, rows2);
    forall r: Rung ensures FitRung(ols, r, rows1, visualTokens) == FitRung(ols, r, rows2, visualTokens) {
      RungKept(ols, r, rows1, rows2, visualTokens);
    }
  }

  lemma MissingEnergyKept(rows1: seq<Row>, rows2: seq<Row>, idleWatts: Option<real>)
    requires SameDesign(rows1, rows2)
    ensures ReadsMissingEnergy(rows1, idleWatts) == ReadsMissingEnergy(rows2, idleWatts)
  {
    if ReadsMissingEnergy(rows1, idleWatts) {
      var i :| 0 <= i < |rows1| && rows1[i].energy == Absent;
      assert SameDesignPoint(rows2[i], rows1[i]);
      assert rows2[i] in rows2;
    }
    if ReadsMissingEnergy(rows2, idleWatts) {
      var i :| 0 <= i < |rows2| && rows2[i].energy == Absent;
      assert SameDesignPoint(rows2[i], rows1[i]);
      assert rows1[i] in rows1;
    }
  }

  /**
   Whatever the estimator: replacing any admitted rows by aggregates of themselves leaves the
   whole verdict, the residual flag and every drop count unchanged.
   */
  lemma AggregationInvariance(ols: Estimator, table1: seq<Entry>, table2: seq<Entry>, sampling: bool,
                              idleWatts: Option<real>, visualTokens: real)
    requires Aligned(ols) && Aggregates(table1, table2, sampling)
    ensures FitTable(ols, table1, sampling, idleWatts, visualTokens)
            == FitTable(ols, table2, sampling, idleWatts, visualTokens)
  {
    hide Outcome, ProblemOf, ReadsMissingEnergy, Opposed;
    AdmissionKept(table1, table2, sampling);
    var rows1, rows2 := AdmittedRows(table1, sampling), AdmittedRows(table2, sampling);
    DesignKept(ols, rows1, rows2, visualTokens);
    ColumnsKept(rows1, rows2, visualTokens);
    MissingEnergyKept(rows1, rows2, idleWatts);
  }

  // ---------- attributed energy ----------

  function TotalOutput(rows: seq<Row>): real {
    if rows == [] then 0.0 else Total(rows[0].output) + TotalOutput(rows[1..])
  }

  function TotalHours(rows: seq<Row>): real {
    if rows == [] then 0.0 else Total(rows[0].duration) / 3600000.0 + TotalHours(rows[1..])
  }

  // attributed_levels: idle energy per 1k measured tokens spread over utilisation u.
  function AttributedLevel(marginal: Option<real>, rows: seq<Row>, idleWatts: real, u: real): Option<real>
    requires u > 0.0
  {
    if rows == [] || idleWatts <= 0.0 || marginal.None? || TotalOutput(rows) <= 0.0 || TotalHours(rows) <= 0.0 then None
    else Some(marginal.value + idleWatts * (1000.0 * TotalHours(rows) / TotalOutput(rows)) / u)
  }

  // The idle energy charged to the measured tokens at utilisation u, taken u at a time, is
  // the idle energy of the measured hours: nothing is charged twice or lost.
  lemma AttributedConservesIdleEnergy(marginal: Option<real>, rows: seq<Row>, idleWatts: real, u: real)
    requires u > 0.0
    ensures AttributedLevel(marginal, rows, idleWatts, u).Some? <==>
      marginal.Some? && idleWatts > 0.0 && TotalOutput(rows) > 0.0 && TotalHours(rows) > 0.0
    ensures AttributedLevel(marginal, rows, idleWatts, u).Some? ==>
      && AttributedLevel(marginal, rows, idleWatts, u).value > marginal.value
      && (AttributedLevel(marginal, rows, idleWatts, u).value - marginal.value) * u * TotalOutput(rows) / 1000.0
         == idleWatts * TotalHours(rows)
  {
    var level := AttributedLevel(marginal, rows, idleWatts, u);
    if level.Some? {
      var h, n := TotalHours(rows), TotalOutput(rows);
      var per1k := 1000.0 * h / n;
      var share := idleWatts * per1k / u;
      assert per1k * n == 1000.0 * h;
      assert per1k > 0.0;
      assert idleWatts * per1k > 0.0;
      assert share * u == idleWatts * per1k;
      assert share > 0.0;
      assert share * u * n == idleWatts * (per1k * n);
    }
  }

  // Unlike the verdict, the attributed column is not invariant: two rows of different
  // duration per token, one of them aggregated, shift the weights.
  const SHORT_ROW := Row(Amount(1.0), Amount(1.0), Amount(1000.0), Absent, Absent, Absent, Amount(3600000.0))
  const LONG_ROW := Row(Amount(1.0), Amount(1.0), Amount(1000.0), Absent, Absent, Absent, Amount(7200000.0))

  lemma TwoRowTotals(a: Row, b: Row)
    ensures TotalOutput([a, b]) == Total(a.output) + Total(b.output)
    ensures TotalHours([a, b]) == Total(a.duration) / 3600000.0 + Total(b.duration) / 3600000.0
  {
    assert [a, b][1..] == [b] && [b][1..] == [];
    assert TotalOutput([b]) == Total(b.output) && TotalHours([b]) == Total(b.duration) / 3600000.0;
  }

  lemma AttributedNotInvariant()
    ensures AttributedLevel(Some(0.0), [SHORT_ROW, LONG_ROW], 1.0, 0.5) == Some(3.0)
    ensures AttributedLevel(Some(0.0), [SHORT_ROW, Aggregate(LONG_ROW, 3.0)], 1.0, 0.5) == Some(3.5)
  {
    hide TotalOutput, TotalHours, AttributedLevel;
    TwoRowTotals(SHORT_ROW, LONG_ROW);
    TwoRowTotals(SHORT_ROW, Aggregate(LONG_ROW, 3.0));
    LevelFrom([SHORT_ROW, LONG_ROW], 2000.0, 3.0);
    LevelFrom([SHORT_ROW, Aggregate(LONG_ROW, 3.0)], 4000.0, 7.0);
  }

  lemma LevelFrom(rows: seq<Row>, n: real, h: real)
    requires rows != [] && TotalOutput(rows) == n > 0.0 && TotalHours(rows) == h > 0.0
    ensures AttributedLevel(Some(0.0), rows, 1.0, 0.5) == Some(1000.0 * h / n / 0.5)
  {
    hide TotalOutput, TotalHours;
  }
}
