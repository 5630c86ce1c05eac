/**
 When a written record survives its own refit: the stored rows are fitted again, with the token
 count per image that the record stores, and the record is held against the result.
 Joins fit_record in src/vetch/calibrate_v2.py to _restatements in
 src/vetch/calibrate_validate.py.
 */
module Refits {
  import opened Wrappers
  import opened Rungs
  import opened Reals
  import opened NestedFit
  import opened RunTable
  import RecordCheck
  import Restatement

  // The count a refit subtracts per image: the stored one, or none.
  function RefitCount(kept: Option<nat>): nat { if kept.Some? then kept.value else 0 }

  // Per request, the two counts leave a row the same text.
  predicate SameRowText(r: Row, fitted: real, refitted: real) {
    Max(0.0, TextPer(r) - ImagesPer(r) * fitted) == Max(0.0, TextPer(r) - ImagesPer(r) * refitted)
  }

  // When they do so for every admitted row, both counts give the same fit of the table.
  lemma SameTextSameFit(ols: Estimator, table: seq<Entry>, sampling: bool, idleWatts: Option<real>, fitted: real,
                        refitted: real)
    requires Aligned(ols)
    requires forall r :: r in AdmittedRows(table, sampling) ==> SameRowText(r, fitted, refitted)
    ensures FitTable(ols, table, sampling, idleWatts, fitted)
            == FitTable(ols, table, sampling, idleWatts, refitted)
  {
    hide ReadsMissingEnergy, Outcome, ResidualsStructured, SameRowText, ProblemOf;
    SameTextSameProblem(ols, AdmittedRows(table, sampling), fitted, refitted);
  }

  lemma SameTextSameProblem(ols: Estimator, rows: seq<Row>, fitted: real, refitted: real)
    requires Aligned(ols) && forall r :: r in rows ==> SameRowText(r, fitted, refitted)
    ensures ProblemOf(ols, rows, fitted) == ProblemOf(ols, rows, refitted)
  {
    hide Lattice, HasImage, InputDesignLeverage, ImageDesignLeverage, FitRung, SameRowText;
    forall r: Rung ensures FitRung(ols, r, rows, fitted) == FitRung(ols, r, rows, refitted) {
      SameTextSameRung(ols, r, rows, fitted, refitted);
    }
  }

  lemma SameTextSameRung(ols: Estimator, r: Rung, rows: seq<Row>, fitted: real, refitted: real)
    requires Aligned(ols) && forall r :: r in rows ==> SameRowText(r, fitted, refitted)
    ensures FitRung(ols, r, rows, fitted) == FitRung(ols, r, rows, refitted)
  {
    hide SameRowText, Columns;
    forall t: Term ensures Column(t, rows, fitted) == Column(t, rows, refitted) {
      SameTextSameColumn(t, rows, fitted, refitted);
    }
    hide Column;
    assert DesignMatrix(Columns(r), rows, fitted) == DesignMatrix(Columns(r), rows, refitted);
  }

  lemma SameTextSameColumn(t: Term, rows: seq<Row>, fitted: real, refitted: real)
    requires forall r :: r in rows ==> SameRowText(r, fitted, refitted)
    ensures Column(t, rows, fitted) == Column(t, rows, refitted)
  {
    hide TextPer, ImagesPer, OutputPer, Max;
    forall i | 0 <= i < |rows| ensures ColumnEntry(t, rows[i], fitted) == ColumnEntry(t, rows[i], refitted) {
      assert rows[i] in rows && SameRowText(rows[i], fitted, refitted);
    }
  }

  /**
   A record written from a table survives its own refit without an error exactly when the refit
   supports it, and always when the stored count leaves every admitted row the text it was
   fitted with: when no row carries an image, say, or the two counts agree.
   */
  lemma WrittenRecordSurvivesRefit(ols: Estimator, table: seq<Entry>, sampling: bool, idleWatts: Option<real>,
                                   fitted: nat, kept: Option<nat>, withholdImage: bool, rejectedByWriter: bool)
    requires Aligned(ols)
    requires FitTable(ols, table, sampling, idleWatts, fitted as real).Ok?
    ensures FitTable(ols, table, sampling, idleWatts, RefitCount(kept) as real).Ok?
    ensures
      var fit := FitTable(ols, table, sampling, idleWatts, fitted as real).result.fit;
      var refit := FitTable(ols, table, sampling, idleWatts, RefitCount(kept) as real).result.fit;
      && (forall t :: t in fit.coeff && t in fit.status)
      && var record := RecordCheck.BuildRecord(fit, withholdImage, rejectedByWriter);
      && (Restatement.Errors(record, Restatement.AsRefit(refit)) == []
          <==> Restatement.Supported(record, Restatement.AsRefit(refit)))
      && ((forall r :: r in AdmittedRows(table, sampling) ==> SameRowText(r, fitted as real, RefitCount(kept) as real)) ==>
            Restatement.Errors(record, Restatement.AsRefit(refit)) == [])
  {
    RefitIsOk(ols, table, sampling, idleWatts, fitted, RefitCount(kept));
    TableFitIsTotal(ols, table, sampling, idleWatts, fitted);
    hide *;
    var fit := FitTable(ols, table, sampling, idleWatts, fitted as real).result.fit;
    var refit := FitTable(ols, table, sampling, idleWatts, RefitCount(kept) as real).result.fit;
    RefitIsNested(refit);
    Restatement.NoErrorsIffSupported(RecordCheck.BuildRecord(fit, withholdImage, rejectedByWriter),
                                     Restatement.AsRefit(refit));
    if forall r :: r in AdmittedRows(table, sampling) ==> SameRowText(r, fitted as real, RefitCount(kept) as real) {
      SameTextSameFit(ols, table, sampling, idleWatts, fitted as real, RefitCount(kept) as real);
      Restatement.WrittenFitRestatesItself(fit, withholdImage, rejectedByWriter);
    }
  }

  // A record that stores the count it was fitted with, or none when there was none to subtract,
  // survives its refit.
  lemma OwnCountSurvives(ols: Estimator, table: seq<Entry>, sampling: bool, idleWatts: Option<real>,
                         fitted: nat, kept: Option<nat>, withholdImage: bool, rejectedByWriter: bool)
    requires Aligned(ols) && FitTable(ols, table, sampling, idleWatts, fitted as real).Ok?
    requires kept == Some(fitted) || (kept == None && fitted == 0)
    ensures FitTable(ols, table, sampling, idleWatts, RefitCount(kept) as real).Ok?
    ensures
      var fit := FitTable(ols, table, sampling, idleWatts, fitted as real).result.fit;
      var refit := FitTable(ols, table, sampling, idleWatts, RefitCount(kept) as real).result.fit;
      && (forall t :: t in fit.coeff && t in fit.status)
      && Restatement.Errors(RecordCheck.BuildRecord(fit, withholdImage, rejectedByWriter), Restatement.AsRefit(refit)) == []
  {
    var a, b := fitted as real, RefitCount(kept) as real;
    forall r ensures SameRowText(r, a, b) { SameRowTextHolds(r, a, b); }
    WrittenRecordSurvivesRefit(ols, table, sampling, idleWatts, fitted, kept, withholdImage, rejectedByWriter);
    hide *;
  }

  lemma RefitIsNested(fit: Fit)
    ensures Restatement.AsRefit(fit).nested
  {
  }

  // Whether the fit fails does not depend on the count.
  lemma RefitIsOk(ols: Estimator, table: seq<Entry>, sampling: bool, idleWatts: Option<real>, fitted: nat, refitted: nat)
    requires Aligned(ols)
    ensures FitTable(ols, table, sampling, idleWatts, fitted as real).Ok?
            <==> FitTable(ols, table, sampling, idleWatts, refitted as real).Ok?
  {
    hide ReadsMissingEnergy, ProblemOf, Outcome, ResidualsStructured;
  }

  lemma TableFitIsTotal(ols: Estimator, table: seq<Entry>, sampling: bool, idleWatts: Option<real>, fitted: nat)
    requires Aligned(ols) && FitTable(ols, table, sampling, idleWatts, fitted as real).Ok?
    ensures
      var fit := FitTable(ols, table, sampling, idleWatts, fitted as real).result.fit;
      forall t :: t in fit.coeff && t in fit.status
  {
    hide ReadsMissingEnergy, ProblemOf, Outcome, ResidualsStructured, RecordCheck.Sound;
    RecordCheck.OutcomeIsSound(ProblemOf(ols, AdmittedRows(table, sampling), fitted as real), idleWatts);
    SoundIsTotal(FitTable(ols, table, sampling, idleWatts, fitted as real).result.fit);
  }

  lemma SoundIsTotal(fit: Fit)
    requires RecordCheck.Sound(fit)
    ensures forall t :: t in fit.coeff && t in fit.status
  {
  }

  // Without images, or with the same count, a row keeps its text.
  lemma SameRowTextHolds(r: Row, fitted: real, refitted: real)
    requires ImagesPer(r) == 0.0 || fitted == refitted
    ensures SameRowText(r, fitted, refitted)
  {
  }
}
