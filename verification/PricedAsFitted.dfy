/**
 How far a call is priced by the model that was fitted: the stored coefficients, read back and
 carried into the energy formula, against the regression's own prediction at the call's design
 point.  The fit subtracts one token count per image, the record may store another.
 Joins fit_nested_models in src/vetch/calibrate_v2.py, the writers in
 src/vetch/calibrate_metal.py and src/vetch/calibrate_cuda.py, build_record and
 record_to_result in src/vetch/calibration_store.py, and the override branch of
 calculate_energy in src/vetch/calculation.py.
 */
module PricedAsFitted {
  import opened Wrappers
  import opened Rungs
  import opened Reals
  import NestedFit
  import FitTheorems
  import RecordCheck
  import RunTable
  import Energy

  // The override that carries these coefficients and this many tokens per image.
  function AsOverride(coeff: map<Term, Option<real>>, tier: int, kept: Option<nat>): Energy.Override
    requires forall t :: t in coeff
  {
    Energy.Override(tier, coeff[Input], coeff[Output], kept, coeff[Image], coeff[Intercept])
  }

  // The tokens an override subtracts per image; none when it stores no count.
  function Count(kept: Option<nat>): nat { if kept.Some? then kept.value else 0 }

  // One term of the model at a row: its coefficient times its regression column.
  function TermAt(coeff: map<Term, Option<real>>, t: Term, row: RunTable.Row, visualTokens: nat): real
    requires forall t :: t in coeff
  {
    Times(Energy.Coefficient(coeff[t]), RunTable.ColumnEntry(t, row, visualTokens as real))
  }

  // What the fitted model says a request of the row costs.
  function Predicted(coeff: map<Term, Option<real>>, row: RunTable.Row, visualTokens: nat): real
    requires forall t :: t in coeff
  {
    TermAt(coeff, Intercept, row, visualTokens) + TermAt(coeff, Input, row, visualTokens)
    + TermAt(coeff, Output, row, visualTokens) + TermAt(coeff, Image, row, visualTokens)
  }

  // An uncached call at the design point of the row.
  predicate AtDesignPoint(r: Energy.Request, row: RunTable.Row) {
    && r.input >= 0 && r.output >= 0 && r.units >= 0.0 && r.cached == 0 && r.mediaTokens == 0
    && RunTable.TextPer(row) == r.input as real
    && RunTable.OutputPer(row) == r.output as real
    && RunTable.ImagesPer(row) == r.units
  }

  function Visual(r: Energy.Request, visualTokens: nat): real { Times(r.units, visualTokens as real) }

  // The part of a visual token that the formula's int() leaves with the text.
  function LeftWithText(r: Energy.Request, visualTokens: nat): real {
    Fraction(r.input, Visual(r, visualTokens))
  }

  function Fraction(input: int, visual: real): real {
    if input as real > visual then visual - visual.Floor as real else 0.0
  }

  // An intercept below zero is not charged.
  function Uncharged(coeff: map<Term, Option<real>>): real
    requires forall t :: t in coeff
  {
    var c := Energy.Coefficient(coeff[Intercept]);
    if c < 0.0 then -c else 0.0
  }

  // The formula is the linear model of the override, plus the input energy of the fraction of a
  // visual token left with the text, plus whatever a negative intercept would have taken off.
  lemma PriceIsPrediction(r: Energy.Request, row: RunTable.Row, coeff: map<Term, Option<real>>, tier: int,
                          kept: Option<nat>)
    requires (forall t :: t in coeff) && AtDesignPoint(r, row)
    ensures
      Energy.OverrideWh(r, AsOverride(coeff, tier, kept))
      == Predicted(coeff, row, Count(kept))
         + Times(Energy.Coefficient(coeff[Input]), LeftWithText(r, Count(kept))) / 1000.0
         + Uncharged(coeff)
  {
    hide Times, Energy.TextTokens, Energy.VisualUnits, Energy.TextWh, RunTable.ColumnEntry, LeftWithText, AtDesignPoint;
    PriceByTerms(r, row, coeff, tier, kept);
    InputTerm(r, row, coeff, Count(kept));
  }

  // The text tokens a call is priced for under this count.
  function PricedText(r: Energy.Request, kept: Option<nat>): nat {
    Energy.TextTokens(r, Energy.PerUnit(Some(Count(kept))))
  }

  // The text tokens, whole or not, that the regression sees under this count.
  function FittedText(r: Energy.Request, fitted: nat): real {
    Max(0.0, r.input as real - Visual(r, fitted))
  }

  lemma PriceByTerms(r: Energy.Request, row: RunTable.Row, coeff: map<Term, Option<real>>, tier: int, kept: Option<nat>)
    requires (forall t :: t in coeff) && AtDesignPoint(r, row)
    ensures
      Energy.OverrideWh(r, AsOverride(coeff, tier, kept))
      == TermAt(coeff, Intercept, row, Count(kept)) + TermAt(coeff, Output, row, Count(kept))
         + TermAt(coeff, Image, row, Count(kept))
         + Times(Energy.Coefficient(coeff[Input]), PricedText(r, kept) as real) / 1000.0
         + Uncharged(coeff)
  {
    var o := AsOverride(coeff, tier, kept);
    var perUnit := Energy.PerUnit(o.tokensPerImage);
    assert Energy.TextTokens(r, perUnit) == PricedText(r, kept);
    OtherTerms(r, row, coeff, Count(kept));
    ImageTerm(r, o);
    TextTerm(r, PricedText(r, kept), Energy.Coeffs(Energy.Coefficient(o.whIn), Energy.Coefficient(o.whOut)));
    hide Times, Energy.TextTokens, PricedText, Energy.VisualUnits, Energy.TextWh, TermAt, AtDesignPoint;
  }

  lemma TextTerm(r: Energy.Request, text: nat, c: Energy.Coeffs)
    requires r.cached == 0 && r.output >= 0
    ensures
      Energy.TextWh(r, text, c)
      == (Times(c.whIn, text as real) + Times(c.whOut, r.output as real)) / 1000.0
  {
    assert Energy.PricedTokens(r, text) == text as real;
  }

  lemma InputTerm(r: Energy.Request, row: RunTable.Row, coeff: map<Term, Option<real>>, visualTokens: nat)
    requires (forall t :: t in coeff) && AtDesignPoint(r, row)
    ensures
      var text := Energy.TextTokens(r, Energy.PerUnit(Some(visualTokens)));
      Times(Energy.Coefficient(coeff[Input]), text as real) / 1000.0
      == TermAt(coeff, Input, row, visualTokens)
         + Times(Energy.Coefficient(coeff[Input]), LeftWithText(r, visualTokens)) / 1000.0
  {
    var text := Energy.TextTokens(r, Energy.PerUnit(Some(visualTokens)));
    TextIsColumn(r, row, visualTokens);
    Spread(Energy.Coefficient(coeff[Input]), text as real,
           RunTable.ColumnEntry(Input, row, visualTokens as real), LeftWithText(r, visualTokens));
  }

  lemma Spread(k: real, text: real, column: real, left: real)
    requires text == 1000.0 * column + left
    ensures Times(k, text) / 1000.0 == Times(k, column) + Times(k, left) / 1000.0
  {
    assert k * text == 1000.0 * (k * column) + k * left;
  }

  lemma TextIsColumn(r: Energy.Request, row: RunTable.Row, visualTokens: nat)
    requires AtDesignPoint(r, row)
    ensures
      Energy.TextTokens(r, Energy.PerUnit(Some(visualTokens))) as real
      == 1000.0 * RunTable.ColumnEntry(Input, row, visualTokens as real) + LeftWithText(r, visualTokens)
  {
    hide RunTable.TextPer, RunTable.ImagesPer;
    TextIsRounded(r, visualTokens);
    ColumnIs(r, row, visualTokens);
    hide RunTable.ColumnEntry, Energy.TextTokens, Visual;
    RoundedDown(r.input, Visual(r, visualTokens));
    hide Fraction, Energy.AtLeastZero, Max;
  }

  lemma ColumnIs(r: Energy.Request, row: RunTable.Row, visualTokens: nat)
    requires AtDesignPoint(r, row)
    ensures
      RunTable.ColumnEntry(Input, row, visualTokens as real)
      == FittedText(r, visualTokens) / 1000.0
  {
    hide RunTable.TextPer, RunTable.ImagesPer;
  }

  lemma TextIsRounded(r: Energy.Request, visualTokens: nat)
    requires r.input >= 0 && r.units >= 0.0 && r.mediaTokens == 0
    ensures Visual(r, visualTokens) >= 0.0
    ensures Energy.TextTokens(r, Energy.PerUnit(Some(visualTokens)))
            == Energy.AtLeastZero(r.input - Visual(r, visualTokens).Floor)
  {
    if visualTokens == 0 {
      assert Visual(r, visualTokens) == 0.0;
    } else {
      assert Energy.VisualTokens(r, visualTokens) == Visual(r, visualTokens);
      assert Energy.Truncated(Visual(r, visualTokens)) == Visual(r, visualTokens).Floor;
    }
  }

  // Taking off whole visual tokens only leaves their fraction.
  lemma RoundedDown(input: nat, visual: real)
    requires visual >= 0.0
    ensures Energy.AtLeastZero(input - visual.Floor) as real
            == Max(0.0, input as real - visual)
               + Fraction(input, visual)
  {
  }

  lemma OtherTerms(r: Energy.Request, row: RunTable.Row, coeff: map<Term, Option<real>>, visualTokens: nat)
    requires (forall t :: t in coeff) && AtDesignPoint(r, row)
    ensures TermAt(coeff, Intercept, row, visualTokens) == Energy.Coefficient(coeff[Intercept])
    ensures TermAt(coeff, Output, row, visualTokens)
            == Times(Energy.Coefficient(coeff[Output]), r.output as real) / 1000.0
    ensures TermAt(coeff, Image, row, visualTokens) == Times(Energy.Coefficient(coeff[Image]), r.units)
  {
    Spread(Energy.Coefficient(coeff[Output]), r.output as real, r.output as real / 1000.0, 0.0);
    assert Times(Energy.Coefficient(coeff[Output]), 0.0) == 0.0;
  }

  lemma ImageTerm(r: Energy.Request, o: Energy.Override)
    requires r.units >= 0.0 && r.mediaTokens == 0
    ensures Energy.VisualUnits(r, Energy.PerUnit(o.tokensPerImage)) == r.units
    ensures Times(Energy.Coefficient(o.whPerImage), 0.0) == 0.0
    ensures o.whPerImage.None? ==> Times(Energy.Coefficient(o.whPerImage), r.units) == 0.0
  {
  }

  // ---------- explicit overrides ----------

  // An explicit override prices a call as its own linear model if and only if its intercept is
  // not negative and no fraction of a visual token is charged as text; under a negative input
  // coefficient the two may also cancel.
  lemma OverridePredictsIff(r: Energy.Request, row: RunTable.Row, coeff: map<Term, Option<real>>, tier: int,
                            kept: Option<nat>)
    requires (forall t :: t in coeff) && AtDesignPoint(r, row)
    ensures
      var whIn, left := Energy.Coefficient(coeff[Input]), LeftWithText(r, Count(kept));
      Energy.OverrideWh(r, AsOverride(coeff, tier, kept)) == Predicted(coeff, row, Count(kept)) <==>
        if whIn >= 0.0 then Uncharged(coeff) == 0.0 && (whIn == 0.0 || left == 0.0)
        else Times(-whIn, left) / 1000.0 == Uncharged(coeff)
  {
    PriceIsPrediction(r, row, coeff, tier, kept);
    var whIn, left := Energy.Coefficient(coeff[Input]), LeftWithText(r, Count(kept));
    FractionIsOne(r.input, Visual(r, Count(kept)));
    TimesSigns(whIn, left);
    hide Times, Energy.OverrideWh, Predicted, LeftWithText, AsOverride, AtDesignPoint;
  }

  lemma TimesSigns(a: real, b: real)
    requires b >= 0.0
    ensures Times(a, b) == 0.0 <==> a == 0.0 || b == 0.0
    ensures a >= 0.0 ==> Times(a, b) >= 0.0
    ensures Times(-a, b) == -Times(a, b)
  {
  }

  lemma FractionIsOne(input: int, visual: real)
    ensures 0.0 <= Fraction(input, visual) < 1.0
  {
  }

  // A request of nothing, and the row of its design point.
  const NOTHING := Energy.Request(0, 0, 0, 0.0, 0)

  const EMPTY_ROW := RunTable.Row(
    RunTable.Absent, RunTable.Absent, RunTable.Absent, RunTable.Absent, RunTable.Absent, RunTable.Absent,
    RunTable.Absent)

  const MINUS_ONE: map<Term, Option<real>> := map[Intercept := Some(-1.0), Input := None, Output := None, Image := None]

  lemma MinusOneIsTotal()
    ensures forall t :: t in MINUS_ONE
  {
    forall t: Term ensures t in MINUS_ONE { match t case Intercept => case Input => case Output => case Image => }
  }

  lemma NothingAtEmptyRow()
    ensures AtDesignPoint(NOTHING, EMPTY_ROW)
  {
    assert RunTable.Requests(EMPTY_ROW) == 1.0 && 0.0 / 1.0 == 0.0;
  }

  // Under an intercept of minus one it costs nothing, although the model says minus one.
  lemma NegativeInterceptExample()
    ensures (forall t :: t in MINUS_ONE) && AtDesignPoint(NOTHING, EMPTY_ROW)
    ensures Energy.OverrideWh(NOTHING, AsOverride(MINUS_ONE, 0, None)) == 0.0
    ensures Predicted(MINUS_ONE, EMPTY_ROW, 0) == -1.0
  {
    hide AsOverride, Energy.OverrideWh, PricedText, Times, AtDesignPoint, TermAt;
    MinusOneIsTotal();
    NothingAtEmptyRow();
    PriceByTerms(NOTHING, EMPTY_ROW, MINUS_ONE, 0, None);
    TimesSigns(0.0, PricedText(NOTHING, None) as real);
    NoTerm(MINUS_ONE, Input, EMPTY_ROW, 0);
    NoTerm(MINUS_ONE, Output, EMPTY_ROW, 0);
    NoTerm(MINUS_ONE, Image, EMPTY_ROW, 0);
    OtherTerms(NOTHING, EMPTY_ROW, MINUS_ONE, 0);
    hide EMPTY_ROW, NOTHING;
  }

  lemma NoTerm(coeff: map<Term, Option<real>>, t: Term, row: RunTable.Row, visualTokens: nat)
    requires (forall q :: q in coeff) && coeff[t].None?
    ensures TermAt(coeff, t, row, visualTokens) == 0.0
  {
    hide RunTable.ColumnEntry;
  }

  // ---------- calibrations ----------

  // The fitted coefficients a record stores.
  function Stored(fit: NestedFit.Fit, withholdImage: bool): (coeff: map<Term, Option<real>>)
    requires forall t :: t in fit.coeff
    ensures forall t :: t in coeff && coeff[t] == if t == Image && withholdImage then None else fit.coeff[t]
  {
    forall t: Term ensures t in NestedFit.TERMS { NestedFit.AxesAreTerms(t); }
    map t | t in NestedFit.TERMS :: if t == Image && withholdImage then None else fit.coeff[t]
  }

  // The coefficients a lookup hands on: the record of the fit, read back.
  function Loaded(fit: NestedFit.Fit, withholdImage: bool, rejectedByWriter: bool): (coeff: map<Term, Option<real>>)
    requires forall t :: t in fit.coeff && t in fit.status
    ensures forall t :: t in coeff
  {
    forall t: Term ensures t in NestedFit.TERMS { NestedFit.AxesAreTerms(t); }
    RecordCheck.ReadBack(RecordCheck.BuildRecord(fit, withholdImage, rejectedByWriter))
  }

  // Reading back keeps a stored coefficient exactly when it is positive.
  lemma LoadedIs(fit: NestedFit.Fit, withholdImage: bool, rejectedByWriter: bool, t: Term)
    requires forall t :: t in fit.coeff && t in fit.status
    ensures
      var stored := Stored(fit, withholdImage)[t];
      Loaded(fit, withholdImage, rejectedByWriter)[t]
      == if stored.Some? && stored.value > 0.0 then stored else None
  {
    hide RecordCheck.BuildRecord;
    NestedFit.AxesAreTerms(t);
    RecordCheck.BuiltFields(fit, withholdImage, rejectedByWriter, t);
  }

  // What the fitted model says of the coefficients that reading back drops.
  function DroppedTerm(coeff: map<Term, Option<real>>, t: Term, row: RunTable.Row, visualTokens: nat): real
    requires forall q :: q in coeff
  {
    if coeff[t].Some? && coeff[t].value <= 0.0 then TermAt(coeff, t, row, visualTokens) else 0.0
  }

  function Dropped(coeff: map<Term, Option<real>>, row: RunTable.Row, visualTokens: nat): real
    requires forall t :: t in coeff
  {
    DroppedTerm(coeff, Intercept, row, visualTokens) + DroppedTerm(coeff, Input, row, visualTokens)
    + DroppedTerm(coeff, Output, row, visualTokens) + DroppedTerm(coeff, Image, row, visualTokens)
  }

  // A call priced from a stored fit costs the fit's prediction, less exactly the dropped terms,
  // plus the input energy of the text tokens it is priced for beyond those that were fitted.
  lemma LoadedPriceIsPrediction(r: Energy.Request, row: RunTable.Row, fit: NestedFit.Fit, withholdImage: bool,
                                rejectedByWriter: bool, tier: int, fitted: nat, kept: Option<nat>)
    requires (forall t :: t in fit.coeff && t in fit.status) && AtDesignPoint(r, row)
    ensures
      var stored, loaded := Stored(fit, withholdImage), Loaded(fit, withholdImage, rejectedByWriter);
      Energy.OverrideWh(r, AsOverride(loaded, tier, kept))
      == Predicted(stored, row, fitted) - Dropped(stored, row, fitted)
         + Times(Energy.Coefficient(loaded[Input]), PricedText(r, kept) as real - FittedText(r, fitted)) / 1000.0
  {
    var loaded := Loaded(fit, withholdImage, rejectedByWriter);
    hide TermAt, DroppedTerm, Stored, Loaded, AsOverride, AtDesignPoint, Times, Energy.OverrideWh, PricedText, FittedText;
    PriceByTerms(r, row, loaded, tier, kept);
    SameOtherTerms(r, row, loaded, fitted, Count(kept));
    FittedTerm(r, row, loaded, fitted, PricedText(r, kept) as real);
    LoadedIs(fit, withholdImage, rejectedByWriter, Intercept);
    LoadedTerm(fit, withholdImage, rejectedByWriter, Intercept, row, fitted);
    LoadedTerm(fit, withholdImage, rejectedByWriter, Input, row, fitted);
    LoadedTerm(fit, withholdImage, rejectedByWriter, Output, row, fitted);
    LoadedTerm(fit, withholdImage, rejectedByWriter, Image, row, fitted);
  }

  // Only the input column depends on the count.
  lemma SameOtherTerms(r: Energy.Request, row: RunTable.Row, coeff: map<Term, Option<real>>, fitted: nat, kept: nat)
    requires (forall t :: t in coeff) && AtDesignPoint(r, row)
    ensures TermAt(coeff, Intercept, row, fitted) == TermAt(coeff, Intercept, row, kept)
    ensures TermAt(coeff, Output, row, fitted) == TermAt(coeff, Output, row, kept)
    ensures TermAt(coeff, Image, row, fitted) == TermAt(coeff, Image, row, kept)
  {
    hide TermAt, Times;
    OtherTerms(r, row, coeff, fitted);
    OtherTerms(r, row, coeff, kept);
  }

  lemma FittedTerm(r: Energy.Request, row: RunTable.Row, coeff: map<Term, Option<real>>, fitted: nat, priced: real)
    requires (forall t :: t in coeff) && AtDesignPoint(r, row)
    ensures
      var whIn := Energy.Coefficient(coeff[Input]);
      Times(whIn, priced) / 1000.0
      == TermAt(coeff, Input, row, fitted) + Times(whIn, priced - FittedText(r, fitted)) / 1000.0
  {
    ColumnIs(r, row, fitted);
    hide RunTable.ColumnEntry, AtDesignPoint, FittedText;
    Spread(Energy.Coefficient(coeff[Input]), priced, RunTable.ColumnEntry(Input, row, fitted as real),
           priced - FittedText(r, fitted));
  }

  lemma LoadedTerm(fit: NestedFit.Fit, withholdImage: bool, rejectedByWriter: bool, t: Term, row: RunTable.Row,
                   visualTokens: nat)
    requires forall t :: t in fit.coeff && t in fit.status
    ensures
      var stored := Stored(fit, withholdImage);
      TermAt(Loaded(fit, withholdImage, rejectedByWriter), t, row, visualTokens)
      == TermAt(stored, t, row, visualTokens) - DroppedTerm(stored, t, row, visualTokens)
  {
    hide RunTable.ColumnEntry, Stored, Loaded;
    LoadedIs(fit, withholdImage, rejectedByWriter, t);
  }

  // No regression column is negative at a call's design point.
  lemma ColumnNotNegative(r: Energy.Request, row: RunTable.Row, t: Term, visualTokens: nat)
    requires AtDesignPoint(r, row)
    ensures RunTable.ColumnEntry(t, row, visualTokens as real) >= 0.0
  {
    hide RunTable.TextPer, RunTable.OutputPer, RunTable.ImagesPer;
  }

  // So a dropped term never adds, and matters exactly when a negative coefficient meets a call
  // that uses it.
  lemma DroppedTermSign(r: Energy.Request, row: RunTable.Row, coeff: map<Term, Option<real>>, t: Term, visualTokens: nat)
    requires (forall q :: q in coeff) && AtDesignPoint(r, row)
    ensures
      var dropped, column := DroppedTerm(coeff, t, row, visualTokens), RunTable.ColumnEntry(t, row, visualTokens as real);
      && dropped <= 0.0
      && (dropped == 0.0 <==> coeff[t].None? || coeff[t].value >= 0.0 || column == 0.0)
  {
    ColumnNotNegative(r, row, t, visualTokens);
    hide RunTable.ColumnEntry, AtDesignPoint;
  }

  // The call makes use of a coefficient stored below zero.
  predicate MeetsNegative(coeff: map<Term, Option<real>>, t: Term, row: RunTable.Row, visualTokens: nat)
    requires forall q :: q in coeff
  {
    coeff[t].Some? && coeff[t].value < 0.0 && RunTable.ColumnEntry(t, row, visualTokens as real) != 0.0
  }

  // The dropped terms take nothing off, and nothing at all exactly when the call makes use of no
  // coefficient stored below zero.
  lemma DroppedSign(r: Energy.Request, row: RunTable.Row, coeff: map<Term, Option<real>>, visualTokens: nat)
    requires (forall t :: t in coeff) && AtDesignPoint(r, row)
    ensures Dropped(coeff, row, visualTokens) <= 0.0
    ensures Dropped(coeff, row, visualTokens) == 0.0 <==> forall t :: !MeetsNegative(coeff, t, row, visualTokens)
  {
    hide RunTable.ColumnEntry, DroppedTerm;
    forall t: Term
      ensures DroppedTerm(coeff, t, row, visualTokens) <= 0.0
      ensures DroppedTerm(coeff, t, row, visualTokens) == 0.0 <==> !MeetsNegative(coeff, t, row, visualTokens)
    {
      DroppedTermSign(r, row, coeff, t, visualTokens);
    }
    hide AtDesignPoint, MeetsNegative;
    if Dropped(coeff, row, visualTokens) == 0.0 {
      forall t ensures DroppedTerm(coeff, t, row, visualTokens) == 0.0 {
        match t case Intercept => case Input => case Output => case Image =>
      }
    }
  }

  /**
   From the fit through the record to the call.  Priced for no fewer text tokens than were
   fitted, a call costs exactly what was fitted if and only if it makes use of no coefficient
   stored below zero and, where an input coefficient is charged, of the same text tokens.
   Priced for fewer, it does exactly when the text left out costs what the negative
   coefficients would have taken off.
   */
  lemma PricedAsFittedIff(r: Energy.Request, row: RunTable.Row, fit: NestedFit.Fit, withholdImage: bool,
                          rejectedByWriter: bool, tier: int, fitted: nat, kept: Option<nat>)
    requires (forall t :: t in fit.coeff && t in fit.status) && AtDesignPoint(r, row)
    ensures
      var stored, loaded := Stored(fit, withholdImage), Loaded(fit, withholdImage, rejectedByWriter);
      var priced, seen := PricedText(r, kept) as real, FittedText(r, fitted);
      Energy.OverrideWh(r, AsOverride(loaded, tier, kept)) == Predicted(stored, row, fitted) <==>
        if priced >= seen then
          (forall t :: !MeetsNegative(stored, t, row, fitted)) && (loaded[Input].None? || priced == seen)
        else Times(Energy.Coefficient(loaded[Input]), seen - priced) / 1000.0 == -Dropped(stored, row, fitted)
  {
    var stored, loaded := Stored(fit, withholdImage), Loaded(fit, withholdImage, rejectedByWriter);
    LoadedIs(fit, withholdImage, rejectedByWriter, Input);
    hide RunTable.ColumnEntry, Dropped, Stored, Loaded, AsOverride, Predicted, Times, Energy.OverrideWh, PricedText,
      FittedText, AtDesignPoint, MeetsNegative;
    var whIn, more := Energy.Coefficient(loaded[Input]), PricedText(r, kept) as real - FittedText(r, fitted);
    LoadedPriceIsPrediction(r, row, fit, withholdImage, rejectedByWriter, tier, fitted, kept);
    DroppedSign(r, row, stored, fitted);
    if more >= 0.0 {
      TimesSigns(whIn, more);
    } else {
      TimesSigns(whIn, -more);
      TimesNegates(whIn, more);
    }
  }

  lemma TimesNegates(a: real, b: real)
    ensures Times(a, -b) == -Times(a, b)
  {
  }

  // With the count it was fitted with, a record prices a call, fractional media units included,
  // exactly as fitted if and only if the call makes use of no coefficient stored below zero and
  // no fraction of a visual token is charged as text.
  lemma SameCountIff(r: Energy.Request, row: RunTable.Row, fit: NestedFit.Fit, withholdImage: bool,
                     rejectedByWriter: bool, tier: int, fitted: nat)
    requires (forall t :: t in fit.coeff && t in fit.status) && AtDesignPoint(r, row)
    ensures
      var stored, loaded := Stored(fit, withholdImage), Loaded(fit, withholdImage, rejectedByWriter);
      Energy.OverrideWh(r, AsOverride(loaded, tier, Some(fitted))) == Predicted(stored, row, fitted) <==>
        (forall t :: !MeetsNegative(stored, t, row, fitted))
        && (loaded[Input].None? || LeftWithText(r, fitted) == 0.0)
  {
    PricedBeyondFitted(r, fitted);
    hide *;
    PricedAsFittedIff(r, row, fit, withholdImage, rejectedByWriter, tier, fitted, Some(fitted));
  }

  lemma PricedBeyondFitted(r: Energy.Request, fitted: nat)
    requires r.input >= 0 && r.units >= 0.0 && r.mediaTokens == 0
    ensures PricedText(r, Some(fitted)) as real == FittedText(r, fitted) + LeftWithText(r, fitted)
    ensures LeftWithText(r, fitted) >= 0.0
  {
    hide Visual;
    TextIsRounded(r, fitted);
    RoundedDown(r.input, Visual(r, fitted));
    FractionIsOne(r.input, Visual(r, fitted));
    hide Energy.TextTokens, Energy.AtLeastZero, Fraction;
  }

  // A thousand output tokens under an output coefficient stored as minus one: nothing is
  // charged, although the fit predicts minus one.
  lemma NegativeOutputExample(fit: NestedFit.Fit, rejectedByWriter: bool)
    requires forall t :: t in fit.coeff && t in fit.status
    requires fit.coeff == map[Output := Some(-1.0), Intercept := None, Input := None, Image := None]
    ensures
      var call := Energy.Request(0, 1000, 0, 0.0, 0);
      var row := RunTable.Row(
        RunTable.Absent, RunTable.Absent, RunTable.Amount(1000.0), RunTable.Absent, RunTable.Absent, RunTable.Absent,
        RunTable.Absent);
      && AtDesignPoint(call, row)
      && Energy.OverrideWh(call, AsOverride(Loaded(fit, false, rejectedByWriter), 0, None)) == 0.0
      && Predicted(fit.coeff, row, 0) == -1.0
  {
    hide Loaded, AsOverride, Energy.OverrideWh;
    var call := Energy.Request(0, 1000, 0, 0.0, 0);
    var row := RunTable.Row(
      RunTable.Absent, RunTable.Absent, RunTable.Amount(1000.0), RunTable.Absent, RunTable.Absent, RunTable.Absent,
      RunTable.Absent);
    assert Stored(fit, false) == fit.coeff;
    LoadedPriceIsPrediction(call, row, fit, false, rejectedByWriter, 0, 0, None);
    LoadedIs(fit, false, rejectedByWriter, Input);
    TimesSigns(0.0, 0.0);
    NoTerm(fit.coeff, Intercept, row, 0);
    NoTerm(fit.coeff, Input, row, 0);
    NoTerm(fit.coeff, Image, row, 0);
    OtherTerms(call, row, fit.coeff, 0);
  }

  // ---------- records that pass their checks ----------

  // The checks made before a record is written find no error.
  predicate Writable(fit: NestedFit.Fit, withholdImage: bool, rejectedByWriter: bool)
    requires forall t :: t in fit.coeff && t in fit.status
  {
    RecordCheck.ErrorsOnly(RecordCheck.Violations(RecordCheck.BuildRecord(fit, withholdImage, rejectedByWriter))) == []
  }

  // A record that passes its checks stores no negative coefficient, so that every call costs
  // exactly what was fitted if and only if the input is free or the text tokens it is priced
  // for are those that were fitted.
  lemma WrittenFitIsPricedAsFittedIff(r: Energy.Request, row: RunTable.Row, fit: NestedFit.Fit, withholdImage: bool,
                                      rejectedByWriter: bool, tier: int, fitted: nat, kept: Option<nat>)
    requires (forall t :: t in fit.coeff && t in fit.status) && AtDesignPoint(r, row)
    requires Writable(fit, withholdImage, rejectedByWriter)
    ensures
      var stored := Stored(fit, withholdImage);
      Energy.OverrideWh(r, AsOverride(Loaded(fit, withholdImage, rejectedByWriter), tier, kept))
      == Predicted(stored, row, fitted) <==>
        Energy.Coefficient(stored[Input]) == 0.0 || PricedText(r, kept) as real == FittedText(r, fitted)
  {
    hide *;
    var stored, loaded := Stored(fit, withholdImage), Loaded(fit, withholdImage, rejectedByWriter);
    NothingDropped(r, row, fit, withholdImage, rejectedByWriter, fitted);
    SameInput(fit, withholdImage, rejectedByWriter);
    LoadedPriceIsPrediction(r, row, fit, withholdImage, rejectedByWriter, tier, fitted, kept);
    TimesZeroIff(Energy.Coefficient(loaded[Input]), PricedText(r, kept) as real - FittedText(r, fitted));
  }

  lemma SameInput(fit: NestedFit.Fit, withholdImage: bool, rejectedByWriter: bool)
    requires forall t :: t in fit.coeff && t in fit.status
    requires Writable(fit, withholdImage, rejectedByWriter)
    ensures Energy.Coefficient(Loaded(fit, withholdImage, rejectedByWriter)[Input])
            == Energy.Coefficient(Stored(fit, withholdImage)[Input])
  {
    hide Loaded, Stored, Writable;
    NothingNegative(fit, withholdImage, rejectedByWriter, Input);
    LoadedIs(fit, withholdImage, rejectedByWriter, Input);
  }

  lemma NothingDropped(r: Energy.Request, row: RunTable.Row, fit: NestedFit.Fit, withholdImage: bool,
                       rejectedByWriter: bool, fitted: nat)
    requires (forall t :: t in fit.coeff && t in fit.status) && AtDesignPoint(r, row)
    requires Writable(fit, withholdImage, rejectedByWriter)
    ensures Dropped(Stored(fit, withholdImage), row, fitted) == 0.0
  {
    hide RunTable.ColumnEntry, Dropped, AtDesignPoint, Writable;
    var stored := Stored(fit, withholdImage);
    forall t: Term ensures !MeetsNegative(stored, t, row, fitted) {
      NothingNegative(fit, withholdImage, rejectedByWriter, t);
    }
    DroppedSign(r, row, stored, fitted);
  }

  lemma TimesZeroIff(a: real, b: real)
    ensures Times(a, b) == 0.0 <==> a == 0.0 || b == 0.0
  {
  }

  lemma NothingNegative(fit: NestedFit.Fit, withholdImage: bool, rejectedByWriter: bool, t: Term)
    requires forall t :: t in fit.coeff && t in fit.status
    requires Writable(fit, withholdImage, rejectedByWriter)
    ensures Stored(fit, withholdImage)[t].None? || Stored(fit, withholdImage)[t].value >= 0.0
  {
    hide RecordCheck.BuildRecord, RecordCheck.Violations;
    if Stored(fit, withholdImage)[t].Some? && Stored(fit, withholdImage)[t].value < 0.0 {
      NegativeIsReported(fit, withholdImage, rejectedByWriter, t);
    }
  }

  // A coefficient stored below zero is an error of the record.
  lemma NegativeIsReported(fit: NestedFit.Fit, withholdImage: bool, rejectedByWriter: bool, t: Term)
    requires forall t :: t in fit.coeff && t in fit.status
    requires Stored(fit, withholdImage)[t].Some? && Stored(fit, withholdImage)[t].value < 0.0
    ensures
      RecordCheck.Violation(RecordCheck.NegativeCoefficient, Some(t), true)
      in RecordCheck.ErrorsOnly(RecordCheck.Violations(RecordCheck.BuildRecord(fit, withholdImage, rejectedByWriter)))
  {
    hide RecordCheck.BuildRecord, RecordCheck.Violations;
    var record := RecordCheck.BuildRecord(fit, withholdImage, rejectedByWriter);
    RecordCheck.BuiltFields(fit, withholdImage, rejectedByWriter, t);
    var v := RecordCheck.Violation(RecordCheck.NegativeCoefficient, Some(t), true);
    assert v in RecordCheck.AxisViolations(record, t);
    RecordCheck.AxisViolationReported(record, t, v);
  }

  // For a whole number of images the text tokens are the same exactly when there is no image,
  // the counts agree, or either count takes up the whole input.
  predicate SameText(r: Energy.Request, fitted: nat, kept: nat) {
    || r.units == 0.0
    || fitted == kept
    || r.input as real <= Visual(r, if fitted < kept then fitted else kept)
  }

  lemma SameTextIff(r: Energy.Request, fitted: nat, kept: Option<nat>)
    requires r.input >= 0 && r.units >= 0.0 && r.mediaTokens == 0 && r.units.Floor as real == r.units
    ensures PricedText(r, kept) as real == FittedText(r, fitted) <==> SameText(r, fitted, Count(kept))
  {
    TextIsRounded(r, Count(kept));
    RoundedDown(r.input, Visual(r, Count(kept)));
    NothingLeft(r, Count(kept));
    hide Energy.TextTokens, Energy.AtLeastZero, Fraction;
    assert PricedText(r, kept) as real == FittedText(r, Count(kept));
    hide PricedText;
    if fitted < Count(kept) { VisualGrows(r, fitted, Count(kept)); } else { VisualGrows(r, Count(kept), fitted); }
    hide Visual;
  }

  lemma VisualGrows(r: Energy.Request, few: nat, many: nat)
    requires r.units >= 0.0 && few <= many
    ensures 0.0 <= Visual(r, few) <= Visual(r, many)
    ensures Visual(r, few) == Visual(r, many) <==> r.units == 0.0 || few == many
  {
    if r.units > 0.0 && few < many {
      ScaleLt(few as real, many as real, r.units);
    }
  }

  // So a written record prices a call with whole images exactly as fitted if and only if the
  // input is free, or the count it stores takes off the same text as the count it was fitted with.
  lemma WholeImagesIff(r: Energy.Request, row: RunTable.Row, fit: NestedFit.Fit, withholdImage: bool,
                       rejectedByWriter: bool, tier: int, fitted: nat, kept: Option<nat>)
    requires (forall t :: t in fit.coeff && t in fit.status) && AtDesignPoint(r, row)
    requires Writable(fit, withholdImage, rejectedByWriter) && r.units.Floor as real == r.units
    ensures
      var stored := Stored(fit, withholdImage);
      Energy.OverrideWh(r, AsOverride(Loaded(fit, withholdImage, rejectedByWriter), tier, kept))
      == Predicted(stored, row, fitted) <==>
        Energy.Coefficient(stored[Input]) == 0.0 || SameText(r, fitted, Count(kept))
  {
    SameTextIff(r, fitted, kept);
    hide Loaded, Stored, AsOverride, Predicted, Energy.OverrideWh, AtDesignPoint, Writable, PricedText, FittedText, SameText;
    WrittenFitIsPricedAsFittedIff(r, row, fit, withholdImage, rejectedByWriter, tier, fitted, kept);
  }

  // Every call with whole images costs what was fitted.
  ghost predicate PricesAllAsFitted(fit: NestedFit.Fit, withholdImage: bool, rejectedByWriter: bool, tier: int,
                                    fitted: nat, kept: Option<nat>)
    requires forall t :: t in fit.coeff && t in fit.status
  {
    forall r, row :: AtDesignPoint(r, row) && r.units.Floor as real == r.units ==>
      Energy.OverrideWh(r, AsOverride(Loaded(fit, withholdImage, rejectedByWriter), tier, kept))
      == Predicted(Stored(fit, withholdImage), row, fitted)
  }

  /**
   A written record prices every call with whole images exactly as fitted if and only if its
   input is free or it stores the count it was fitted with.
   */
  lemma PricesAllAsFittedIff(fit: NestedFit.Fit, withholdImage: bool, rejectedByWriter: bool, tier: int, fitted: nat,
                             kept: Option<nat>)
    requires forall t :: t in fit.coeff && t in fit.status
    requires Writable(fit, withholdImage, rejectedByWriter)
    ensures
      PricesAllAsFitted(fit, withholdImage, rejectedByWriter, tier, fitted, kept) <==>
        Energy.Coefficient(Stored(fit, withholdImage)[Input]) == 0.0 || fitted == Count(kept)
  {
    hide Loaded, Stored, AsOverride, Predicted, Energy.OverrideWh, Writable;
    var input := if fitted < Count(kept) then Count(kept) else fitted;
    var (r, row) := OneImage(input);
    OneImageAt(input);
    OneImageTells(input, fitted, Count(kept));
    WholeImagesIff(r, row, fit, withholdImage, rejectedByWriter, tier, fitted, kept);
    hide AtDesignPoint, SameText;
    if Energy.Coefficient(Stored(fit, withholdImage)[Input]) == 0.0 || fitted == Count(kept) {
      forall r, row | AtDesignPoint(r, row) && r.units.Floor as real == r.units
        ensures Energy.OverrideWh(r, AsOverride(Loaded(fit, withholdImage, rejectedByWriter), tier, kept))
                == Predicted(Stored(fit, withholdImage), row, fitted)
      {
        WholeImagesIff(r, row, fit, withholdImage, rejectedByWriter, tier, fitted, kept);
        if fitted == Count(kept) { SameCount(r, fitted); }
      }
    }
  }

  lemma SameCount(r: Energy.Request, fitted: nat)
    ensures SameText(r, fitted, fitted)
  {
  }

  // A call with one image, and the row of its design point.
  function OneImage(input: nat): (Energy.Request, RunTable.Row) {
    (Energy.Request(input, 0, 0, 1.0, 0),
     RunTable.Row(RunTable.Absent, RunTable.Absent, RunTable.Absent, RunTable.Amount(input as real), RunTable.Amount(1.0),
                  RunTable.Absent, RunTable.Absent))
  }

  lemma OneImageAt(input: nat)
    ensures AtDesignPoint(OneImage(input).0, OneImage(input).1)
    ensures OneImage(input).0.units.Floor as real == OneImage(input).0.units
  {
    assert input as real / 1.0 == input as real;
  }

  // With the larger count for its input, one image tells two counts apart.
  lemma OneImageTells(input: nat, fitted: nat, kept: nat)
    requires fitted <= input && kept <= input && (input == fitted || input == kept)
    ensures SameText(OneImage(input).0, fitted, kept) <==> fitted == kept
  {
  }

  // With intervals around their own estimates, and numbers published where they were judged,
  // any fit may be written, and then the counts alone decide.
  lemma BracketedFitIsPricedAsFittedIff(p: NestedFit.Problem, idleWatts: Option<real>, withholdImage: bool,
                                        rejectedByWriter: bool, tier: int, fitted: nat, kept: Option<nat>)
    requires p.Valid() && RecordCheck.Bracketing(p)
    requires NestedFit.Chosen(p, NestedFit.FinalAxes(p)).None? || FitTheorems.OutputJudgedCleanly(p)
    ensures forall t :: t in NestedFit.Outcome(p, idleWatts).coeff && t in NestedFit.Outcome(p, idleWatts).status
    ensures
      var fit := NestedFit.Outcome(p, idleWatts);
      PricesAllAsFitted(fit, withholdImage, rejectedByWriter, tier, fitted, kept) <==>
        Energy.Coefficient(Stored(fit, withholdImage)[Input]) == 0.0 || fitted == Count(kept)
  {
    hide Loaded, Stored, PricesAllAsFitted, RecordCheck.Violations, RecordCheck.BuildRecord, NestedFit.Outcome,
      NestedFit.Verdict, NestedFit.Chosen, NestedFit.FinalAxes;
    RecordCheck.BracketedRecordHasNoErrors(p, idleWatts, withholdImage, rejectedByWriter);
    PricesAllAsFittedIff(NestedFit.Outcome(p, idleWatts), withholdImage, rejectedByWriter, tier, fitted, kept);
  }

  // ---------- the two writers ----------

  // Both lanes fit with the probed growth of the prompt by one image, when the server counts
  // images into the prompt at all.
  function ProbedCount(acceptsImages: bool, delta: int): nat {
    if acceptsImages && delta > 10 then delta else 0
  }

  // The Apple lane stores the count its table gives the model.
  function AppleCount(acceptsImages: bool, tableCount: nat): Option<nat> {
    if acceptsImages then Some(tableCount) else None
  }

  // The CUDA lane stores the count it fitted with, unless too few image runs succeeded.
  function CudaCount(measured: bool, probed: nat): Option<nat> {
    if measured then Some(probed) else None
  }

  // So an Apple record prices all calls with whole images as fitted exactly when its input is
  // free, the model takes no images, or the table agrees with the probe.
  lemma AppleRecordIff(fit: NestedFit.Fit, rejectedByWriter: bool, tier: int, acceptsImages: bool, delta: int,
                       tableCount: nat)
    requires forall t :: t in fit.coeff && t in fit.status
    requires Writable(fit, !acceptsImages, rejectedByWriter) && tableCount > 10
    ensures
      PricesAllAsFitted(fit, !acceptsImages, rejectedByWriter, tier, ProbedCount(acceptsImages, delta),
                        AppleCount(acceptsImages, tableCount)) <==>
        Energy.Coefficient(Stored(fit, !acceptsImages)[Input]) == 0.0 || !acceptsImages || delta == tableCount
  {
    hide PricesAllAsFitted, Stored, Writable;
    PricesAllAsFittedIff(fit, !acceptsImages, rejectedByWriter, tier, ProbedCount(acceptsImages, delta),
                         AppleCount(acceptsImages, tableCount));
  }

  // A CUDA record does when its image runs were measured; when they were not, exactly if its
  // input is free or the probe found no image tokens.
  lemma CudaRecordIff(fit: NestedFit.Fit, rejectedByWriter: bool, tier: int, acceptsImages: bool, delta: int,
                      measured: bool)
    requires forall t :: t in fit.coeff && t in fit.status
    requires Writable(fit, !measured, rejectedByWriter) && (measured ==> acceptsImages)
    ensures
      var probed := ProbedCount(acceptsImages, delta);
      PricesAllAsFitted(fit, !measured, rejectedByWriter, tier, probed, CudaCount(measured, probed)) <==>
        measured || !acceptsImages || delta <= 10 || Energy.Coefficient(Stored(fit, !measured)[Input]) == 0.0
  {
    hide PricesAllAsFitted, Stored, Writable;
    var probed := ProbedCount(acceptsImages, delta);
    PricesAllAsFittedIff(fit, !measured, rejectedByWriter, tier, probed, CudaCount(measured, probed));
  }

  // A call without images costs what was fitted, whatever the counts.
  lemma TextOnlyIsPricedAsFitted(r: Energy.Request, row: RunTable.Row, fit: NestedFit.Fit, withholdImage: bool,
                                 rejectedByWriter: bool, tier: int, fitted: nat, kept: Option<nat>)
    requires (forall t :: t in fit.coeff && t in fit.status) && AtDesignPoint(r, row) && r.units == 0.0
    requires Writable(fit, withholdImage, rejectedByWriter)
    ensures
      Energy.OverrideWh(r, AsOverride(Loaded(fit, withholdImage, rejectedByWriter), tier, kept))
      == Predicted(Stored(fit, withholdImage), row, fitted)
  {
    hide Loaded, Stored, AsOverride, Predicted, Energy.OverrideWh, AtDesignPoint, Writable;
    WholeImagesIff(r, row, fit, withholdImage, rejectedByWriter, tier, fitted, kept);
  }

  // All coefficients one, fitted without image tokens on a server that leaves them out of its
  // prompt count, stored with the table's 729: a thousand tokens and an image were fitted at
  // 2.0 Wh and are priced at 1.271.
  lemma StoredCountExample(fit: NestedFit.Fit, rejectedByWriter: bool)
    requires forall t :: t in fit.coeff && t in fit.status
    requires fit.coeff == map[Output := Some(1.0), Intercept := None, Input := Some(1.0), Image := Some(1.0)]
    ensures
      var (call, row) := OneImage(1000);
      && AtDesignPoint(call, row)
      && ProbedCount(true, 0) == 0 && AppleCount(true, 729) == Some(729)
      && Predicted(fit.coeff, row, 0) == 2.0
      && Energy.OverrideWh(call, AsOverride(Loaded(fit, false, rejectedByWriter), 0, Some(729))) == 1.271
  {
    hide Loaded, AsOverride, Energy.OverrideWh;
    var (call, row) := OneImage(1000);
    OneImageAt(1000);
    assert Stored(fit, false) == fit.coeff;
    LoadedPriceIsPrediction(call, row, fit, false, rejectedByWriter, 0, 0, Some(729));
    LoadedIs(fit, false, rejectedByWriter, Input);
    TextIsRounded(call, 729);
    assert Visual(call, 729) == 729.0 && Visual(call, 0) == 0.0;
    NoTerm(fit.coeff, Intercept, row, 0);
    OtherTerms(call, row, fit.coeff, 0);
    ColumnIs(call, row, 0);
  }

  // ---------- whole images ----------

  lemma NothingLeft(r: Energy.Request, visualTokens: nat)
    requires r.units >= 0.0 && r.units.Floor as real == r.units
    ensures LeftWithText(r, visualTokens) == 0.0
  {
    hide Times;
    WholeVisual(r.units.Floor, visualTokens);
  }

  lemma WholeVisual(n: nat, k: nat)
    ensures Times(n as real, k as real) == (n * k) as real
  {
  }
}
