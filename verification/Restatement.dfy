/**
 Refitting a stored record: over-claims are errors, under-claims are warnings.
 Follows _restatements, _num and _close in src/vetch/calibrate_validate.py.
 */
module Restatement {
  import opened Wrappers
  import opened Rungs
  import opened Reals
  import opened AxisGate
  import opened NestedFit
  import opened RecordCheck

  // What fitting a record's stored rows again gives; other lanes leave the numbers out.
  datatype Refit = Refit(
    nested: bool,
    coeff: map<Term, Option<real>>,
    status: map<Term, AxisGate.Status>,
    publishedRung: string)
  {
    function Coeff(t: Term): Option<real> {
      if t in coeff then coeff[t] else None
    }

    function State(t: Term): Option<string> {
      if t in status then Some(StatusText(status[t])) else None
    }
  }

  datatype Finding =
    | Withheld(axis: Term)           // stored nothing, the data support a number
    | Unsupported(axis: Term)        // stored a number, the data support none
    | Differs(axis: Term)            // stored another number
    | ClaimsIdentified(axis: Term)   // stored "identified", the data do not
    | StatusDiffers(axis: Term)      // stored another status
    | RungDiffers

  // _num of calibrate_validate: only a JSON number counts.
  function JsonNumber(v: Value): Option<real> {
    match v
    case Number(x) => Some(x)
    case _ => None
  }

  // math.isclose(a, b, rel_tol=1e-6, abs_tol=1e-15)
  predicate Close(a: real, b: real) {
    var diff := Abs(b - a);
    a == b || diff <= Abs(0.000001 * b) || diff <= Abs(0.000001 * a) || diff <= 0.000000000000001
  }

  const COEFFICIENT_AXES: seq<Term> := [Input, Output, Image, Intercept]

  lemma CoefficientAxesAreAll(t: Term)
    ensures t in COEFFICIENT_AXES
  {
    assert COEFFICIENT_AXES[0] == Input && COEFFICIENT_AXES[1] == Output;
    assert COEFFICIENT_AXES[2] == Image && COEFFICIENT_AXES[3] == Intercept;
  }

  // ---------- what the record and its refit say about one axis ----------

  predicate Agrees(stored: Value, refit: Option<real>) {
    && stored != Null && refit.Some?
    && JsonNumber(stored).Some? && Close(JsonNumber(stored).value, refit.value)
  }

  predicate StatusMoved(r: Record, f: Refit, t: Term) {
    r.State(t).Some? && r.State(t) != f.State(t)
  }

  // The four per-axis findings, in the order the code looks for them.
  datatype Check = NumberError | NumberWarning | StatusError | StatusWarning

  function Find(check: Check, r: Record, f: Refit, t: Term): seq<Finding> {
    match check
    case NumberError =>
      if r.Coefficient(t) == Null then []
      else if f.Coeff(t).None? then [Unsupported(t)]
      else if !Agrees(r.Coefficient(t), f.Coeff(t)) then [Differs(t)]
      else []
    case NumberWarning =>
      if r.Coefficient(t) == Null && f.Coeff(t).Some? then [Withheld(t)] else []
    case StatusError =>
      if StatusMoved(r, f, t) && r.State(t).value == IDENTIFIED then [ClaimsIdentified(t)] else []
    case StatusWarning =>
      if StatusMoved(r, f, t) && r.State(t).value != IDENTIFIED then [StatusDiffers(t)] else []
  }

  // The stored rung is the refit's, or fits strictly fewer of the same terms.
  predicate RungConservative(stored: string, refit: string) {
    var s, f := TermsForRung(Some(stored)), TermsForRung(Some(refit));
    s != {} && f != {} && s < f
  }

  function Flat(check: Check, r: Record, f: Refit, ts: seq<Term>): seq<Finding> {
    if ts == [] then [] else Flat(check, r, f, ts[..|ts| - 1]) + Find(check, r, f, ts[|ts| - 1])
  }

  function Errors(r: Record, f: Refit): seq<Finding> {
    if !f.nested then []
    else
      Flat(NumberError, r, f, COEFFICIENT_AXES)
      + Flat(StatusError, r, f, COEFFICIENT_AXES)
      + if r.publishedRung.Some? && r.publishedRung.value != f.publishedRung
           && !RungConservative(r.publishedRung.value, f.publishedRung) then [RungDiffers] else []
  }

  function Warnings(r: Record, f: Refit): seq<Finding> {
    if !f.nested then []
    else
      Flat(NumberWarning, r, f, COEFFICIENT_AXES)
      + Flat(StatusWarning, r, f, COEFFICIENT_AXES)
      + if r.publishedRung.Some? && r.publishedRung.value != f.publishedRung
           && RungConservative(r.publishedRung.value, f.publishedRung) then [RungDiffers] else []
  }

  // ---------- the comparison as the code runs it ----------

  method CompareNumbers(r: Record, f: Refit) returns (errors: seq<Finding>, warnings: seq<Finding>)
    ensures errors == Flat(NumberError, r, f, COEFFICIENT_AXES)
    ensures warnings == Flat(NumberWarning, r, f, COEFFICIENT_AXES)
  {
    hide Close;
    errors, warnings := [], [];
    for i := 0 to |COEFFICIENT_AXES|
      invariant errors == Flat(NumberError, r, f, COEFFICIENT_AXES[..i])
      invariant warnings == Flat(NumberWarning, r, f, COEFFICIENT_AXES[..i])
    {
      var t := COEFFICIENT_AXES[i];
      assert COEFFICIENT_AXES[..i + 1][..i] == COEFFICIENT_AXES[..i];
      var stored, refit := r.Coefficient(t), f.Coeff(t);
      if stored == Null {
        if refit.Some? {
          warnings := warnings + [Withheld(t)];
        }
      } else if refit.None? {
        errors := errors + [Unsupported(t)];
      } else {
        var number := JsonNumber(stored);
        if number.None? || !Close(number.value, refit.value) {
          errors := errors + [Differs(t)];
        }
      }
    }
    assert COEFFICIENT_AXES[..|COEFFICIENT_AXES|] == COEFFICIENT_AXES;
  }

  method CompareStatuses(r: Record, f: Refit) returns (errors: seq<Finding>, warnings: seq<Finding>)
    ensures errors == Flat(StatusError, r, f, COEFFICIENT_AXES)
    ensures warnings == Flat(StatusWarning, r, f, COEFFICIENT_AXES)
  {
    hide Close;
    errors, warnings := [], [];
    for i := 0 to |COEFFICIENT_AXES|
      invariant errors == Flat(StatusError, r, f, COEFFICIENT_AXES[..i])
      invariant warnings == Flat(StatusWarning, r, f, COEFFICIENT_AXES[..i])
    {
      var t := COEFFICIENT_AXES[i];
      assert COEFFICIENT_AXES[..i + 1][..i] == COEFFICIENT_AXES[..i];
      var was := r.State(t);
      if was.Some? && was != f.State(t) {
        if was.value == IDENTIFIED {
          errors := errors + [ClaimsIdentified(t)];
        } else {
          warnings := warnings + [StatusDiffers(t)];
        }
      }
    }
    assert COEFFICIENT_AXES[..|COEFFICIENT_AXES|] == COEFFICIENT_AXES;
  }

  method Restatements(r: Record, f: Refit) returns (errors: seq<Finding>, warnings: seq<Finding>)
    ensures errors == Errors(r, f)
    ensures warnings == Warnings(r, f)
  {
    hide Flat, TermsForRung;
    if !f.nested {
      return [], [];
    }
    errors, warnings := CompareNumbers(r, f);
    var statusErrors, statusWarnings := CompareStatuses(r, f);
    errors, warnings := errors + statusErrors, warnings + statusWarnings;
    if r.publishedRung.Some? && r.publishedRung.value != f.publishedRung {
      var stored, refit := TermsForRung(r.publishedRung), TermsForRung(Some(f.publishedRung));
      if stored == {} || refit == {} || !(stored < refit || refit < stored) || refit < stored {
        errors := errors + [RungDiffers];
      } else {
        warnings := warnings + [RungDiffers];
      }
    }
  }

  // ---------- what a clean comparison means ----------

  lemma {:induction false} FlatEmptyIff(check: Check, r: Record, f: Refit, ts: seq<Term>)
    ensures Flat(check, r, f, ts) == [] <==> forall t :: t in ts ==> Find(check, r, f, t) == []
  {
    hide Find;
    if ts != [] {
      FlatEmptyIff(check, r, f, ts[..|ts| - 1]);
      assert forall t :: t in ts <==> t in ts[..|ts| - 1] || t == ts[|ts| - 1];
    }
  }

  lemma FindsNothingIff(check: Check, r: Record, f: Refit)
    ensures Flat(check, r, f, COEFFICIENT_AXES) == [] <==> forall t :: Find(check, r, f, t) == []
  {
    hide Find, Flat;
    FlatEmptyIff(check, r, f, COEFFICIENT_AXES);
    forall t: Term ensures t in COEFFICIENT_AXES { CoefficientAxesAreAll(t); }
  }

  // Every stored claim is one the record's own run table supports.
  ghost predicate Supported(r: Record, f: Refit) {
    && (forall t :: r.Coefficient(t) != Null ==> Agrees(r.Coefficient(t), f.Coeff(t)))
    && (forall t :: r.State(t) == Some(IDENTIFIED) ==> f.State(t) == Some(IDENTIFIED))
    && (r.publishedRung.Some? ==>
          || r.publishedRung.value == f.publishedRung
          || {} != TermsForRung(r.publishedRung) < TermsForRung(Some(f.publishedRung)))
  }

  lemma NumberErrorFound(r: Record, f: Refit, t: Term)
    ensures Find(NumberError, r, f, t) == [] <==> (r.Coefficient(t) != Null ==> Agrees(r.Coefficient(t), f.Coeff(t)))
  {
    hide Close;
  }

  // Restatement soundness and completeness: no errors exactly when every claim is supported.
  lemma NoErrorsIffSupported(r: Record, f: Refit)
    requires f.nested
    ensures Errors(r, f) == [] <==> Supported(r, f)
  {
    hide TermsForRung, Close, Flat, Agrees;
    FindsNothingIff(NumberError, r, f);
    FindsNothingIff(StatusError, r, f);
    forall t ensures Find(NumberError, r, f, t) == [] <==> (r.Coefficient(t) != Null ==> Agrees(r.Coefficient(t), f.Coeff(t))) {
      NumberErrorFound(r, f, t);
    }
    forall t ensures Find(StatusError, r, f, t) == [] <==> (r.State(t) == Some(IDENTIFIED) ==> f.State(t) == Some(IDENTIFIED)) {
    }
  }

  // The record also withholds nothing and states every status and the rung as refitted.
  ghost predicate Restates(r: Record, f: Refit) {
    && Supported(r, f)
    && (forall t :: r.Coefficient(t) == Null ==> f.Coeff(t).None?)
    && (forall t :: r.State(t).Some? ==> r.State(t) == f.State(t))
    && (r.publishedRung.Some? ==> r.publishedRung.value == f.publishedRung)
  }

  lemma NoFindingsIffRestates(r: Record, f: Refit)
    requires f.nested
    ensures Errors(r, f) == [] && Warnings(r, f) == [] <==> Restates(r, f)
  {
    hide TermsForRung, Close, Flat, Agrees, Errors;
    NoErrorsIffSupported(r, f);
    FindsNothingIff(NumberWarning, r, f);
    FindsNothingIff(StatusWarning, r, f);
    forall t ensures Find(NumberWarning, r, f, t) == [] <==> (r.Coefficient(t) == Null ==> f.Coeff(t).None?) {
    }
    forall t ensures Find(StatusWarning, r, f, t) == [] && Find(StatusError, r, f, t) == []
                     <==> (r.State(t).Some? ==> r.State(t) == f.State(t)) {
    }
    forall t ensures Supported(r, f) ==> Find(StatusError, r, f, t) == [] {
    }
  }

  // A record that passes never names a model with terms its refit does not publish.
  lemma StoredRungNeverLarger(r: Record, f: Refit)
    requires f.nested && Errors(r, f) == []
    ensures r.publishedRung.Some? ==> TermsForRung(r.publishedRung) <= TermsForRung(Some(f.publishedRung))
  {
    hide TermsForRung, Close;
    NoErrorsIffSupported(r, f);
  }

  // Two numbers agree when they differ by no more than a millionth of the larger, or by 1e-15.
  lemma CloseIff(a: real, b: real)
    ensures
      Close(a, b) <==>
        var slack := Max(0.000000000000001, Max(Max(a, -a), Max(b, -b)) / 1000000.0);
        -slack <= a - b <= slack
  {
  }

  // So a record without errors stores, axis by axis, only numbers its rows give again to within
  // a millionth, and calls identified only what they identify.
  lemma NoErrorsWithinTolerance(r: Record, f: Refit, t: Term)
    requires f.nested && Errors(r, f) == []
    ensures
      r.Coefficient(t) != Null ==>
        && r.Coefficient(t).Number? && f.Coeff(t).Some?
        && var a, b := r.Coefficient(t).v, f.Coeff(t).value;
        var slack := Max(0.000000000000001, Max(Max(a, -a), Max(b, -b)) / 1000000.0);
        -slack <= a - b <= slack
    ensures r.State(t) == Some("identified") ==> f.State(t) == Some("identified")
  {
    hide TermsForRung, Close, Max;
    NoErrorsIffSupported(r, f);
    if r.Coefficient(t).Number? && f.Coeff(t).Some? { CloseIff(r.Coefficient(t).v, f.Coeff(t).value); }
  }

  // The refit a fit amounts to.
  function AsRefit(fit: Fit): Refit {
    Refit(true, fit.coeff, fit.status, RungName(fit.publishedRung))
  }

  // A record written from a fit restates it: no errors whatever the writer withheld, and no
  // finding at all unless the image term was withheld.
  lemma WrittenFitRestatesItself(fit: Fit, withholdImage: bool, rejectedByWriter: bool)
    requires forall t :: t in fit.coeff && t in fit.status
    ensures Errors(BuildRecord(fit, withholdImage, rejectedByWriter), AsRefit(fit)) == []
    ensures Warnings(BuildRecord(fit, withholdImage, rejectedByWriter), AsRefit(fit)) == []
            <==> !withholdImage || fit.coeff[Image].None?
  {
    hide TermsForRung, RungName, Errors, Warnings, BuildRecord;
    var r, f := BuildRecord(fit, withholdImage, rejectedByWriter), AsRefit(fit);
    WrittenClaims(fit, withholdImage, rejectedByWriter);
    NoErrorsIffSupported(r, f);
    NoFindingsIffRestates(r, f);
    BuiltFields(fit, withholdImage, rejectedByWriter, Image);
  }

  lemma WrittenClaims(fit: Fit, withholdImage: bool, rejectedByWriter: bool)
    requires forall t :: t in fit.coeff && t in fit.status
    ensures var r, f := BuildRecord(fit, withholdImage, rejectedByWriter), AsRefit(fit);
      Supported(r, f)
      && r.publishedRung == Some(f.publishedRung)
      && (forall t :: r.State(t) == f.State(t))
      && (forall t :: r.Coefficient(t) == (if t == Image && withholdImage then Null
                              else match fit.coeff[t] case Some(x) => Number(x) case None => Null))
  {
    hide TermsForRung, RungName;
    var r := BuildRecord(fit, withholdImage, rejectedByWriter);
    forall t ensures
      && r.State(t) == Some(StatusText(fit.status[t]))
      && r.Coefficient(t) == (if t == Image && withholdImage then Null
                              else match fit.coeff[t] case Some(x) => Number(x) case None => Null)
    {
      BuiltFields(fit, withholdImage, rejectedByWriter, t);
    }
    assert NOT_IDENTIFIED[0] != IDENTIFIED[0] && REJECTED[0] != IDENTIFIED[0];
  }
}
