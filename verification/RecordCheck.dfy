/**
 Calibration records: what the writer stores of a fit, the self-consistency checks every
 record must pass before it reaches disk, and how the stored numbers are read back.
 Follows build_record, record_to_result and _v2_coeff in src/vetch/calibration_store.py and
 src/vetch/calibration_invariants.py.
 */
module RecordCheck {
  import opened Wrappers
  import opened Rungs
  import opened Reals
  import opened AxisGate
  import opened NestedFit
  import opened FitTheorems

  // A stored JSON field.
  datatype Value = Null | Number(v: real) | NonFiniteNumber | NumericText(t: real) | Other

  // _num of calibration_invariants: text that parses as a float counts as a number.
  function AsNumber(v: Value): Option<real> {
    match v
    case Number(x) => Some(x)
    case NumericText(x) => Some(x)
    case _ => None
  }

  datatype Basis = Basis(marginal: Value, levels: Option<seq<Value>>)

  // The parts of a record the coefficient and energy-basis checks read.
  datatype Record = Record(
    values: map<Term, Value>,
    status: map<string, string>,
    nullReasons: set<string>,
    publishedRung: Option<string>,
    active: bool,
    basis: Option<Basis>)
  {
    function Coefficient(t: Term): Value {
      if t in values then values[t] else Null
    }

    function State(t: Term): Option<string> {
      if AxisName(t) in status then Some(status[AxisName(t)]) else None
    }
  }

  const IDENTIFIED := "identified"
  const NOT_IDENTIFIED := "not_identified"
  const REJECTED := "rejected"

  function StatusText(s: AxisGate.Status): string {
    match s
    case Identified => IDENTIFIED
    case NotIdentified => NOT_IDENTIFIED
    case Rejected => REJECTED
  }

  // ---------- the checks ----------

  datatype Code =
    | PublishedUnidentified | MissingNullReason | NegativeCoefficient
    | ActiveWithoutIdentified | ActiveWithRejectedPublishedTerm
    | EnergyBasisMismatch | AttributedLevels

  datatype Violation = Violation(code: Code, axis: Option<Term>, isError: bool)

  const CHECK_AXES: seq<Term> := [Input, Output, Image, Intercept]

  function AxisViolations(r: Record, t: Term): seq<Violation> {
    var value, state := r.Coefficient(t), r.State(t);
    if r.status == map[] then []
    else
      (if value != Null && state != Some(IDENTIFIED)
       then [Violation(PublishedUnidentified, Some(t), true)] else [])
      + (if value == Null && state != Some(IDENTIFIED) && AxisName(t) !in r.nullReasons
         then [Violation(MissingNullReason, Some(t), false)] else [])
      + (if value != Null && AsNumber(value).Some? && AsNumber(value).value < 0.0
         then [Violation(NegativeCoefficient, Some(t), true)] else [])
  }

  predicate Contaminated(r: Record) {
    exists t :: t in TermsForRung(r.publishedRung) && r.State(t) == Some(REJECTED)
  }

  function ActiveViolations(r: Record): seq<Violation> {
    if !r.active || r.status == map[] then []
    else
      (if IDENTIFIED !in r.status.Values then [Violation(ActiveWithoutIdentified, None, true)] else [])
      + (if Contaminated(r) then [Violation(ActiveWithRejectedPublishedTerm, None, true)] else [])
  }

  function FlatMapAxes(r: Record, ts: seq<Term>): seq<Violation> {
    if ts == [] then [] else FlatMapAxes(r, ts[..|ts| - 1]) + AxisViolations(r, ts[|ts| - 1])
  }

  function CoefficientViolations(r: Record): seq<Violation> {
    FlatMapAxes(r, CHECK_AXES) + ActiveViolations(r)
  }

  // sorted(assumed_utilisation of every level) == [0.2, 0.5, 0.8]
  predicate ProtocolLevels(levels: seq<Value>) {
    multiset(Numbers(levels)) == multiset{0.2, 0.5, 0.8}
  }

  function Numbers(vs: seq<Value>): seq<real> {
    if vs == [] then []
    else (if AsNumber(vs[0]).Some? then [AsNumber(vs[0]).value] else []) + Numbers(vs[1..])
  }

  // A number is one in JSON or in text, and a coefficient is a positive one.
  lemma NumberIff(v: Value, x: real)
    ensures AsNumber(v) == Some(x) <==> v == Number(x) || v == NumericText(x)
    ensures V2Coeff(v) == Some(x) <==> x > 0.0 && (v == Number(x) || v == NumericText(x))
  {
  }

  // The numbers of a list are those of its parts, one after the other.
  lemma {:induction false} NumbersOfParts(vs: seq<Value>, ws: seq<Value>, x: real)
    ensures Numbers(vs + ws) == Numbers(vs) + Numbers(ws)
    ensures Numbers([Number(x)]) == [x] == Numbers([NumericText(x)])
    ensures Numbers([Null]) == Numbers([NonFiniteNumber]) == Numbers([Other]) == []
  {
    if vs == [] {
      assert vs + ws == ws;
    } else {
      assert (vs + ws)[1..] == vs[1..] + ws;
      NumbersOfParts(vs[1..], ws, x);
    }
  }

  // The levels pass in any order, provided three of them are numbers and the three are among them.
  lemma LevelsInAnyOrder(levels: seq<Value>)
    ensures
      ProtocolLevels(levels) <==>
        |Numbers(levels)| == 3 && 0.2 in Numbers(levels) && 0.5 in Numbers(levels) && 0.8 in Numbers(levels)
  {
    ThreeIff(Numbers(levels));
  }

  lemma ThreeIff(n: seq<real>)
    ensures multiset(n) == multiset{0.2, 0.5, 0.8} <==> |n| == 3 && 0.2 in n && 0.5 in n && 0.8 in n
  {
    if multiset(n) == multiset{0.2, 0.5, 0.8} {
      assert |n| == |multiset(n)|;
      assert 0.2 in multiset(n) && 0.5 in multiset(n) && 0.8 in multiset(n);
    }
    if |n| == 3 && 0.2 in n && 0.5 in n && 0.8 in n {
      assert n == [n[0], n[1], n[2]];
      assert multiset(n) == multiset{n[0], n[1], n[2]};
    }
  }

  function BasisViolations(r: Record): seq<Violation> {
    if r.basis.None? then []
    else
      var published := AsNumber(r.Coefficient(Output));
      var marginal := AsNumber(r.basis.value.marginal);
      (if published.Some? && marginal.Some? && Abs(published.value - marginal.value) > 0.000000001
       then [Violation(EnergyBasisMismatch, None, true)] else [])
      + (if r.basis.value.levels.Some? && r.basis.value.levels.value != []
            && !ProtocolLevels(r.basis.value.levels.value)
         then [Violation(AttributedLevels, None, false)] else [])
  }

  // The shared list every check appends to.
  class Report {
    var out: seq<Violation>

    constructor ()
      ensures out == []
    {
      out := [];
    }

    // One pass of its loop.
    method CheckAxis(r: Record, t: Term)
      modifies this
      ensures out == old(out) + AxisViolations(r, t)
    {
      var value, state := r.Coefficient(t), r.State(t);
      if r.status != map[] {
        if value != Null && state != Some(IDENTIFIED) {
          out := out + [Violation(PublishedUnidentified, Some(t), true)];
        }
        if value == Null && state != Some(IDENTIFIED) && AxisName(t) !in r.nullReasons {
          out := out + [Violation(MissingNullReason, Some(t), false)];
        }
        if value != Null {
          var number := AsNumber(value);
          if number.Some? && number.value < 0.0 {
            out := out + [Violation(NegativeCoefficient, Some(t), true)];
          }
        }
      }
    }

    method CheckCoefficients(r: Record)
      modifies this
      ensures out == old(out) + CoefficientViolations(r)
    {
      hide AxisViolations, Contaminated;
      for i := 0 to |CHECK_AXES|
        invariant out == old(out) + FlatMapAxes(r, CHECK_AXES[..i])
      {
        assert CHECK_AXES[..i + 1][..i] == CHECK_AXES[..i];
        CheckAxis(r, CHECK_AXES[i]);
      }
      assert CHECK_AXES[..|CHECK_AXES|] == CHECK_AXES;
      if r.active && r.status != map[] {
        if IDENTIFIED !in r.status.Values {
          out := out + [Violation(ActiveWithoutIdentified, None, true)];
        }
        if Contaminated(r) {
          out := out + [Violation(ActiveWithRejectedPublishedTerm, None, true)];
        }
      }
    }

    method CheckEnergyBasis(r: Record)
      modifies this
      ensures out == old(out) + BasisViolations(r)
    {
      if r.basis.None? {
        return;
      }
      var published, marginal := AsNumber(r.Coefficient(Output)), AsNumber(r.basis.value.marginal);
      if published.Some? && marginal.Some? {
        if Abs(published.value - marginal.value) > 0.000000001 {
          out := out + [Violation(EnergyBasisMismatch, None, true)];
        }
      }
      if r.basis.value.levels.Some? && r.basis.value.levels.value != [] {
        if !ProtocolLevels(r.basis.value.levels.value) {
          out := out + [Violation(AttributedLevels, None, false)];
        }
      }
    }
  }

  function Violations(r: Record): seq<Violation> {
    CoefficientViolations(r) + BasisViolations(r)
  }

  // record_invariants, coefficient and energy-basis part.
  method RecordInvariants(r: Record) returns (out: seq<Violation>)
    ensures out == Violations(r)
  {
    var report := new Report();
    report.CheckCoefficients(r);
    report.CheckEnergyBasis(r);
    out := report.out;
  }

  function ErrorsOnly(vs: seq<Violation>): (errors: seq<Violation>)
    ensures forall v :: v in errors <==> v in vs && v.isError
  {
    if vs == [] then []
    else
      assert forall v :: v in vs <==> v == vs[0] || v in vs[1..];
      (if vs[0].isError then [vs[0]] else []) + ErrorsOnly(vs[1..])
  }

  // When a check fires, told from the record alone.
  ghost predicate Fires(r: Record, code: Code) {
    match code
    case PublishedUnidentified =>
      r.status != map[] && exists t :: r.Coefficient(t) != Null && r.State(t) != Some(IDENTIFIED)
    case MissingNullReason =>
      r.status != map[] && exists t ::
        r.Coefficient(t) == Null && r.State(t) != Some(IDENTIFIED) && AxisName(t) !in r.nullReasons
    case NegativeCoefficient =>
      r.status != map[] && exists t ::
        r.Coefficient(t) != Null && AsNumber(r.Coefficient(t)).Some? && AsNumber(r.Coefficient(t)).value < 0.0
    case ActiveWithoutIdentified =>
      r.active && r.status != map[] && forall k :: k in r.status ==> r.status[k] != IDENTIFIED
    case ActiveWithRejectedPublishedTerm =>
      r.active && r.status != map[]
      && exists t :: t in TermsForRung(r.publishedRung) && r.State(t) == Some("rejected")
    case EnergyBasisMismatch =>
      r.basis.Some? && AsNumber(r.Coefficient(Output)).Some? && AsNumber(r.basis.value.marginal).Some?
      && Abs(AsNumber(r.Coefficient(Output)).value - AsNumber(r.basis.value.marginal).value) > 0.000000001
    case AttributedLevels =>
      r.basis.Some? && r.basis.value.levels.Some? && r.basis.value.levels.value != []
      && !ProtocolLevels(r.basis.value.levels.value)
  }

  lemma {:induction false} FlatMapAxesMember(r: Record, ts: seq<Term>, v: Violation)
    ensures v in FlatMapAxes(r, ts) <==> exists t :: t in ts && v in AxisViolations(r, t)
  {
    if ts != [] {
      FlatMapAxesMember(r, ts[..|ts| - 1], v);
      assert forall t :: t in ts <==> t in ts[..|ts| - 1] || t == ts[|ts| - 1];
    }
  }

  lemma CheckAxesAreAll(t: Term)
    ensures t in CHECK_AXES
  {
    assert CHECK_AXES[0] == Input && CHECK_AXES[1] == Output && CHECK_AXES[2] == Image && CHECK_AXES[3] == Intercept;
  }

  // Completeness and soundness of the record checks: a code is reported exactly when it fires.
  lemma ReportedIffFires(r: Record, code: Code)
    ensures (exists v :: v in Violations(r) && v.code == code) <==> Fires(r, code)
  {
    if v: Violation :| v in Violations(r) && v.code == code {
      ReportedFires(r, v);
    }
    if Fires(r, code) {
      FiringIsReported(r, code);
    }
  }

  lemma ReportedFires(r: Record, v: Violation)
    requires v in Violations(r)
    ensures Fires(r, v.code)
  {
    hide FlatMapAxes, AxisViolations, ActiveViolations, BasisViolations, Fires;
    FlatMapAxesMember(r, CHECK_AXES, v);
    if v in FlatMapAxes(r, CHECK_AXES) {
      var t :| t in CHECK_AXES && v in AxisViolations(r, t);
      AxisViolationFires(r, t, v);
    } else if v in ActiveViolations(r) {
      ActiveViolationFires(r, v);
    } else {
      BasisViolationFires(r, v);
    }
  }

  lemma AxisViolationFires(r: Record, t: Term, v: Violation)
    requires v in AxisViolations(r, t)
    ensures Fires(r, v.code)
  {
  }

  lemma ActiveViolationFires(r: Record, v: Violation)
    requires v in ActiveViolations(r)
    ensures Fires(r, v.code)
  {
    hide TermsForRung;
    forall k | k in r.status ensures r.status[k] in r.status.Values {}
  }

  lemma BasisViolationFires(r: Record, v: Violation)
    requires v in BasisViolations(r)
    ensures Fires(r, v.code)
  {
    hide ProtocolLevels, Abs;
  }

  lemma FiringIsReported(r: Record, code: Code)
    requires Fires(r, code)
    ensures exists v :: v in Violations(r) && v.code == code
  {
    hide TermsForRung, ProtocolLevels, Abs;
    match code {
      case PublishedUnidentified =>
        var t :| r.Coefficient(t) != Null && r.State(t) != Some(IDENTIFIED);
        AxisViolationReported(r, t, Violation(PublishedUnidentified, Some(t), true));
      case MissingNullReason =>
        var t :| r.Coefficient(t) == Null && r.State(t) != Some(IDENTIFIED) && AxisName(t) !in r.nullReasons;
        AxisViolationReported(r, t, Violation(MissingNullReason, Some(t), false));
      case NegativeCoefficient =>
        var t :| r.Coefficient(t) != Null && AsNumber(r.Coefficient(t)).Some? && AsNumber(r.Coefficient(t)).value < 0.0;
        AxisViolationReported(r, t, Violation(NegativeCoefficient, Some(t), true));
      case ActiveWithoutIdentified =>
        assert Violation(ActiveWithoutIdentified, None, true) in ActiveViolations(r);
      case ActiveWithRejectedPublishedTerm =>
        assert Violation(ActiveWithRejectedPublishedTerm, None, true) in ActiveViolations(r);
      case EnergyBasisMismatch =>
        assert Violation(EnergyBasisMismatch, None, true) in BasisViolations(r);
      case AttributedLevels =>
        assert Violation(AttributedLevels, None, false) in BasisViolations(r);
    }
  }

  lemma AxisViolationReported(r: Record, t: Term, v: Violation)
    requires v in AxisViolations(r, t)
    ensures v in Violations(r)
  {
    CheckAxesAreAll(t);
    FlatMapAxesMember(r, CHECK_AXES, v);
  }

  // ---------- writing a fit ----------

  // The fixed protocol levels of the attributed column.
  const UTILISATION_LEVELS: seq<Value> := [Number(0.2), Number(0.5), Number(0.8)]

  // build_record on a fit. The writer may withhold the image term (a vision model whose
  // image runs failed) and may reject the run for reasons of its own.
  function BuildRecord(fit: Fit, withholdImage: bool, rejectedByWriter: bool): Record
    requires forall t :: t in fit.coeff && t in fit.status
  {
    var values := map t | t in TERMS ::
      if t == Image && withholdImage then Null
      else match fit.coeff[t] case Some(x) => Number(x) case None => Null;
    var active := fit.active && !rejectedByWriter;
    Record(
      values,
      map[AxisName(Output) := StatusText(fit.status[Output]),
          AxisName(Intercept) := StatusText(fit.status[Intercept]),
          AxisName(Input) := StatusText(fit.status[Input]),
          AxisName(Image) := StatusText(fit.status[Image])],
      set t | t in fit.nullReasons :: AxisName(t),
      Some(RungName(fit.publishedRung)),
      active && exists t :: t in TERMS && values[t] != Null,
      Some(Basis(match fit.marginal case Some(x) => Number(x) case None => Null, Some(UTILISATION_LEVELS))))
  }

  lemma AxisNameInjective(a: Term, b: Term)
    ensures AxisName(a) == AxisName(b) <==> a == b
  {
    assert AxisName(Output)[0] == 'w' && AxisName(Input)[0] == 'w' && AxisName(Image)[0] == 'w' && AxisName(Intercept)[0] == 'i';
    assert AxisName(Output)[7] == '1' && AxisName(Output)[10] == 'o';
    assert AxisName(Input)[7] == '1' && AxisName(Input)[10] == 'i' && AxisName(Image)[7] == 'i';
  }

  lemma BuiltFields(fit: Fit, withholdImage: bool, rejectedByWriter: bool, t: Term)
    requires forall t :: t in fit.coeff && t in fit.status
    ensures var r := BuildRecord(fit, withholdImage, rejectedByWriter);
      && r.State(t) == Some(StatusText(fit.status[t]))
      && r.Coefficient(t) == (if t == Image && withholdImage then Null
                              else match fit.coeff[t] case Some(x) => Number(x) case None => Null)
      && (AxisName(t) in r.nullReasons <==> t in fit.nullReasons)
  {
    AxesAreTerms(t);
    forall a, b ensures AxisName(a) == AxisName(b) <==> a == b { AxisNameInjective(a, b); }
  }

  // The words for the statuses, and when a record is active: the fit is, the writer does not reject
  // the run, and a number is stored.
  lemma BuiltSays(fit: Fit, withholdImage: bool, rejectedByWriter: bool, t: Term)
    requires forall t :: t in fit.coeff && t in fit.status
    ensures var r := BuildRecord(fit, withholdImage, rejectedByWriter);
      && (r.State(t) == Some("identified") <==> fit.status[t].Identified?)
      && (r.State(t) == Some("not_identified") <==> fit.status[t].NotIdentified?)
      && (r.State(t) == Some("rejected") <==> fit.status[t].Rejected?)
      && (r.active <==> fit.active && !rejectedByWriter && exists q :: fit.coeff[q].Some? && !(q == Image && withholdImage))
  {
    var r := BuildRecord(fit, withholdImage, rejectedByWriter);
    forall q ensures q in TERMS && r.Coefficient(q) == (if q == Image && withholdImage then Null
                              else match fit.coeff[q] case Some(x) => Number(x) case None => Null) {
      AxesAreTerms(q);
      BuiltFields(fit, withholdImage, rejectedByWriter, q);
    }
    BuiltFields(fit, withholdImage, rejectedByWriter, t);
    assert "identified"[0] == 'i' && "not_identified"[0] == 'n' && "rejected"[0] == 'r';
    hide AxisName, RungName;
  }

  // What every fit the engine returns satisfies.
  ghost predicate Sound(fit: Fit) {
    && (forall t :: t in fit.coeff && t in fit.status && t in fit.ci)
    && (forall t :: fit.coeff[t].Some? ==> fit.status[t].Identified?)
    && (forall t :: !fit.status[t].Identified? ==> t in fit.nullReasons)
    && (fit.active ==> exists t :: fit.coeff[t].Some?)
    && (fit.active ==> forall t :: t in fit.publishedRung ==> !fit.status[t].Rejected?)
    && fit.marginal == fit.coeff[Output]
  }

  lemma VerdictIsSound(p: Problem)
    requires p.Valid()
    ensures Sound(Verdict(p))
  {
    hide Verdict, FinalAxes, PublishedRung, PublishedTerms, JudgedOn, FinalAllowed;
    var fit := Verdict(p);
    ActiveIff(p);
    forall t ensures t in fit.coeff && t in fit.status && t in fit.ci
                     && (fit.coeff[t].Some? ==> fit.status[t].Identified?)
                     && fit.marginal == fit.coeff[Output]
    {
      VerdictFields(p, t);
      VerdictFields(p, Output);
    }
    forall t ensures !fit.status[t].Identified? ==> t in fit.nullReasons { VerdictReasons(p, t); }
  }

  lemma VerdictReasons(p: Problem, t: Term)
    requires p.Valid()
    ensures t in Verdict(p).status
    ensures !Verdict(p).status[t].Identified? ==> t in Verdict(p).nullReasons
  {
    hide FinalAxes, PublishedRung, PublishedTerms, JudgedOn, FinalAllowed;
    AxesAreTerms(t);
    PublishedRungInLattice(p);
  }

  lemma BarrenIsSound(reason: Reason)
    ensures Sound(Barren(reason))
  {
    forall t ensures t in Barren(reason).coeff && t in Barren(reason).status && t in Barren(reason).ci && t in Barren(reason).nullReasons {
      AxesAreTerms(t);
    }
    AxesAreTerms(Output);
  }

  lemma OutcomeIsSound(p: Problem, idleWatts: Option<real>)
    requires p.Valid()
    ensures Sound(Outcome(p, idleWatts))
  {
    hide Verdict, Barren, Sound;
    VerdictIsSound(p);
    BarrenIsSound(TooFewRows);
    BarrenIsSound(NoIdleMeasurement);
    BarrenIsSound(IdleNotPositive);
  }

  /**
   What the fitter emits, the record checks accept: whatever the writer withholds or rejects, the
   record of a fit violates no coefficient or energy-basis check, save possibly the sign check.
   */
  lemma FitterRecordIsCoherent(p: Problem, idleWatts: Option<real>, withholdImage: bool, rejectedByWriter: bool, code: Code)
    requires p.Valid() && code != NegativeCoefficient
    ensures (forall t :: t in Outcome(p, idleWatts).coeff && t in Outcome(p, idleWatts).status)
    ensures !exists v :: v in Violations(BuildRecord(Outcome(p, idleWatts), withholdImage, rejectedByWriter)) && v.code == code
  {
    hide Outcome, BuildRecord, Violations;
    OutcomeIsSound(p, idleWatts);
    SoundFitIsCoherent(Outcome(p, idleWatts), withholdImage, rejectedByWriter, code);
  }

  lemma SoundFitIsCoherent(fit: Fit, withholdImage: bool, rejectedByWriter: bool, code: Code)
    requires Sound(fit) && code != NegativeCoefficient
    ensures !exists v :: v in Violations(BuildRecord(fit, withholdImage, rejectedByWriter)) && v.code == code
  {
    hide Violations, TermsForRung, RungName, Fires;
    var r := BuildRecord(fit, withholdImage, rejectedByWriter);
    BuiltMirrors(fit, withholdImage, rejectedByWriter);
    MirrorIsCoherent(r, fit, code);
    ReportedIffFires(r, code);
  }

  // A record that says no more than the fit does.
  ghost predicate Mirrors(r: Record, fit: Fit)
    requires forall t :: t in fit.coeff && t in fit.status
  {
    && (forall t :: r.State(t) == Some(StatusText(fit.status[t])))
    && (forall t :: r.Coefficient(t) == Null || (fit.coeff[t].Some? && r.Coefficient(t) == Number(fit.coeff[t].value)))
    && (forall t :: t in fit.nullReasons ==> AxisName(t) in r.nullReasons)
    && TermsForRung(r.publishedRung) == fit.publishedRung
    && (r.active ==> fit.active)
    && r.basis.Some? && r.basis.value.levels == Some(UTILISATION_LEVELS)
    && (AsNumber(r.basis.value.marginal) == fit.marginal)
  }

  lemma BuiltMirrors(fit: Fit, withholdImage: bool, rejectedByWriter: bool)
    requires forall t :: t in fit.coeff && t in fit.status
    ensures Mirrors(BuildRecord(fit, withholdImage, rejectedByWriter), fit)
  {
    hide TermsForRung, RungName;
    var r := BuildRecord(fit, withholdImage, rejectedByWriter);
    forall t ensures
      && r.State(t) == Some(StatusText(fit.status[t]))
      && (r.Coefficient(t) == Null || (fit.coeff[t].Some? && r.Coefficient(t) == Number(fit.coeff[t].value)))
      && (t in fit.nullReasons ==> AxisName(t) in r.nullReasons)
    {
      BuiltFields(fit, withholdImage, rejectedByWriter, t);
    }
    RungNameRoundTrip(fit.publishedRung);
  }

  lemma MirrorIsCoherent(r: Record, fit: Fit, code: Code)
    requires Sound(fit) && Mirrors(r, fit) && code != NegativeCoefficient
    ensures !Fires(r, code)
  {
    hide ProtocolLevels, TermsForRung;
    ProtocolLevelsHold();
    if code == ActiveWithoutIdentified && r.active {
      var t :| fit.coeff[t].Some?;
      assert r.State(t) == Some(IDENTIFIED);
      assert r.status[AxisName(t)] == IDENTIFIED;
    }
  }

  lemma ProtocolLevelsHold()
    ensures ProtocolLevels(UTILISATION_LEVELS)
  {
    var u := UTILISATION_LEVELS;
    assert Numbers(u[1..][1..]) == [0.8] by { assert u[1..][1..] == [Number(0.8)]; }
    assert Numbers(u[1..]) == [0.5, 0.8];
    assert Numbers(u) == [0.2, 0.5, 0.8];
  }

  // Every bootstrap interval contains its own point estimate.
  ghost predicate Bracketing(p: Problem)
    requires p.Valid()
  {
    forall r, t :: r in p.Rungs() && t in r && p.fits[r].ci[t].Some? ==>
      Brackets(p.fits[r].ci[t].value, p.fits[r].coeffs[t])
  }

  // With bracketing intervals, numbers published where they were judged are positive, their
  // intervals lie wholly above zero, and the record passes every check.
  lemma BracketedFitIsPositive(p: Problem, t: Term)
    requires p.Valid() && Bracketing(p)
    ensures forall q :: q in Verdict(p).coeff && q in Verdict(p).ci
    ensures JudgedWherePublished(Verdict(p)) && Verdict(p).coeff[t].Some? ==>
      && Verdict(p).coeff[t].value > 0.0
      && Verdict(p).ci[t].Some? && Verdict(p).ci[t].value.lo > 0.0
  {
    hide Before, Candidate, Prunable, Blind, Lattice, WorseThan, FinalAxes, FinalAllowed, Verdict, Assess, JudgedOn, PublishedRung, PublishedTerms;
    forall q: Term ensures q in Verdict(p).coeff && q in Verdict(p).ci { VerdictFields(p, q); }
    if JudgedWherePublished(Verdict(p)) && Verdict(p).coeff[t].Some? {
      PublishedIntervalPassedGate(p, t);
      VerdictFields(p, t);
      GatePassedIsPositive(Verdict(p).coeff[t].value, Verdict(p).ci[t].value);
    }
  }

  /**
   With bracketing intervals, and numbers published where they were judged, the record of a
   fit passes every check, the sign check included.
   */
  lemma BracketedRecordHasNoErrors(p: Problem, idleWatts: Option<real>, withholdImage: bool, rejectedByWriter: bool)
    requires p.Valid() && Bracketing(p)
    requires Chosen(p, FinalAxes(p)).None? || OutputJudgedCleanly(p)
    ensures forall t :: t in Outcome(p, idleWatts).coeff && t in Outcome(p, idleWatts).status
    ensures ErrorsOnly(Violations(BuildRecord(Outcome(p, idleWatts), withholdImage, rejectedByWriter))) == []
  {
    hide Verdict, BuildRecord, Violations, FinalAxes, OutputJudgedCleanly;
    var fit := Outcome(p, idleWatts);
    OutcomeIsSound(p, idleWatts);
    var r := BuildRecord(fit, withholdImage, rejectedByWriter);
    PublishedWhereJudgedIff(p);
    forall t ensures fit.coeff[t].Some? ==> fit.coeff[t].value > 0.0 {
      AxesAreTerms(t);
      BracketedFitIsPositive(p, t);
    }
    PositiveFitHasNoErrors(fit, withholdImage, rejectedByWriter);
  }

  lemma PositiveFitHasNoErrors(fit: Fit, withholdImage: bool, rejectedByWriter: bool)
    requires Sound(fit)
    requires forall t :: fit.coeff[t].Some? ==> fit.coeff[t].value > 0.0
    ensures ErrorsOnly(Violations(BuildRecord(fit, withholdImage, rejectedByWriter))) == []
  {
    hide Violations, TermsForRung, RungName, BuildRecord;
    var r := BuildRecord(fit, withholdImage, rejectedByWriter);
    var errors := ErrorsOnly(Violations(r));
    if errors != [] {
      var v := errors[0];
      assert v in Violations(r);
      ReportedIffFires(r, v.code);
      if v.code != NegativeCoefficient {
        SoundFitIsCoherent(fit, withholdImage, rejectedByWriter, v.code);
      } else {
        forall t ensures !(r.Coefficient(t) != Null && AsNumber(r.Coefficient(t)).Some? && AsNumber(r.Coefficient(t)).value < 0.0) {
          BuiltFields(fit, withholdImage, rejectedByWriter, t);
        }
      }
    }
  }

  // The sign check can fire on a fitter's record, but only over an estimate that lies strictly
  // left of its own interval or was published from a rung it was not judged in.
  lemma SignCheckNeedsStrayInterval(p: Problem, withholdImage: bool, rejectedByWriter: bool)
    requires p.Valid()
    ensures forall t :: t in Verdict(p).coeff && t in Verdict(p).status && t in Verdict(p).ci
    ensures Fires(BuildRecord(Verdict(p), withholdImage, rejectedByWriter), NegativeCoefficient)
            && JudgedWherePublished(Verdict(p)) ==>
      exists t :: Verdict(p).coeff[t].Some? && Verdict(p).ci[t].Some?
        && Verdict(p).coeff[t].value < 0.0 && Verdict(p).coeff[t].value < Verdict(p).ci[t].value.lo
  {
    hide Verdict, BuildRecord;
    var fit := Verdict(p);
    VerdictIsSound(p);
    var r := BuildRecord(fit, withholdImage, rejectedByWriter);
    if Fires(r, NegativeCoefficient) && JudgedWherePublished(fit) {
      var t :| r.Coefficient(t) != Null && AsNumber(r.Coefficient(t)).Some? && AsNumber(r.Coefficient(t)).value < 0.0;
      BuiltFields(fit, withholdImage, rejectedByWriter, t);
      PublishedIntervalPassedGate(p, t);
      NegativeEstimateOutsideInterval(fit.coeff[t].value, fit.ci[t].value);
    }
  }

  // ---------- reading back ----------

  // _v2_coeff: only a positive number is a coefficient.
  function V2Coeff(v: Value): Option<real> {
    match AsNumber(v)
    case Some(x) => if x <= 0.0 then None else Some(x)
    case None => None
  }

  // The coefficients record_to_result hands to the resolver.
  function ReadBack(r: Record): map<Term, Option<real>> {
    map t | t in TERMS :: V2Coeff(r.Coefficient(t))
  }

  // A written fit reads back exactly, term by term, when and only when every published
  // coefficient is positive.
  lemma ReadBackIsExactIffPositive(fit: Fit, rejectedByWriter: bool)
    requires forall t :: t in fit.coeff && t in fit.status
    ensures (forall t :: t in ReadBack(BuildRecord(fit, false, rejectedByWriter))
                      && ReadBack(BuildRecord(fit, false, rejectedByWriter))[t] == fit.coeff[t])
            <==> forall t :: fit.coeff[t].Some? ==> fit.coeff[t].value > 0.0
  {
    hide BuildRecord;
    var back := ReadBack(BuildRecord(fit, false, rejectedByWriter));
    forall t ensures t in back && (back[t] == fit.coeff[t] <==> fit.coeff[t].None? || fit.coeff[t].value > 0.0) {
      AxesAreTerms(t);
      BuiltFields(fit, false, rejectedByWriter, t);
    }
  }
}
