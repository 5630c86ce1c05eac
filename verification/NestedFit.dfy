/**
 The identifiability engine: judge every axis inside the largest usable rung, prune blind
 terms one per round, and publish the largest usable rung whose terms are all identified.
 Follows fit_nested_models in src/vetch/calibrate_v2.py. The regression and bootstrap
 output is an arbitrary table from rung to coefficients, intervals, r2 and condition number.
 */
module NestedFit {
  import opened Wrappers
  import opened Rungs
  import opened AxisGate

  const MAX_CONDITION_NUMBER := 30.0
  const MIN_R2 := 0.85

  // A float that may be infinite or NaN.
  datatype Float = Finite(v: real) | NonFinite

  datatype RungFit = RungFit(
    coeffs: map<Term, real>,
    ci: map<Term, Option<Interval>>,
    r2: Float,
    cond: Float,
    residuals: seq<real>)

  // What the selection logic sees of a design and its regressions.
  datatype Problem = Problem(
    rows: nat,
    hasImage: bool,
    inputArm: bool,
    imageArm: bool,
    fits: map<Rung, RungFit>)
  {
    function Rungs(): seq<Rung> { Lattice(Optional(hasImage)) }

    // design_leverage_ok: the terms the design itself can resolve.
    function LeverageOk(): set<Term> {
      (if rows >= 8 then {Intercept} else {})
      + (if inputArm then {Input} else {})
      + (if hasImage && imageArm then {Image} else {})
    }

    // One regression per rung of the lattice, each with one coefficient per term.
    ghost predicate Valid() {
      forall r :: r in Rungs() ==> r in fits && fits[r].coeffs.Keys == r && fits[r].ci.Keys == r
    }
  }

  predicate Usable(f: RungFit) {
    f.cond.Finite? && f.cond.v <= MAX_CONDITION_NUMBER && f.r2.Finite? && f.r2.v >= MIN_R2
  }

  // ---------- judging one axis ----------

  // A rung an axis may be judged in: usable, containing the axis, nothing outside `allowed`.
  predicate Candidate(p: Problem, t: Term, allowed: set<Term>, r: Rung) {
    && r in p.Rungs() && r in p.fits
    && t in r && Usable(p.fits[r]) && r <= allowed + {Output}
  }

  function Candidates(p: Problem, t: Term, allowed: set<Term>, rs: seq<Rung>): (c: seq<Rung>)
    requires forall r :: r in rs ==> r in p.Rungs()
    ensures forall r :: r in c <==> r in rs && Candidate(p, t, allowed, r)
  {
    if rs == [] then []
    else
      var rest := Candidates(p, t, allowed, rs[1..]);
      assert forall r :: r in rs <==> r == rs[0] || r in rs[1..];
      if Candidate(p, t, allowed, rs[0]) then [rs[0]] + rest else rest
  }

  // _best_rung_for
  function BestRungFor(p: Problem, t: Term, allowed: set<Term>): (best: Option<Rung>)
    ensures best.None? <==> forall r :: r in p.Rungs() ==> !Candidate(p, t, allowed, r)
    ensures best.Some? ==>
      && Candidate(p, t, allowed, best.value)
      && forall r :: Candidate(p, t, allowed, r) ==> r == best.value || Before(r, best.value)
  {
    var c := Candidates(p, t, allowed, p.Rungs());
    if c == [] then
      assert forall r :: r in p.Rungs() && Candidate(p, t, allowed, r) ==> r in c;
      None
    else
      assert c[0] in c;
      Some(MaxRung(c))
  }

  function Containing(rs: seq<Rung>, t: Term): seq<Rung> {
    if rs == [] then []
    else (if t in rs[0] then [rs[0]] else []) + Containing(rs[1..], t)
  }

  // _assess
  function Assess(p: Problem, t: Term, allowed: set<Term>): AxisFit
    requires p.Valid()
  {
    var leverage := t == Output || t in p.LeverageOk();
    match BestRungFor(p, t, allowed)
    case None =>
      var containing := Containing(p.Rungs(), t);
      var reason :=
        if !leverage then NoLeverage(t)
        else if containing == [] then NoRungContains
        else RungUnusable(MaxRung(containing));
      AxisFit(None, None, NotIdentified, reason, None, false)
    case Some(r) =>
      AxisStatus(Some(p.fits[r].coeffs[t]), p.fits[r].ci[t], leverage, NoLeverage(t))
  }

  const AXES: seq<Term> := [Output, Intercept, Input, Image]
  const TERMS: set<Term> := {Output, Intercept, Input, Image}

  lemma AxesAreTerms(t: Term)
    ensures t in AXES && t in TERMS
  {
    assert AXES[0] == Output && AXES[1] == Intercept && AXES[2] == Input && AXES[3] == Image;
  }

  function AssessAll(p: Problem, allowed: set<Term>): (m: map<Term, AxisFit>)
    requires p.Valid()
    ensures forall t :: t in m && m[t] == Assess(p, t, allowed)
  {
    assert forall t: Term :: t in TERMS by { forall t: Term ensures t in TERMS { AxesAreTerms(t); } }
    map t | t in TERMS :: Assess(p, t, allowed)
  }

  // axis_rung: where each axis was judged.
  function JudgedOn(p: Problem, allowed: set<Term>): (m: map<Term, Rung>)
    ensures forall t :: t in m <==> BestRungFor(p, t, allowed).Some?
    ensures forall t :: t in m ==> m[t] == BestRungFor(p, t, allowed).value
  {
    assert forall t: Term :: t in TERMS by { forall t: Term ensures t in TERMS { AxesAreTerms(t); } }
    map t | t in TERMS && BestRungFor(p, t, allowed).Some? :: BestRungFor(p, t, allowed).value
  }

  // ---------- pruning ----------

  predicate Blind(p: Problem, allowed: set<Term>, t: Term)
    requires p.Valid()
  {
    t in allowed && Assess(p, t, allowed).status.NotIdentified?
  }

  // Removing t still leaves a usable model for the output slope.
  predicate Prunable(p: Problem, allowed: set<Term>, t: Term) {
    BestRungFor(p, Output, allowed - {t}).Some?
  }

  // The sort key (-leverage, axis name), an undetermined leverage counting as infinite.
  predicate WorseThan(assessed: map<Term, AxisFit>, a: Term, b: Term)
    requires a in assessed && b in assessed
  {
    var la, lb := assessed[a].leverage, assessed[b].leverage;
    if la == lb then LexLess(AxisName(a), AxisName(b))
    else la.None? || (lb.Some? && la.value > lb.value)
  }

  lemma WorseThanTotal(assessed: map<Term, AxisFit>, a: Term, b: Term)
    requires a in assessed && b in assessed
    ensures WorseThan(assessed, a, b) || WorseThan(assessed, b, a) || a == b
  {
    LexTrichotomy(AxisName(a), AxisName(b));
  }

  lemma WorseThanAsymmetric(assessed: map<Term, AxisFit>, a: Term, b: Term)
    requires a in assessed && b in assessed
    ensures !(WorseThan(assessed, a, b) && WorseThan(assessed, b, a))
  {
    LexTrichotomy(AxisName(a), AxisName(b));
  }

  lemma WorseThanTransitive(assessed: map<Term, AxisFit>, a: Term, b: Term, c: Term)
    requires a in assessed && b in assessed && c in assessed
    requires WorseThan(assessed, a, b) && WorseThan(assessed, b, c)
    ensures WorseThan(assessed, a, c)
  {
    if assessed[a].leverage == assessed[b].leverage == assessed[c].leverage {
      LexTransitive(AxisName(a), AxisName(b), AxisName(c));
    }
  }

  ghost predicate WorstFirst(assessed: map<Term, AxisFit>, ts: seq<Term>)
    requires forall t :: t in ts ==> t in assessed
  {
    forall i, j :: 0 <= i < j < |ts| ==> ts[i] == ts[j] || WorseThan(assessed, ts[i], ts[j])
  }

  function InsertWorst(assessed: map<Term, AxisFit>, t: Term, ts: seq<Term>): (out: seq<Term>)
    requires t in assessed && forall q :: q in ts ==> q in assessed
    requires WorstFirst(assessed, ts)
    ensures forall q :: q in out <==> q == t || q in ts
    ensures WorstFirst(assessed, out)
  {
    if ts == [] then [t]
    else if t == ts[0] || WorseThan(assessed, t, ts[0]) then
      assert forall j :: 0 <= j < |ts| ==> ts[j] == t || WorseThan(assessed, t, ts[j]) by {
        forall j | 0 <= j < |ts| ensures ts[j] == t || WorseThan(assessed, t, ts[j]) {
          if 0 < j && ts[j] != ts[0] && t != ts[0] { WorseThanTransitive(assessed, t, ts[0], ts[j]); }
        }
      }
      [t] + ts
    else
      WorseThanTotal(assessed, t, ts[0]);
      var rest := InsertWorst(assessed, t, ts[1..]);
      assert forall q :: q in ts <==> q == ts[0] || q in ts[1..];
      assert forall q :: q in rest ==> q == ts[0] || WorseThan(assessed, ts[0], q) by {
        forall q | q in rest ensures q == ts[0] || WorseThan(assessed, ts[0], q) {
          if q != t { assert q in ts[1..]; }
        }
      }
      [ts[0]] + rest
  }

  // ordered: the blind axes, worst determined first.
  function SortWorst(assessed: map<Term, AxisFit>, ts: seq<Term>): (out: seq<Term>)
    requires forall q :: q in ts ==> q in assessed
    ensures forall q :: q in out <==> q in ts
    ensures WorstFirst(assessed, out)
  {
    if ts == [] then []
    else
      assert forall q :: q in ts <==> q == ts[0] || q in ts[1..];
      InsertWorst(assessed, ts[0], SortWorst(assessed, ts[1..]))
  }

  function BlindIn(p: Problem, allowed: set<Term>, ts: seq<Term>): (out: seq<Term>)
    requires p.Valid()
    ensures forall t :: t in out <==> t in ts && Blind(p, allowed, t)
  {
    if ts == [] then []
    else
      assert forall q :: q in ts <==> q == ts[0] || q in ts[1..];
      (if Blind(p, allowed, ts[0]) then [ts[0]] else []) + BlindIn(p, allowed, ts[1..])
  }

  function Ordered(p: Problem, allowed: set<Term>): (out: seq<Term>)
    requires p.Valid()
    ensures forall t :: t in out <==> Blind(p, allowed, t)
    ensures WorstFirst(AssessAll(p, allowed), out)
  {
    assert forall t: Term :: t in AXES by { forall t: Term ensures t in AXES { AxesAreTerms(t); } }
    SortWorst(AssessAll(p, allowed), BlindIn(p, allowed, AXES))
  }

  ghost predicate FirstPrunableAt(p: Problem, allowed: set<Term>, ts: seq<Term>, i: int) {
    0 <= i < |ts| && Prunable(p, allowed, ts[i]) && forall j :: 0 <= j < i ==> !Prunable(p, allowed, ts[j])
  }

  function FirstPrunable(p: Problem, allowed: set<Term>, ts: seq<Term>): (choice: Option<Term>)
    ensures choice.None? <==> forall t :: t in ts ==> !Prunable(p, allowed, t)
    ensures choice.Some? ==> exists i ::
      0 <= i < |ts| && ts[i] == choice.value && FirstPrunableAt(p, allowed, ts, i)
  {
    if ts == [] then None
    else if Prunable(p, allowed, ts[0]) then Some(ts[0])
    else
      var rest := FirstPrunable(p, allowed, ts[1..]);
      assert forall q :: q in ts <==> q == ts[0] || q in ts[1..];
      assert rest.Some? ==> exists i ::
        0 <= i < |ts| && ts[i] == rest.value && FirstPrunableAt(p, allowed, ts, i) by {
        if rest.Some? {
          var i :| 0 <= i < |ts[1..]| && ts[1..][i] == rest.value && FirstPrunableAt(p, allowed, ts[1..], i);
          forall j | 0 <= j < i + 1 ensures !Prunable(p, allowed, ts[j]) {
            if 0 < j { assert ts[j] == ts[1..][j - 1]; }
          }
          assert FirstPrunableAt(p, allowed, ts, i + 1);
        }
      }
      rest
  }

  // The term this round removes, if any.
  function PruneChoice(p: Problem, allowed: set<Term>): Option<Term>
    requires p.Valid()
  {
    FirstPrunable(p, allowed, Ordered(p, allowed))
  }

  lemma FirstPrunableIsWorst(p: Problem, allowed: set<Term>, assessed: map<Term, AxisFit>, ts: seq<Term>)
    requires forall t :: t in assessed
    requires WorstFirst(assessed, ts)
    ensures FirstPrunable(p, allowed, ts).Some? ==>
      var c := FirstPrunable(p, allowed, ts).value;
      && c in ts && Prunable(p, allowed, c)
      && forall t :: t in ts && t != c && WorseThan(assessed, t, c) ==> !Prunable(p, allowed, t)
  {
    var choice := FirstPrunable(p, allowed, ts);
    if choice.Some? {
      var i :| 0 <= i < |ts| && ts[i] == choice.value && FirstPrunableAt(p, allowed, ts, i);
      forall t | t in ts && t != ts[i] && WorseThan(assessed, t, ts[i])
        ensures !Prunable(p, allowed, t)
      {
        var j :| 0 <= j < |ts| && ts[j] == t;
        if i < j { WorseThanAsymmetric(assessed, ts[i], t); }
      }
    }
  }

  // A round removes a blind term that is not load-bearing, and every worse-determined blind
  // term is load-bearing; it stops exactly when every blind term is load-bearing.
  lemma PruneChoiceIsWorst(p: Problem, allowed: set<Term>)
    requires p.Valid()
    ensures PruneChoice(p, allowed).None? <==>
            forall t :: Blind(p, allowed, t) ==> !Prunable(p, allowed, t)
    ensures PruneChoice(p, allowed).Some? ==>
      var c := PruneChoice(p, allowed).value;
      && Blind(p, allowed, c) && Prunable(p, allowed, c)
      && forall t :: Blind(p, allowed, t) && t != c && WorseThan(AssessAll(p, allowed), t, c) ==>
           !Prunable(p, allowed, t)
  {
    var ts := Ordered(p, allowed);
    FirstPrunableIsWorst(p, allowed, AssessAll(p, allowed), ts);
    assert PruneChoice(p, allowed) == FirstPrunable(p, allowed, ts);
  }

  function FinalAllowed(p: Problem, allowed: set<Term>): set<Term>
    requires p.Valid()
    decreases allowed
  {
    match PruneChoice(p, allowed)
    case None => allowed
    case Some(t) =>
      PruneChoiceIsWorst(p, allowed);
      FinalAllowed(p, allowed - {t})
  }

  // pruned_verdicts: every round overwrites the verdicts of the terms still allowed.
  function Record(p: Problem, allowed: set<Term>, verdicts: map<Term, AxisFit>): map<Term, AxisFit>
    requires p.Valid()
  {
    verdicts + map t | t in allowed :: Assess(p, t, allowed)
  }

  function Verdicts(p: Problem, allowed: set<Term>, verdicts: map<Term, AxisFit>): map<Term, AxisFit>
    requires p.Valid()
    decreases allowed
  {
    match PruneChoice(p, allowed)
    case None => Record(p, allowed, verdicts)
    case Some(t) =>
      PruneChoiceIsWorst(p, allowed);
      Verdicts(p, allowed - {t}, Record(p, allowed, verdicts))
  }

  // _final: a term without an interval in the last model falls back on its recorded verdict.
  function Final(assessed: map<Term, AxisFit>, verdicts: map<Term, AxisFit>, t: Term): AxisFit
    requires t in assessed
  {
    if t in verdicts && assessed[t].ci.None? && verdicts[t].ci.Some? then verdicts[t] else assessed[t]
  }

  // ---------- publishing ----------

  datatype Fit = Fit(
    publishedRung: Rung,
    coeff: map<Term, Option<real>>,
    status: map<Term, Status>,
    nullReasons: map<Term, Reason>,
    ci: map<Term, Option<Interval>>,
    r2: Float,
    cond: Float,
    active: bool,
    rejectionReasons: seq<Reason>,
    unpublishedRejections: seq<Term>,
    judgedOn: map<Term, Rung>,
    marginal: Option<real>)

  // A rung every one of whose terms came back identified.
  predicate Publishable(p: Problem, axes: map<Term, AxisFit>, r: Rung)
    requires forall t :: t in axes
  {
    r in p.fits && Usable(p.fits[r]) && forall t :: t in r ==> axes[t].status.Identified?
  }

  function FirstPublishable(p: Problem, axes: map<Term, AxisFit>, rs: seq<Rung>): (choice: Option<Rung>)
    requires forall t :: t in axes
    ensures choice.None? <==> forall r :: r in rs ==> !Publishable(p, axes, r)
    ensures choice.Some? ==> choice.value in rs && Publishable(p, axes, choice.value)
  {
    if rs == [] then None
    else if Publishable(p, axes, rs[0]) then Some(rs[0])
    else
      assert forall q :: q in rs <==> q == rs[0] || q in rs[1..];
      FirstPublishable(p, axes, rs[1..])
  }

  // The largest usable all-identified rung.
  function Chosen(p: Problem, axes: map<Term, AxisFit>): Option<Rung>
    requires forall t :: t in axes
  {
    FirstPublishable(p, axes, SortedRungs(p.Rungs()))
  }

  lemma {:induction false} FirstPublishableIsLargest(p: Problem, axes: map<Term, AxisFit>, rs: seq<Rung>, r: Rung)
    requires forall t :: t in axes
    requires forall i, j :: 0 <= i < j < |rs| ==> rs[i] == rs[j] || Before(rs[j], rs[i])
    requires r in rs && Publishable(p, axes, r)
    ensures FirstPublishable(p, axes, rs).Some?
    ensures var c := FirstPublishable(p, axes, rs).value; r == c || Before(r, c)
  {
    var i :| 0 <= i < |rs| && rs[i] == r;
    if !Publishable(p, axes, rs[0]) {
      assert r in rs[1..];
      FirstPublishableIsLargest(p, axes, rs[1..], r);
    }
  }

  lemma ChosenIsLargest(p: Problem, axes: map<Term, AxisFit>)
    requires forall t :: t in axes
    ensures Chosen(p, axes).Some? ==>
      Chosen(p, axes).value in p.Rungs() && Publishable(p, axes, Chosen(p, axes).value)
    ensures forall r :: r in p.Rungs() && Publishable(p, axes, r) ==>
      Chosen(p, axes).Some? && (r == Chosen(p, axes).value || Before(r, Chosen(p, axes).value))
  {
    forall r | r in p.Rungs() && Publishable(p, axes, r)
      ensures Chosen(p, axes).Some? && (r == Chosen(p, axes).value || Before(r, Chosen(p, axes).value))
    {
      FirstPublishableIsLargest(p, axes, SortedRungs(p.Rungs()), r);
    }
  }

  function RejectedAxes(axes: map<Term, AxisFit>, ts: seq<Term>, within: set<Term>): (out: seq<Term>)
    requires forall t :: t in axes
    ensures forall t :: t in out <==> t in ts && t in within && axes[t].status.Rejected?
  {
    if ts == [] then []
    else
      assert forall q :: q in ts <==> q == ts[0] || q in ts[1..];
      (if ts[0] in within && axes[ts[0]].status.Rejected? then [ts[0]] else [])
      + RejectedAxes(axes, ts[1..], within)
  }

  function Reasons(axes: map<Term, AxisFit>, ts: seq<Term>): seq<Reason>
    requires forall t :: t in axes
  {
    seq(|ts|, i requires 0 <= i < |ts| => axes[ts[i]].reason)
  }

  // Everything read off once the rung and its publishable terms are fixed.
  function Publish(p: Problem, axes: map<Term, AxisFit>, judgedOn: map<Term, Rung>,
                   rung: Rung, terms: set<Term>): Fit
    requires p.Valid() && rung in p.Rungs()
    requires forall t :: t in axes
  {
    var body := p.fits[rung];
    var coeff := map t | t in TERMS ::
      if t in terms && axes[t].status.Identified? && t in body.coeffs then Some(body.coeffs[t]) else None;
    var ci := map t | t in TERMS ::
      if t in terms then (if t in body.ci then body.ci[t] else None) else axes[t].ci;
    var fatal := RejectedAxes(axes, AXES, rung);
    AxesAreTerms(Output);
    Fit(rung,
        coeff,
        map t | t in TERMS :: axes[t].status,
        map t | t in TERMS && !axes[t].status.Identified? :: axes[t].reason,
        ci,
        body.r2,
        body.cond,
        (exists t :: t in terms && axes[t].status.Identified?) && fatal == [],
        Reasons(axes, fatal),
        RejectedAxes(axes, AXES, TERMS - rung),
        judgedOn,
        coeff[Output])
  }

  // The axes as the pruning loop leaves them.
  function FinalAxes(p: Problem): (axes: map<Term, AxisFit>)
    requires p.Valid()
    ensures forall t :: t in axes
  {
    var assessed := AssessAll(p, FinalAllowed(p, p.LeverageOk()));
    var verdicts := Verdicts(p, p.LeverageOk(), map[]);
    assert forall t: Term :: t in TERMS by { forall t: Term ensures t in TERMS { AxesAreTerms(t); } }
    map t | t in TERMS :: Final(assessed, verdicts, t)
  }

  function PublishedRung(p: Problem): Rung
    requires p.Valid()
  {
    var judged := JudgedOn(p, FinalAllowed(p, p.LeverageOk()));
    match Chosen(p, FinalAxes(p))
    case Some(r) => r
    case None => if Output in judged then judged[Output] else {Output}
  }

  function PublishedTerms(p: Problem): set<Term>
    requires p.Valid()
  {
    var axes := FinalAxes(p);
    var judged := JudgedOn(p, FinalAllowed(p, p.LeverageOk()));
    match Chosen(p, axes)
    case Some(r) => r
    case None =>
      if Output in judged then set t | t in judged[Output] && axes[t].status.Identified? else {Output}
  }

  lemma PublishedRungInLattice(p: Problem)
    requires p.Valid()
    ensures PublishedRung(p) in p.Rungs()
  {
    hide Chosen, FinalAxes, FinalAllowed, Lattice, Before;
    ChosenIsLargest(p, FinalAxes(p));
    var r: Rung := {Output};
    assert r in p.Rungs();
  }

  // What fit_nested_models returns on a design with enough rows and a positive idle figure.
  function Verdict(p: Problem): Fit
    requires p.Valid()
  {
    PublishedRungInLattice(p);
    Publish(p, FinalAxes(p), JudgedOn(p, FinalAllowed(p, p.LeverageOk())), PublishedRung(p), PublishedTerms(p))
  }

  // _barren: every axis unidentified, for one reason.
  function Barren(reason: Reason): Fit {
    Fit({Output},
        map t | t in TERMS :: None,
        map t | t in TERMS :: NotIdentified,
        map t | t in TERMS :: reason,
        map t | t in TERMS :: None,
        Finite(0.0), NonFinite, false, [reason], [], map[], None)
  }

  // fit_nested_models once the rows are admitted and the regressions run.
  function Outcome(p: Problem, idleWatts: Option<real>): Fit
    requires p.Valid()
  {
    if p.rows < 3 then Barren(TooFewRows)
    else if idleWatts.None? then Barren(NoIdleMeasurement)
    else if idleWatts.value <= 0.0 then Barren(IdleNotPositive)
    else Verdict(p)
  }

  // ---------- the loops ----------

  // The pruning rounds: four at most, and always left early.
  method PruneRounds(p: Problem)
    returns (allowed: set<Term>, assessed: map<Term, AxisFit>, judgedOn: map<Term, Rung>,
             verdicts: map<Term, AxisFit>, leftByBreak: bool)
    requires p.Valid()
    ensures leftByBreak
    ensures allowed == FinalAllowed(p, p.LeverageOk())
    ensures assessed == AssessAll(p, allowed)
    ensures judgedOn == JudgedOn(p, allowed)
    ensures verdicts == Verdicts(p, p.LeverageOk(), map[])
  {
    hide Before, Candidate, Assess, Prunable, Blind, Lattice, WorseThan, Ordered, PruneChoice, FinalAllowed, Verdicts, FirstPrunable;
    allowed := p.LeverageOk();
    assessed, judgedOn, verdicts, leftByBreak := map[], map[], map[], false;
    LeverageOkSize(p);
    for round := 0 to 4
      invariant !leftByBreak
      invariant |allowed| + round <= 3
      invariant FinalAllowed(p, allowed) == FinalAllowed(p, p.LeverageOk())
      invariant Verdicts(p, allowed, verdicts) == Verdicts(p, p.LeverageOk(), map[])
    {
      ghost var verdictsBefore := verdicts;
      judgedOn := JudgedOn(p, allowed);
      assessed := AssessAll(p, allowed);
      verdicts := verdicts + map t | t in allowed :: assessed[t];
      assert verdicts == Record(p, allowed, verdictsBefore);
      var choice := PruneOne(p, allowed);
      PruneStep(p, allowed, verdictsBefore);
      if choice.None? {
        leftByBreak := true;
        break;
      }
      RemoveOne(allowed, choice.value);
      allowed := allowed - {choice.value};
    }
  }

  lemma RemoveOne(a: set<Term>, t: Term)
    requires t in a
    ensures |a - {t}| == |a| - 1
  {
  }

  // One unfolding of the loop's two specification functions.
  lemma PruneStep(p: Problem, allowed: set<Term>, verdicts: map<Term, AxisFit>)
    requires p.Valid()
    ensures var choice := PruneChoice(p, allowed);
      if choice.None? then
        && FinalAllowed(p, allowed) == allowed
        && Verdicts(p, allowed, verdicts) == Record(p, allowed, verdicts)
      else
        && choice.value in allowed
        && FinalAllowed(p, allowed) == FinalAllowed(p, allowed - {choice.value})
        && Verdicts(p, allowed, verdicts)
           == Verdicts(p, allowed - {choice.value}, Record(p, allowed, verdicts))
  {
    hide Before, Candidate, Assess, Prunable, Blind, Lattice, WorseThan;
    PruneChoiceIsWorst(p, allowed);
  }

  // The inner loop: the first term of the worst-first list that is not load-bearing.
  method PruneOne(p: Problem, allowed: set<Term>) returns (choice: Option<Term>)
    requires p.Valid()
    ensures choice == PruneChoice(p, allowed)
  {
    var ordered := Ordered(p, allowed);
    for i := 0 to |ordered|
      invariant FirstPrunable(p, allowed, ordered) == FirstPrunable(p, allowed, ordered[i..])
    {
      assert ordered[i..][0] == ordered[i] && ordered[i..][1..] == ordered[i + 1..];
      var candidate := allowed - {ordered[i]};
      if BestRungFor(p, Output, candidate).Some? {
        return Some(ordered[i]);
      }
    }
    return None;
  }

  lemma LeverageOkSize(p: Problem)
    ensures |p.LeverageOk()| <= 3
  {
    var s := {Intercept, Input, Image};
    SubsetSize(p.LeverageOk(), s);
  }

  lemma SubsetSize(a: set<Term>, b: set<Term>)
    requires a <= b
    ensures |a| <= |b|
  {
    if a != {} {
      var x :| x in a;
      SubsetSize(a - {x}, b - {x});
    }
  }

  method FitNestedModels(p: Problem, idleWatts: Option<real>) returns (r: Fit)
    requires p.Valid()
    ensures r == Outcome(p, idleWatts)
  {
    if p.rows < 3 {
      return Barren(TooFewRows);
    }
    if idleWatts.None? {
      return Barren(NoIdleMeasurement);
    }
    if idleWatts.value <= 0.0 {
      return Barren(IdleNotPositive);
    }
    r := SelectAndPublish(p);
  }

  // The selection proper: prune, choose a rung, publish from it.
  method SelectAndPublish(p: Problem) returns (r: Fit)
    requires p.Valid()
    ensures r == Verdict(p)
  {
    hide Before, Candidate, Assess, Prunable, Blind, Lattice, WorseThan;
    var allowed, assessed, judgedOn, verdicts, _ := PruneRounds(p);
    var axes := map t | t in TERMS :: Final(assessed, verdicts, t);
    assert axes == FinalAxes(p);
    var rung: Rung, terms, chose := {Output}, {Output}, false;
    var ordered := SortedRungs(p.Rungs());
    for i := 0 to |ordered|
      invariant !chose && rung == {Output} && terms == {Output}
      invariant Chosen(p, axes) == FirstPublishable(p, axes, ordered[i..])
    {
      assert ordered[i..][0] == ordered[i] && ordered[i..][1..] == ordered[i + 1..];
      if Usable(p.fits[ordered[i]]) && forall t :: t in ordered[i] ==> axes[t].status.Identified? {
        rung, terms, chose := ordered[i], ordered[i], true;
        break;
      }
    }
    if !chose {
      if Output in judgedOn {
        rung := judgedOn[Output];
        terms := set t | t in rung && axes[t].status.Identified?;
      }
    }
    PublishedRungInLattice(p);
    r := Publish(p, axes, judgedOn, rung, terms);
  }
}
