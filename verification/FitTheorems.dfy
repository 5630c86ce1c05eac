/**
 What the identifiability engine guarantees for every table of rung fits.
 */
module FitTheorems {
  import opened Wrappers
  import opened Rungs
  import opened AxisGate
  import opened NestedFit

  // ---------- judging one axis ----------

  // The design resolves the term: always the output slope, the intercept from eight rows on, the
  // others with their arms.
  predicate Resolves(p: Problem, t: Term) {
    match t
    case Output => true
    case Intercept => p.rows >= 8
    case Input => p.inputArm
    case Image => p.hasImage && p.imageArm
  }

  // Well conditioned, and explaining at least 85% of the variance.
  predicate Explains(f: RungFit) {
    f.cond.Finite? && f.cond.v <= 30.0 && f.r2.Finite? && 0.85 <= f.r2.v
  }

  // A rung the term may be judged in: it holds the term, nothing but the output slope from
  // outside `allowed`, and explains the rows.
  ghost predicate Admits(p: Problem, t: Term, allowed: set<Term>, r: Rung)
    requires p.Valid()
  {
    r in p.Rungs() && t in r && (forall q :: q in r ==> q == Output || q in allowed) && Explains(p.fits[r])
  }

  // Of those, the one with the most terms, by name among equals.
  ghost predicate JudgedIn(p: Problem, t: Term, allowed: set<Term>, r: Rung)
    requires p.Valid()
  {
    && Admits(p, t, allowed, r)
    && forall q: Rung :: Admits(p, t, allowed, q) && q != r ==>
         |q| < |r| || (|q| == |r| && LexLess(RungName(q), RungName(r)))
  }

  // Not wholly below zero, and no wider than a fifth of an estimate that is not zero.
  predicate Precise(value: real, ci: Option<Interval>) {
    && value != 0.0 && ci.Some? && ci.value.hi >= 0.0
    && (ci.value.hi - ci.value.lo <= 0.2 * value || ci.value.hi - ci.value.lo <= -0.2 * value)
  }

  /**
   What one assessment says, told from the table of rung fits: a term is identified exactly when
   the design resolves it and the rung it is judged in determines it precisely, rejected exactly
   when that rung puts it wholly below zero, and carries that rung's estimate and interval.
   */
  lemma AssessIff(p: Problem, t: Term, allowed: set<Term>, r: Rung)
    requires p.Valid()
    ensures
      JudgedIn(p, t, allowed, r) ==>
        var a, f := Assess(p, t, allowed), p.fits[r];
        && BestRungFor(p, t, allowed) == Some(r)
        && (a.status.Identified? <==> Resolves(p, t) && Precise(f.coeffs[t], f.ci[t]))
        && (a.status.Rejected? <==> Resolves(p, t) && f.ci[t].Some? && f.ci[t].value.hi < 0.0)
        && a.coefficient == (if a.status.Identified? then Some(f.coeffs[t]) else None)
        && a.ci == f.ci[t]
    ensures
      !Admits(p, t, allowed, r) || BestRungFor(p, t, allowed).Some?
    ensures
      BestRungFor(p, t, allowed).Some? ==> JudgedIn(p, t, allowed, BestRungFor(p, t, allowed).value)
    ensures
      BestRungFor(p, t, allowed).None? ==>
        var a := Assess(p, t, allowed);
        && a.status.NotIdentified? && a.coefficient.None? && a.ci.None?
        && (a.reason == NoLeverage(t) <==> !Resolves(p, t))
  {
    hide Lattice, Explains, Candidate, Admits, BestRungFor;
    BestIsJudgedIn(p, t, allowed, r);
    ResolvesIff(p, t);
    hide JudgedIn, Resolves;
    var best := BestRungFor(p, t, allowed);
    if best.Some? { AdmitsIff(p, t, allowed, best.value); }
  }

  // The search finds the rung to judge in, whenever one is admitted.
  lemma BestIsJudgedIn(p: Problem, t: Term, allowed: set<Term>, r: Rung)
    requires p.Valid()
    ensures Admits(p, t, allowed, r) ==> BestRungFor(p, t, allowed).Some?
    ensures BestRungFor(p, t, allowed).Some? ==>
      JudgedIn(p, t, allowed, BestRungFor(p, t, allowed).value) && Candidate(p, t, allowed, BestRungFor(p, t, allowed).value)
    ensures JudgedIn(p, t, allowed, r) ==> BestRungFor(p, t, allowed) == Some(r)
  {
    hide Lattice, Explains, Candidate, Admits;
    forall q: Rung ensures Admits(p, t, allowed, q) <==> Candidate(p, t, allowed, q) { AdmitsIff(p, t, allowed, q); }
    InRungs(p, t, allowed);
    var best := BestRungFor(p, t, allowed);
    if best.Some? { BeforeTotal(r, best.value); }
  }

  lemma InRungs(p: Problem, t: Term, allowed: set<Term>)
    ensures forall q :: Candidate(p, t, allowed, q) ==> q in p.Rungs()
  {
    hide Lattice;
  }

  lemma AdmitsIff(p: Problem, t: Term, allowed: set<Term>, q: Rung)
    requires p.Valid()
    ensures Admits(p, t, allowed, q) <==> Candidate(p, t, allowed, q)
    ensures Candidate(p, t, allowed, q) ==> t in p.fits[q].coeffs && t in p.fits[q].ci
  {
    hide Lattice;
    assert q <= allowed + {Output} <==> forall u :: u in q ==> u == Output || u in allowed;
  }

  // A term that no rung admits is put down to the full rung being unusable; that some rung holds
  // it is certain, since the design resolves no term outside the lattice.
  lemma FullRungIsBlamed(p: Problem, t: Term, allowed: set<Term>)
    requires p.Valid() && BestRungFor(p, t, allowed).None? && Resolves(p, t)
    ensures Assess(p, t, allowed).reason
            == RungUnusable(if p.hasImage then {Output, Intercept, Input, Image} else {Output, Intercept, Input})
  {
    ResolvesIff(p, t);
    LargestHolding(p, t);
    hide BestRungFor, Resolves, Lattice, Before, LexLess, MaxRung, Containing;
  }

  function FullRung(hasImage: bool): Rung {
    if hasImage then {Output, Intercept, Input, Image} else {Output, Intercept, Input}
  }

  lemma LargestHolding(p: Problem, t: Term)
    requires t == Image ==> p.hasImage
    ensures Containing(p.Rungs(), t) != [] && MaxRung(Containing(p.Rungs(), t)) == FullRung(p.hasImage)
  {
    var full, held := FullRung(p.hasImage), Containing(p.Rungs(), t);
    ContainingIff(p.Rungs(), t);
    FullIsInLattice(p, t);
    hide Lattice, LexLess, RungName, Containing, FullRung;
    assert full in held;
    SubsetSize(MaxRung(held), full);
  }

  lemma FullIsInLattice(p: Problem, t: Term)
    requires t == Image ==> p.hasImage
    ensures FullRung(p.hasImage) in p.Rungs() && t in FullRung(p.hasImage)
    ensures forall q :: q in p.Rungs() ==> q <= FullRung(p.hasImage)
  {
    hide Lattice;
  }

  lemma {:induction false} ContainingIff(rs: seq<Rung>, t: Term)
    ensures forall r :: r in Containing(rs, t) <==> r in rs && t in r
  {
    if rs != [] {
      ContainingIff(rs[1..], t);
      assert forall r :: r in rs <==> r == rs[0] || r in rs[1..];
    }
  }

  lemma SubsetSize(a: set<Term>, b: set<Term>)
    requires a <= b
    ensures a == b || |a| < |b|
  {
    var rest := b - a;
    assert b == a + rest;
    assert |b| == |a| + |rest|;
  }

  // Under three rows, or without a positive idle figure, nothing is published and every axis is
  // left open for that one reason; otherwise the search decides.
  lemma RefusedOutright(p: Problem, idleWatts: Option<real>, t: Term)
    requires p.Valid()
    ensures
      if p.rows <= 2 || idleWatts.None? || idleWatts.value <= 0.0 then
        var why := if p.rows <= 2 then TooFewRows else if idleWatts.None? then NoIdleMeasurement else IdleNotPositive;
        var fit := Outcome(p, idleWatts);
        && fit.publishedRung == {Output} && !fit.active && fit.rejectionReasons == [why]
        && t in fit.coeff && fit.coeff[t] == None && t in fit.ci && fit.ci[t] == None
        && t in fit.status && fit.status[t] == NotIdentified && t in fit.nullReasons && fit.nullReasons[t] == why
        && fit.r2 == Finite(0.0) && fit.cond == NonFinite && fit.marginal == None
        && fit.unpublishedRejections == [] && fit.judgedOn == map[]
      else Outcome(p, idleWatts) == Verdict(p)
  {
    hide Verdict;
    AxesAreTerms(t);
  }

  // The terms pruning starts from are those the design resolves.
  lemma ResolvesIff(p: Problem, t: Term)
    ensures Resolves(p, t) <==> t == Output || t in p.LeverageOk()
  {
  }

  // ---------- the pruning rounds ----------

  lemma BestRungMonotone(p: Problem, t: Term, small: set<Term>, large: set<Term>)
    requires small <= large
    ensures BestRungFor(p, t, small).Some? ==> BestRungFor(p, t, large).Some?
  {
    hide Before, Lattice;
    if BestRungFor(p, t, small).Some? {
      assert Candidate(p, t, large, BestRungFor(p, t, small).value);
    }
  }

  // The successive `allowed` sets of the rounds.
  function Rounds(p: Problem, allowed: set<Term>): seq<set<Term>>
    requires p.Valid()
    decreases allowed
  {
    match PruneChoice(p, allowed)
    case None => [allowed]
    case Some(t) =>
      PruneChoiceIsWorst(p, allowed);
      [allowed] + Rounds(p, allowed - {t})
  }

  // One round: exactly one term goes; it was blind when judged that round, the output slope
  // keeps a usable rung without it, and every blind term ranked worse is load-bearing.
  ghost predicate RoundStep(p: Problem, before: set<Term>, after: set<Term>)
    requires p.Valid()
  {
    exists t ::
      && t in before && after == before - {t}
      && Blind(p, before, t) && Prunable(p, before, t)
      && forall q :: Blind(p, before, q) && q != t && Vaguer(p, before, q, t) ==> !Prunable(p, before, q)
  }

  // How wide the interval is for its estimate in the rung the term is judged in; nothing when the
  // term has no rung, no interval or no estimate but zero.
  function Vagueness(p: Problem, allowed: set<Term>, t: Term): Option<real>
    requires p.Valid()
  {
    match BestRungFor(p, t, allowed)
    case None => None
    case Some(r) =>
      var v, ci := p.fits[r].coeffs[t], p.fits[r].ci[t];
      if ci.None? || v == 0.0 then None else Some((ci.value.hi - ci.value.lo) / if v > 0.0 then v else -v)
  }

  // q is known less well than t: not at all when t is, or less precisely; equally well, the
  // intercept comes first, then input, output and image.
  ghost predicate Vaguer(p: Problem, allowed: set<Term>, q: Term, t: Term)
    requires p.Valid()
  {
    var a, b := Vagueness(p, allowed, q), Vagueness(p, allowed, t);
    || (a.None? && b.Some?)
    || (a.Some? && b.Some? && a.value > b.value)
    || (a == b && match t
                  case Intercept => false
                  case Input => q == Intercept
                  case Output => q == Intercept || q == Input
                  case Image => q != Image)
  }

  lemma VaguerIff(p: Problem, allowed: set<Term>, q: Term, t: Term)
    requires p.Valid()
    ensures Vaguer(p, allowed, q, t) <==> WorseThan(AssessAll(p, allowed), q, t)
  {
    hide Vagueness, Assess, LexLess, AxisName, BestRungFor, AssessAll;
    LeverageIs(p, allowed, q);
    LeverageIs(p, allowed, t);
    NameOrder(q, t);
  }

  lemma LeverageIs(p: Problem, allowed: set<Term>, t: Term)
    requires p.Valid()
    ensures
      var v, leverage := Vagueness(p, allowed, t), Assess(p, t, allowed).leverage;
      if v.Some? then leverage == Some(v.value / 2.0) else leverage == None
  {
    hide BestRungFor, Lattice, AxisStatus;
    if BestRungFor(p, t, allowed).Some? {
      var r := BestRungFor(p, t, allowed).value;
      AdmitsIff(p, t, allowed, r);
      HalfWidthOf(p.fits[r].coeffs[t], p.fits[r].ci[t], t == Output || t in p.LeverageOk(), NoLeverage(t));
    }
  }

  lemma HalfWidthOf(v: real, ci: Option<Interval>, resolved: bool, reason: Reason)
    ensures
      AxisStatus(Some(v), ci, resolved, reason).leverage
      == if ci.None? || v == 0.0 then None
         else Some((ci.value.hi - ci.value.lo) / (if v > 0.0 then v else -v) / 2.0)
  {
    if ci.Some? && v != 0.0 { HalfOfQuotient(ci.value.hi - ci.value.lo, if v > 0.0 then v else -v); }
  }

  lemma HalfOfQuotient(w: real, a: real)
    requires a != 0.0
    ensures (w / 2.0) / a == (w / a) / 2.0
  {
    assert ((w / a) / 2.0) * a == w / 2.0;
  }

  lemma NameOrder(q: Term, t: Term)
    ensures
      LexLess(AxisName(q), AxisName(t)) <==>
        match t
        case Intercept => false
        case Input => q == Intercept
        case Output => q == Intercept || q == Input
        case Image => q != Image
  {
    hide LexLess;
    NamesInOrder();
    LexTrichotomy(AxisName(q), AxisName(t));
    LexTrichotomy(AxisName(q), AxisName(q));
    hide AxisName;
  }

  lemma NamesInOrder()
    ensures LexLess(AxisName(Intercept), AxisName(Input)) && LexLess(AxisName(Intercept), AxisName(Output))
    ensures LexLess(AxisName(Intercept), AxisName(Image)) && LexLess(AxisName(Input), AxisName(Output))
    ensures LexLess(AxisName(Input), AxisName(Image)) && LexLess(AxisName(Output), AxisName(Image))
  {
    hide LexLess;
    forall t | t != Intercept ensures LexLess(AxisName(Intercept), AxisName(t)) {
      FirstDifference(AxisName(Intercept), AxisName(t), 0);
    }
    FirstDifference("wh_per_1k_input", "wh_per_1k_output", 10);
    FirstDifference("wh_per_1k_input", "wh_per_image", 7);
    FirstDifference("wh_per_1k_output", "wh_per_image", 7);
  }

  lemma FirstDifference(a: string, b: string, k: nat)
    requires k < |a| && k < |b| && a[..k] == b[..k] && a[k] < b[k]
    ensures LexLess(a, b)
  {
    hide LexLess;
    LexLessIff(a, b);
  }

  lemma {:induction false} RoundsFollowTheRule(p: Problem, allowed: set<Term>)
    requires p.Valid()
    ensures var rs := Rounds(p, allowed);
      && 1 <= |rs| <= |allowed| + 1
      && rs[0] == allowed && rs[|rs| - 1] == FinalAllowed(p, allowed)
      && forall i :: 0 <= i < |rs| - 1 ==> RoundStep(p, rs[i], rs[i + 1])
    decreases allowed
  {
    hide Before, Candidate, Assess, Prunable, Blind, Lattice, WorseThan, RoundStep;
    PruneChoiceIsWorst(p, allowed);
    PruneStep(p, allowed, map[]);
    var choice := PruneChoice(p, allowed);
    if choice.Some? {
      var rest := Rounds(p, allowed - {choice.value});
      RoundsFollowTheRule(p, allowed - {choice.value});
      RoundStepHolds(p, allowed);
      var rs := Rounds(p, allowed);
      assert rs == [allowed] + rest;
      forall i | 0 <= i < |rs| - 1 ensures RoundStep(p, rs[i], rs[i + 1]) {
        if 0 < i { assert rs[i] == rest[i - 1] && rs[i + 1] == rest[i]; }
      }
    }
  }

  lemma RoundStepHolds(p: Problem, allowed: set<Term>)
    requires p.Valid() && PruneChoice(p, allowed).Some?
    ensures RoundStep(p, allowed, allowed - {PruneChoice(p, allowed).value})
  {
    hide Before, Candidate, Assess, Prunable, Lattice, WorseThan, PruneChoice, Vaguer;
    PruneChoiceIsWorst(p, allowed);
    forall q, t ensures Vaguer(p, allowed, q, t) <==> WorseThan(AssessAll(p, allowed), q, t) { VaguerIff(p, allowed, q, t); }
  }

  // The rounds end with nothing left to prune, having only removed terms, and the output
  // slope has a usable rung at the end exactly when it had one at the start.
  lemma {:induction false} FinalAllowedIsStable(p: Problem, allowed: set<Term>)
    requires p.Valid()
    ensures var final := FinalAllowed(p, allowed);
      && final <= allowed
      && PruneChoice(p, final).None?
      && (BestRungFor(p, Output, final).Some? <==> BestRungFor(p, Output, allowed).Some?)
    decreases allowed
  {
    hide Before, Candidate, Assess, Blind, Lattice, WorseThan;
    PruneChoiceIsWorst(p, allowed);
    PruneStep(p, allowed, map[]);
    var choice := PruneChoice(p, allowed);
    if choice.Some? {
      FinalAllowedIsStable(p, allowed - {choice.value});
      BestRungMonotone(p, Output, allowed - {choice.value}, allowed);
    }
  }

  // A blind term that survives is load-bearing: without it no usable model is left.
  lemma SurvivingBlindTermIsLoadBearing(p: Problem, allowed: set<Term>, t: Term)
    requires p.Valid() && Blind(p, FinalAllowed(p, allowed), t)
    ensures BestRungFor(p, Output, FinalAllowed(p, allowed) - {t}).None?
  {
    hide Before, Candidate, Assess, Blind, Lattice, WorseThan;
    FinalAllowedIsStable(p, allowed);
    PruneChoiceIsWorst(p, FinalAllowed(p, allowed));
  }

  // The recorded verdicts: a pruned term keeps a blind verdict, a surviving one the last.
  lemma {:induction false} VerdictsRecorded(p: Problem, allowed: set<Term>, earlier: map<Term, AxisFit>, t: Term)
    requires p.Valid()
    ensures var v := Verdicts(p, allowed, earlier);
      var final := FinalAllowed(p, allowed);
      if t in final then t in v && v[t] == Assess(p, t, final)
      else if t in allowed then t in v && v[t].status.NotIdentified?
      else (t in v <==> t in earlier) && (t in v ==> v[t] == earlier[t])
    decreases allowed
  {
    hide Before, Candidate, Assess, Prunable, Lattice, WorseThan, PruneChoice, FinalAllowed, Verdicts;
    PruneChoiceIsWorst(p, allowed);
    PruneStep(p, allowed, earlier);
    FinalAllowedIsStable(p, allowed);
    var choice := PruneChoice(p, allowed);
    if choice.Some? {
      VerdictsRecorded(p, allowed - {choice.value}, Record(p, allowed, earlier), t);
    }
  }

  // A term outside `allowed` has no admissible rung, so it is never identified nor rejected.
  lemma OutsideAllowedIsBlind(p: Problem, t: Term, allowed: set<Term>)
    requires p.Valid() && t != Output && t !in allowed
    ensures BestRungFor(p, t, allowed).None?
    ensures Assess(p, t, allowed).status.NotIdentified? && Assess(p, t, allowed).ci.None?
  {
    hide Before, Lattice;
  }

  // The verdict recorded for a term that went is that of the last round that held it.
  lemma {:induction false} LastSight(p: Problem, allowed: set<Term>, earlier: map<Term, AxisFit>, t: Term, i: int)
    requires p.Valid() && 0 <= i < |Rounds(p, allowed)| - 1
    requires t in Rounds(p, allowed)[i] && t !in Rounds(p, allowed)[i + 1]
    ensures t in Verdicts(p, allowed, earlier)
    ensures Verdicts(p, allowed, earlier)[t] == Assess(p, t, Rounds(p, allowed)[i])
    decreases allowed
  {
    hide Before, Candidate, Assess, Prunable, Lattice, WorseThan, PruneChoice, FinalAllowed, Verdicts;
    PruneChoiceIsWorst(p, allowed);
    PruneStep(p, allowed, earlier);
    var choice := PruneChoice(p, allowed);
    if choice.Some? {
      var smaller := allowed - {choice.value};
      var rs := Rounds(p, allowed);
      assert rs == [allowed] + Rounds(p, smaller);
      RoundsFollowTheRule(p, smaller);
      if i == 0 {
        VerdictsRecorded(p, smaller, Record(p, allowed, earlier), t);
        FinalAllowedIsStable(p, smaller);
      } else {
        LastSight(p, smaller, Record(p, allowed, earlier), t, i - 1);
      }
    }
  }

  // A pruned term ends with what the last round that held it could see of it, its interval and
  // its reason; where that round saw no interval, with what the final model says.
  lemma PrunedKeepsLastSight(p: Problem, t: Term, i: int)
    requires p.Valid() && 0 <= i < |Rounds(p, p.LeverageOk())| - 1
    requires t in Rounds(p, p.LeverageOk())[i] && t !in Rounds(p, p.LeverageOk())[i + 1]
    ensures
      var seen := Assess(p, t, Rounds(p, p.LeverageOk())[i]);
      FinalAxes(p)[t] == if seen.ci.Some? then seen else Assess(p, t, FinalAllowed(p, p.LeverageOk()))
  {
    hide Before, Candidate, Assess, Prunable, Blind, Lattice, WorseThan, Verdicts, Rounds, FinalAllowed;
    var final := FinalAllowed(p, p.LeverageOk());
    LastSight(p, p.LeverageOk(), map[], t, i);
    GoneForGood(p, p.LeverageOk(), t, i);
    OutsideAllowedIsBlind(p, t, final);
  }

  lemma {:induction false} GoneForGood(p: Problem, allowed: set<Term>, t: Term, i: int)
    requires p.Valid() && 0 <= i < |Rounds(p, allowed)| - 1
    requires t in Rounds(p, allowed)[i] && t !in Rounds(p, allowed)[i + 1]
    ensures t !in FinalAllowed(p, allowed)
    ensures Output !in allowed ==> t != Output
    decreases allowed
  {
    hide Before, Candidate, Assess, Prunable, Blind, Lattice, WorseThan, PruneChoice, FinalAllowed;
    PruneChoiceIsWorst(p, allowed);
    PruneStep(p, allowed, map[]);
    var choice := PruneChoice(p, allowed);
    if choice.Some? {
      var smaller := allowed - {choice.value};
      assert Rounds(p, allowed) == [allowed] + Rounds(p, smaller);
      RoundsFollowTheRule(p, smaller);
      FinalAllowedIsStable(p, smaller);
      if i > 0 { GoneForGood(p, smaller, t, i - 1); }
    }
  }

  // The axes as published: survivors and the output slope carry their verdict in the final
  // model; every term pruned on the way, or never resolvable, ends not identified.
  lemma FinalAxisStatus(p: Problem, t: Term)
    requires p.Valid()
    ensures var final := FinalAllowed(p, p.LeverageOk());
      && (t == Output || t in final ==> FinalAxes(p)[t] == Assess(p, t, final))
      && (t != Output && t !in final ==> FinalAxes(p)[t].status.NotIdentified?)
  {
    hide Before, Candidate, Assess, Prunable, Blind, Lattice, WorseThan, PruneChoice, FinalAllowed, Verdicts;
    var final := FinalAllowed(p, p.LeverageOk());
    VerdictsRecorded(p, p.LeverageOk(), map[], t);
    FinalAllowedIsStable(p, p.LeverageOk());
    if t != Output && t !in final { OutsideAllowedIsBlind(p, t, final); }
  }

  // ---------- the published rung ----------

  // Every published axis was judged on the rung its number was read from.
  ghost predicate JudgedWherePublished(fit: Fit)
    requires forall t: Term :: t in fit.coeff
  {
    forall t :: fit.coeff[t].Some? ==> t in fit.judgedOn && fit.judgedOn[t] == fit.publishedRung
  }

  // The largest candidate for the output slope is the largest for every term it contains.
  lemma OutputRungServesItsTerms(p: Problem, allowed: set<Term>, t: Term)
    requires BestRungFor(p, Output, allowed).Some? && t in BestRungFor(p, Output, allowed).value
    ensures BestRungFor(p, t, allowed) == BestRungFor(p, Output, allowed)
  {
    hide Before, Lattice;
    var top := BestRungFor(p, Output, allowed).value;
    assert Candidate(p, t, allowed, top);
    var best := BestRungFor(p, t, allowed).value;
    assert Candidate(p, Output, allowed, best);
    BeforeTotal(best, top);
  }

  // An all-identified usable rung lives inside the final model.
  lemma PublishableIsCandidate(p: Problem, r: Rung)
    requires p.Valid() && r in p.Rungs() && Publishable(p, FinalAxes(p), r)
    ensures Candidate(p, Output, FinalAllowed(p, p.LeverageOk()), r)
  {
    hide Before, Assess, Prunable, Blind, Lattice, WorseThan;
    var final := FinalAllowed(p, p.LeverageOk());
    forall t | t in r ensures t in final + {Output} { FinalAxisStatus(p, t); }
  }

  // With an all-identified rung to choose, no blind term survives: it would be load-bearing.
  lemma ChosenLeavesNoBlindTerm(p: Problem, t: Term)
    requires p.Valid() && Chosen(p, FinalAxes(p)).Some?
    ensures !Blind(p, FinalAllowed(p, p.LeverageOk()), t)
  {
    hide Before, Assess, Prunable, Lattice, WorseThan;
    var final := FinalAllowed(p, p.LeverageOk());
    ChosenIsLargest(p, FinalAxes(p));
    var r := Chosen(p, FinalAxes(p)).value;
    PublishableIsCandidate(p, r);
    if Blind(p, final, t) {
      FinalAxisStatus(p, t);
      assert Candidate(p, Output, final - {t}, r);
      SurvivingBlindTermIsLoadBearing(p, p.LeverageOk(), t);
    }
  }

  // No term of the rung the output slope was judged in came back rejected.
  ghost predicate NoneRejectedWithOutput(fit: Fit)
    requires forall t: Term :: t in fit.status
  {
    Output in fit.judgedOn ==>
      forall t :: t in fit.judgedOn[Output] ==> !fit.status[t].Rejected?
  }

  // Wholly below zero: the sign no energy coefficient can have.
  predicate Impossible(ci: Option<Interval>) { ci.Some? && ci.value.hi < 0.0 }

  // On the table of rung fits: in the rung the output slope is judged in, no interval lies
  // wholly below zero.
  predicate OutputJudgedCleanly(p: Problem)
    requires p.Valid()
  {
    var best := BestRungFor(p, Output, FinalAllowed(p, p.LeverageOk()));
    best.Some? ==> forall t :: t in best.value ==> !Impossible(p.fits[best.value].ci[t])
  }

  lemma JudgedCleanlyIff(p: Problem)
    requires p.Valid()
    ensures forall t :: t in Verdict(p).status
    ensures NoneRejectedWithOutput(Verdict(p)) <==> OutputJudgedCleanly(p)
  {
    hide Before, Assess, Prunable, Blind, Lattice, WorseThan, FinalAxes, FinalAllowed, Verdict;
    forall t: Term ensures t in Verdict(p).status { VerdictFields(p, t); }
    VerdictFields(p, Output);
    var best := BestRungFor(p, Output, FinalAllowed(p, p.LeverageOk()));
    if best.Some? {
      forall t | t in best.value
        ensures Verdict(p).status[t].Rejected? <==> Impossible(p.fits[best.value].ci[t])
      {
        RejectedWithOutputIff(p, t);
      }
    }
  }

  // A term of that rung is rejected exactly when its interval there lies wholly below zero.
  lemma RejectedWithOutputIff(p: Problem, t: Term)
    requires p.Valid()
    requires
      var best := BestRungFor(p, Output, FinalAllowed(p, p.LeverageOk()));
      best.Some? && t in best.value
    ensures
      var best := BestRungFor(p, Output, FinalAllowed(p, p.LeverageOk())).value;
      && t in Verdict(p).status
      && (Verdict(p).status[t].Rejected? <==> Impossible(p.fits[best].ci[t]))
  {
    hide Before, Prunable, Blind, Lattice, WorseThan, FinalAxes, FinalAllowed, Verdict, BestRungFor, Assess, Impossible;
    var final := FinalAllowed(p, p.LeverageOk());
    VerdictFields(p, t);
    FinalAllowedIsStable(p, p.LeverageOk());
    OutputRungServesItsTerms(p, final, t);
    FinalAxisStatus(p, t);
    ImpossibleIsRejected(p, t, final);
  }

  lemma ImpossibleIsRejected(p: Problem, t: Term, allowed: set<Term>)
    requires p.Valid() && BestRungFor(p, t, allowed).Some? && allowed <= p.LeverageOk()
    ensures
      var best := BestRungFor(p, t, allowed).value;
      && best in p.fits && t in p.fits[best].ci
      && (t == Output || t in allowed ==> (Assess(p, t, allowed).status.Rejected? <==> Impossible(p.fits[best].ci[t])))
  {
    hide Before, Lattice;
  }

  // What the verdict says, field by field, in terms of the final model.
  lemma VerdictFields(p: Problem, t: Term)
    requires p.Valid()
    ensures var v := Verdict(p);
      && t in v.coeff && t in v.status && t in v.ci
      && v.publishedRung == PublishedRung(p) && v.publishedRung in p.Rungs()
      && v.status[t] == FinalAxes(p)[t].status
      && v.judgedOn == JudgedOn(p, FinalAllowed(p, p.LeverageOk()))
      && v.coeff[t] == (if t in PublishedTerms(p) && v.status[t].Identified? && t in v.publishedRung
                        then Some(p.fits[v.publishedRung].coeffs[t]) else None)
      && (t in PublishedTerms(p) && t in v.publishedRung ==> v.ci[t] == p.fits[v.publishedRung].ci[t])
      && v.marginal == v.coeff[Output]
  {
    hide Before, Candidate, Assess, Prunable, Blind, Lattice, WorseThan, FinalAxes, PublishedRung, PublishedTerms, JudgedOn, FinalAllowed;
    AxesAreTerms(t);
    AxesAreTerms(Output);
    PublishedRungInLattice(p);
  }

  lemma ChosenCandidate(p: Problem)
    requires p.Valid() && Chosen(p, FinalAxes(p)).Some?
    ensures var c := Chosen(p, FinalAxes(p)).value;
      && c in p.Rungs() && Publishable(p, FinalAxes(p), c)
      && Candidate(p, Output, FinalAllowed(p, p.LeverageOk()), c)
      && BestRungFor(p, Output, FinalAllowed(p, p.LeverageOk())).Some?
  {
    hide Before, Assess, Prunable, Blind, Lattice, WorseThan, FinalAllowed;
    ChosenIsLargest(p, FinalAxes(p));
    PublishableIsCandidate(p, Chosen(p, FinalAxes(p)).value);
  }

  // Choosing the rung the output slope was judged in, unless that rung holds a rejected term.
  lemma ChosenIsOutputRung(p: Problem)
    requires p.Valid() && Chosen(p, FinalAxes(p)).Some?
    ensures var final := FinalAllowed(p, p.LeverageOk());
      && BestRungFor(p, Output, final).Some?
      && (Chosen(p, FinalAxes(p)) == BestRungFor(p, Output, final) <==>
          forall t :: t in BestRungFor(p, Output, final).value ==> !FinalAxes(p)[t].status.Rejected?)
  {
    hide Before, Assess, Prunable, Lattice, WorseThan, FinalAllowed, FinalAxes;
    var final := FinalAllowed(p, p.LeverageOk());
    ChosenCandidate(p);
    var c := Chosen(p, FinalAxes(p)).value;
    var best := BestRungFor(p, Output, final).value;
    if forall t :: t in best ==> !FinalAxes(p)[t].status.Rejected? {
      forall t | t in best ensures FinalAxes(p)[t].status.Identified? {
        FinalAxisStatus(p, t);
        ChosenLeavesNoBlindTerm(p, t);
        if t == Output { assert t in c; }
      }
      ChosenIsLargest(p, FinalAxes(p));
      assert Publishable(p, FinalAxes(p), best);
      BeforeTotal(c, best);
    }
  }

  /**
   Published numbers come from the rung they were judged on exactly when the fallback branch is
   taken or, in the rung the output slope is judged in, no interval lies wholly below zero.
   */
  lemma PublishedWhereJudgedIff(p: Problem)
    requires p.Valid()
    ensures forall t :: t in Verdict(p).coeff && t in Verdict(p).status
    ensures JudgedWherePublished(Verdict(p)) <==> Chosen(p, FinalAxes(p)).None? || OutputJudgedCleanly(p)
  {
    hide Before, Candidate, Assess, Prunable, Blind, Lattice, WorseThan, FinalAxes, FinalAllowed, Verdict;
    forall t: Term ensures t in Verdict(p).coeff && t in Verdict(p).status { VerdictFields(p, t); }
    JudgedCleanlyIff(p);
    if Chosen(p, FinalAxes(p)).None? {
      FallbackPublishesWhereJudged(p);
    } else {
      ChosenPublishesWhereJudged(p);
    }
  }

  // A check on the table alone: with no interval of any rung wholly below zero, they always do.
  lemma PossibleSignsSuffice(p: Problem)
    requires p.Valid()
    requires forall r, t :: r in p.Rungs() && t in r ==> !Impossible(p.fits[r].ci[t])
    ensures forall t :: t in Verdict(p).coeff
    ensures JudgedWherePublished(Verdict(p))
  {
    hide Before, Assess, Prunable, Blind, Lattice, WorseThan, FinalAxes, FinalAllowed, Verdict;
    PublishedWhereJudgedIff(p);
  }

  lemma FallbackPublishesWhereJudged(p: Problem)
    requires p.Valid() && Chosen(p, FinalAxes(p)).None?
    ensures forall t :: t in Verdict(p).coeff
    ensures JudgedWherePublished(Verdict(p))
  {
    hide Before, Candidate, Prunable, Blind, Lattice, WorseThan, FinalAxes, FinalAllowed, Verdict;
    forall t: Term ensures t in Verdict(p).coeff { VerdictFields(p, t); }
    var v := Verdict(p);
    var final := FinalAllowed(p, p.LeverageOk());
    forall t | v.coeff[t].Some? ensures t in v.judgedOn && v.judgedOn[t] == v.publishedRung {
      VerdictFields(p, t);
      if Output in v.judgedOn {
        OutputRungServesItsTerms(p, final, t);
      } else {
        FinalAxisStatus(p, Output);
      }
    }
  }

  lemma ChosenPublishesWhereJudged(p: Problem)
    requires p.Valid() && Chosen(p, FinalAxes(p)).Some?
    ensures forall t :: t in Verdict(p).coeff && t in Verdict(p).status
    ensures JudgedWherePublished(Verdict(p)) <==> NoneRejectedWithOutput(Verdict(p))
  {
    hide Before, Candidate, Assess, Prunable, Blind, Lattice, WorseThan, FinalAxes, FinalAllowed, Verdict, JudgedOn, BestRungFor, Chosen;
    forall t: Term ensures t in Verdict(p).coeff && t in Verdict(p).status { VerdictFields(p, t); }
    var v := Verdict(p);
    var final := FinalAllowed(p, p.LeverageOk());
    ChosenIsOutputRung(p);
    ChosenCandidate(p);
    var c := Chosen(p, FinalAxes(p)).value;
    VerdictFields(p, Output);
    assert v.publishedRung == c && Output in v.judgedOn;
    assert v.coeff[Output].Some? by { assert Output in c; }
    forall t ensures v.status[t] == FinalAxes(p)[t].status { VerdictFields(p, t); }
    if v.judgedOn[Output] == c {
      forall t | v.coeff[t].Some? ensures t in v.judgedOn && v.judgedOn[t] == c {
        VerdictFields(p, t);
        OutputRungServesItsTerms(p, final, t);
      }
    }
  }

  // No optional axis rejected is enough.
  lemma NoOptionalRejectionSuffices(p: Problem)
    requires p.Valid()
    requires forall t :: t != Output ==> FinalAxes(p)[t].status != Rejected
    ensures forall t :: t in Verdict(p).coeff
    ensures JudgedWherePublished(Verdict(p))
  {
    hide Before, Candidate, Assess, Prunable, Blind, Lattice, WorseThan, FinalAxes, FinalAllowed, Verdict;
    PublishedWhereJudgedIff(p);
    JudgedCleanlyIff(p);
    if Chosen(p, FinalAxes(p)).Some? {
      ChosenCandidate(p);
      forall t ensures Verdict(p).status[t] == FinalAxes(p)[t].status { VerdictFields(p, t); }
      assert Output in Chosen(p, FinalAxes(p)).value;
    }
  }

  // Then every published number carries the very interval that passed the precision gate.
  lemma PublishedIntervalPassedGate(p: Problem, t: Term)
    requires p.Valid()
    requires forall q :: q in Verdict(p).coeff
    requires JudgedWherePublished(Verdict(p)) && Verdict(p).coeff[t].Some?
    ensures t in Verdict(p).ci && Verdict(p).ci[t].Some?
    ensures PassesGate(Verdict(p).coeff[t].value, Verdict(p).ci[t].value)
  {
    hide Before, Candidate, Prunable, Blind, Lattice, WorseThan, FinalAxes, FinalAllowed, Verdict;
    VerdictFields(p, t);
    FinalAxisStatus(p, t);
  }

  /**
   A number is published exactly for the identified terms of the published rung, and it is that
   rung's own estimate with that rung's interval; any other axis keeps the interval it was
   judged on, and an output slope that could not be judged shows that of the bare output rung.
   */
  lemma PublishedIff(p: Problem, t: Term)
    requires p.Valid()
    ensures
      var v := Verdict(p);
      && t in v.coeff && t in v.status && t in v.ci && Output in v.ci
      && (v.coeff[t].Some? <==> t in v.publishedRung && v.status[t].Identified?)
      && v.publishedRung in p.fits
      && (v.coeff[t].Some? ==>
            && t in p.fits[v.publishedRung].coeffs && v.coeff[t] == Some(p.fits[v.publishedRung].coeffs[t])
            && t in p.fits[v.publishedRung].ci && v.ci[t] == p.fits[v.publishedRung].ci[t])
      && (v.coeff[t].None? && (t != Output || Output in v.judgedOn) ==> v.ci[t] == FinalAxes(p)[t].ci)
      && (Output !in v.judgedOn ==>
            v.publishedRung == {Output} && Output in p.fits[v.publishedRung].ci
            && v.ci[Output] == p.fits[v.publishedRung].ci[Output])
  {
    hide Before, Candidate, Assess, Prunable, Blind, Lattice, WorseThan, FinalAxes, FinalAllowed, Verdict;
    VerdictFields(p, t);
    VerdictFields(p, Output);
    IntervalKept(p, t);
    PublishedTermsInRung(p);
    if Chosen(p, FinalAxes(p)).Some? {
      ChosenCandidate(p);
    } else {
      FinalAxisStatus(p, Output);
    }
  }

  lemma IntervalKept(p: Problem, t: Term)
    requires p.Valid()
    ensures t in Verdict(p).ci && (t !in PublishedTerms(p) ==> Verdict(p).ci[t] == FinalAxes(p)[t].ci)
  {
    hide Before, Candidate, Assess, Prunable, Blind, Lattice, WorseThan, FinalAxes, FinalAllowed, JudgedOn;
    AxesAreTerms(t);
    PublishedRungInLattice(p);
  }

  // Which rung that is: with no all-identified rung to choose, the one the output slope was
  // judged on, or the bare output rung when it could not be judged at all.
  lemma FallbackRung(p: Problem)
    requires p.Valid() && forall r :: r in p.Rungs() ==> !Publishable(p, FinalAxes(p), r)
    ensures
      var v := Verdict(p);
      v.publishedRung == if Output in v.judgedOn then v.judgedOn[Output] else {Output}
  {
    hide Before, Candidate, Assess, Prunable, Blind, Lattice, WorseThan, FinalAxes, FinalAllowed, Verdict, Publishable;
    ChosenIsLargest(p, FinalAxes(p));
    VerdictFields(p, Output);
  }

  // And the record is active exactly when that rung holds an identified term and no rejected one.
  lemma ActiveByRungIff(p: Problem)
    requires p.Valid()
    ensures
      var v := Verdict(p);
      && (forall t :: t in v.status)
      && (v.active <==>
            && (exists t :: t in v.publishedRung && v.status[t].Identified?)
            && forall t :: t in v.publishedRung ==> !v.status[t].Rejected?)
  {
    hide Before, Candidate, Assess, Prunable, Blind, Lattice, WorseThan, FinalAxes, FinalAllowed, Verdict, Chosen;
    ActiveIff(p);
    forall t: Term
      ensures t in Verdict(p).coeff && (Verdict(p).coeff[t].Some? <==> t in Verdict(p).publishedRung && Verdict(p).status[t].Identified?)
    {
      PublishedIff(p, t);
    }
  }

  // What else the verdict reports: the quality of the published rung, a reason for every axis
  // not identified and for no other, and the rejected axes outside the rung.
  lemma VerdictReports(p: Problem)
    requires p.Valid()
    ensures
      var v := Verdict(p);
      && v.publishedRung in p.fits && v.r2 == p.fits[v.publishedRung].r2 && v.cond == p.fits[v.publishedRung].cond
      && (forall t :: t in v.status)
      && (forall t :: t in v.nullReasons <==> !v.status[t].Identified?)
      && (forall t :: t in v.unpublishedRejections <==> v.status[t].Rejected? && t !in v.publishedRung)
  {
    hide Before, Candidate, Assess, Prunable, Blind, Lattice, WorseThan, FinalAxes, FinalAllowed, JudgedOn, Chosen;
    forall t: Term ensures t in TERMS && t in AXES { AxesAreTerms(t); }
    PublishedRungInLattice(p);
  }

  /**
   When an all-identified rung exists the record is active, publishes every term of that
   rung, and no usable all-identified rung has more terms.
   */
  lemma ChosenRungIsActiveAndLargest(p: Problem)
    requires p.Valid() && Chosen(p, FinalAxes(p)).Some?
    ensures Verdict(p).active && Verdict(p).rejectionReasons == []
    ensures forall t :: t in Verdict(p).publishedRung ==> t in Verdict(p).coeff && Verdict(p).coeff[t].Some?
    ensures forall r :: r in p.Rungs() && Publishable(p, FinalAxes(p), r) ==> |r| <= |Verdict(p).publishedRung|
  {
    hide Before, Candidate, Assess, Prunable, Blind, Lattice, WorseThan, FinalAxes, FinalAllowed, Verdict, Chosen;
    ChosenCandidate(p);
    ChosenIsLargest(p, FinalAxes(p));
    var v := Verdict(p);
    var c := Chosen(p, FinalAxes(p)).value;
    VerdictFields(p, Output);
    forall t | t in v.publishedRung ensures t in v.coeff && v.coeff[t].Some? { VerdictFields(p, t); }
    ActiveIff(p);
    assert Output in c;
    forall t | t in v.publishedRung ensures t in v.status && v.status[t] != Rejected { VerdictFields(p, t); }
    forall r | r in p.Rungs() && Publishable(p, FinalAxes(p), r) ensures |r| <= |v.publishedRung| {
      LargerRung(r, c);
    }
  }

  lemma LargerRung(r: Rung, c: Rung)
    requires r == c || Before(r, c)
    ensures |r| <= |c|
  {
  }

  // A verdict is active exactly when it publishes an identified axis and no term of the
  // published rung was rejected.
  lemma ActiveIff(p: Problem)
    requires p.Valid()
    ensures var v := Verdict(p);
      && (forall t :: t in v.coeff && t in v.status)
      && (v.active <==> (exists t :: v.coeff[t].Some?) && forall t :: t in v.publishedRung ==> v.status[t] != Rejected)
      && (v.rejectionReasons == [] <==> forall t :: t in v.publishedRung ==> v.status[t] != Rejected)
  {
    hide Before, Candidate, Assess, Prunable, Blind, Lattice, WorseThan, FinalAxes, FinalAllowed, JudgedOn, Chosen,
      Publishable;
    var v := Verdict(p);
    forall t: Term ensures t in v.coeff && t in v.status && t in AXES { VerdictFields(p, t); AxesAreTerms(t); }
    PublishedRungInLattice(p);
    var axes := FinalAxes(p);
    var fatal := RejectedAxes(axes, AXES, v.publishedRung);
    if fatal != [] { assert fatal[0] in fatal; }
    forall t | t in v.publishedRung && v.status[t] == Rejected ensures fatal != [] {
      VerdictFields(p, t);
      assert t in fatal;
    }
    PublishedTermsInRung(p);
    forall t ensures v.coeff[t].Some? <==> t in PublishedTerms(p) && axes[t].status.Identified? {
      VerdictFields(p, t);
    }
  }

  lemma PublishedTermsInRung(p: Problem)
    requires p.Valid()
    ensures PublishedTerms(p) <= PublishedRung(p)
  {
    hide Before, Candidate, Assess, Prunable, Blind, Lattice, WorseThan, FinalAxes, FinalAllowed, JudgedOn, Chosen;
  }

  // ---------- a rejected optional axis breaks the link ----------

  const TIGHT: Interval := Interval(0.95, 1.05)
  const BELOW_ZERO: Interval := Interval(-1.05, -0.95)
  const WIDE: Interval := Interval(0.7, 1.3)

  // Two optional terms, input confidently negative in the full model, which explains the rows
  // better than any other; without it the output slope is known only to +/-30%.
  function RejectedInputExample(): Problem {
    var o: Rung, oc: Rung, oi: Rung, full: Rung :=
      {Output}, {Output, Intercept}, {Output, Input}, {Output, Intercept, Input};
    Problem(8, false, true, false, map[
      o := RungFit(map[Output := 1.0], map[Output := Some(WIDE)], Finite(0.0), Finite(1.0), []),
      oc := RungFit(map[Output := 1.0, Intercept := 1.0], map[Output := Some(WIDE), Intercept := Some(WIDE)],
                    Finite(0.9), Finite(1.0), []),
      oi := RungFit(map[Output := 1.0, Input := 1.0], map[Output := Some(WIDE), Input := Some(WIDE)],
                    Finite(0.0), Finite(1.0), []),
      full := RungFit(map[Output := 1.0, Intercept := 1.0, Input := -1.0],
                      map[Output := Some(TIGHT), Intercept := Some(TIGHT), Input := Some(BELOW_ZERO)],
                      Finite(0.99), Finite(1.0), [])])
  }

  lemma ExampleRungs(r: Rung)
    ensures r in RejectedInputExample().Rungs() <==>
            r == {Output} || r == {Output, Intercept} || r == {Output, Input} || r == {Output, Intercept, Input}
  {
    var optional := Optional(false);
    assert forall t :: t in optional <==> t == Intercept || t == Input;
    if r in RejectedInputExample().Rungs() {
      assert Image !in r;
      if Intercept in r && Input in r { assert r == {Output, Intercept, Input}; }
      else if Intercept in r { assert r == {Output, Intercept}; }
      else if Input in r { assert r == {Output, Input}; }
      else { assert r == {Output}; }
    }
  }

  lemma ExampleIsValid()
    ensures RejectedInputExample().Valid()
  {
    hide Before, Lattice;
    var p := RejectedInputExample();
    forall r | r in p.Rungs() ensures r in p.fits && p.fits[r].coeffs.Keys == r && p.fits[r].ci.Keys == r {
      ExampleRungs(r);
    }
  }

  lemma FullRungIsLargest(best: Rung)
    requires best == {Output} || best == {Output, Intercept} || best == {Output, Input} || best == {Output, Intercept, Input}
    ensures !Before({Output, Intercept, Input}, best)
  {
    BeforeTotal({Output, Intercept, Input}, best);
  }

  lemma ExampleJudged(t: Term)
    requires t != Image
    ensures BestRungFor(RejectedInputExample(), t, {Intercept, Input}) == Some({Output, Intercept, Input})
  {
    hide Before, Lattice;
    var p := RejectedInputExample();
    ExampleIsValid();
    var full: Rung := {Output, Intercept, Input};
    ExampleRungs(full);
    assert Candidate(p, t, {Intercept, Input}, full);
    var best := BestRungFor(p, t, {Intercept, Input}).value;
    ExampleRungs(best);
    FullRungIsLargest(best);
  }

  lemma ExampleStatus(t: Term)
    requires t != Image
    ensures RejectedInputExample().Valid()
    ensures Assess(RejectedInputExample(), t, {Intercept, Input}).status
            == if t == Input then Rejected else Identified
  {
    hide Before, Lattice, BestRungFor, Candidate;
    var p := RejectedInputExample();
    ExampleIsValid();
    ExampleJudged(t);
    assert t == Output || t in p.LeverageOk();
    var full: Rung := {Output, Intercept, Input};
    assert p.fits[full].coeffs[t] == if t == Input then -1.0 else 1.0;
    assert p.fits[full].ci[t] == Some(if t == Input then BELOW_ZERO else TIGHT);
    GatePassedByTight();
  }

  lemma GatePassedByTight()
    ensures PassesGate(1.0, TIGHT) && !PassesGate(-1.0, BELOW_ZERO) && !PassesGate(1.0, WIDE)
  {
  }

  lemma ExampleSettlesAtOnce()
    ensures RejectedInputExample().Valid()
    ensures var p := RejectedInputExample();
      FinalAllowed(p, p.LeverageOk()) == {Intercept, Input} == p.LeverageOk()
  {
    hide Before, Lattice, BestRungFor, Candidate, Assess;
    var p := RejectedInputExample();
    ExampleStatus(Output);
    ExampleStatus(Intercept);
    ExampleStatus(Input);
    assert p.LeverageOk() == {Intercept, Input};
    PruneChoiceIsWorst(p, {Intercept, Input});
  }

  // The record publishes the output slope of a rung it was not judged in, with an interval
  // that fails the precision gate.
  lemma PublishedElsewhereExample()
    ensures RejectedInputExample().Valid()
    ensures var v := Verdict(RejectedInputExample());
      && v.active
      && (forall t :: t in v.coeff && t in v.ci)
      && !JudgedWherePublished(v)
      && v.coeff[Output] == Some(1.0) && v.ci[Output] == Some(WIDE) && !PassesGate(1.0, WIDE)
  {
    hide Before, Lattice, Candidate, Assess, Prunable, Blind, WorseThan, FinalAllowed, FinalAxes, Verdict, Chosen,
      Publishable, RejectedInputExample;
    var p := RejectedInputExample();
    ExampleChosen();
    PublishedWhereJudgedIff(p);
    ExampleJudged(Output);
    GatePassedByTight();
    forall t: Term ensures t in Verdict(p).coeff && t in Verdict(p).ci { VerdictFields(p, t); }
    VerdictFields(p, Output);
    VerdictFields(p, Input);
    assert Input in Verdict(p).judgedOn[Output];
    ChosenRungIsActiveAndLargest(p);
  }

  // Its final statuses, and the rung chosen under them.
  lemma ExampleChosen()
    ensures RejectedInputExample().Valid()
    ensures var p := RejectedInputExample();
      var c: Rung := {Output, Intercept};
      && Chosen(p, FinalAxes(p)) == Some(c)
      && FinalAxes(p)[Output].status == Identified && FinalAxes(p)[Input].status == Rejected
      && FinalAllowed(p, p.LeverageOk()) == {Intercept, Input}
      && p.fits[c].coeffs[Output] == 1.0 && p.fits[c].ci[Output] == Some(WIDE)
  {
    hide Before, Lattice, Candidate, Assess, Prunable, Blind, WorseThan, FinalAllowed, FinalAxes, Chosen, Ordered,
      PruneChoice, BestRungFor;
    var p := RejectedInputExample();
    ExampleSettlesAtOnce();
    ExampleStatus(Output);
    ExampleStatus(Intercept);
    ExampleStatus(Input);
    FinalAxisStatus(p, Output);
    FinalAxisStatus(p, Intercept);
    FinalAxisStatus(p, Input);
    var oc: Rung := {Output, Intercept};
    ExampleRungs(oc);
    assert Publishable(p, FinalAxes(p), oc);
    ChosenIsLargest(p, FinalAxes(p));
    ExampleRungs(Chosen(p, FinalAxes(p)).value);
  }
}
