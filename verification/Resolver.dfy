/**
 Choosing a local calibration for an event, and how far the choice may be trusted.
 Follows _Candidate, _apply_score, _pick_scored and resolve in
 src/vetch/calibration_store.py.
 */
module Resolver {
  import opened Wrappers
  import opened Reals
  import opened Text
  import opened Rungs

  datatype Confidence = Exact | Curated | Proxy

  datatype Calibration = Calibration(
    coeffs: map<Term, Option<real>>,
    tier: int,
    gpuName: Option<string>,
    active: bool,
    confidence: Option<Confidence>)

  datatype Candidate = Candidate(
    result: Calibration,
    provider: string,
    model: string,
    gpu: Option<string>,
    engine: Option<string>,
    precision: Option<string>,
    instanceType: Option<string>,
    visualBudget: Option<int>,
    concurrency: Option<int>,
    timestamp: real,
    gpuKnown: bool,
    fingerprint: Option<nat>,
    powerCap: Option<real>)
  {
    function Tier(): int { result.tier }

    function Identity(): IdentityTuple {
      IdentityTuple(Lower(model), gpu, engine, precision, instanceType, visualBudget, concurrency, fingerprint)
    }
  }

  // What distinguishes one energy coefficient from another.
  datatype IdentityTuple = IdentityTuple(
    model: string,
    gpu: Option<string>,
    engine: Option<string>,
    precision: Option<string>,
    instanceType: Option<string>,
    visualBudget: Option<int>,
    concurrency: Option<int>,
    fingerprint: Option<nat>)

  datatype Hints = Hints(
    gpu: Option<string>,
    engine: Option<string>,
    precision: Option<string>,
    concurrency: Option<int>,
    powerCap: Option<real>)
  {
    predicate AnySet() {
      || (gpu.Some? && !Blank(gpu.value))
      || (engine.Some? && !Blank(engine.value))
      || (precision.Some? && !Blank(precision.value))
      || concurrency.Some? || powerCap.Some?
    }
  }

  // The process environment: which labels are self-hosted, whether hints are trusted, and
  // the GPU alias table.
  datatype Env = Env(selfHosted: set<string>, hintsTrusted: bool, canonicalGpu: string -> Option<string>)

  const CLOUD_PROVIDERS: set<string> := {
    "openai", "anthropic", "bedrock", "azure", "azure-openai", "vertexai", "google", "gemini",
    "cohere", "mistral", "groq", "together", "fireworks", "aws", "gcp", "amazon", "microsoft"}

  predicate IsCloudProvider(provider: string) {
    provider != "" && Lower(provider) in CLOUD_PROVIDERS
  }

  function OrEmpty(s: Option<string>): string {
    match s case Some(v) => v case None => ""
  }

  // math.isclose(a, b, rel_tol=1e-6, abs_tol=0.01)
  predicate CapClose(a: real, b: real) {
    a == b || Abs(b - a) <= Abs(0.000001 * b) || Abs(b - a) <= Abs(0.000001 * a) || Abs(b - a) <= 0.01
  }

  // The candidate's GPU, or its raw name, is the hinted one, or the one the hint is an alias of.
  predicate MeetsGpu(c: Candidate, gpu: Option<string>, env: Env) {
    gpu.Some? ==>
      || Lower(gpu.value) == Lower(OrEmpty(c.gpu))
      || Lower(gpu.value) == Lower(OrEmpty(c.result.gpuName))
      || Lower(OrEmpty(env.canonicalGpu(gpu.value))) == Lower(OrEmpty(c.gpu))
  }

  predicate MatchesHints(c: Candidate, h: Hints, env: Env) {
    && MeetsGpu(c, h.gpu, env)
    && (h.engine.Some? ==> Lower(OrEmpty(c.engine)) == Lower(h.engine.value))
    && (h.precision.Some? ==> Lower(OrEmpty(c.precision)) == Lower(h.precision.value))
    && (h.concurrency.Some? ==> (if c.concurrency.Some? then c.concurrency.value else 1) == h.concurrency.value)
    && (h.powerCap.Some? ==> c.powerCap.Some? && CapClose(c.powerCap.value, h.powerCap.value))
  }

  // The hints that describe a candidate's own serving stack.
  function OwnHints(c: Candidate): Hints {
    Hints(c.gpu, c.engine, c.precision, Some(if c.concurrency.Some? then c.concurrency.value else 1), c.powerCap)
  }

  // A candidate always meets the hints that describe it ...
  lemma OwnHintsMatch(c: Candidate, env: Env)
    ensures MatchesHints(c, OwnHints(c), env)
  {
  }

  // ... and meeting one another's hints works both ways when it does for the GPU, the one
  // dimension with aliases and a raw name; the rest then agree.
  lemma HintsMatchBothWaysIff(c: Candidate, d: Candidate, env: Env)
    requires c.gpu.Some? == d.gpu.Some? && c.engine.Some? == d.engine.Some? && c.precision.Some? == d.precision.Some?
    requires c.powerCap.Some? == d.powerCap.Some?
    ensures
      (MatchesHints(d, OwnHints(c), env) <==> MatchesHints(c, OwnHints(d), env)) <==>
        || !SameButGpu(c, d)
        || (MeetsGpu(d, c.gpu, env) <==> MeetsGpu(c, d.gpu, env))
    ensures MatchesHints(d, OwnHints(c), env) ==> SameButGpu(c, d)
  {
    if c.powerCap.Some? { CapCloseBothWays(c.powerCap.value, d.powerCap.value); }
    hide CapClose;
  }

  // Engine, precision, concurrency and power cap are the same.
  predicate SameButGpu(c: Candidate, d: Candidate) {
    && (c.engine.Some? ==> Lower(c.engine.value) == Lower(OrEmpty(d.engine)))
    && (c.precision.Some? ==> Lower(c.precision.value) == Lower(OrEmpty(d.precision)))
    && OwnHints(c).concurrency == OwnHints(d).concurrency
    && (c.powerCap.Some? && d.powerCap.Some? ==> CapClose(c.powerCap.value, d.powerCap.value))
  }

  lemma CapCloseBothWays(a: real, b: real)
    ensures CapClose(a, b) <==> CapClose(b, a)
  {
    assert Abs(b - a) == Abs(a - b);
  }

  // ---------- scoring ----------

  function Filter(cs: seq<Candidate>, keep: Candidate -> bool): (r: seq<Candidate>)
    ensures forall c :: c in r <==> c in cs && keep(c)
  {
    if cs == [] then []
    else
      assert forall c :: c in cs <==> c == cs[0] || c in cs[1..];
      (if keep(cs[0]) then [cs[0]] else []) + Filter(cs[1..], keep)
  }

  // The order of the sort key (tier, -timestamp).
  predicate Ahead(a: Candidate, b: Candidate) {
    a.Tier() < b.Tier() || (a.Tier() == b.Tier() && a.timestamp > b.timestamp)
  }

  // Head of the stable sort: the first candidate nothing is ahead of.
  function Best(cs: seq<Candidate>): (best: Candidate)
    requires cs != []
    ensures best in cs
    ensures forall c :: c in cs ==> !Ahead(c, best)
  {
    if |cs| == 1 then cs[0]
    else
      var rest := Best(cs[1..]);
      assert forall c :: c in cs <==> c == cs[0] || c in cs[1..];
      if Ahead(rest, cs[0]) then rest else cs[0]
  }

  function Identities(cs: seq<Candidate>): (ids: set<IdentityTuple>)
    ensures forall c :: c in cs ==> c.Identity() in ids
    ensures forall i :: i in ids ==> exists c :: c in cs && c.Identity() == i
  {
    set c | c in cs :: c.Identity()
  }

  function MaxTier(a: int, b: int): int { if a < b then b else a }

  function ApplyScore(res: Calibration, cand: Candidate, confidence: Confidence, tierFloor: int): Calibration {
    var tier := MaxTier(res.tier, tierFloor);
    var clouded := IsCloudProvider(cand.provider) && confidence == Exact;
    var conf1 := if clouded then Curated else confidence;
    var tier1 := if clouded then MaxTier(tier, 1) else tier;
    var conf2 := if !cand.gpuKnown && conf1 == Exact then Proxy else conf1;
    var tier2 := if !cand.gpuKnown then MaxTier(tier1, 1) else tier1;
    res.(confidence := Some(conf2), tier := tier2)
  }

  function OfProvider(provider: string): Candidate -> bool {
    (c: Candidate) => Lower(c.provider) == Lower(provider)
  }

  function OnSelfHosted(env: Env): Candidate -> bool {
    (c: Candidate) => Lower(c.provider) in env.selfHosted
  }

  function Meeting(h: Hints, env: Env): Candidate -> bool {
    (c: Candidate) => MatchesHints(c, h, env)
  }

  function Working(pool: seq<Candidate>, hints: Option<Hints>, env: Env): seq<Candidate> {
    if hints.Some? && hints.value.AnySet() then Filter(pool, Meeting(hints.value, env)) else pool
  }

  predicate CapUnmatched(best: Candidate, hints: Option<Hints>) {
    best.powerCap.Some?
    && !(hints.Some? && hints.value.powerCap.Some? && CapClose(best.powerCap.value, hints.value.powerCap.value))
  }

  function PickScored(pool: seq<Candidate>, hints: Option<Hints>, sameProvider: bool, eventProvider: string, env: Env)
    : Option<Calibration>
  {
    var working := Working(pool, hints, env);
    if working == [] then None
    else
      var disambiguated := hints.Some? && hints.value.AnySet() && |Identities(working)| < |Identities(pool)|;
      var best := Best(working);
      if sameProvider then
        if |Identities(working)| <= 1 then
          if disambiguated && !env.hintsTrusted then Some(ApplyScore(best.result, best, Curated, 1))
          else if IsCloudProvider(eventProvider) then Some(ApplyScore(best.result, best, Curated, 1))
          else if CapUnmatched(best, hints) then Some(ApplyScore(best.result, best, Curated, 1))
          else Some(ApplyScore(best.result, best, Exact, 0))
        else Some(ApplyScore(best.result, best, Proxy, 1))
      else
        Some(ApplyScore(best.result, best, if |Identities(working)| <= 1 then Curated else Proxy, 1))
  }

  function SameProvider(cs: seq<Candidate>, provider: string): seq<Candidate> {
    Filter(cs, OfProvider(provider))
  }

  function SelfHosted(cs: seq<Candidate>, env: Env): seq<Candidate> {
    Filter(cs, OnSelfHosted(env))
  }

  function Resolve(cs: seq<Candidate>, provider: string, hints: Option<Hints>, env: Env): Option<Calibration> {
    if cs == [] then None
    else
      var same := SameProvider(cs, provider);
      if same != [] then PickScored(same, hints, true, provider, env)
      else if Lower(provider) !in env.selfHosted then None
      else
        var cross := SelfHosted(cs, env);
        if cross == [] then None else PickScored(cross, hints, false, provider, env)
  }

  // ---------- honesty ----------

  predicate IsExact(r: Option<Calibration>) {
    r.Some? && r.value.confidence == Some(Exact)
  }

  ghost predicate OneIdentity(cs: seq<Candidate>) {
    forall c, d :: c in cs && d in cs ==> c.Identity() == d.Identity()
  }

  // Every identity of the pool survives among those kept.
  ghost predicate NoneRuledOut(pool: seq<Candidate>, kept: seq<Candidate>) {
    forall c :: c in pool ==> exists d :: d in kept && d.Identity() == c.Identity()
  }

  // What earns the label: same-provider candidates that meet every hint and all describe one
  // identity, hints that ruled nothing out unless trusted, no cloud label, and for the picked
  // one a power cap the hints confirm and a GPU from the curated table.
  ghost predicate ExactEarned(cs: seq<Candidate>, provider: string, hints: Option<Hints>, env: Env) {
    var same := SameProvider(cs, provider);
    var working := Working(same, hints, env);
    && working != []
    && OneIdentity(working)
    && (env.hintsTrusted || NoneRuledOut(same, working))
    && !IsCloudProvider(provider)
    && !CapUnmatched(Best(working), hints)
    && Best(working).gpuKnown
  }

  lemma AtMostOne<T>(s: set<T>, x: T, y: T)
    requires x in s && y in s && |s| <= 1
    ensures x == y
  {
    SubsetSize({x, y}, s);
  }

  lemma SizeAtMostOneIff(cs: seq<Candidate>)
    requires cs != []
    ensures |Identities(cs)| <= 1 <==> OneIdentity(cs)
  {
    var ids, first := Identities(cs), cs[0].Identity();
    assert cs[0] in cs;
    if |ids| <= 1 {
      forall c | c in cs ensures c.Identity() == first {
        AtMostOne(ids, c.Identity(), first);
      }
    }
    if OneIdentity(cs) {
      assert ids == {first};
    }
  }

  lemma SubsetSize<T>(a: set<T>, b: set<T>)
    requires a <= b
    ensures |a| <= |b| && (|a| < |b| <==> exists x :: x in b && x !in a)
  {
    var c := b - a;
    assert b == a + c && a * c == {};
    assert |b| == |a| + |c|;
    if c != {} { var x :| x in c; }
  }

  // Hints narrowed the pool exactly when some identity of the pool met none of them.
  lemma NarrowedIff(pool: seq<Candidate>, hints: Option<Hints>, env: Env)
    ensures var working := Working(pool, hints, env);
      && Identities(working) <= Identities(pool)
      && (|Identities(working)| < |Identities(pool)| <==> !NoneRuledOut(pool, working))
      && (!(hints.Some? && hints.value.AnySet()) ==> working == pool)
  {
    hide MatchesHints, Working, NoneRuledOut, Identities;
    var working := Working(pool, hints, env);
    WorkingInPool(pool, hints, env);
    RuledOutIff(pool, working);
    SubsetSize(Identities(working), Identities(pool));
  }

  lemma WorkingInPool(pool: seq<Candidate>, hints: Option<Hints>, env: Env)
    ensures forall c :: c in Working(pool, hints, env) ==> c in pool
    ensures !(hints.Some? && hints.value.AnySet()) ==> Working(pool, hints, env) == pool
  {
    hide MatchesHints;
  }

  lemma RuledOutIff(pool: seq<Candidate>, working: seq<Candidate>)
    requires forall c :: c in working ==> c in pool
    ensures Identities(working) <= Identities(pool)
    ensures NoneRuledOut(pool, working) <==> forall i :: i in Identities(pool) ==> i in Identities(working)
  {
    if i :| i in Identities(pool) && i !in Identities(working) {
      var c :| c in pool && c.Identity() == i;
      forall d | d in working ensures d.Identity() != c.Identity() {}
    }
    if !NoneRuledOut(pool, working) {
      var c :| c in pool && forall d :: d in working ==> d.Identity() != c.Identity();
      assert c.Identity() in Identities(pool) && c.Identity() !in Identities(working);
    }
  }

  /**
   Resolver honesty: `exact` is returned exactly when it is earned.
   */
  lemma ExactIffEarned(cs: seq<Candidate>, provider: string, hints: Option<Hints>, env: Env)
    ensures IsExact(Resolve(cs, provider, hints, env)) <==> ExactEarned(cs, provider, hints, env)
  {
    hide MatchesHints, CapUnmatched, IsCloudProvider, PickScored, Working, Best;
    var same := SameProvider(cs, provider);
    if same != [] {
      ScoredExactIffEarned(cs, provider, hints, env);
    } else {
      WorkingOfNone(hints, env);
      NeverExactAcross(SelfHosted(cs, env), hints, provider, env);
    }
  }

  lemma WorkingOfNone(hints: Option<Hints>, env: Env)
    ensures Working([], hints, env) == []
  {
    if hints.Some? { FilterNothing(Meeting(hints.value, env)); }
  }

  lemma NeverExactAcross(pool: seq<Candidate>, hints: Option<Hints>, provider: string, env: Env)
    ensures !IsExact(PickScored(pool, hints, false, provider, env))
  {
    hide MatchesHints, Working, Best;
  }

  // The guards on the way to the label, as the code tests them.
  lemma ScoredExact(pool: seq<Candidate>, hints: Option<Hints>, provider: string, env: Env)
    ensures var working := Working(pool, hints, env);
      IsExact(PickScored(pool, hints, true, provider, env)) <==>
        && working != []
        && |Identities(working)| <= 1
        && (env.hintsTrusted || !(hints.Some? && hints.value.AnySet() && |Identities(working)| < |Identities(pool)|))
        && !IsCloudProvider(provider) && !CapUnmatched(Best(working), hints)
        && !IsCloudProvider(Best(working).provider) && Best(working).gpuKnown
  {
    hide MatchesHints, CapUnmatched, IsCloudProvider, Working, Best, Identities;
  }

  lemma ScoredExactIffEarned(cs: seq<Candidate>, provider: string, hints: Option<Hints>, env: Env)
    ensures var same := SameProvider(cs, provider);
      IsExact(PickScored(same, hints, true, provider, env)) <==> ExactEarned(cs, provider, hints, env)
  {
    hide MatchesHints, CapUnmatched, IsCloudProvider, Working, Best, SameProvider, PickScored, Identities, OneIdentity, NoneRuledOut;
    var same := SameProvider(cs, provider);
    var working := Working(same, hints, env);
    ScoredExact(same, hints, provider, env);
    NarrowedIff(same, hints, env);
    if working != [] {
      SizeAtMostOneIff(working);
      WorkingIsPool(same, hints, env);
      SameProviderCloud(cs, provider, Best(working));
    }
  }

  lemma WorkingIsPool(pool: seq<Candidate>, hints: Option<Hints>, env: Env)
    ensures forall c :: c in Working(pool, hints, env) ==> c in pool
    ensures !(hints.Some? && hints.value.AnySet()) ==> NoneRuledOut(pool, Working(pool, hints, env))
  {
    hide MatchesHints;
  }

  lemma SameProviderCloud(cs: seq<Candidate>, provider: string, c: Candidate)
    ensures c in SameProvider(cs, provider) ==> IsCloudProvider(c.provider) == IsCloudProvider(provider)
  {
    if Lower(c.provider) == Lower(provider) {
      assert |c.provider| == |provider|;
    }
  }

  // The tier is never below the picked candidate's measured tier, is at least 1 unless the
  // label is exact, and the pick is minimal in (tier, newest) among those that qualify.
  lemma TierIsHonest(pool: seq<Candidate>, hints: Option<Hints>, sameProvider: bool, provider: string, env: Env)
    ensures PickScored(pool, hints, sameProvider, provider, env).Some? <==> Working(pool, hints, env) != []
    ensures PickScored(pool, hints, sameProvider, provider, env).Some? ==>
      var r, best := PickScored(pool, hints, sameProvider, provider, env).value, Best(Working(pool, hints, env));
      && r.coeffs == best.result.coeffs
      && r.tier >= best.Tier()
      && (r.confidence == Some(Exact) ==> r.tier == MaxTier(best.Tier(), 0))
      && (r.confidence != Some(Exact) ==> r.tier >= 1)
  {
    hide MatchesHints, CapUnmatched, ApplyScore, Working, Best, Identities;
    if Working(pool, hints, env) != [] {
      var best := Best(Working(pool, hints, env));
      ScoreIsHonest(best, Exact, 0);
      ScoreIsHonest(best, Curated, 1);
      ScoreIsHonest(best, Proxy, 1);
    }
  }

  lemma ScoreIsHonest(c: Candidate, confidence: Confidence, tierFloor: int)
    requires confidence == Exact || tierFloor >= 1
    ensures var r := ApplyScore(c.result, c, confidence, tierFloor);
      && r.coeffs == c.result.coeffs
      && r.tier >= c.Tier()
      && (r.confidence == Some(Exact) ==> confidence == Exact && r.tier == MaxTier(c.Tier(), tierFloor))
      && (r.confidence != Some(Exact) ==> r.tier >= 1)
  {
  }

  // The pick: no qualifying candidate has a lower tier, nor the same tier and a newer stamp.
  lemma PickIsMinimal(pool: seq<Candidate>, hints: Option<Hints>, env: Env, c: Candidate)
    requires c in Working(pool, hints, env)
    ensures var best := Best(Working(pool, hints, env));
      && best in pool
      && (best.Tier() < c.Tier() || (best.Tier() == c.Tier() && best.timestamp >= c.timestamp))
  {
    hide MatchesHints;
    assert !Ahead(c, Best(Working(pool, hints, env)));
  }

  // A calibration borrowed from another provider's label is never exact and never tier 0.
  lemma BorrowedIsNeverExact(cs: seq<Candidate>, provider: string, hints: Option<Hints>, env: Env)
    requires SameProvider(cs, provider) == []
    ensures Resolve(cs, provider, hints, env).Some? ==>
      var r := Resolve(cs, provider, hints, env).value;
      r.confidence != Some(Exact) && r.tier >= 1 && Lower(provider) in env.selfHosted
  {
    ExactIffEarned(cs, provider, hints, env);
    TierIsHonest(SelfHosted(cs, env), hints, false, provider, env);
    WorkingOfNone(hints, env);
  }

  lemma FilterNothing(keep: Candidate -> bool)
    ensures Filter([], keep) == []
  {
  }

  lemma {:induction false} FilterConcat(xs: seq<Candidate>, ys: seq<Candidate>, keep: Candidate -> bool)
    ensures Filter(xs + ys, keep) == Filter(xs, keep) + Filter(ys, keep)
  {
    if xs == [] {
      assert xs + ys == ys;
    } else {
      var all := xs + ys;
      assert all[0] == xs[0] && all[1..] == xs[1..] + ys;
      FilterConcat(xs[1..], ys, keep);
      FilterStep(all, keep);
      FilterStep(xs, keep);
      hide Filter;
    }
  }

  lemma FilterStep(xs: seq<Candidate>, keep: Candidate -> bool)
    requires xs != []
    ensures Filter(xs, keep) == (if keep(xs[0]) then [xs[0]] else []) + Filter(xs[1..], keep)
  {
  }

  // What each hint asks of a candidate.  A field the candidate does not record counts as
  // empty text, and an unrecorded concurrency as one; a GPU may be hinted by its key, by the raw
  // name it was measured under, or by a name the alias table maps to its key.
  ghost predicate Describes(h: Hints, c: Candidate, env: Env) {
    && (forall want :: h.gpu == Some(want) ==>
          Lower(want) in [Lower(OrEmpty(c.gpu)), Lower(OrEmpty(c.result.gpuName))]
          || Lower(OrEmpty(env.canonicalGpu(want))) == Lower(OrEmpty(c.gpu)))
    && (forall want :: h.engine == Some(want) ==> Lower(want) == Lower(OrEmpty(c.engine)))
    && (forall want :: h.precision == Some(want) ==> Lower(want) == Lower(OrEmpty(c.precision)))
    && (h.concurrency.Some? ==> h.concurrency in {c.concurrency, if c.concurrency.None? then Some(1) else None})
    && (forall want :: h.powerCap == Some(want) ==>
          exists cap ::
            && c.powerCap == Some(cap)
            && -CapSlack(want, cap) <= cap - want <= CapSlack(want, cap))
  }

  // A hundredth of a watt, or a millionth of the larger cap.
  function CapSlack(a: real, b: real): real {
    Max(0.01, Max(Max(a, -a), Max(b, -b)) / 1000000.0)
  }

  lemma DescribesIff(h: Hints, c: Candidate, env: Env)
    ensures Describes(h, c, env) <==> MatchesHints(c, h, env)
  {
    hide CapSlack, CapClose;
    forall want, cap ensures CapClose(cap, want) <==> -CapSlack(want, cap) <= cap - want <= CapSlack(want, cap) {
      SlackIff(cap, want);
    }
    if h.powerCap.Some? && c.powerCap.Some? { SlackIff(c.powerCap.value, h.powerCap.value); }
  }

  lemma SlackIff(a: real, b: real)
    ensures CapClose(a, b) <==> -CapSlack(b, a) <= a - b <= CapSlack(b, a)
  {
  }

  /**
   An answer to hints always carries the coefficients of a gathered candidate they describe, and
   one that any candidate of the event's provider meets is never refused.
   */
  lemma AnswerMeetsHints(cs: seq<Candidate>, provider: string, h: Hints, env: Env)
    requires h.AnySet()
    ensures
      Resolve(cs, provider, Some(h), env).Some? ==>
        exists c :: c in cs && Describes(h, c, env) && c.result.coeffs == Resolve(cs, provider, Some(h), env).value.coeffs
    ensures
      (exists c :: c in cs && Lower(c.provider) == Lower(provider) && Describes(h, c, env)) ==>
        Resolve(cs, provider, Some(h), env).Some?
  {
    hide Describes, MatchesHints, PickScored, Best;
    forall c ensures Describes(h, c, env) <==> MatchesHints(c, h, env) { DescribesIff(h, c, env); }
    var same := SameProvider(cs, provider);
    var pool := if same != [] then same else SelfHosted(cs, env);
    TierIsHonest(pool, Some(h), same != [], provider, env);
    PickedIsDescribed(pool, h, env);
    if c :| c in cs && Lower(c.provider) == Lower(provider) && Describes(h, c, env) {
      assert c in same && c in Working(same, Some(h), env);
    }
  }

  lemma PickedIsDescribed(pool: seq<Candidate>, h: Hints, env: Env)
    requires h.AnySet()
    ensures
      var working := Working(pool, Some(h), env);
      working != [] ==> Best(working) in pool && MatchesHints(Best(working), h, env)
    ensures forall c :: c in Working(pool, Some(h), env) <==> c in pool && MatchesHints(c, h, env)
  {
    hide MatchesHints;
  }

  // A candidate that records none of the hinted fields meets no named engine or precision, no
  // concurrency but one and no power cap; a GPU it meets only by the raw name, or when the table
  // knows no key for the hint.
  lemma BareCandidateIff(c: Candidate, h: Hints, env: Env)
    requires c.gpu.None? && c.engine.None? && c.precision.None? && c.concurrency.None? && c.powerCap.None?
    ensures
      Describes(h, c, env) <==>
        && (h.gpu.Some? ==>
              || h.gpu.value == "" || OrEmpty(env.canonicalGpu(h.gpu.value)) == ""
              || Lower(h.gpu.value) == Lower(OrEmpty(c.result.gpuName)))
        && (h.engine.Some? ==> h.engine.value == "")
        && (h.precision.Some? ==> h.precision.value == "")
        && (h.concurrency.Some? ==> h.concurrency.value == 1)
        && h.powerCap.None?
  {
    DescribesIff(h, c, env);
    hide Describes, Lower;
    if h.gpu.Some? {
      LowerEmptyIff(h.gpu.value);
      LowerEmptyIff(OrEmpty(env.canonicalGpu(h.gpu.value)));
    }
    LowerEmptyIff(OrEmpty(h.engine));
    LowerEmptyIff(OrEmpty(h.precision));
    LowerEmptyIff("");
  }

  lemma LowerEmptyIff(s: string)
    ensures Lower(s) == "" <==> s == ""
  {
    assert |Lower(s)| == |s|;
  }

  // Traffic under a hosted vendor's name, in any letter case, never earns the label.
  lemma CloudIsNeverExact(cs: seq<Candidate>, provider: string, hints: Option<Hints>, env: Env)
    requires
      Lower(provider) in [
        "openai", "anthropic", "bedrock", "azure", "azure-openai", "vertexai", "google", "gemini", "cohere",
        "mistral", "groq", "together", "fireworks", "aws", "gcp", "amazon", "microsoft"]
    ensures !IsExact(Resolve(cs, provider, hints, env))
  {
    ExactIffEarned(cs, provider, hints, env);
    hide Resolve, SameProvider, Working, CapUnmatched;
    assert |Lower(provider)| == |provider|;
    assert IsCloudProvider(provider);
  }

  // What the hints leave of a candidate's chances: none set, or all of them describing it.
  ghost predicate MeetsHints(c: Candidate, hints: Option<Hints>, env: Env) {
    hints == None || AllUnset(hints.value) || Describes(hints.value, c, env)
  }

  // Hints of nothing but absent or blank text.
  ghost predicate AllUnset(h: Hints) {
    && h.concurrency == None && h.powerCap == None
    && forall s :: Some(s) in [h.gpu, h.engine, h.precision] ==> forall c :: c in s ==> c in " \t\n\r" || c as int in {11, 12, 28, 29, 30, 31}
  }

  lemma AllUnsetIff(h: Hints)
    ensures AllUnset(h) <==> !h.AnySet()
  {
    var texts := [h.gpu, h.engine, h.precision];
    assert texts[0] == h.gpu && texts[1] == h.engine && texts[2] == h.precision;
    forall s: string ensures Blank(s) <==> forall c :: c in s ==> c in " \t\n\r" || c as int in {11, 12, 28, 29, 30, 31} {
      BlankIff(s);
    }
    hide Blank;
  }

  lemma BlankIff(s: string)
    ensures Blank(s) <==> forall c :: c in s ==> c in " \t\n\r" || c as int in {11, 12, 28, 29, 30, 31}
  {
    var spaces := " \t\n\r";
    assert spaces[0] == ' ' && spaces[1] == '\t' && spaces[2] == '\n' && spaces[3] == '\r';
    assert forall c: char :: c in spaces || c as int in {11, 12, 28, 29, 30, 31} <==> c == ' ' || '\t' <= c <= '\r' || '\U{1C}' <= c <= '\U{1F}';
  }

  lemma WorkingIff(pool: seq<Candidate>, hints: Option<Hints>, env: Env, c: Candidate)
    ensures c in Working(pool, hints, env) <==> c in pool && MeetsHints(c, hints, env)
  {
    hide MatchesHints, Describes, AllUnset;
    if hints.Some? {
      AllUnsetIff(hints.value);
      DescribesIff(hints.value, c, env);
    }
  }

  /**
   There is an answer exactly when a candidate under the event's own label meets the hints, or no
   candidate has that label, it is a self-hosted one, and a candidate under some self-hosted label
   meets them.
   */
  lemma AnswerExistsIff(cs: seq<Candidate>, provider: string, hints: Option<Hints>, env: Env)
    ensures
      Resolve(cs, provider, hints, env).Some? <==>
        if exists c :: c in cs && Lower(c.provider) == Lower(provider)
        then exists c :: c in cs && Lower(c.provider) == Lower(provider) && MeetsHints(c, hints, env)
        else Lower(provider) in env.selfHosted
             && exists c :: c in cs && Lower(c.provider) in env.selfHosted && MeetsHints(c, hints, env)
  {
    hide MeetsHints, PickScored, Working;
    var same := SameProvider(cs, provider);
    var pool := if same != [] then same else SelfHosted(cs, env);
    TierIsHonest(pool, hints, same != [], provider, env);
    forall c ensures c in Working(pool, hints, env) <==> c in pool && MeetsHints(c, hints, env) {
      WorkingIff(pool, hints, env, c);
    }
    if same != [] { assert same[0] in same; }
    if Working(pool, hints, env) != [] { assert Working(pool, hints, env)[0] in Working(pool, hints, env); }
    WorkingOfNone(hints, env);
  }

  predicate SameKey(a: Candidate, b: Candidate) { a.result.tier == b.result.tier && a.timestamp == b.timestamp }

  // The candidate picked from a pool: one that meets the hints, with the lowest tier of those, the
  // newest of that tier, and the first listed of the newest.
  ghost predicate Picked(pool: seq<Candidate>, hints: Option<Hints>, env: Env, best: Candidate, at: int) {
    && 0 <= at < |pool| && pool[at] == best && MeetsHints(best, hints, env)
    && (forall c :: c in pool && MeetsHints(c, hints, env) ==>
          best.result.tier < c.result.tier || (best.result.tier == c.result.tier && best.timestamp >= c.timestamp))
    && forall i :: 0 <= i < at && MeetsHints(pool[i], hints, env) ==> !SameKey(pool[i], best)
  }

  lemma BestIsPicked(pool: seq<Candidate>, hints: Option<Hints>, env: Env)
    requires Working(pool, hints, env) != []
    ensures exists at :: Picked(pool, hints, env, Best(Working(pool, hints, env)), at)
  {
    hide MeetsHints, Working;
    var best := Best(Working(pool, hints, env));
    forall c ensures c in Working(pool, hints, env) <==> c in pool && MeetsHints(c, hints, env) {
      WorkingIff(pool, hints, env, c);
    }
    forall c | c in Working(pool, hints, env)
      ensures best.result.tier < c.result.tier || (best.result.tier == c.result.tier && best.timestamp >= c.timestamp)
    {
      assert !Ahead(c, best);
    }
    var at := FirstOfBest(pool, hints, env);
    assert Picked(pool, hints, env, best, at);
  }

  // The picked candidate's place in the pool, with no equal before it.
  lemma FirstOfBest(pool: seq<Candidate>, hints: Option<Hints>, env: Env) returns (at: nat)
    requires Working(pool, hints, env) != []
    ensures at < |pool| && pool[at] == Best(Working(pool, hints, env))
    ensures forall i :: 0 <= i < at && MeetsHints(pool[i], hints, env) ==>
              !SameKey(pool[i], pool[at])
  {
    hide MeetsHints, MatchesHints;
    forall c ensures c in Working(pool, hints, env) <==> c in pool && MeetsHints(c, hints, env) {
      WorkingIff(pool, hints, env, c);
    }
    if hints.Some? && hints.value.AnySet() {
      at := FirstKept(pool, Meeting(hints.value, env));
      forall i | 0 <= i < at && MeetsHints(pool[i], hints, env)
        ensures !SameKey(pool[i], pool[at])
      {
        assert pool[i] in pool;
      }
    } else {
      at := BestFirst(pool);
    }
  }

  lemma {:induction false} BestFirst(cs: seq<Candidate>) returns (at: nat)
    requires cs != []
    ensures at < |cs| && cs[at] == Best(cs)
    ensures forall i :: 0 <= i < at ==> !SameKey(cs[i], cs[at])
  {
    if |cs| == 1 || !Ahead(Best(cs[1..]), cs[0]) {
      at := 0;
    } else {
      at := BestFirst(cs[1..]);
      at := at + 1;
    }
  }

  lemma FirstKept(pool: seq<Candidate>, keep: Candidate -> bool) returns (at: nat)
    requires Filter(pool, keep) != []
    ensures at < |pool| && pool[at] == Best(Filter(pool, keep))
    ensures forall i :: 0 <= i < at && keep(pool[i]) ==> !SameKey(pool[i], pool[at])
  {
    var kept := Filter(pool, keep);
    var m := BestFirst(kept);
    at := PlaceOf(pool, keep, m);
    hide SameKey, Best, Filter;
    forall i | 0 <= i < at && keep(pool[i]) ensures !SameKey(pool[i], pool[at]) {
      var k :| 0 <= k < m && kept[k] == pool[i];
    }
  }

  // Where the m-th of the kept stands, with only earlier ones kept before it.
  lemma {:induction false} PlaceOf(pool: seq<Candidate>, keep: Candidate -> bool, m: nat) returns (at: nat)
    requires m < |Filter(pool, keep)|
    ensures at < |pool| && pool[at] == Filter(pool, keep)[m]
    ensures forall i :: 0 <= i < at && keep(pool[i]) ==> pool[i] in Filter(pool, keep)[..m]
  {
    FilterNothing(keep);
    hide Filter;
    var n, kept := |pool| - 1, Filter(pool, keep);
    FilterLast(pool, keep);
    var before := Filter(pool[..n], keep);
    if m < |before| {
      at := PlaceOf(pool[..n], keep, m);
      assert kept[..m] == before[..m];
    } else {
      at := n;
      assert kept[..m] == before;
      forall i | 0 <= i < at && keep(pool[i]) ensures pool[i] in before {
        assert pool[i] in pool[..n];
      }
    }
  }

  lemma {:induction false} FilterLast(pool: seq<Candidate>, keep: Candidate -> bool)
    requires pool != []
    ensures
      var n := |pool| - 1;
      Filter(pool, keep) == Filter(pool[..n], keep) + if keep(pool[n]) then [pool[n]] else []
  {
    hide Filter;
    var n := |pool| - 1;
    FilterStep(pool, keep);
    FilterNothing(keep);
    if n > 0 {
      FilterLast(pool[1..], keep);
      FilterStep(pool[..n], keep);
      assert pool[..n][1..] == pool[1..][..n - 1];
    } else {
      assert pool[1..] == [] && pool[..n] == [];
    }
  }

  // A power cap the hints do not confirm.
  ghost predicate CapUnconfirmed(best: Candidate, hints: Option<Hints>) {
    exists cap ::
      && best.powerCap == Some(cap)
      && forall h, want :: hints == Some(h) && h.powerCap == Some(want) ==>
           cap - want > CapSlack(want, cap) || want - cap > CapSlack(want, cap)
  }

  lemma CapUnmatchedIff(best: Candidate, hints: Option<Hints>)
    ensures CapUnmatched(best, hints) <==> CapUnconfirmed(best, hints)
  {
    hide CapSlack, CapClose;
    if best.powerCap.Some? && hints.Some? && hints.value.powerCap.Some? {
      SlackIff(best.powerCap.value, hints.value.powerCap.value);
    }
    if CapUnmatched(best, hints) {
      var cap := best.powerCap.value;
      assert forall h, want :: hints == Some(h) && h.powerCap == Some(want) ==>
        cap - want > CapSlack(want, cap) || want - cap > CapSlack(want, cap);
    }
  }

  // Why an answer under the event's own label falls short of `exact`: what met the hints was of one
  // identity, but the label is a cloud's, the hints were needed to tell it apart and are not
  // trusted, or its power cap is unconfirmed.
  ghost predicate Curatable(same: seq<Candidate>, working: seq<Candidate>, provider: string, hints: Option<Hints>, env: Env)
    requires working != []
  {
    || IsCloudProvider(provider)
    || (!env.hintsTrusted && !NoneRuledOut(same, working))
    || CapUnconfirmed(Best(working), hints)
  }

  /**
   The label and tier of every answer.  Several identities make it a proxy, as does a GPU outside
   the table when the label would have been `exact`; the tier is the measured one, but at least
   one without the label and at least zero with it.
   */
  lemma AnswerLabel(cs: seq<Candidate>, provider: string, hints: Option<Hints>, env: Env)
    requires Resolve(cs, provider, hints, env).Some?
    ensures
      var same := SameProvider(cs, provider);
      var pool := if same != [] then same else SelfHosted(cs, env);
      var working, r := Working(pool, hints, env), Resolve(cs, provider, hints, env).value;
      && working != []
      && r.tier == (var least := if r.confidence == Some(Exact) then 0 else 1; if Best(working).result.tier < least then least else Best(working).result.tier)
      && (r.confidence == Some(Proxy) <==>
            || !OneIdentity(working)
            || (same != [] && !Curatable(same, working, provider, hints, env) && !Best(working).gpuKnown))
      && (r.confidence == Some(Curated) <==>
            OneIdentity(working) && (same != [] ==> Curatable(same, working, provider, hints, env)))
  {
    hide MatchesHints, CapUnmatched, CapUnconfirmed, IsCloudProvider, Working, Best, SameProvider, SelfHosted, Identities, OneIdentity, NoneRuledOut, PickScored;
    var same := SameProvider(cs, provider);
    var pool := if same != [] then same else SelfHosted(cs, env);
    var working := Working(pool, hints, env);
    TierIsHonest(pool, hints, same != [], provider, env);
    SizeAtMostOneIff(working);
    NarrowedIff(pool, hints, env);
    CapUnmatchedIff(Best(working), hints);
    WorkingIsPool(pool, hints, env);
    SameProviderCloud(cs, provider, Best(working));
    ScoredLabel(pool, hints, same != [], provider, env);
  }

  lemma ScoredLabel(pool: seq<Candidate>, hints: Option<Hints>, sameProvider: bool, provider: string, env: Env)
    requires Working(pool, hints, env) != []
    requires sameProvider ==> IsCloudProvider(Best(Working(pool, hints, env)).provider) == IsCloudProvider(provider)
    ensures
      var working, r := Working(pool, hints, env), PickScored(pool, hints, sameProvider, provider, env);
      var single := |Identities(working)| <= 1;
      var curatable :=
        || IsCloudProvider(provider)
        || (!env.hintsTrusted && hints.Some? && hints.value.AnySet() && |Identities(working)| < |Identities(pool)|)
        || CapUnmatched(Best(working), hints);
      && r.Some?
      && r.value.tier == MaxTier(Best(working).result.tier, if r.value.confidence == Some(Exact) then 0 else 1)
      && (r.value.confidence == Some(Proxy) <==> !single || (sameProvider && !curatable && !Best(working).gpuKnown))
      && (r.value.confidence == Some(Curated) <==> single && (sameProvider ==> curatable))
  {
    hide MatchesHints, CapUnmatched, IsCloudProvider, Working, Best, Identities;
  }

  // Where a new candidate lands in the pool of its provider, and in the part meeting hints.
  lemma FilterInsert(xs: seq<Candidate>, c: Candidate, ys: seq<Candidate>, keep: Candidate -> bool)
    ensures Filter(xs + ys, keep) == Filter(xs, keep) + Filter(ys, keep)
    ensures Filter(xs + [c] + ys, keep)
            == if keep(c) then Filter(xs, keep) + [c] + Filter(ys, keep) else Filter(xs + ys, keep)
  {
    FilterConcat(xs, ys, keep);
    FilterConcat(xs + [c], ys, keep);
    FilterConcat(xs, [c], keep);
    assert [c][1..] == [];
    assert Filter([c], keep) == if keep(c) then [c] else [];
    if !keep(c) { assert Filter(xs, keep) + [] == Filter(xs, keep); }
  }

  /**
   A candidate with a new identity, wherever it lands, never turns a non-exact answer into an
   exact one, as long as some same-provider candidate already met the hints.
   */
  lemma NewIdentityNeverCreatesExact(xs: seq<Candidate>, c: Candidate, ys: seq<Candidate>,
                                     provider: string, hints: Option<Hints>, env: Env)
    requires forall d :: d in xs + ys && Lower(d.provider) == Lower(provider) ==> d.Identity() != c.Identity()
    requires Working(SameProvider(xs + ys, provider), hints, env) != []
    ensures IsExact(Resolve(xs + [c] + ys, provider, hints, env)) ==> IsExact(Resolve(xs + ys, provider, hints, env))
  {
    hide MatchesHints, CapUnmatched, IsCloudProvider, Resolve, Best;
    ExactIffEarned(xs + ys, provider, hints, env);
    ExactIffEarned(xs + [c] + ys, provider, hints, env);
    var keep := OfProvider(provider);
    FilterInsert(xs, c, ys, keep);
    var px, py := Filter(xs, keep), Filter(ys, keep);
    if keep(c) && ExactEarned(xs + [c] + ys, provider, hints, env) {
      InsertedIntoPool(px, c, py, hints, env);
    }
  }

  // The new candidate is the only one of its provider to meet the hints, it brings everything
  // else the label asks for, and if the hints ruled others out they are trusted.
  predicate SoleQualifier(c: Candidate, same: seq<Candidate>, provider: string, hints: Option<Hints>, env: Env) {
    && Lower(c.provider) == Lower(provider)
    && Working(same, hints, env) == []
    && (hints.Some? && hints.value.AnySet() ==> MatchesHints(c, hints.value, env))
    && (env.hintsTrusted || same == [])
    && !IsCloudProvider(provider) && !CapUnmatched(c, hints) && c.gpuKnown
  }

  /**
   So a new identity turns a non-exact answer into an exact one exactly when no candidate of
   the provider met the hints before and this one earns the label alone.
   */
  lemma NewIdentityMakesExactIff(xs: seq<Candidate>, c: Candidate, ys: seq<Candidate>,
                                 provider: string, hints: Option<Hints>, env: Env)
    requires forall d :: d in xs + ys && Lower(d.provider) == Lower(provider) ==> d.Identity() != c.Identity()
    ensures
      IsExact(Resolve(xs + [c] + ys, provider, hints, env)) && !IsExact(Resolve(xs + ys, provider, hints, env)) <==>
        SoleQualifier(c, SameProvider(xs + ys, provider), provider, hints, env)
  {
    hide MatchesHints, CapUnmatched, IsCloudProvider, Resolve, Best, Working, NoneRuledOut;
    var same := SameProvider(xs + ys, provider);
    if Working(same, hints, env) != [] {
      NewIdentityNeverCreatesExact(xs, c, ys, provider, hints, env);
    } else {
      ExactIffEarned(xs + ys, provider, hints, env);
      ExactIffEarned(xs + [c] + ys, provider, hints, env);
      FilterInsert(xs, c, ys, OfProvider(provider));
      if OfProvider(provider)(c) {
        AloneInPool(Filter(xs, OfProvider(provider)), c, Filter(ys, OfProvider(provider)), hints, env);
      }
    }
  }

  // Among candidates that meet no hint, a new one is kept alone or not at all.
  lemma AloneInPool(px: seq<Candidate>, c: Candidate, py: seq<Candidate>, hints: Option<Hints>, env: Env)
    requires forall d :: d in px + py ==> d.Identity() != c.Identity()
    requires Working(px + py, hints, env) == []
    ensures
      var kept := Working(px + [c] + py, hints, env);
      && kept == (if hints.Some? && hints.value.AnySet() ==> MatchesHints(c, hints.value, env) then [c] else [])
      && (kept == [c] ==> Best(kept) == c && OneIdentity(kept)
                          && (NoneRuledOut(px + [c] + py, kept) <==> px + py == []))
  {
    hide MatchesHints, NoneRuledOut, OneIdentity, Best, Working;
    if hints.Some? && hints.value.AnySet() {
      AloneHinted(px, c, py, hints.value, env);
    } else {
      AloneUnhinted(px, c, py, hints, env);
    }
    OneAlone(px, c, py);
  }

  lemma AloneHinted(px: seq<Candidate>, c: Candidate, py: seq<Candidate>, h: Hints, env: Env)
    requires h.AnySet() && Working(px + py, Some(h), env) == []
    ensures Working(px + [c] + py, Some(h), env) == if MatchesHints(c, h, env) then [c] else []
  {
    hide MatchesHints;
    var keep := Meeting(h, env);
    FilterInsert(px, c, py, keep);
    hide Filter;
    assert Filter(px, keep) == [] && Filter(py, keep) == [] by {
      assert |Filter(px, keep)| + |Filter(py, keep)| == 0;
    }
    assert keep(c) == MatchesHints(c, h, env);
  }

  lemma AloneUnhinted(px: seq<Candidate>, c: Candidate, py: seq<Candidate>, hints: Option<Hints>, env: Env)
    requires !(hints.Some? && hints.value.AnySet()) && Working(px + py, hints, env) == []
    ensures Working(px + [c] + py, hints, env) == [c]
  {
    assert |px| + |py| == |px + py| == 0;
    assert px + [c] + py == [c];
  }

  lemma OneAlone(px: seq<Candidate>, c: Candidate, py: seq<Candidate>)
    requires forall d :: d in px + py ==> d.Identity() != c.Identity()
    ensures Best([c]) == c && OneIdentity([c])
    ensures NoneRuledOut(px + [c] + py, [c]) <==> px + py == []
  {
    var pool := px + [c] + py;
    if px + py != [] {
      var d := (px + py)[0];
      assert d in px + py && d in pool;
      assert !exists e :: e in [c] && e.Identity() == d.Identity();
    } else {
      assert pool == [c];
    }
  }

  // With none there before, the first candidate of a provider can turn a borrowed answer into
  // an exact one, and rightly so: it is the only measurement under that label.
  lemma FirstOfItsProviderCanBeExact(cs: seq<Candidate>, c: Candidate, provider: string, env: Env)
    requires SameProvider(cs, provider) == [] && Lower(c.provider) == Lower(provider)
    requires !IsCloudProvider(provider) && c.gpuKnown && c.powerCap.None?
    ensures IsExact(Resolve(cs + [c], provider, None, env)) && !IsExact(Resolve(cs, provider, None, env))
  {
    hide IsCloudProvider, Resolve;
    ExactIffEarned(cs, provider, None, env);
    ExactIffEarned(cs + [c], provider, None, env);
    FilterConcat(cs, [c], OfProvider(provider));
    assert [c][1..] == [];
    assert SameProvider([c], provider) == [c];
    assert SameProvider(cs + [c], provider) == [c];
  }

  // A new identity that meets the hints makes the pool ambiguous; one that does not leaves
  // the qualifying candidates as they were.
  lemma InsertedIntoPool(px: seq<Candidate>, c: Candidate, py: seq<Candidate>, hints: Option<Hints>, env: Env)
    requires forall d :: d in px + py ==> d.Identity() != c.Identity()
    requires Working(px + py, hints, env) != []
    ensures (exists a, b :: a in Working(px + [c] + py, hints, env) && b in Working(px + [c] + py, hints, env)
                            && a.Identity() != b.Identity())
            || (Working(px + [c] + py, hints, env) == Working(px + py, hints, env)
                && c in px + [c] + py && forall d :: d in Working(px + py, hints, env) ==> d.Identity() != c.Identity())
  {
    hide MatchesHints;
    var before, after := Working(px + py, hints, env), Working(px + [c] + py, hints, env);
    var first := before[0];
    assert first in before && first in px + py;
    if hints.Some? && hints.value.AnySet() {
      FilterInsert(px, c, py, Meeting(hints.value, env));
    }
    if c in after {
      assert first in after && first.Identity() != c.Identity();
    }
  }
}
