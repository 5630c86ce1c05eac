/**
 The energy of a call: text tokens net of visual ones, cached tokens at a fraction, a visual
 term and an intercept, from a calibration or from the registry's prompt-length rows.
 Follows _effective_text_input_tokens and calculate_energy in src/vetch/calculation.py.
 */
module Energy {
  import opened Wrappers
  import opened Reals
  import opened Text
  import opened ModelLadder

  const CACHE_FACTOR := 0.15
  const SHORT_BELOW := 1000
  const MEDIUM_BELOW := 5000

  datatype Request = Request(
    input: int,
    output: int,
    cached: int,
    units: real,                        // images, and other media normalised to them
    mediaTokens: int)

  // An override or a loaded calibration.  A missing or null coefficient is None.
  datatype Override = Override(
    tier: int,
    whIn: Option<real>,
    whOut: Option<real>,
    tokensPerImage: Option<int>,
    whPerImage: Option<real>,
    intercept: Option<real>)

  datatype Coeffs = Coeffs(whIn: real, whOut: real)

  datatype Rows =
    | Flat(row: Coeffs)
    | ByPrompt(short: Option<Coeffs>, medium: Coeffs, long: Option<Coeffs>)

  datatype Entry = Entry(tier: int, rows: Rows, whPerUnit: Option<real>, tokensPerUnit: Option<int>)

  datatype Estimate = Estimate(wh: real, tier: int)

  function AtLeastZero(n: int): (k: nat) { if n > 0 then n else 0 }
  function MinNat(a: nat, b: nat): nat { if a < b then a else b }

  // ---------- text tokens ----------

  // int(x) of a non-negative number.
  function Truncated(x: real): (n: nat)
    requires x >= 0.0
    ensures n as real <= x < n as real + 1.0
  {
    x.Floor
  }

  // The visual tokens inside the input count, by units or by the reported sub-total.
  function VisualTokens(r: Request, perUnit: nat): (v: real)
    ensures v >= 0.0
  {
    var byUnits := Times(Max(0.0, r.units), perUnit as real);
    if r.mediaTokens > 0 then Max(byUnits, r.mediaTokens as real) else byUnits
  }

  function PerUnit(tokens: Option<int>): (k: Option<nat>)
    ensures k.Some? ==> k.value > 0
  {
    if tokens.Some? && tokens.value > 0 then Some(tokens.value) else None
  }

  function TextTokens(r: Request, perUnit: Option<nat>): nat {
    if perUnit.None? || perUnit.value == 0 then AtLeastZero(r.input)
    else AtLeastZero(AtLeastZero(r.input) - Truncated(VisualTokens(r, perUnit.value)))
  }

  // Text tokens are what the visual ones leave of the input, to within the fraction of a token
  // that int() drops; none are priced when the visual tokens reach the input.  The visual
  // tokens are counted by units or taken from the reported sub-total, whichever is more.
  lemma TextLeavesRoom(r: Request, perUnit: nat)
    requires perUnit > 0
    ensures
      var visual := Max(Times(Max(0.0, r.units), perUnit as real), AtLeastZero(r.mediaTokens) as real);
      var input, text := AtLeastZero(r.input), TextTokens(r, Some(perUnit));
      && (text > 0 ==> input as real - visual <= text as real < input as real - visual + 1.0)
      && (text == 0 <==> input as real - visual < 1.0 && input <= Truncated(visual))
      && text <= input
  {
    assert Times(Max(0.0, r.units), perUnit as real) >= 0.0;
    hide Times;
  }

  // ---------- the terms ----------

  function CachedTokens(r: Request, text: nat): (k: nat)
    ensures k <= text
  {
    MinNat(AtLeastZero(r.cached), text)
  }

  // Text tokens in whole fresh ones, a cached token counting 0.15.
  function PricedTokens(r: Request, text: nat): real {
    (text - CachedTokens(r, text)) as real + CACHE_FACTOR * CachedTokens(r, text) as real
  }

  function TextWh(r: Request, text: nat, c: Coeffs): real {
    (Times(PricedTokens(r, text), c.whIn) + Times(AtLeastZero(r.output) as real, c.whOut)) / 1000.0
  }

  // Visual units, raised to the reported token sub-total.
  function VisualUnits(r: Request, perUnit: Option<nat>): (u: real)
    requires perUnit.Some? ==> perUnit.value > 0
    ensures u >= 0.0
  {
    var units := Max(0.0, r.units);
    if perUnit.Some? && r.mediaTokens > 0 then Max(units, r.mediaTokens as real / perUnit.value as real)
    else units
  }

  function Coefficient(c: Option<real>): real { if c.Some? then c.value else 0.0 }

  // ---------- the two paths ----------

  // The sum as the override path writes it out.
  function OverrideWh(r: Request, o: Override): real {
    var perUnit := PerUnit(o.tokensPerImage);
    var text := TextTokens(r, perUnit);
    var c := Coeffs(Coefficient(o.whIn), Coefficient(o.whOut));
    var visual :=
      if o.whPerImage.Some? && VisualUnits(r, perUnit) > 0.0 then Times(o.whPerImage.value, VisualUnits(r, perUnit))
      else 0.0;
    var fixed := if o.intercept.Some? && o.intercept.value > 0.0 then o.intercept.value else 0.0;
    TextWh(r, text, c) + visual + fixed
  }

  // The row of the prompt's length, by the unclamped input; a missing row is the medium one.
  function RowFor(rows: Rows, input: int): Coeffs {
    match rows
    case Flat(row) => row
    case ByPrompt(short, medium, long) =>
      if input < SHORT_BELOW then (if short.Some? then short.value else medium)
      else if input < MEDIUM_BELOW then medium
      else if long.Some? then long.value else medium
  }

  // A negative visual coefficient counts as none.
  function UnitWh(e: Entry): Option<real> {
    if e.whPerUnit.Some? && e.whPerUnit.value >= 0.0 then e.whPerUnit else None
  }

  function RegistryWh(r: Request, e: Entry): real {
    var perUnit := PerUnit(e.tokensPerUnit);
    var text := if UnitWh(e).Some? then TextTokens(r, perUnit) else AtLeastZero(r.input);
    var visual := if UnitWh(e).Some? then Times(UnitWh(e).value, VisualUnits(r, perUnit)) else 0.0;
    TextWh(r, text, RowFor(e.rows, r.input)) + visual
  }

  // A proxy never reports a better tier than 3.
  function TierOf(e: Entry, precision: Precision): int {
    if (precision == Prefix || precision == Family) && e.tier < 3 then 3 else e.tier
  }

  // The entry is the matched one, or the conservative default when nothing matched.
  function CalculateEnergy(r: Request, o: Option<Override>, e: Entry, precision: Precision): Estimate {
    if o.Some? then Estimate(OverrideWh(r, o.value), o.value.tier)
    else Estimate(RegistryWh(r, e), TierOf(e, precision))
  }

  // ---------- signs and monotonicity ----------

  lemma TimesGrows(a: real, b: real, c: real)
    requires 0.0 <= a <= b && c >= 0.0
    ensures 0.0 <= Times(a, c) <= Times(b, c)
  {
  }

  lemma TimesSwaps(a: real, b: real)
    ensures Times(a, b) == Times(b, a)
  {
  }

  predicate NonNegative(o: Override) {
    && Coefficient(o.whIn) >= 0.0 && Coefficient(o.whOut) >= 0.0
    && Coefficient(o.whPerImage) >= 0.0
  }

  predicate NonNegativeRow(c: Coeffs) { c.whIn >= 0.0 && c.whOut >= 0.0 }

  lemma PricedTokensGrow(r: Request, text: nat, more: nat)
    requires text <= more
    ensures 0.0 <= PricedTokens(r, text) <= PricedTokens(r, more)
  {
  }

  lemma TextWhGrows(r: Request, s: Request, text: nat, more: nat, c: Coeffs)
    requires text <= more && r.cached == s.cached && r.output <= s.output && NonNegativeRow(c)
    ensures 0.0 <= TextWh(r, text, c) <= TextWh(s, more, c)
  {
    hide Times;
    PricedTokensGrow(r, text, more);
    assert PricedTokens(s, more) == PricedTokens(r, more);
    TimesGrows(PricedTokens(r, text), PricedTokens(r, more), c.whIn);
    TimesGrows(AtLeastZero(r.output) as real, AtLeastZero(s.output) as real, c.whOut);
  }

  // On the override path energy is non-negative and never falls as input or output grow.
  lemma OverrideEnergyGrows(r: Request, s: Request, o: Override)
    requires NonNegative(o)
    requires r.input <= s.input && r.output <= s.output && s == r.(input := s.input, output := s.output)
    ensures 0.0 <= OverrideWh(r, o) <= OverrideWh(s, o)
  {
    hide Times, VisualTokens, VisualUnits, TextWh;
    var perUnit := PerUnit(o.tokensPerImage);
    SameVisual(r, s, perUnit);
    assert TextTokens(r, perUnit) <= TextTokens(s, perUnit);
    TextWhGrows(r, s, TextTokens(r, perUnit), TextTokens(s, perUnit), Coeffs(Coefficient(o.whIn), Coefficient(o.whOut)));
    TimesGrows(0.0, VisualUnits(r, perUnit), Coefficient(o.whPerImage));
    TimesSwaps(Coefficient(o.whPerImage), VisualUnits(r, perUnit));
  }

  lemma SameVisual(r: Request, s: Request, perUnit: Option<nat>)
    requires perUnit.Some? ==> perUnit.value > 0
    requires s.units == r.units && s.mediaTokens == r.mediaTokens
    ensures VisualUnits(r, perUnit) == VisualUnits(s, perUnit)
    ensures perUnit.Some? ==> VisualTokens(r, perUnit.value) == VisualTokens(s, perUnit.value)
  {
  }

  // On the registry path energy is non-negative and never falls as output grows.
  lemma RegistryEnergyGrowsWithOutput(r: Request, s: Request, e: Entry)
    requires forall i :: NonNegativeRow(RowFor(e.rows, i))
    requires r.output <= s.output && s == r.(output := s.output)
    ensures 0.0 <= RegistryWh(r, e) <= RegistryWh(s, e)
  {
    hide Times, VisualTokens, VisualUnits, TextWh, RowFor;
    var perUnit := PerUnit(e.tokensPerUnit);
    SameVisual(r, s, perUnit);
    var text := if UnitWh(e).Some? then TextTokens(r, perUnit) else AtLeastZero(r.input);
    assert text == if UnitWh(e).Some? then TextTokens(s, perUnit) else AtLeastZero(s.input);
    TextWhGrows(r, s, text, text, RowFor(e.rows, r.input));
    if UnitWh(e).Some? {
      TimesGrows(0.0, VisualUnits(r, perUnit), UnitWh(e).value);
      TimesSwaps(UnitWh(e).value, VisualUnits(r, perUnit));
    }
  }

  // ---------- a longer prompt on the registry path ----------

  // Energy of an uncached text request.
  function PlainWh(input: nat, output: nat, e: Entry): real {
    RegistryWh(Request(input, output, 0, 0.0, 0), e)
  }

  ghost predicate LongerNeverCheaper(e: Entry) {
    forall i: nat, j: nat, output: nat :: i <= j ==> PlainWh(i, output, e) <= PlainWh(j, output, e)
  }

  // The last prompt of a length is no dearer than the first of the next, on either axis.
  predicate StepsUp(last: nat, a: Coeffs, b: Coeffs) {
    last as real * a.whIn <= (last + 1) as real * b.whIn && a.whOut <= b.whOut
  }

  predicate StepsUpAtLengths(e: Entry) {
    && StepsUp(SHORT_BELOW - 1, RowFor(e.rows, 0), RowFor(e.rows, SHORT_BELOW))
    && StepsUp(MEDIUM_BELOW - 1, RowFor(e.rows, SHORT_BELOW), RowFor(e.rows, MEDIUM_BELOW))
  }

  // A longer prompt never gets less energy exactly when the coefficients step up at both
  // length boundaries.
  lemma LongerNeverCheaperIff(e: Entry)
    requires forall i :: NonNegativeRow(RowFor(e.rows, i))
    ensures LongerNeverCheaper(e) <==> StepsUpAtLengths(e)
  {
    if StepsUpAtLengths(e) {
      hide RowFor, PlainWh, StepsUp;
      forall i: nat, j: nat, output: nat | i <= j ensures PlainWh(i, output, e) <= PlainWh(j, output, e) {
        LongerCosts(i, j, output, e);
      }
    } else if LongerNeverCheaper(e) {
      hide PlainWh, StepsUp;
      if !StepsUp(SHORT_BELOW - 1, RowFor(e.rows, 0), RowFor(e.rows, SHORT_BELOW)) {
        DropsAfter(SHORT_BELOW - 1, e);
      } else {
        DropsAfter(MEDIUM_BELOW - 1, e);
      }
    }
  }

  // The energy in one line.
  lemma PlainIs(input: nat, output: nat, e: Entry)
    ensures
      var c := RowFor(e.rows, input);
      PlainWh(input, output, e) == (input as real * c.whIn + output as real * c.whOut) / 1000.0
  {
    if UnitWh(e).Some? { assert Times(UnitWh(e).value, VisualUnits(Request(input, output, 0, 0.0, 0), PerUnit(e.tokensPerUnit))) == 0.0; }
  }

  lemma DropsAfter(last: nat, e: Entry)
    requires !StepsUp(last, RowFor(e.rows, last), RowFor(e.rows, last + 1))
    ensures exists output: nat :: PlainWh(last + 1, output, e) < PlainWh(last, output, e)
  {
    hide RowFor, PlainWh;
    var a, b := RowFor(e.rows, last), RowFor(e.rows, last + 1);
    var output: nat := if a.whOut <= b.whOut then 0 else EnoughOutput((last + 1) as real * b.whIn - last as real * a.whIn, a.whOut - b.whOut);
    PlainIs(last, output, e);
    PlainIs(last + 1, output, e);
    assert PlainWh(last + 1, output, e) < PlainWh(last, output, e) by {
      if a.whOut > b.whOut {
        assert output as real * (a.whOut - b.whOut) == output as real * a.whOut - output as real * b.whOut;
      } else {
        assert 0.0 * a.whOut == 0.0 && 0.0 * b.whOut == 0.0;
      }
    }
  }

  // Outputs that outweigh a fixed gain at a rate.
  function EnoughOutput(gain: real, rate: real): (n: nat)
    requires rate > 0.0
    ensures n as real * rate > gain
  {
    if gain < 0.0 then 0 else
      QuotientBound(gain, rate);
      Truncated(gain / rate) + 1
  }

  lemma QuotientBound(gain: real, rate: real)
    requires rate > 0.0 && gain >= 0.0
    ensures gain / rate >= 0.0
    ensures (Truncated(gain / rate) + 1) as real * rate > gain
  {
    var q := gain / rate;
    assert q * rate == gain;
    if q < 0.0 { ScaleLt(q, 0.0, rate); }
    ScaleLt(q, (Truncated(q) + 1) as real, rate);
  }

  // Crossing at most two boundaries, each of which steps up.
  lemma LongerCosts(i: nat, j: nat, output: nat, e: Entry)
    requires StepsUpAtLengths(e)
    requires forall k :: NonNegativeRow(RowFor(e.rows, k))
    requires i <= j
    ensures PlainWh(i, output, e) <= PlainWh(j, output, e)
    decreases (if i < SHORT_BELOW <= j then 1 else 0) + (if i < MEDIUM_BELOW <= j then 1 else 0)
  {
    hide PlainWh, StepsUp;
    if i < SHORT_BELOW <= j {
      WithinLength(i, SHORT_BELOW - 1, output, e);
      AcrossLength(SHORT_BELOW - 1, output, e);
      LongerCosts(SHORT_BELOW, j, output, e);
    } else if i < MEDIUM_BELOW <= j {
      WithinLength(i, MEDIUM_BELOW - 1, output, e);
      AcrossLength(MEDIUM_BELOW - 1, output, e);
      LongerCosts(MEDIUM_BELOW, j, output, e);
    } else {
      WithinLength(i, j, output, e);
    }
  }

  lemma WithinLength(i: nat, j: nat, output: nat, e: Entry)
    requires i <= j
    requires RowFor(e.rows, i) == RowFor(e.rows, j) && NonNegativeRow(RowFor(e.rows, i))
    ensures PlainWh(i, output, e) <= PlainWh(j, output, e)
  {
    hide RowFor, PlainWh;
    PlainIs(i, output, e);
    PlainIs(j, output, e);
    ScaleLe(i as real, j as real, RowFor(e.rows, i).whIn);
  }

  lemma AcrossLength(last: nat, output: nat, e: Entry)
    requires StepsUp(last, RowFor(e.rows, last), RowFor(e.rows, last + 1))
    ensures PlainWh(last, output, e) <= PlainWh(last + 1, output, e)
  {
    hide RowFor, PlainWh;
    PlainIs(last, output, e);
    PlainIs(last + 1, output, e);
    var a, b := RowFor(e.rows, last), RowFor(e.rows, last + 1);
    assert output as real * a.whOut <= output as real * b.whOut by {
      ScaleLe(a.whOut, b.whOut, output as real);
    }
  }

  // Prompts below 1000 tokens are priced by the short row, below 5000 by the medium one, and from
  // there on by the long one; a row that is missing is the medium one.
  lemma PromptLengthDecides(input: nat, output: nat, e: Entry, medium: Coeffs)
    requires e.rows.ByPrompt? && e.rows.medium == medium
    ensures
      forall c: Coeffs ::
        && (input < 1000 ==> e.rows.short == Some(c) || (e.rows.short.None? && c == medium))
        && (1000 <= input < 5000 ==> c == medium)
        && (input >= 5000 ==> e.rows.long == Some(c) || (e.rows.long.None? && c == medium)) ==>
          PlainWh(input, output, e) == (input as real * c.whIn + output as real * c.whOut) / 1000.0
  {
    PlainIs(input, output, e);
    hide PlainWh;
  }

  // The shipped gpt-4o row: a prompt of 5000 tokens is given less energy than one of 4999.
  lemma LongerCheaperExample()
    ensures
      var e := Entry(1, ByPrompt(Some(Coeffs(0.376, 1.128)), Coeffs(0.271, 0.813), Some(Coeffs(0.11, 0.33))), None, None);
      PlainWh(5000, 100, e) < PlainWh(4999, 100, e) && !LongerNeverCheaper(e)
  {
    var e := Entry(1, ByPrompt(Some(Coeffs(0.376, 1.128)), Coeffs(0.271, 0.813), Some(Coeffs(0.11, 0.33))), None, None);
    PlainIs(4999, 100, e);
    PlainIs(5000, 100, e);
    hide PlainWh;
  }

  // ---------- what the cache saves ----------

  function Uncached(r: Request): Request { r.(cached := 0) }

  // On both paths the cache saves exactly 0.85 of the input coefficient on the cached text
  // tokens; the visual term, the output and the intercept cancel.
  lemma CacheSavesExactly(r: Request, o: Option<Override>, e: Entry, precision: Precision)
    ensures
      var text :=
        if o.Some? then TextTokens(r, PerUnit(o.value.tokensPerImage))
        else if UnitWh(e).Some? then TextTokens(r, PerUnit(e.tokensPerUnit)) else AtLeastZero(r.input);
      var whIn := if o.Some? then Coefficient(o.value.whIn) else RowFor(e.rows, r.input).whIn;
      var cached := if r.cached <= 0 then 0 else if r.cached <= text then r.cached else text;
      CalculateEnergy(Uncached(r), o, e, precision).wh - CalculateEnergy(r, o, e, precision).wh
      == 0.85 * whIn * cached as real / 1000.0
  {
    hide Times, VisualTokens, VisualUnits, TextWh, RowFor, TextTokens;
    var bare := Uncached(r);
    if o.Some? {
      var perUnit := PerUnit(o.value.tokensPerImage);
      SameWithoutCache(r, perUnit);
      TextWhDiff(r, TextTokens(r, perUnit), Coeffs(Coefficient(o.value.whIn), Coefficient(o.value.whOut)));
    } else {
      var perUnit := PerUnit(e.tokensPerUnit);
      SameWithoutCache(r, perUnit);
      TextWhDiff(r, if UnitWh(e).Some? then TextTokens(r, perUnit) else AtLeastZero(r.input), RowFor(e.rows, r.input));
    }
  }

  lemma SameWithoutCache(r: Request, perUnit: Option<nat>)
    requires perUnit.Some? ==> perUnit.value > 0
    ensures TextTokens(Uncached(r), perUnit) == TextTokens(r, perUnit)
    ensures VisualUnits(Uncached(r), perUnit) == VisualUnits(r, perUnit)
  {
  }

  lemma TextWhDiff(r: Request, text: nat, c: Coeffs)
    ensures TextWh(Uncached(r), text, c) - TextWh(r, text, c)
            == 0.85 * c.whIn * CachedTokens(r, text) as real / 1000.0
  {
    var k := CachedTokens(r, text) as real;
    assert PricedTokens(Uncached(r), text) - PricedTokens(r, text) == 0.85 * k;
    Distribute(PricedTokens(Uncached(r), text), PricedTokens(r, text), c.whIn);
    hide PricedTokens, CachedTokens;
    assert (0.85 * k) * c.whIn == 0.85 * c.whIn * k;
  }

  lemma Distribute(a: real, b: real, w: real)
    ensures Times(a, w) - Times(b, w) == (a - b) * w
  {
  }

  // ---------- one formula ----------

  // Both paths compute one formula: a registry row prices every request as the override with
  // its coefficients would, with its visual ones only where the unit coefficient is not negative.
  lemma RegistryPricesAsOverride(r: Request, e: Entry)
    ensures
      var c := RowFor(e.rows, r.input);
      var text := Override(e.tier, Some(c.whIn), Some(c.whOut), None, None, None);
      && (e.whPerUnit.None? || e.whPerUnit.value < 0.0 ==> RegistryWh(r, e) == OverrideWh(r, text))
      && (e.whPerUnit.Some? && e.whPerUnit.value >= 0.0 ==>
            RegistryWh(r, e) == OverrideWh(r, text.(tokensPerImage := e.tokensPerUnit, whPerImage := e.whPerUnit)))
  {
    hide TextWh, RowFor, VisualUnits, VisualTokens;
    if UnitWh(e).Some? {
      TimesZero(UnitWh(e).value);
    }
  }

  lemma TimesZero(a: real)
    ensures Times(a, 0.0) == 0.0
  {
  }

  // Reporting n images and reporting their n * perImage tokens are priced alike.
  lemma ImagesPriceAsTheirTokens(r: Request, o: Override, n: nat, perImage: nat)
    requires o.tokensPerImage == Some(perImage) && perImage > 0 && n > 0
    ensures OverrideWh(r.(units := n as real, mediaTokens := 0), o)
            == OverrideWh(r.(units := 0.0, mediaTokens := n * perImage), o)
  {
    var byUnits, byTokens := r.(units := n as real, mediaTokens := 0), r.(units := 0.0, mediaTokens := n * perImage);
    WholeProduct(n, perImage);
    hide TextWh, Times;
    assert VisualUnits(byTokens, Some(perImage)) == n as real;
    assert VisualTokens(byTokens, perImage) == VisualTokens(byUnits, perImage);
    TextWhSame(byUnits, byTokens, TextTokens(byUnits, Some(perImage)), Coeffs(Coefficient(o.whIn), Coefficient(o.whOut)));
  }

  lemma TextWhSame(r: Request, s: Request, text: nat, c: Coeffs)
    requires r.cached == s.cached && r.output == s.output
    ensures TextWh(r, text, c) == TextWh(s, text, c)
  {
  }

  lemma WholeProduct(n: nat, k: nat)
    requires n > 0 && k > 0
    ensures n * k > 0 && (n * k) as real == n as real * k as real
    ensures (n * k) as real / k as real == n as real
    ensures 0.0 * k as real == 0.0
  {
  }

  // ---------- whose confidence ----------

  // The estimate for a model name: the matched row, or the conservative default.
  function EnergyOfModel(r: Request, o: Option<Override>, reg: Registry, rows: map<string, Entry>, default: Entry,
                         model: string): Estimate
    requires rows.Keys == reg.energy
  {
    KnownIsRegistryKey(reg, model);
    var m := Resolve(reg, model);
    CalculateEnergy(r, o, if m.known then rows[m.name] else default, m.precision)
  }

  // Without an override a tier better than 3 is never borrowed: it is the default's own, or
  // that of a row the name itself, or its curated alias, is the key of.
  lemma TierIsNotBorrowed(r: Request, reg: Registry, rows: map<string, Entry>, default: Entry, model: string)
    requires rows.Keys == reg.energy
    ensures
      var m, tier := Resolve(reg, model), EnergyOfModel(r, None, reg, rows, default, model).tier;
      tier < 3 && m.known ==>
        && m.name in rows && rows[m.name].tier == tier
        && exists f :: f in Forms(Lower(model)) && (f == m.name || AliasHit(reg, f) == Some(m.name))
  {
    hide Resolve, RegistryWh, Forms;
    KnownIsRegistryKey(reg, model);
    NameOfMatch(reg, model);
    var forms, m := Forms(Lower(model)), Resolve(reg, model);
    if m.precision == Exact {
      var f :| 0 <= f < |forms| && forms[f] == m.name;
      assert forms[f] in forms;
    } else if m.precision == Alias {
      var f :| 0 <= f < |forms| && forms[f] in reg.aliases && reg.aliases[forms[f]] == m.name;
      assert forms[f] in forms && AliasHit(reg, forms[f]) == Some(m.name);
    }
  }

  // And a known name's tier is never better than its row's.
  lemma TierNeverImproves(r: Request, reg: Registry, rows: map<string, Entry>, default: Entry, model: string)
    requires rows.Keys == reg.energy && Resolve(reg, model).known
    ensures
      var m, tier := Resolve(reg, model), EnergyOfModel(r, None, reg, rows, default, model).tier;
      && m.name in rows
      && tier >= rows[m.name].tier
      && (tier > rows[m.name].tier ==> tier == 3 && (m.precision == Prefix || m.precision == Family))
  {
    hide Resolve, RegistryWh, Forms;
    KnownIsRegistryKey(reg, model);
  }
}
