/**
 What a call costs: threshold pricing, cache reads and writes, the two conventions in which
 providers report cached tokens, and the price of a call with its cache saving.
 Follows _calculate_tiered_cost, calculate_cost and the billing part of
 prepare_inference_metrics in src/vetch/calculation.py.
 */
module Cost {
  import opened Wrappers
  import opened Reals

  // A row of the price list.  An absent key is None.
  datatype Price = Price(
    rateIn: real,                       // per 1000 tokens
    rateOut: real,
    threshold: Option<int>,
    multiplier: Option<real>,           // the old single multiplier
    multiplierIn: Option<real>,
    multiplierOut: Option<real>,
    readDiscount: Option<real>,
    creationPremium: Option<real>,
    creationPremium1h: Option<real>)

  datatype Call = Call(
    input: int,
    output: int,
    cached: Option<int>,
    creation: Option<int>,
    creation1h: Option<int>)

  datatype BillingTier = ListPrice | NoPrice | SelfHosted | UnknownPrice | ListTimes(factor: real)

  datatype Bill = Bill(total: real, input: real, output: real, write: real, read: real, tier: BillingTier)

  // ---------- threshold pricing ----------

  // All tokens at the higher rate once the basis is over the threshold.
  function TieredCost(tokens: int, rate: real, threshold: Option<int>, multiplier: Option<real>, basis: int): real {
    if threshold.None? || multiplier.None? then tokens as real * rate / 1000.0
    else if basis <= threshold.value then tokens as real * rate / 1000.0
    else tokens as real * (rate * multiplier.value) / 1000.0
  }

  // Python's "a or b" on optional numbers: an absent or zero first value yields the second.
  function PyOr(a: Option<real>, b: Option<real>): Option<real> {
    if a.Some? && a.value != 0.0 then a else b
  }

  function InputMultiplier(p: Price): Option<real> { PyOr(p.multiplierIn, p.multiplier) }
  function OutputMultiplier(p: Price): Option<real> { PyOr(p.multiplierOut, p.multiplier) }

  function Or(a: Option<real>, default: real): real {
    if a.Some? then a.value else default
  }

  function ReadDiscount(p: Price): real { Or(p.readDiscount, 0.1) }
  function Premium(p: Price): real { Or(p.creationPremium, 1.0) }
  function Premium1h(p: Price): real { Or(p.creationPremium1h, Premium(p)) }

  predicate LongContext(p: Price, input: int) {
    p.threshold.Some? && input > p.threshold.value
  }

  function CacheMultiplier(p: Price, input: int): real {
    var m := InputMultiplier(p);
    if LongContext(p, input) && m.Some? && m.value != 0.0 then m.value else 1.0
  }

  // Token counts that are truthy and positive.
  function Positive(n: Option<int>): (k: nat)
    ensures k as int == if n.Some? && n.value > 0 then n.value else 0
  {
    if n.Some? && n.value > 0 then n.value else 0
  }

  function FreshTokens(c: Call): int {
    if Positive(c.cached) > 0 then (if c.input > Positive(c.cached) then c.input - Positive(c.cached) else 0)
    else c.input
  }

  function Writes1h(c: Call): (k: nat)
    ensures k <= Positive(c.creation)
  {
    if Positive(c.creation1h) < Positive(c.creation) then Positive(c.creation1h) else Positive(c.creation)
  }

  function Writes5m(c: Call): nat { Positive(c.creation) - Writes1h(c) }

  const NOTHING := Bill(0.0, 0.0, 0.0, 0.0, 0.0, NoPrice)

  // The price is None for an unknown or unpriced model.
  function CalculateCost(c: Call, price: Option<Price>): Bill {
    if price.None? then NOTHING
    else
      var p := price.value;
      var m := CacheMultiplier(p, c.input);
      var read :=
        if Positive(c.cached) > 0 then Positive(c.cached) as real * p.rateIn * m * ReadDiscount(p) / 1000.0 else 0.0;
      var write :=
        if Positive(c.creation) > 0 then
          (Writes5m(c) as real * p.rateIn * m * Premium(p) + Writes1h(c) as real * p.rateIn * m * Premium1h(p)) / 1000.0
        else 0.0;
      var input := TieredCost(FreshTokens(c), p.rateIn, p.threshold, InputMultiplier(p), c.input) + write + read;
      var output := TieredCost(c.output, p.rateOut, p.threshold, OutputMultiplier(p), c.input);
      Bill(input + output, input, output, write, read, ListPrice)
  }

  // ---------- the closed form ----------

  // Tokens weighted by what one of each kind costs against a fresh one.
  function Weight(c: Call, p: Price): real {
    WeightOf(FreshTokens(c), Positive(c.cached), Writes5m(c), Writes1h(c), p)
  }

  function WeightOf(plain: int, cached: nat, writes5m: nat, writes1h: nat, p: Price): real {
    plain as real + Times(cached as real, ReadDiscount(p))
    + Times(writes5m as real, Premium(p)) + Times(writes1h as real, Premium1h(p))
  }

  // One rate, one multiplier picked by the whole input, one weighted token count.
  function InputProduct(c: Call, p: Price): real {
    InputRate(c, p) * Weight(c, p) / 1000.0
  }

  function InputRate(c: Call, p: Price): real { p.rateIn * CacheMultiplier(p, c.input) }

  // A long call whose input multiplier is a stored zero: fresh tokens are then free, but
  // cached ones are billed at the base rate.
  predicate ZeroMultiplier(c: Call, p: Price) {
    LongContext(p, c.input) && InputMultiplier(p) == Some(0.0)
  }

  lemma Regroup(rate: real, m: real, plain: real, cached: real, discount: real, w5: real, p5: real, w1: real, p1: real)
    ensures plain * (rate * m) / 1000.0 + (w5 * rate * m * p5 + w1 * rate * m * p1) / 1000.0
            + cached * rate * m * discount / 1000.0
            == rate * m * (plain + cached * discount + w5 * p5 + w1 * p1) / 1000.0
  {
    var k := rate * m;
    assert w5 * rate * m * p5 == k * (w5 * p5) by { Reorder(w5, rate, m, p5); }
    assert w1 * rate * m * p1 == k * (w1 * p1) by { Reorder(w1, rate, m, p1); }
    assert cached * rate * m * discount == k * (cached * discount) by { Reorder(cached, rate, m, discount); }
    Spread(k, plain, cached * discount, w5 * p5, w1 * p1);
  }

  lemma Reorder(a: real, rate: real, m: real, f: real)
    ensures a * rate * m * f == rate * m * (a * f)
  {
    var k := rate * m;
    calc {
      a * rate * m * f;
      (a * k) * f;
      (k * a) * f;
      k * (a * f);
    }
  }

  lemma Spread(k: real, a: real, b: real, c: real, d: real)
    ensures k * (a + b + c + d) == a * k + k * b + k * c + k * d
  {
  }

  // The input side of a priced call is the closed form exactly when the multiplier is not a
  // stored zero, or no fresh token is billed.
  lemma InputClosedFormIff(c: Call, p: Price)
    ensures
      CalculateCost(c, Some(p)).input == InputProduct(c, p) <==>
        !ZeroMultiplier(c, p) || FreshTokens(c) == 0 || p.rateIn == 0.0
  {
    InputSplits(c, p);
    var m := CacheMultiplier(p, c.input);
    FreshTerm(c, p);
    hide CalculateCost, Weight, FreshTokens, CacheMultiplier;
    if ZeroMultiplier(c, p) {
      assert p.rateIn * 1.0 == p.rateIn;
      NonZeroProduct(FreshTokens(c) as real, p.rateIn);
    }
  }

  lemma NonZeroProduct(a: real, b: real)
    ensures a * b == 0.0 <==> a == 0.0 || b == 0.0
  {
  }

  // The input cost, less the fresh term when that is free.
  lemma InputSplits(c: Call, p: Price)
    ensures
      var k := p.rateIn * CacheMultiplier(p, c.input);
      CalculateCost(c, Some(p)).input
      == k * Weight(c, p) / 1000.0 - if ZeroMultiplier(c, p) then FreshTokens(c) as real * k / 1000.0 else 0.0
  {
    var m := CacheMultiplier(p, c.input);
    Regroup(p.rateIn, m, FreshTokens(c) as real, Positive(c.cached) as real, ReadDiscount(p),
            Writes5m(c) as real, Premium(p), Writes1h(c) as real, Premium1h(p));
    FreshTerm(c, p);
    WriteCostIs(c, p);
    ReadCostIs(c, p);
    InputIsSum(c, p);
    hide CalculateCost, CacheMultiplier, TieredCost, FreshTokens, ZeroMultiplier, ReadDiscount, Premium, Premium1h,
      Writes1h, Writes5m, Positive;
  }

  lemma InputIsSum(c: Call, p: Price)
    ensures
      var bill := CalculateCost(c, Some(p));
      bill.input
      == TieredCost(FreshTokens(c), p.rateIn, p.threshold, InputMultiplier(p), c.input) + bill.write + bill.read
  {
  }

  lemma WriteCostIs(c: Call, p: Price)
    ensures
      var m := CacheMultiplier(p, c.input);
      CalculateCost(c, Some(p)).write
      == (Writes5m(c) as real * p.rateIn * m * Premium(p) + Writes1h(c) as real * p.rateIn * m * Premium1h(p)) / 1000.0
  {
    if Positive(c.creation) == 0 {
      var m := CacheMultiplier(p, c.input);
      assert 0.0 * p.rateIn * m * Premium(p) == 0.0;
      assert 0.0 * p.rateIn * m * Premium1h(p) == 0.0;
    }
  }

  lemma ReadCostIs(c: Call, p: Price)
    ensures
      CalculateCost(c, Some(p)).read
      == Positive(c.cached) as real * p.rateIn * CacheMultiplier(p, c.input) * ReadDiscount(p) / 1000.0
  {
    if Positive(c.cached) == 0 {
      assert 0.0 * p.rateIn * CacheMultiplier(p, c.input) * ReadDiscount(p) == 0.0;
    }
  }

  // The fresh tokens are billed at the cache terms' rate unless the multiplier is zero.
  lemma FreshTerm(c: Call, p: Price)
    ensures
      TieredCost(FreshTokens(c), p.rateIn, p.threshold, InputMultiplier(p), c.input)
      == (if ZeroMultiplier(c, p) then 0.0
          else FreshTokens(c) as real * (p.rateIn * CacheMultiplier(p, c.input)) / 1000.0)
    ensures ZeroMultiplier(c, p) ==> CacheMultiplier(p, c.input) == 1.0
  {
    assert p.rateIn * 1.0 == p.rateIn;
    if ZeroMultiplier(c, p) {
      assert p.rateIn * 0.0 == 0.0;
      assert FreshTokens(c) as real * 0.0 == 0.0;
    }
  }

  // What a stored zero does: a long call with every token fresh has a free input.
  lemma ZeroMultiplierExample()
    ensures
      var p := Price(1.0, 1.0, Some(1000), None, Some(0.0), None, None, None, None).(multiplier := Some(0.0));
      && CalculateCost(Call(1000, 0, None, None, None), Some(p)).input == 1.0
      && CalculateCost(Call(2000, 0, None, None, None), Some(p)).input == 0.0
      && CalculateCost(Call(2000, 0, Some(2000), None, None), Some(p)).input == 0.2
  {
  }

  // The length of the prompt, not of the answer, sets the rate of the answer: over the
  // threshold the same output costs its multiplier times as much, and the rate is per token.
  lemma OutputTierByInput(short: Call, long: Call, p: Price)
    requires !LongContext(p, short.input) && LongContext(p, long.input) && short.output == long.output
    ensures
      var m := if OutputMultiplier(p).Some? then OutputMultiplier(p).value else 1.0;
      && CalculateCost(long, Some(p)).output == m * CalculateCost(short, Some(p)).output
      && CalculateCost(short, Some(p)).output * 1000.0 == short.output as real * p.rateOut
  {
    var m := OutputMultiplier(p);
    if m.Some? { Swap(long.output as real, p.rateOut, m.value); }
    hide LongContext;
    assert p.threshold.Some?;
    ScaledTier(short.output as real, p.rateOut, if m.Some? then m.value else 1.0);
  }

  lemma ScaledTier(tokens: real, rate: real, m: real)
    ensures tokens * (rate * m) / 1000.0 == m * (tokens * rate / 1000.0)
  {
    assert tokens * (rate * m) == m * (tokens * rate);
  }

  // ---------- one cached token more ----------

  // Reading one more token of the prompt from the cache bills it at the discounted rate instead
  // of the full one, and shows its price in the read part.
  lemma OneMoreRead(c: Call, more: Call, p: Price)
    requires !ZeroMultiplier(c, p) && Positive(c.cached) < c.input
    requires more == c.(cached := Some(Positive(c.cached) + 1))
    ensures
      var bill, next := CalculateCost(c, Some(p)), CalculateCost(more, Some(p));
      && next.input - bill.input == InputRate(c, p) * (ReadDiscount(p) - 1.0) / 1000.0
      && next.read - bill.read == InputRate(c, p) * ReadDiscount(p) / 1000.0
      && next.write == bill.write && next.output == bill.output
  {
    hide CalculateCost, Weight, CacheMultiplier, ReadDiscount, InputProduct, InputRate, ZeroMultiplier;
    ReadMovesInput(c, more, p);
    ReadMovesRead(c, more, p);
    SameWritesAndOutput(c, more, p);
  }

  lemma ReadMovesInput(c: Call, more: Call, p: Price)
    requires !ZeroMultiplier(c, p) && Positive(c.cached) < c.input
    requires more == c.(cached := Some(Positive(c.cached) + 1))
    ensures CalculateCost(more, Some(p)).input - CalculateCost(c, Some(p)).input
            == InputRate(c, p) * (ReadDiscount(p) - 1.0) / 1000.0
  {
    hide CalculateCost, Weight, InputRate, ZeroMultiplier, ReadDiscount;
    SameRate(c, more, p);
    WeightOfOneRead(c, more, p);
    InputAtRate(c, p);
    InputAtRate(more, p);
    ScaleDiff(InputRate(c, p), Weight(more, p), Weight(c, p));
  }

  lemma SameRate(c: Call, d: Call, p: Price)
    requires d == c.(cached := d.cached)
    ensures InputRate(d, p) == InputRate(c, p) && ZeroMultiplier(d, p) == ZeroMultiplier(c, p)
  {
    hide CacheMultiplier;
  }

  lemma InputAtRate(c: Call, p: Price)
    requires !ZeroMultiplier(c, p)
    ensures CalculateCost(c, Some(p)).input == InputRate(c, p) * Weight(c, p) / 1000.0
  {
    hide CalculateCost, Weight, InputRate, ZeroMultiplier, FreshTokens;
    InputClosedFormIff(c, p);
  }

  lemma WeightOfOneRead(c: Call, more: Call, p: Price)
    requires Positive(c.cached) < c.input && more == c.(cached := Some(Positive(c.cached) + 1))
    ensures Weight(more, p) - Weight(c, p) == ReadDiscount(p) - 1.0
  {
    assert FreshTokens(more) == FreshTokens(c) - 1 && Positive(more.cached) == Positive(c.cached) + 1;
    assert Writes1h(more) == Writes1h(c) && Writes5m(more) == Writes5m(c);
    OneMore(Positive(c.cached) as real, ReadDiscount(p));
    hide Times, ReadDiscount, Premium, Premium1h, FreshTokens, Writes1h, Writes5m;
  }

  lemma ReadMovesRead(c: Call, more: Call, p: Price)
    requires more == c.(cached := Some(Positive(c.cached) + 1))
    ensures CalculateCost(more, Some(p)).read - CalculateCost(c, Some(p)).read
            == InputRate(c, p) * ReadDiscount(p) / 1000.0
  {
    hide CalculateCost, CacheMultiplier, ReadDiscount;
    ReadCostIs(c, p);
    ReadCostIs(more, p);
    UnitPrice(p.rateIn, CacheMultiplier(p, c.input), Positive(c.cached) as real, ReadDiscount(p));
  }

  // Reads change neither the writes nor the output.
  lemma SameWritesAndOutput(c: Call, d: Call, p: Price)
    requires d == c.(cached := d.cached)
    ensures CalculateCost(c, Some(p)).write == CalculateCost(d, Some(p)).write
    ensures CalculateCost(c, Some(p)).output == CalculateCost(d, Some(p)).output
  {
  }

  lemma OneMore(n: real, k: real)
    ensures Times(n + 1.0, k) == Times(n, k) + k
  {
  }

  lemma UnitPrice(rate: real, m: real, n: real, factor: real)
    ensures (n + 1.0) * rate * m * factor / 1000.0 - n * rate * m * factor / 1000.0 == rate * m * factor / 1000.0
  {
    Reorder(n + 1.0, rate, m, factor);
    Reorder(n, rate, m, factor);
    assert rate * m * ((n + 1.0) * factor) == rate * m * (n * factor) + rate * m * factor;
  }

  // Writing one more token costs the five-minute premium; giving one write the longer life
  // costs the difference of the premiums; the reads and the output stand.
  lemma OneMoreWrite(c: Call, more: Call, hour: Call, p: Price)
    requires more == c.(creation := Some(Positive(c.creation) + 1))
    requires Writes1h(c) < Positive(c.creation) && hour == c.(creation1h := Some(Writes1h(c) + 1))
    ensures
      var bill, next, kept := CalculateCost(c, Some(p)), CalculateCost(more, Some(p)), CalculateCost(hour, Some(p));
      && next.write - bill.write == InputRate(c, p) * Premium(p) / 1000.0
      && kept.write - bill.write == InputRate(c, p) * (Premium1h(p) - Premium(p)) / 1000.0
      && next.input - bill.input == next.write - bill.write && kept.input - bill.input == kept.write - bill.write
      && next.read == bill.read == kept.read && next.output == bill.output == kept.output
  {
    hide CalculateCost, CacheMultiplier, Premium, Premium1h, TieredCost, FreshTokens, InputMultiplier;
    WriteCostIs(c, p);
    WriteCostIs(more, p);
    WriteCostIs(hour, p);
    InputIsSum(c, p);
    InputIsSum(more, p);
    InputIsSum(hour, p);
    assert Writes1h(more) == Writes1h(c) && Writes5m(more) == Writes5m(c) + 1;
    assert Writes1h(hour) == Writes1h(c) + 1 && Writes5m(hour) == Writes5m(c) - 1;
    hide Writes1h, Writes5m;
    UnitPrice(p.rateIn, CacheMultiplier(p, c.input), Writes5m(c) as real, Premium(p));
    UnitPrice(p.rateIn, CacheMultiplier(p, c.input), Writes5m(c) as real - 1.0, Premium(p));
    UnitPrice(p.rateIn, CacheMultiplier(p, c.input), Writes1h(c) as real, Premium1h(p));
    SameReadsAndOutput(c, more, p);
    SameReadsAndOutput(c, hour, p);
    ScaleDiff(InputRate(c, p), Premium1h(p), Premium(p));
  }

  // Writes change neither the reads nor the output nor the fresh tokens.
  lemma SameReadsAndOutput(c: Call, d: Call, p: Price)
    requires d == c.(creation := d.creation, creation1h := d.creation1h)
    ensures CalculateCost(c, Some(p)).read == CalculateCost(d, Some(p)).read
    ensures CalculateCost(c, Some(p)).output == CalculateCost(d, Some(p)).output
    ensures FreshTokens(c) == FreshTokens(d) && c.input == d.input
  {
  }

  // ---------- which price serves what ----------

  // Over the threshold each side of a bill is multiplied by its own field, and by the old common
  // field where its own is absent or zero.
  lemma EachSideHasItsMultiplier(input: int, output: int, p: Price)
    requires p.threshold.Some? && input > p.threshold.value
    ensures
      var bill := CalculateCost(Uncached(input, output), Some(p));
      && (forall m :: p.multiplierIn == Some(m) && m != 0.0 ==> bill.input == input as real * (p.rateIn * m) / 1000.0)
      && (forall m :: p.multiplierOut == Some(m) && m != 0.0 ==> bill.output == output as real * (p.rateOut * m) / 1000.0)
      && (forall m :: p.multiplierIn in {None, Some(0.0)} && p.multiplier == Some(m) ==>
            bill.input == input as real * (p.rateIn * m) / 1000.0)
      && (forall m :: p.multiplierOut in {None, Some(0.0)} && p.multiplier == Some(m) ==>
            bill.output == output as real * (p.rateOut * m) / 1000.0)
      && (p.multiplierIn == None == p.multiplier ==> bill.input == input as real * p.rateIn / 1000.0)
      && (p.multiplierOut == None == p.multiplier ==> bill.output == output as real * p.rateOut / 1000.0)
  {
    UncachedInput(input, output, p);
  }

  // Up to the threshold neither is multiplied.
  lemma ShortBill(input: int, output: int, p: Price)
    requires p.threshold.Some? ==> input <= p.threshold.value
    ensures CalculateCost(Uncached(input, output), Some(p)).input == input as real * p.rateIn / 1000.0
    ensures CalculateCost(Uncached(input, output), Some(p)).output == output as real * p.rateOut / 1000.0
  {
    UncachedInput(input, output, p);
  }

  // With no cache prices given, a read costs a tenth of a fresh token, a write as much as one, and
  // a write of the longer life as much as any other.
  lemma CachePricesByDefault(p: Price)
    requires p.readDiscount.None? && p.creationPremium.None? && p.creationPremium1h.None? && p.threshold.None?
    ensures CalculateCost(Call(1, 0, Some(1), None, None), Some(p)).input
            == CalculateCost(Uncached(1, 0), Some(p)).input * 0.1
    ensures CalculateCost(Call(0, 0, None, Some(1), None), Some(p)).input == CalculateCost(Uncached(1, 0), Some(p)).input
    ensures CalculateCost(Call(0, 0, None, Some(1), Some(1)), Some(p)).input == CalculateCost(Uncached(1, 0), Some(p)).input
  {
  }

  // A price of their own decides each of the three; the longer life falls back on the shorter.
  lemma CachePricesAsGiven(p: Price, read: real, write: real)
    requires p.readDiscount == Some(read) && p.creationPremium == Some(write) && p.threshold.None?
    ensures CalculateCost(Call(1, 0, Some(1), None, None), Some(p)).input * 1000.0 == p.rateIn * read
    ensures CalculateCost(Call(0, 0, None, Some(1), None), Some(p)).input * 1000.0 == p.rateIn * write
    ensures CalculateCost(Call(0, 0, None, Some(1), Some(1)), Some(p)).input * 1000.0
            == p.rateIn * if p.creationPremium1h.Some? then p.creationPremium1h.value else write
  {
  }

  // ---------- monotone cost ----------

  function Uncached(input: int, output: int): Call { Call(input, output, None, None, None) }

  ghost predicate InputNeverFalls(p: Price, output: int) {
    forall i: nat, j: nat ::
      i <= j ==> CalculateCost(Uncached(i, output), Some(p)).input <= CalculateCost(Uncached(j, output), Some(p)).input
  }

  // The jump at the threshold must not undo the token that crosses it.
  predicate JumpsUp(p: Price) {
    p.threshold.None? || InputMultiplier(p).None?
    || (if p.threshold.value < 0 then InputMultiplier(p).value >= 0.0
        else (p.threshold.value + 1) as real * InputMultiplier(p).value >= p.threshold.value as real)
  }

  // More input tokens never cost less exactly when the first token over the threshold does
  // not: a multiplier of one or more is enough, and t / (t + 1) already is.
  lemma InputNeverFallsIff(p: Price, output: int)
    requires p.rateIn > 0.0
    ensures InputNeverFalls(p, output) <==> JumpsUp(p)
  {
    if JumpsUp(p) {
      forall i: nat, j: nat | i <= j
        ensures CalculateCost(Uncached(i, output), Some(p)).input <= CalculateCost(Uncached(j, output), Some(p)).input
      {
        UncachedInput(i, output, p);
        UncachedInput(j, output, p);
        TieredMonotone(i, j, p.rateIn, p.threshold, InputMultiplier(p));
      }
    } else if InputNeverFalls(p, output) {
      var t := if p.threshold.value < 0 then 0 else p.threshold.value;
      UncachedInput(t, output, p);
      UncachedInput(t + 1, output, p);
      assert CalculateCost(Uncached(t, output), Some(p)).input
          <= CalculateCost(Uncached(t + 1, output), Some(p)).input;
      FallsAt(t, p);
    }
  }

  lemma UncachedInput(i: int, output: int, p: Price)
    ensures CalculateCost(Uncached(i, output), Some(p)).input
            == TieredCost(i, p.rateIn, p.threshold, InputMultiplier(p), i)
  {
  }

  lemma FallsAt(t: nat, p: Price)
    requires p.rateIn > 0.0 && !JumpsUp(p)
    requires t == if p.threshold.value < 0 then 0 else p.threshold.value
    ensures TieredCost(t + 1, p.rateIn, p.threshold, InputMultiplier(p), t + 1)
            < TieredCost(t, p.rateIn, p.threshold, InputMultiplier(p), t)
  {
    var m, rate := InputMultiplier(p).value, p.rateIn;
    Swap((t + 1) as real, rate, m);
    if p.threshold.value < 0 {
      Swap(t as real, rate, m);
      Scale(rate, m, 0.0);
    } else {
      Scale(rate, (t + 1) as real * m, t as real);
    }
  }

  lemma Swap(a: real, rate: real, m: real)
    ensures a * (rate * m) == rate * (a * m)
  {
  }

  lemma Commute(a: real, b: real)
    ensures a * b == b * a
  {
  }

  lemma Scale(rate: real, a: real, b: real)
    requires rate > 0.0 && a < b
    ensures rate * a < rate * b
  {
  }

  lemma ScaleUp(rate: real, a: real, b: real)
    requires rate >= 0.0 && a <= b
    ensures rate * a <= rate * b
  {
  }

  lemma TieredMonotone(i: nat, j: nat, rate: real, threshold: Option<int>, multiplier: Option<real>)
    requires i <= j && rate >= 0.0
    requires
      threshold.Some? && multiplier.Some? ==>
        if threshold.value < 0 then multiplier.value >= 0.0
        else (threshold.value + 1) as real * multiplier.value >= threshold.value as real
    ensures TieredCost(i, rate, threshold, multiplier, i) <= TieredCost(j, rate, threshold, multiplier, j)
  {
    if threshold.None? || multiplier.None? || j <= threshold.value {
      ScaleUp(rate, i as real, j as real);
    } else {
      var t, m := threshold.value, multiplier.value;
      NonNegative(t, m);
      Swap(j as real, rate, m);
      if i <= t {
        CrossesUp(i, j, t, m);
        ScaleUp(rate, i as real, j as real * m);
      } else {
        Swap(i as real, rate, m);
        ScaleUp(m, i as real, j as real);
        Commute(m, i as real);
        Commute(m, j as real);
        ScaleUp(rate, i as real * m, j as real * m);
      }
    }
  }

  lemma CrossesUp(i: nat, j: nat, t: int, m: real)
    requires i <= t < j && m >= 0.0 && (t + 1) as real * m >= t as real
    ensures i as real <= j as real * m
  {
    ScaleUp(m, (t + 1) as real, j as real);
    Commute(m, (t + 1) as real);
    Commute(m, j as real);
  }

  lemma NonNegative(t: int, m: real)
    requires if t < 0 then m >= 0.0 else (t + 1) as real * m >= t as real
    ensures m >= 0.0
  {
    if t >= 0 && m < 0.0 { Scale((t + 1) as real, m, 0.0); }
  }

  predicate Sensible(p: Price) {
    && p.rateIn >= 0.0 && p.rateOut >= 0.0
    && ReadDiscount(p) >= 0.0 && Premium(p) >= 0.0 && Premium1h(p) >= 0.0
    && (InputMultiplier(p).Some? ==> InputMultiplier(p).value >= 1.0)
    && (OutputMultiplier(p).Some? ==> OutputMultiplier(p).value >= 1.0)
  }

  // With multipliers of at least one, cached or not, no side of a bill falls as input grows.
  lemma BillNeverFalls(c: Call, more: Call, p: Price)
    requires Sensible(p) && 0 <= c.input <= more.input && more == c.(input := more.input) && c.output >= 0
    ensures CalculateCost(c, Some(p)).input <= CalculateCost(more, Some(p)).input
    ensures CalculateCost(c, Some(p)).output <= CalculateCost(more, Some(p)).output
    ensures CalculateCost(c, Some(p)).total <= CalculateCost(more, Some(p)).total
    ensures CalculateCost(c, Some(p)).input >= 0.0 && CalculateCost(c, Some(p)).output >= 0.0
  {
    assert p.rateIn >= 0.0;
    hide Weight, CacheMultiplier, CalculateCost, ReadDiscount, Premium, Premium1h, InputMultiplier, OutputMultiplier,
      InputProduct, Sensible;
    InputIsProduct(c, p);
    InputIsProduct(more, p);
    WeightGrows(c, more, p);
    MultiplierGrows(c.input, more.input, p);
    InputProductGrows(c, more, p);
    OutputGrows(c, more, p);
    BillAddsUp(c, Some(p));
    BillAddsUp(more, Some(p));
  }

  lemma InputIsProduct(c: Call, p: Price)
    requires Sensible(p)
    ensures CalculateCost(c, Some(p)).input == InputProduct(c, p)
  {
    assert !ZeroMultiplier(c, p);
    hide Sensible, CalculateCost, InputProduct, ZeroMultiplier, FreshTokens;
    InputClosedFormIff(c, p);
  }

  lemma InputProductGrows(c: Call, more: Call, p: Price)
    requires p.rateIn >= 0.0
    requires 0.0 <= CacheMultiplier(p, c.input) <= CacheMultiplier(p, more.input)
    requires 0.0 <= Weight(c, p) <= Weight(more, p)
    ensures 0.0 <= InputProduct(c, p) <= InputProduct(more, p)
  {
    hide Weight, CacheMultiplier;
    ProductGrows(p.rateIn, CacheMultiplier(p, c.input), CacheMultiplier(p, more.input), Weight(c, p), Weight(more, p));
  }

  lemma MultiplierGrows(i: int, j: int, p: Price)
    requires Sensible(p) && i <= j
    ensures 1.0 <= CacheMultiplier(p, i) <= CacheMultiplier(p, j)
  {
  }

  lemma ProductGrows(rate: real, m: real, n: real, w: real, v: real)
    requires rate >= 0.0 && 0.0 <= m <= n && 0.0 <= w <= v
    ensures 0.0 <= rate * m * w / 1000.0 <= rate * n * v / 1000.0
  {
    ScaleUp(rate, 0.0, m);
    ScaleUp(rate, m, n);
    ScaleUp(rate * m, 0.0, w);
    ScaleUp(rate * m, w, v);
    ScaleUp(v, rate * m, rate * n);
    Commute(v, rate * m);
    Commute(v, rate * n);
  }

  lemma WeightGrows(c: Call, more: Call, p: Price)
    requires Sensible(p) && 0 <= c.input <= more.input && more == c.(input := more.input)
    ensures 0.0 <= Weight(c, p) <= Weight(more, p)
  {
    hide Sensible, WeightOf;
    assert 0 <= FreshTokens(c) <= FreshTokens(more);
    assert Writes1h(more) == Writes1h(c) && Writes5m(more) == Writes5m(c);
    WeightOfGrows(FreshTokens(c), FreshTokens(more), Positive(c.cached), Writes5m(c), Writes1h(c), p);
  }

  lemma WeightOfGrows(plain: nat, more: nat, cached: nat, writes5m: nat, writes1h: nat, p: Price)
    requires Sensible(p) && plain <= more
    ensures 0.0 <= WeightOf(plain, cached, writes5m, writes1h, p) <= WeightOf(more, cached, writes5m, writes1h, p)
  {
    hide Times;
    TimesNotNegative(cached as real, ReadDiscount(p));
    TimesNotNegative(writes5m as real, Premium(p));
    TimesNotNegative(writes1h as real, Premium1h(p));
  }

  lemma TimesNotNegative(x: real, factor: real)
    requires x >= 0.0 && factor >= 0.0
    ensures Times(x, factor) >= 0.0
  {
  }

  lemma OutputGrows(c: Call, more: Call, p: Price)
    requires Sensible(p) && c.input <= more.input && more == c.(input := more.input) && c.output >= 0
    ensures 0.0 <= CalculateCost(c, Some(p)).output <= CalculateCost(more, Some(p)).output
  {
    var o := c.output as real;
    ScaleUp(p.rateOut, 0.0, o);
    var m := OutputMultiplier(p);
    if m.Some? {
      ScaleUp(p.rateOut, 1.0, m.value);
      ScaleUp(o, p.rateOut, p.rateOut * m.value);
    }
  }

  // ---------- the two token conventions ----------

  // Providers whose input count leaves the cached tokens out.
  predicate Disjoint(provider: string) { provider == "anthropic" }

  function BillableInput(provider: string, input: int, cached: Option<int>): int {
    if Disjoint(provider) && Positive(cached) > 0 then input + Positive(cached) else input
  }

  function BilledCall(provider: string, c: Call): Call {
    c.(input := BillableInput(provider, c.input, c.cached))
  }

  // Every fresh token is billed as fresh exactly when the provider reports the reads apart, or
  // there are none; otherwise none is billed once the reads reach the input.
  lemma FreshTokensAreBilledIff(provider: string, c: Call)
    requires c.input > 0
    ensures FreshTokens(BilledCall(provider, c)) == c.input <==> Disjoint(provider) || Positive(c.cached) == 0
    ensures FreshTokens(BilledCall(provider, c)) == 0 <==> !Disjoint(provider) && Positive(c.cached) >= c.input
  {
  }

  // So a disjoint provider's input is billed for all its fresh tokens however large the read,
  // at the rate of the two together.
  lemma DisjointBillsEveryFreshToken(provider: string, c: Call, p: Price)
    requires Disjoint(provider) && c.input >= 0
    requires !ZeroMultiplier(BilledCall(provider, c), p)
    ensures
      CalculateCost(BilledCall(provider, c), Some(p)).input
      == InputRate(BilledCall(provider, c), p)
         * (c.input as real + Positive(c.cached) as real * ReadDiscount(p)
            + Writes5m(c) as real * Premium(p) + Writes1h(c) as real * Premium1h(p)) / 1000.0
  {
    hide CalculateCost, ZeroMultiplier, BilledCall, InputRate, Weight, FreshTokens, Writes5m, Writes1h, Positive,
      ReadDiscount, Premium, Premium1h;
    InputClosedFormIff(BilledCall(provider, c), p);
    DisjointWeight(provider, c, p);
  }

  lemma DisjointWeight(provider: string, c: Call, p: Price)
    requires Disjoint(provider) && c.input >= 0
    ensures
      Weight(BilledCall(provider, c), p)
      == c.input as real + Positive(c.cached) as real * ReadDiscount(p)
         + Writes5m(c) as real * Premium(p) + Writes1h(c) as real * Premium1h(p)
  {
    var billed := BilledCall(provider, c);
    assert FreshTokens(billed) == c.input;
    assert Writes5m(billed) == Writes5m(c) && Writes1h(billed) == Writes1h(c) && billed.cached == c.cached;
    hide ReadDiscount, Premium, Premium1h, FreshTokens, Writes5m, Writes1h, Positive, BilledCall;
  }

  // ---------- the price of a call ----------

  datatype Pricing = Pricing(
    cost: Option<real>,
    costIn: Option<real>,
    costOut: Option<real>,
    write: real,
    read: real,
    tier: BillingTier,
    saving: Option<real>)

  predicate SelfHostedProvider(provider: string) { provider == "self-hosted" || provider == "ollama" }
  predicate UnknownPriceProvider(provider: string) { provider == "openai-compatible" }
  predicate ListBilled(provider: string) { !SelfHostedProvider(provider) && !UnknownPriceProvider(provider) }

  // What the cache saved: the same call with no reads, less what was billed, never negative.
  function SavingOf(billed: Call, price: Option<Price>, factor: real, cost: real): real {
    AtLeastZero(Times(CalculateCost(billed.(cached := Some(0)), price).total, factor) - cost)
  }

  // max(0.0, x)
  function AtLeastZero(x: real): real { if x > 0.0 then x else 0.0 }

  lemma ProvidersDiffer(provider: string)
    ensures SelfHostedProvider(provider) ==> !UnknownPriceProvider(provider) && !Disjoint(provider)
    ensures UnknownPriceProvider(provider) ==> !Disjoint(provider)
  {
    if SelfHostedProvider(provider) { assert |provider| == 11 || |provider| == 6; }
    if UnknownPriceProvider(provider) { assert |provider| == 17; }
  }

  function PriceOf(provider: string, c: Call, price: Option<Price>, factor: real): Pricing {
    var billed := BilledCall(provider, c);
    if UnknownPriceProvider(provider) then Pricing(None, None, None, 0.0, 0.0, UnknownPrice, None)
    else
      var bill := if SelfHostedProvider(provider) then NOTHING else CalculateCost(billed, price);
      Pricing(
        Some(Times(bill.total, factor)), Some(Times(bill.input, factor)), Some(Times(bill.output, factor)),
        Times(bill.write, factor), Times(bill.read, factor),
        if factor != 1.0 then ListTimes(factor) else if SelfHostedProvider(provider) then SelfHosted else bill.tier,
        if Positive(c.cached) > 0 then Some(SavingOf(billed, price, factor, Times(bill.total, factor))) else None)
  }

  lemma Unit(x: real, factor: real)
    ensures Times(0.0, factor) == 0.0
    ensures factor == 1.0 ==> Times(x, factor) == x
  {
  }

  lemma ForAllUnit(factor: real)
    ensures Times(0.0, factor) == 0.0
    ensures factor == 1.0 ==> forall x :: Times(x, factor) == x
  {
    forall x ensures Times(0.0, factor) == 0.0 && (factor == 1.0 ==> Times(x, factor) == x) { Unit(x, factor); }
  }

  class InferenceMetrics {
    var costUsd: Option<real>
    var costInUsd: Option<real>
    var costOutUsd: Option<real>
    var costCacheWriteUsd: real
    var costCacheReadUsd: real
    var billingTier: BillingTier
    var cacheCostSavingUsd: Option<real>

    constructor ()
      ensures Priced() == Pricing(None, None, None, 0.0, 0.0, ListPrice, None)
    {
      costUsd, costInUsd, costOutUsd := None, None, None;
      costCacheWriteUsd, costCacheReadUsd := 0.0, 0.0;
      billingTier, cacheCostSavingUsd := ListPrice, None;
    }

    function Priced(): Pricing
      reads this
    {
      Pricing(costUsd, costInUsd, costOutUsd, costCacheWriteUsd, costCacheReadUsd, billingTier,
              cacheCostSavingUsd)
    }

    // The billing part of prepare_inference_metrics, on metrics not yet priced.
    method PriceCall(provider: string, c: Call, price: Option<Price>, factor: real)
      requires Priced() == Pricing(None, None, None, 0.0, 0.0, ListPrice, None)
      modifies this
      ensures Priced() == PriceOf(provider, c, price, factor)
    {
      hide CalculateCost, Times, Positive;
      ForAllUnit(factor);
      ProvidersDiffer(provider);
      var billed := c;
      if Disjoint(provider) && Positive(c.cached) > 0 {
        billed := c.(input := c.input + Positive(c.cached));
      }
      if SelfHostedProvider(provider) {
        costUsd, costInUsd, costOutUsd := Some(0.0), Some(0.0), Some(0.0);
        billingTier := SelfHosted;
      } else if UnknownPriceProvider(provider) {
        costUsd, costInUsd, costOutUsd := None, None, None;
        billingTier := UnknownPrice;
      } else {
        var bill := CalculateCost(billed, price);
        costUsd, costInUsd, costOutUsd := Some(bill.total), Some(bill.input), Some(bill.output);
        costCacheWriteUsd, costCacheReadUsd, billingTier := bill.write, bill.read, bill.tier;
      }
      if factor != 1.0 && costUsd.Some? {
        costUsd := Some(Times(costUsd.value, factor));
        if costInUsd.Some? { costInUsd := Some(Times(costInUsd.value, factor)); }
        if costOutUsd.Some? { costOutUsd := Some(Times(costOutUsd.value, factor)); }
        costCacheWriteUsd := Times(costCacheWriteUsd, factor);
        costCacheReadUsd := Times(costCacheReadUsd, factor);
        billingTier := ListTimes(factor);
      }
      if Positive(c.cached) > 0 && costUsd.Some? {
        var uncached := Times(CalculateCost(billed.(cached := Some(0)), price).total, factor);
        cacheCostSavingUsd := Some(AtLeastZero(uncached - costUsd.value));
      }
    }
  }

  // A model without a price costs nothing, on no tier.
  lemma NoPriceNoCost(c: Call)
    ensures CalculateCost(c, None) == Bill(0.0, 0.0, 0.0, 0.0, 0.0, NoPrice)
  {
  }

  // Hardware of one's own costs nothing on any part, an unknown endpoint has no known cost and no
  // saving, and every other provider is billed by the list; a factor scales each part and names
  // the tier.
  lemma ProviderDecides(provider: string, c: Call, price: Option<Price>, factor: real)
    ensures
      provider == "self-hosted" || provider == "ollama" ==>
        var r := PriceOf(provider, c, price, factor);
        && r.cost == r.costIn == r.costOut == Some(0.0) && r.write == r.read == 0.0
        && r.tier == if factor == 1.0 then SelfHosted else ListTimes(factor)
    ensures
      provider == "openai-compatible" ==>
        PriceOf(provider, c, price, factor) == Pricing(None, None, None, 0.0, 0.0, UnknownPrice, None)
    ensures
      provider != "self-hosted" && provider != "ollama" && provider != "openai-compatible" ==>
        var r, bill := PriceOf(provider, c, price, factor), CalculateCost(BilledCall(provider, c), price);
        && r.cost == Some(Times(bill.total, factor)) && r.costIn == Some(Times(bill.input, factor))
        && r.costOut == Some(Times(bill.output, factor))
        && r.write == Times(bill.write, factor) && r.read == Times(bill.read, factor)
        && r.tier == if factor == 1.0 then bill.tier else ListTimes(factor)
  {
    ProvidersDiffer(provider);
    Unit(0.0, factor);
    hide CalculateCost, Times, SavingOf, BilledCall;
  }

  // ---------- what the cache saves ----------

  // Tokens the reads took out of the fresh count.
  function Displaced(c: Call): int { c.input - FreshTokens(c) }

  // The cache takes the displaced tokens off the bill at the full rate and puts every read
  // back at the discount; the output and the writes cancel.
  lemma SavingIsDisplacedLessReads(c: Call, p: Price)
    requires !ZeroMultiplier(c, p)
    ensures
      CalculateCost(c.(cached := Some(0)), Some(p)).total - CalculateCost(c, Some(p)).total
      == InputRate(c, p) * NetDisplaced(c, p) / 1000.0
  {
    var bare := c.(cached := Some(0));
    InputSplits(c, p);
    InputSplits(bare, p);
    SameElsewhere(c, p);
    var k := p.rateIn * CacheMultiplier(p, c.input);
    ScaleDiff(k, Weight(bare, p), Weight(c, p));
    hide CalculateCost, CacheMultiplier, Weight, NetDisplaced;
  }

  lemma SameElsewhere(c: Call, p: Price)
    ensures
      var bare, k := c.(cached := Some(0)), CalculateCost(c, Some(p));
      var bill := CalculateCost(bare, Some(p));
      && bill.output == k.output && bill.total == bill.input + bill.output && k.total == k.input + k.output
      && !ZeroMultiplier(c, p) == !ZeroMultiplier(bare, p)
      && CacheMultiplier(p, c.input) == CacheMultiplier(p, bare.input)
      && Weight(bare, p) - Weight(c, p) == NetDisplaced(c, p)
  {
  }

  lemma ScaleDiff(k: real, a: real, b: real)
    ensures k * a - k * b == k * (a - b)
  {
  }

  // The documented saving: every read token at the full rate less its discounted price.
  function ReadsSaving(provider: string, c: Call, p: Price, factor: real): real {
    ReadsSavingOn(BilledCall(provider, c), p, factor)
  }

  // On a list-billed call the reported saving is exactly that, if and only if the cache reads
  // are no more than the billed input.
  lemma SavingIdentityIff(provider: string, c: Call, p: Price, factor: real)
    requires ListBilled(provider) && c.input >= 0 && Positive(c.cached) > 0
    requires !ZeroMultiplier(BilledCall(provider, c), p)
    requires p.rateIn > 0.0 && CacheMultiplier(p, BilledCall(provider, c).input) > 0.0 && factor > 0.0
    requires 0.0 <= ReadDiscount(p) < 1.0
    ensures
      PriceOf(provider, c, Some(p), factor).saving == Some(ReadsSaving(provider, c, p, factor)) <==>
        Positive(c.cached) <= BilledCall(provider, c).input
  {
    hide CacheMultiplier, ReadDiscount, FreshTokens, Displaced, PriceOf, BilledCall, ZeroMultiplier, Positive,
      Saved, ReadsSavingOn;
    SavingIsClamped(provider, c, p, factor);
    Billed(provider, c);
    SavedIff(BilledCall(provider, c), p, factor);
  }

  // Tokens at a rate per thousand, times a price factor.
  function Dollars(rate: real, tokens: real, factor: real): real { factor * (rate * tokens / 1000.0) }

  // What the reads are worth in fresh tokens: their number less the discounted part.
  function ReadGain(billed: Call, p: Price): real { Positive(billed.cached) as real * (1.0 - ReadDiscount(p)) }

  // What the reads take off the bill, in fresh tokens.
  function NetDisplaced(billed: Call, p: Price): real {
    Displaced(billed) as real - Positive(billed.cached) as real * ReadDiscount(p)
  }

  // ReadsSaving of a call already billed.
  function ReadsSavingOn(billed: Call, p: Price, factor: real): real {
    Dollars(InputRate(billed, p), ReadGain(billed, p), factor)
  }

  lemma SavedIff(billed: Call, p: Price, factor: real)
    requires billed.input >= 0 && Positive(billed.cached) > 0
    requires p.rateIn > 0.0 && CacheMultiplier(p, billed.input) > 0.0 && factor > 0.0
    requires 0.0 <= ReadDiscount(p) < 1.0
    ensures
      var saved := Saved(billed, p, factor);
      AtLeastZero(saved) == ReadsSavingOn(billed, p, factor) <==>
        Positive(billed.cached) <= billed.input
  {
    DisplacedIff(billed, p);
    hide CacheMultiplier, NetDisplaced, ReadGain, ReadDiscount, Positive, Dollars;
    var rate := InputRate(billed, p);
    Scale(p.rateIn, 0.0, CacheMultiplier(p, billed.input));
    ClampedEqualIff(factor, rate, NetDisplaced(billed, p), ReadGain(billed, p));
  }

  lemma Billed(provider: string, c: Call)
    ensures BilledCall(provider, c).cached == c.cached
    ensures c.input >= 0 ==> BilledCall(provider, c).input >= 0
  {
  }

  // What is saved on a billed call, before the clamp.
  function Saved(billed: Call, p: Price, factor: real): real {
    Dollars(InputRate(billed, p), NetDisplaced(billed, p), factor)
  }

  lemma SavingIsClamped(provider: string, c: Call, p: Price, factor: real)
    requires ListBilled(provider) && Positive(c.cached) > 0
    requires !ZeroMultiplier(BilledCall(provider, c), p)
    ensures
      var saved := Saved(BilledCall(provider, c), p, factor);
      PriceOf(provider, c, Some(p), factor).saving == Some(AtLeastZero(saved))
  {
    hide CalculateCost, CacheMultiplier, NetDisplaced, ZeroMultiplier, PriceOf, BilledCall, Positive, Times, Dollars,
      InputRate, SavingOf, Saved;
    ListSaving(provider, c, Some(p), factor);
    SavedOnBill(BilledCall(provider, c), p, factor);
  }

  lemma SavedOnBill(billed: Call, p: Price, factor: real)
    requires !ZeroMultiplier(billed, p)
    ensures
      SavingOf(billed, Some(p), factor, Times(CalculateCost(billed, Some(p)).total, factor))
      == AtLeastZero(Saved(billed, p, factor))
  {
    hide CalculateCost, CacheMultiplier, NetDisplaced, ZeroMultiplier, Times, Dollars, InputRate;
    SavingIsDisplacedLessReads(billed, p);
    var full, bill := CalculateCost(billed.(cached := Some(0)), Some(p)).total, CalculateCost(billed, Some(p)).total;
    FactorOut(full, bill, InputRate(billed, p), NetDisplaced(billed, p), factor);
  }

  lemma ListSaving(provider: string, c: Call, price: Option<Price>, factor: real)
    requires ListBilled(provider) && Positive(c.cached) > 0
    ensures
      var billed := BilledCall(provider, c);
      PriceOf(provider, c, price, factor).saving
      == Some(SavingOf(billed, price, factor, Times(CalculateCost(billed, price).total, factor)))
  {
    hide CalculateCost, Times, SavingOf;
  }

  lemma FactorOut(a: real, b: real, rate: real, tokens: real, factor: real)
    requires a - b == rate * tokens / 1000.0
    ensures Times(a, factor) - Times(b, factor) == Dollars(rate, tokens, factor)
  {
    calc {
      Times(a, factor) - Times(b, factor);
      factor * a - factor * b;
      factor * (a - b);
      factor * (rate * tokens / 1000.0);
    }
  }

  // The reads take out as many tokens as they number only while they fit in the input.
  lemma DisplacedIff(billed: Call, p: Price)
    requires billed.input >= 0 && Positive(billed.cached) > 0 && ReadDiscount(p) < 1.0
    ensures ReadGain(billed, p) > 0.0
    ensures NetDisplaced(billed, p) == ReadGain(billed, p) <==> Positive(billed.cached) <= billed.input
  {
    var n, d := Positive(billed.cached) as real, ReadDiscount(p);
    Scale(n, 0.0, 1.0 - d);
    assert n * (1.0 - d) == n - n * d;
  }

  // The clamped price of x tokens is that of a positive number y only when x is y.
  lemma ClampedEqualIff(factor: real, rate: real, x: real, y: real)
    requires factor > 0.0 && rate > 0.0 && y > 0.0
    ensures AtLeastZero(Dollars(rate, x, factor)) == Dollars(rate, y, factor) <==> x == y
  {
    DollarsGrow(factor, rate, 0.0, y);
    if x < y { DollarsGrow(factor, rate, x, y); }
    if y < x { DollarsGrow(factor, rate, y, x); }
    assert Dollars(rate, 0.0, factor) == 0.0;
    hide Dollars;
  }

  lemma DollarsGrow(factor: real, rate: real, x: real, y: real)
    requires factor > 0.0 && rate > 0.0 && x < y
    ensures Dollars(rate, x, factor) < Dollars(rate, y, factor)
  {
    Scale(rate, x, y);
    Scale(factor, rate * x / 1000.0, rate * y / 1000.0);
  }

  // So the identity always holds for a provider that reports its cache reads apart.
  lemma DisjointSavingIsExact(provider: string, c: Call, p: Price, factor: real)
    requires Disjoint(provider) && c.input >= 0 && Positive(c.cached) > 0
    requires !ZeroMultiplier(BilledCall(provider, c), p)
    requires p.rateIn > 0.0 && CacheMultiplier(p, BilledCall(provider, c).input) > 0.0 && factor > 0.0
    requires 0.0 <= ReadDiscount(p) < 1.0
    ensures PriceOf(provider, c, Some(p), factor).saving == Some(ReadsSaving(provider, c, p, factor))
  {
    hide PriceOf;
    SavingIdentityIff(provider, c, p, factor);
  }

  // The saving of a self-hosted call, which costs nothing, is the whole list price of the
  // call without its cache.
  lemma SelfHostedSavingIsListPrice(provider: string, c: Call, p: Price, factor: real)
    requires SelfHostedProvider(provider) && Positive(c.cached) > 0 && Sensible(p) && factor >= 0.0
    requires c.input >= 0 && c.output >= 0
    ensures
      var priced := PriceOf(provider, c, Some(p), factor);
      && priced.cost == Some(0.0)
      && priced.saving == Some(Times(CalculateCost(c.(cached := Some(0)), Some(p)).total, factor))
  {
    hide CalculateCost, Sensible;
    var bare := c.(cached := Some(0));
    BillNeverFalls(bare, bare, p);
    BillAddsUp(bare, Some(p));
    ProvidersDiffer(provider);
    assert BilledCall(provider, c) == c;
    Unit(0.0, factor);
    var total := CalculateCost(bare, Some(p)).total;
    assert Times(total, factor) >= 0.0 by { ScaleUp(factor, 0.0, total); Commute(factor, total); }
    hide Times;
  }

  // Whatever the provider and the factor, a known cost is the sum of its two sides, and no
  // saving is negative.
  lemma PricingAddsUp(provider: string, c: Call, price: Option<Price>, factor: real)
    ensures
      var r := PriceOf(provider, c, price, factor);
      && (r.cost.None? <==> UnknownPriceProvider(provider))
      && (r.cost.Some? ==> r.costIn.Some? && r.costOut.Some? && r.cost.value == r.costIn.value + r.costOut.value)
      && (r.saving.Some? <==> r.cost.Some? && Positive(c.cached) > 0)
      && (r.saving.Some? ==> r.saving.value >= 0.0)
  {
    hide CalculateCost, Times, Positive, SavingOf, BilledCall;
    var bill := if SelfHostedProvider(provider) then NOTHING else CalculateCost(BilledCall(provider, c), price);
    BillAddsUp(BilledCall(provider, c), price);
    TimesDistributes(bill.input, bill.output, factor);
    SavingIsNotNegative(BilledCall(provider, c), price, factor, Times(bill.total, factor));
  }

  lemma BillAddsUp(c: Call, price: Option<Price>)
    ensures CalculateCost(c, price).total == CalculateCost(c, price).input + CalculateCost(c, price).output
  {
  }

  lemma TimesDistributes(a: real, b: real, factor: real)
    ensures Times(a + b, factor) == Times(a, factor) + Times(b, factor)
  {
  }

  lemma SavingIsNotNegative(billed: Call, price: Option<Price>, factor: real, cost: real)
    ensures SavingOf(billed, price, factor, cost) >= 0.0
  {
    hide CalculateCost, Times;
  }
}
