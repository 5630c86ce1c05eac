/**
 What the budget monitor guarantees over whole runs.
 */
module BudgetRuns {
  import opened Wrappers
  import opened BudgetMonitor

  // ---------- what one event does to one metric ----------

  // The metric raises an alert on this event.
  predicate Fires(c: Config, s: State, t: Tick, m: Metric) {
    Matches(c, t.event.tags) && Alerts(c, Accumulate(c, s, t), m, t.now)
  }

  function Raised(c: Config, s: State, m: Metric, now: real): seq<Alert> {
    CheckMetric(c, s, m, now).1
  }

  // The three metrics do not disturb one another: the event's alerts are each metric's own,
  // judged on the state after accumulation.
  lemma StepByMetric(c: Config, s: State, t: Tick)
    ensures var (after, alerts) := Step(c, s, t);
      if !Matches(c, t.event.tags) then after == s && alerts == []
      else
        var a := Accumulate(c, s, t);
        && after.acc == a.acc && after.lastReset == a.lastReset
        && after.alertCount == a.alertCount + |alerts|
        && alerts == Raised(c, a, Cost, t.now) + Raised(c, a, Energy, t.now) + Raised(c, a, Carbon, t.now)
        && forall m :: LastAlert(after, m) == if Alerts(c, a, m, t.now) then t.now else LastAlert(a, m)
  {
    hide Accumulate, Pct, Matches;
    if Matches(c, t.event.tags) {
      var a := Accumulate(c, s, t);
      assert [Cost][..0] == [] && [Cost, Energy][..1] == [Cost] && METRICS[..2] == [Cost, Energy];
      var (s1, a1) := CheckMetric(c, a, Cost, t.now);
      var (s2, a2) := CheckMetric(c, s1, Energy, t.now);
      assert CheckMetrics(c, a, [Cost], t.now) == (s1, a1) by { assert [] + a1 == a1; }
      assert CheckMetrics(c, a, [Cost, Energy], t.now) == (s2, a1 + a2);
      SameMetric(c, a, s1, Energy, t.now);
      SameMetric(c, a, s2, Carbon, t.now);
    }
  }

  lemma SameMetric(c: Config, a: State, b: State, m: Metric, now: real)
    requires a.acc == b.acc && LastAlert(a, m) == LastAlert(b, m)
    ensures Alerts(c, a, m, now) == Alerts(c, b, m, now)
    ensures Raised(c, a, m, now) == Raised(c, b, m, now)
    ensures Armed(c, m) ==> Pct(c, a, m) == Pct(c, b, m)
  {
  }

  lemma AlertsCarryMetric(c: Config, s: State, t: Tick, m: Metric)
    ensures (exists a :: a in Step(c, s, t).1 && a.metric == m) <==> Fires(c, s, t, m)
  {
    hide Accumulate, Pct, Step;
    StepByMetric(c, s, t);
    if Matches(c, t.event.tags) {
      var st := Accumulate(c, s, t);
      if Fires(c, s, t, m) {
        var own := Raised(c, st, m, t.now);
        assert |own| == 1 && own[0].metric == m && own[0] in own;
        assert own[0] in Step(c, s, t).1;
      }
    }
  }

  // Every tag of the filter is on the event, with the same value.
  predicate FilterMet(c: Config, tags: map<string, string>) {
    c.tagsFilter.Items <= tags.Items
  }

  lemma FilterMetIff(c: Config, tags: map<string, string>)
    ensures FilterMet(c, tags) <==> Matches(c, tags)
  {
    if FilterMet(c, tags) {
      forall k | k in c.tagsFilter ensures k in tags && tags[k] == c.tagsFilter[k] {
        assert (k, c.tagsFilter[k]) in c.tagsFilter.Items;
      }
      if c.tagsFilter != map[] {
        var k :| k in c.tagsFilter;
        assert k in tags;
      }
    }
  }

  // An event that does not meet the filter leaves the budget as it was, raises nothing and
  // exceeds nothing; one that does is added to what the window held, or to nothing when it opens
  // a new one.
  lemma FilterDecides(c: Config, s: State, t: Tick)
    ensures !FilterMet(c, t.event.tags) ==> Step(c, s, t) == (s, []) && !StepExceeds(c, s, t)
    ensures FilterMet(c, t.event.tags) ==>
      forall m ::
        Step(c, s, t).0.acc.Of(m)
        == (if NewWindow(c, s.lastReset, t.now) then 0.0 else s.acc.Of(m)) + EventValue(t.event, m)
    ensures FilterMet(c, t.event.tags) ==>
      (StepExceeds(c, s, t) <==>
         exists m :: c.Threshold(m).Some? && c.Threshold(m).value > 0.0
                     && Step(c, s, t).0.acc.Of(m) >= c.Threshold(m).value)
  {
    hide Matches, Step, FilterMet;
    FilterMetIff(c, t.event.tags);
    StepByMetric(c, s, t);
    if FilterMet(c, t.event.tags) {
      var after := Step(c, s, t).0;
      assert after.acc == Accumulate(c, s, t).acc;
      forall m ensures Exceeds(c, Accumulate(c, s, t), m) <==>
        c.Threshold(m).Some? && c.Threshold(m).value > 0.0 && after.acc.Of(m) >= c.Threshold(m).value {}
    } else {
      NoMatchNoExcess(c, s, t);
    }
  }

  lemma NoMatchNoExcess(c: Config, s: State, t: Tick)
    requires !Matches(c, t.event.tags)
    ensures Step(c, s, t) == (s, []) && !StepExceeds(c, s, t)
  {
  }

  // A request window is new with every event, a session window never; an hour or a day after it
  // was reset, so is that of an hour or a day.
  predicate NewWindow(c: Config, lastReset: real, now: real) {
    c.window == Request
    || (c.window == Hour && now >= lastReset + 3600.0)
    || (c.window == Day && now >= lastReset + 86400.0)
  }

  // The event's amount of one metric, nothing when it has none.
  function EventValue(e: Event, m: Metric): real {
    var amount := match m case Cost => e.cost case Energy => e.energy case Carbon => e.carbon;
    if amount.Some? then amount.value else 0.0
  }

  /**
   When an alert on a metric is raised, told without the monitor's own terms: the filter is met,
   the threshold positive, the total at the warning level or over, and, where there is a
   cooldown, the last alert on the metric at least that long ago.
   */
  lemma FiresIff(c: Config, s: State, t: Tick, m: Metric)
    ensures
      Fires(c, s, t, m) <==>
        && FilterMet(c, t.event.tags)
        && c.Threshold(m).Some? && c.Threshold(m).value > 0.0
        && Step(c, s, t).0.acc.Of(m) * 100.0 >= c.warnAtPct * c.Threshold(m).value
        && (c.cooldown > 0.0 ==>
              t.now >= (if m in s.lastAlert then s.lastAlert[m] else 0.0) + c.cooldown)
  {
    hide Step, Matches, FilterMet;
    FilterMetIff(c, t.event.tags);
    StepByMetric(c, s, t);
    AccumulateKeepsAlerts(c, s, t);
    if FilterMet(c, t.event.tags) && Armed(c, m) {
      var a := Accumulate(c, s, t);
      PctAtLeastIff(c, a, m);
      assert Step(c, s, t).0.acc == a.acc;
      hide Accumulate, Pct;
    }
  }

  lemma PctAtLeastIff(c: Config, s: State, m: Metric)
    requires Armed(c, m)
    ensures Pct(c, s, m) >= c.warnAtPct <==> s.acc.Of(m) * 100.0 >= c.warnAtPct * c.Threshold(m).value
  {
    var q, t := s.acc.Of(m) / c.Threshold(m).value, c.Threshold(m).value;
    assert q * t == s.acc.Of(m);
    var w := c.warnAtPct / 100.0;
    assert (q - w) * t == q * t - w * t;
    if q >= w { assert (q - w) * t >= 0.0; } else { assert (q - w) * t < 0.0; }
  }

  // What an alert says: the budget's name, the threshold, the total reached, their ratio, and
  // whether the threshold was.
  lemma AlertSays(c: Config, s: State, t: Tick, a: Alert)
    requires a in Step(c, s, t).1
    ensures
      var limit, total := c.Threshold(a.metric), Step(c, s, t).0.acc;
      && a.name == c.name && limit == Some(a.threshold) && a.threshold > 0.0
      && match a.metric
         case Cost => limit == c.cost && a.current == total.cost
         case Energy => limit == c.energy && a.current == total.energy
         case Carbon => limit == c.carbon && a.current == total.carbon
    ensures a.pct * a.threshold == 100.0 * a.current
    ensures a.exceeded <==> a.current >= a.threshold
  {
    hide Step, Accumulate, Matches;
    StepByMetric(c, s, t);
    hide Raised;
    var st := Accumulate(c, s, t);
    forall m | a in Raised(c, st, m, t.now)
      ensures a.metric == m && a.name == c.name && c.Threshold(m) == Some(a.threshold) && a.threshold > 0.0
      ensures a.current == st.acc.Of(m) && a.pct * a.threshold == 100.0 * a.current
      ensures a.exceeded <==> a.current >= a.threshold
    {
      RaisedSays(c, st, m, t.now, a);
    }
  }

  lemma RaisedSays(c: Config, s: State, m: Metric, now: real, a: Alert)
    requires a in Raised(c, s, m, now)
    ensures a.metric == m && a.name == c.name && c.Threshold(m) == Some(a.threshold) && a.threshold > 0.0
    ensures a.current == s.acc.Of(m) && a.pct * a.threshold == 100.0 * a.current
    ensures a.exceeded <==> a.current >= a.threshold
  {
    var x := a.current / a.threshold;
    assert x * a.threshold == a.current;
  }

  // ---------- counting and cooldown ----------

  // The alert counter counts the alerts emitted.
  lemma {:induction false} AlertCountIsEmitted(c: Config, s: State, ticks: seq<Tick>)
    ensures Run(c, s, ticks).alertCount == s.alertCount + |RunAlerts(c, s, ticks)|
  {
    hide Step;
    if ticks != [] {
      var n := |ticks| - 1;
      AlertCountIsEmitted(c, s, ticks[..n]);
      StepByMetric(c, Run(c, s, ticks[..n]), ticks[n]);
    }
  }

  // Clock readings at which the run raised an alert on metric m, in order.
  function AlertTimes(c: Config, s: State, ticks: seq<Tick>, m: Metric): seq<real> {
    if ticks == [] then []
    else
      var n := |ticks| - 1;
      AlertTimes(c, s, ticks[..n], m) + if Fires(c, Run(c, s, ticks[..n]), ticks[n], m) then [ticks[n].now] else []
  }

  ghost predicate Spaced(times: seq<real>, gap: real) {
    forall i, j :: 0 <= i < j < |times| ==> times[j] - times[i] >= gap
  }

  /**
   Whatever the clock does, two alerts of one budget on one metric are at least the cooldown
   apart, later ones later; and the first waits until the clock reads at least the cooldown.
   */
  lemma {:induction false} AlertsRespectCooldown(c: Config, createdAt: real, ticks: seq<Tick>, m: Metric)
    requires c.cooldown > 0.0
    ensures var times := AlertTimes(c, Fresh(createdAt), ticks, m);
      && Spaced(times, c.cooldown)
      && (forall i :: 0 <= i < |times| ==> times[i] >= c.cooldown)
      && LastAlert(Run(c, Fresh(createdAt), ticks), m) == if times == [] then 0.0 else times[|times| - 1]
  {
    hide Step, Accumulate, Pct, Matches, Spaced, Armed;
    if ticks == [] {
      SpacedEmpty(c.cooldown);
    } else {
      var n := |ticks| - 1;
      AlertsRespectCooldown(c, createdAt, ticks[..n], m);
      var before := Run(c, Fresh(createdAt), ticks[..n]);
      StepByMetric(c, before, ticks[n]);
      AccumulateKeepsAlerts(c, before, ticks[n]);
      if Fires(c, before, ticks[n], m) {
        ExtendSpaced(AlertTimes(c, Fresh(createdAt), ticks[..n], m), c.cooldown, ticks[n].now);
      } else {
        assert AlertTimes(c, Fresh(createdAt), ticks, m) == AlertTimes(c, Fresh(createdAt), ticks[..n], m);
      }
    }
  }

  // ---------- the emitted alerts ----------

  // The readings at which alerts on a metric were emitted.
  function TimesOf(stamped: seq<(real, Alert)>, m: Metric): seq<real> {
    if stamped == [] then []
    else
      var n := |stamped| - 1;
      TimesOf(stamped[..n], m) + if stamped[n].1.metric == m then [stamped[n].0] else []
  }

  function AlertsOf(stamped: seq<(real, Alert)>): (alerts: seq<Alert>)
    ensures |alerts| == |stamped|
  {
    seq(|stamped|, i requires 0 <= i < |stamped| => stamped[i].1)
  }

  lemma {:induction false} TimesOfConcat(a: seq<(real, Alert)>, b: seq<(real, Alert)>, m: Metric)
    ensures TimesOf(a + b, m) == TimesOf(a, m) + TimesOf(b, m)
  {
    if b == [] {
      assert a + b == a;
    } else {
      var n := |b| - 1;
      assert (a + b)[..|a + b| - 1] == a + b[..n];
      TimesOfConcat(a, b[..n], m);
    }
  }

  // The stamped alerts are the run's alerts, and those on one metric bear its alert times.
  lemma {:induction false} StampedRunIsRun(c: Config, s: State, ticks: seq<Tick>, m: Metric)
    ensures AlertsOf(StampedRun(c, s, ticks)) == RunAlerts(c, s, ticks)
    ensures TimesOf(StampedRun(c, s, ticks), m) == AlertTimes(c, s, ticks, m)
  {
    hide Step, Fires;
    if ticks != [] {
      var n := |ticks| - 1;
      StampedRunIsRun(c, s, ticks[..n], m);
      var before := Run(c, s, ticks[..n]);
      var raised := Step(c, before, ticks[n]).1;
      TimesOfConcat(StampedRun(c, s, ticks[..n]), Stamp(ticks[n].now, raised), m);
      OneTimePerMetric(c, before, ticks[n], m);
    }
  }

  lemma OneTimePerMetric(c: Config, s: State, t: Tick, m: Metric)
    ensures TimesOf(Stamp(t.now, Step(c, s, t).1), m) == if Fires(c, s, t, m) then [t.now] else []
  {
    hide Step, Accumulate, Pct, Matches, TimesOf, Stamp;
    StepByMetric(c, s, t);
    if Matches(c, t.event.tags) {
      var a := Accumulate(c, s, t);
      var cost, energy, carbon := Raised(c, a, Cost, t.now), Raised(c, a, Energy, t.now), Raised(c, a, Carbon, t.now);
      StampConcat(t.now, cost + energy, carbon);
      StampConcat(t.now, cost, energy);
      TimesOfConcat(Stamp(t.now, cost) + Stamp(t.now, energy), Stamp(t.now, carbon), m);
      TimesOfConcat(Stamp(t.now, cost), Stamp(t.now, energy), m);
      RaisedTimes(c, a, Cost, t.now, m);
      RaisedTimes(c, a, Energy, t.now, m);
      RaisedTimes(c, a, Carbon, t.now, m);
    } else {
      NoTimes(t.now, m);
    }
  }

  lemma NoTimes(now: real, m: Metric)
    ensures TimesOf(Stamp(now, []), m) == []
  {
  }

  lemma StampConcat(now: real, a: seq<Alert>, b: seq<Alert>)
    ensures Stamp(now, a + b) == Stamp(now, a) + Stamp(now, b)
  {
  }

  lemma RaisedTimes(c: Config, s: State, own: Metric, now: real, m: Metric)
    ensures TimesOf(Stamp(now, Raised(c, s, own, now)), m) == if own == m && Alerts(c, s, own, now) then [now] else []
  {
    hide Alerts;
    var raised := Stamp(now, Raised(c, s, own, now));
    if |raised| == 1 {
      assert raised[..0] == [];
      assert TimesOf(raised[..0], m) == [];
    }
  }

  // Two alerts on a metric are two of its times, in the same order.
  lemma {:induction false} TimesInOrder(stamped: seq<(real, Alert)>, m: Metric, i: int, j: int) returns (p: int, q: int)
    requires 0 <= i < j < |stamped| && stamped[i].1.metric == m && stamped[j].1.metric == m
    ensures 0 <= p < q < |TimesOf(stamped, m)|
    ensures TimesOf(stamped, m)[p] == stamped[i].0 && TimesOf(stamped, m)[q] == stamped[j].0
  {
    var n := |stamped| - 1;
    if j < n {
      p, q := TimesInOrder(stamped[..n], m, i, j);
    } else {
      p := TimeAt(stamped[..n], m, i);
      q := |TimesOf(stamped[..n], m)|;
    }
  }

  lemma {:induction false} TimeAt(stamped: seq<(real, Alert)>, m: Metric, i: int) returns (p: int)
    requires 0 <= i < |stamped| && stamped[i].1.metric == m
    ensures 0 <= p < |TimesOf(stamped, m)| && TimesOf(stamped, m)[p] == stamped[i].0
  {
    var n := |stamped| - 1;
    if i < n { p := TimeAt(stamped[..n], m, i); } else { p := |TimesOf(stamped[..n], m)|; }
  }

  // ---------- any budget in use ----------

  /**
   What holds of every budget object, whatever it has been put through: the alert counter is
   the number of alerts it emitted; on one metric they are a positive cooldown apart, later
   ones later; and its accumulator is the sum of the matching values since its window started.
   */
  lemma BudgetKeepsItsPromises(b: Budget)
    requires b.Valid()
    ensures b.alertCount == |b.emitted|
    ensures b.config.cooldown > 0.0 ==>
      forall i, j ::
        0 <= i < j < |b.emitted| && b.emitted[i].1.metric == b.emitted[j].1.metric ==>
          b.emitted[j].0 - b.emitted[i].0 >= b.config.cooldown
    ensures b.accumulated == Total(b.config, b.trace[WindowStart(b.config, Fresh(b.createdAt), b.trace)..])
  {
    hide Run, RunAlerts, StampedRun, TimesOf, AlertTimes, Total, WindowStart, AlertsOf;
    AlertCountIsEmitted(b.config, Fresh(b.createdAt), b.trace);
    StampedRunIsRun(b.config, Fresh(b.createdAt), b.trace, Cost);
    AccumulatorIsWindowTotal(b.config, b.createdAt, b.trace);
    if b.config.cooldown > 0.0 {
      forall i, j | 0 <= i < j < |b.emitted| && b.emitted[i].1.metric == b.emitted[j].1.metric
        ensures b.emitted[j].0 - b.emitted[i].0 >= b.config.cooldown
      {
        var m := b.emitted[i].1.metric;
        StampedRunIsRun(b.config, Fresh(b.createdAt), b.trace, m);
        AlertsRespectCooldown(b.config, b.createdAt, b.trace, m);
        var p, q := TimesInOrder(b.emitted, m, i, j);
      }
    }
  }

  lemma SpacedEmpty(gap: real)
    ensures Spaced([], gap)
  {
  }

  lemma ExtendSpaced(times: seq<real>, gap: real, x: real)
    requires gap > 0.0 && Spaced(times, gap)
    requires times != [] ==> x - times[|times| - 1] >= gap
    ensures Spaced(times + [x], gap)
  {
    forall i | 0 <= i < |times| ensures x - times[i] >= gap {
      if i < |times| - 1 { assert times[|times| - 1] - times[i] >= gap; }
    }
  }

  lemma AccumulateKeepsAlerts(c: Config, s: State, t: Tick)
    ensures Accumulate(c, s, t).lastAlert == s.lastAlert && Accumulate(c, s, t).alertCount == s.alertCount
  {
  }

  // The cooldown silences alerts, never the verdict: a budget at or over a threshold reports
  // it on every matching event, warned about or not.
  lemma SilencedBudgetStillExceeds(c: Config, s: State, t: Tick, m: Metric)
    requires Matches(c, t.event.tags) && Exceeds(c, Accumulate(c, s, t), m)
    ensures StepExceeds(c, s, t)
    ensures Cooling(c, Accumulate(c, s, t), m, t.now) || c.warnAtPct > 100.0 || Fires(c, s, t, m)
  {
    hide Accumulate, Matches;
    PctAtLeast100Iff(c, Accumulate(c, s, t), m);
  }

  // ---------- accumulation ----------

  // Where the current window starts: the last matching event that triggered a reset.
  function WindowStart(c: Config, s: State, ticks: seq<Tick>): (start: nat)
    ensures start <= |ticks|
  {
    if ticks == [] then 0
    else
      var n := |ticks| - 1;
      if Matches(c, ticks[n].event.tags) && ResetDue(c, Run(c, s, ticks[..n]).lastReset, ticks[n].now) then n
      else WindowStart(c, s, ticks[..n])
  }

  predicate EverReset(c: Config, s: State, ticks: seq<Tick>) {
    if ticks == [] then false
    else
      var n := |ticks| - 1;
      (Matches(c, ticks[n].event.tags) && ResetDue(c, Run(c, s, ticks[..n]).lastReset, ticks[n].now))
      || EverReset(c, s, ticks[..n])
  }

  // Sum of the non-null values of the matching events.
  function Total(c: Config, ticks: seq<Tick>): Amounts {
    if ticks == [] then ZERO
    else
      var n := |ticks| - 1;
      var before := Total(c, ticks[..n]);
      if Matches(c, ticks[n].event.tags) then Add(before, ticks[n].event) else before
  }

  /**
   Over every run each accumulator equals the sum of the matching non-null values since the
   window started, and the reset stamp is the reading that started it.
   */
  lemma {:induction false} AccumulatorIsWindowTotal(c: Config, createdAt: real, ticks: seq<Tick>)
    ensures var s, start := Run(c, Fresh(createdAt), ticks), WindowStart(c, Fresh(createdAt), ticks);
      && s.acc == Total(c, ticks[start..])
      && (EverReset(c, Fresh(createdAt), ticks) ==> start < |ticks| && s.lastReset == ticks[start].resetNow)
      && (!EverReset(c, Fresh(createdAt), ticks) ==> start == 0 && s.lastReset == createdAt)
  {
    hide Step, Matches, ResetDue;
    if ticks != [] {
      var n := |ticks| - 1;
      AccumulatorIsWindowTotal(c, createdAt, ticks[..n]);
      var before := Run(c, Fresh(createdAt), ticks[..n]);
      StepByMetric(c, before, ticks[n]);
      var start := WindowStart(c, Fresh(createdAt), ticks);
      var w := ticks[start..];
      assert w[|w| - 1] == ticks[n];
      if start < n || !(Matches(c, ticks[n].event.tags) && ResetDue(c, before.lastReset, ticks[n].now)) {
        assert w[..|w| - 1] == ticks[..n][start..];
      } else {
        assert w[..|w| - 1] == [];
      }
    }
  }

  // A request window counts the latest matching event alone; a session window counts all.
  lemma {:induction false} RequestAndSessionWindows(c: Config, createdAt: real, ticks: seq<Tick>)
    requires ticks != [] && Matches(c, ticks[|ticks| - 1].event.tags)
    ensures c.window == Request ==> Run(c, Fresh(createdAt), ticks).acc == Add(ZERO, ticks[|ticks| - 1].event)
    ensures c.window == Session ==> Run(c, Fresh(createdAt), ticks).acc == Total(c, ticks)
  {
    hide Step, Matches;
    AccumulatorIsWindowTotal(c, createdAt, ticks);
    var n := |ticks| - 1;
    if c.window == Request {
      assert ticks[n..] == [ticks[n]] && [ticks[n]][..0] == [];
    }
    if c.window == Session {
      SessionNeverResets(c, createdAt, ticks);
      assert ticks[0..] == ticks;
    }
  }

  lemma {:induction false} SessionNeverResets(c: Config, createdAt: real, ticks: seq<Tick>)
    requires c.window == Session
    ensures WindowStart(c, Fresh(createdAt), ticks) == 0
  {
    hide Matches, Run;
    if ticks != [] { SessionNeverResets(c, createdAt, ticks[..|ticks| - 1]); }
  }

  function WindowSeconds(w: Window): real
    requires w == Hour || w == Day
  {
    if w == Hour then HOUR_SECONDS else DAY_SECONDS
  }

  // Each reading no earlier than the one before it.
  ghost predicate MonotoneClock(createdAt: real, ticks: seq<Tick>) {
    && (forall i :: 0 <= i < |ticks| ==> createdAt <= ticks[i].now <= ticks[i].resetNow)
    && (forall i, j :: 0 <= i < j < |ticks| ==> ticks[i].resetNow <= ticks[j].now)
  }

  /**
   An hour or day accumulator holds only matching events that came less than one window after
   the reading that started it; under a monotone clock none of them came before it, so the
   window never spans a full period.
   */
  lemma {:induction false} WindowSpansLessThanPeriod(c: Config, createdAt: real, ticks: seq<Tick>, k: nat)
    requires c.window == Hour || c.window == Day
    requires var start := WindowStart(c, Fresh(createdAt), ticks);
      start <= k < |ticks| && Matches(c, ticks[k].event.tags)
      && (k == start ==> !EverReset(c, Fresh(createdAt), ticks))
    ensures ticks[k].now - Run(c, Fresh(createdAt), ticks).lastReset < WindowSeconds(c.window)
    ensures MonotoneClock(createdAt, ticks) ==> Run(c, Fresh(createdAt), ticks).lastReset <= ticks[k].now
  {
    hide Step, Matches;
    var n := |ticks| - 1;
    var s, before := Run(c, Fresh(createdAt), ticks), Run(c, Fresh(createdAt), ticks[..n]);
    StepByMetric(c, before, ticks[n]);
    AccumulatorIsWindowTotal(c, createdAt, ticks);
    if Matches(c, ticks[n].event.tags) && ResetDue(c, before.lastReset, ticks[n].now) {
      assert false;
    } else if k < n {
      WindowSpansLessThanPeriod(c, createdAt, ticks[..n], k);
    }
  }
}
