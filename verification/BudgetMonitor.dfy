/**
 The warn-only budget monitor: windowed accumulation, alert cooldown and warning keys.
 Follows src/vetch/budget.py. The clock is a parameter and may step back.
 */
module BudgetMonitor {
  import opened Wrappers
  import opened WarnedKeys

  datatype Window = Request | Session | Hour | Day

  datatype Metric = Cost | Energy | Carbon

  datatype Amounts = Amounts(cost: real, energy: real, carbon: real) {
    function Of(m: Metric): real {
      match m
      case Cost => cost
      case Energy => energy
      case Carbon => carbon
    }
  }

  const ZERO := Amounts(0.0, 0.0, 0.0)

  datatype Config = Config(
    name: string,
    cost: Option<real>,
    energy: Option<real>,
    carbon: Option<real>,
    window: Window,
    warnAtPct: real,
    cooldown: real,
    tagsFilter: map<string, string>)
  {
    function Threshold(m: Metric): Option<real> {
      match m
      case Cost => cost
      case Energy => energy
      case Carbon => carbon
    }
  }

  datatype Event = Event(cost: Option<real>, energy: Option<real>, carbon: Option<real>, tags: map<string, string>)

  // One call of check_budgets as one budget sees it: the event, the clock reading taken at
  // its start, and the later reading reset() would take.
  datatype Tick = Tick(event: Event, now: real, resetNow: real)

  datatype Alert = Alert(name: string, metric: Metric, threshold: real, current: real, pct: real, exceeded: bool)

  datatype State = State(acc: Amounts, alertCount: nat, lastReset: real, lastAlert: map<Metric, real>)

  const METRICS: seq<Metric> := [Cost, Energy, Carbon]

  // ---------- one budget, one event ----------

  predicate Matches(c: Config, tags: map<string, string>) {
    c.tagsFilter == map[]
    || (tags != map[] && forall k :: k in c.tagsFilter ==> k in tags && tags[k] == c.tagsFilter[k])
  }

  const HOUR_SECONDS := 3600.0
  const DAY_SECONDS := 86400.0

  predicate ResetDue(c: Config, lastReset: real, now: real) {
    match c.window
    case Request => true
    case Session => false
    case Hour => now - lastReset >= HOUR_SECONDS
    case Day => now - lastReset >= DAY_SECONDS
  }

  function OrZero(x: Option<real>): real {
    match x case Some(v) => v case None => 0.0
  }

  function Add(a: Amounts, e: Event): Amounts {
    Amounts(a.cost + OrZero(e.cost), a.energy + OrZero(e.energy), a.carbon + OrZero(e.carbon))
  }

  function Accumulate(c: Config, s: State, t: Tick): State {
    var r := if ResetDue(c, s.lastReset, t.now) then s.(acc := ZERO, lastReset := t.resetNow) else s;
    r.(acc := Add(r.acc, t.event))
  }

  predicate Armed(c: Config, m: Metric) {
    c.Threshold(m).Some? && c.Threshold(m).value > 0.0
  }

  function Pct(c: Config, s: State, m: Metric): real
    requires Armed(c, m)
  {
    s.acc.Of(m) / c.Threshold(m).value * 100.0
  }

  // At or over a positive threshold.
  predicate Exceeds(c: Config, s: State, m: Metric) {
    Armed(c, m) && s.acc.Of(m) >= c.Threshold(m).value
  }

  lemma PctAtLeast100Iff(c: Config, s: State, m: Metric)
    requires Armed(c, m)
    ensures Pct(c, s, m) >= 100.0 <==> Exceeds(c, s, m)
  {
    var q, t := s.acc.Of(m) / c.Threshold(m).value, c.Threshold(m).value;
    assert q * t == s.acc.Of(m);
    if q >= 1.0 { assert (q - 1.0) * t >= 0.0; } else { assert (1.0 - q) * t > 0.0; }
  }

  function LastAlert(s: State, m: Metric): real {
    if m in s.lastAlert then s.lastAlert[m] else 0.0
  }

  predicate Cooling(c: Config, s: State, m: Metric, now: real) {
    c.cooldown > 0.0 && now - LastAlert(s, m) < c.cooldown
  }

  predicate Alerts(c: Config, s: State, m: Metric, now: real) {
    Armed(c, m) && Pct(c, s, m) >= c.warnAtPct && !Cooling(c, s, m, now)
  }

  function CheckMetric(c: Config, s: State, m: Metric, now: real): (State, seq<Alert>) {
    if Alerts(c, s, m, now) then
      (s.(alertCount := s.alertCount + 1, lastAlert := s.lastAlert[m := now]),
       [Alert(c.name, m, c.Threshold(m).value, s.acc.Of(m), Pct(c, s, m), Exceeds(c, s, m))])
    else (s, [])
  }

  function CheckMetrics(c: Config, s: State, ms: seq<Metric>, now: real): (State, seq<Alert>) {
    if ms == [] then (s, [])
    else
      var n := |ms| - 1;
      var (s1, a1) := CheckMetrics(c, s, ms[..n], now);
      var (s2, a2) := CheckMetric(c, s1, ms[n], now);
      (s2, a1 + a2)
  }

  function Step(c: Config, s: State, t: Tick): (State, seq<Alert>) {
    if !Matches(c, t.event.tags) then (s, []) else CheckMetrics(c, Accumulate(c, s, t), METRICS, t.now)
  }

  // Does this event leave the budget at or over some threshold?
  predicate StepExceeds(c: Config, s: State, t: Tick) {
    Matches(c, t.event.tags) && exists m :: Exceeds(c, Accumulate(c, s, t), m)
  }

  // ---------- a run ----------

  function Run(c: Config, s: State, ticks: seq<Tick>): State {
    if ticks == [] then s else Step(c, Run(c, s, ticks[..|ticks| - 1]), ticks[|ticks| - 1]).0
  }

  function RunAlerts(c: Config, s: State, ticks: seq<Tick>): seq<Alert> {
    if ticks == [] then []
    else RunAlerts(c, s, ticks[..|ticks| - 1]) + Step(c, Run(c, s, ticks[..|ticks| - 1]), ticks[|ticks| - 1]).1
  }

  // The same alerts, each with the clock reading that raised it.
  function Stamp(now: real, alerts: seq<Alert>): (stamped: seq<(real, Alert)>)
    ensures |stamped| == |alerts|
    ensures forall i :: 0 <= i < |alerts| ==> stamped[i] == (now, alerts[i])
  {
    seq(|alerts|, i requires 0 <= i < |alerts| => (now, alerts[i]))
  }

  function StampedRun(c: Config, s: State, ticks: seq<Tick>): seq<(real, Alert)> {
    if ticks == [] then []
    else
      var n := |ticks| - 1;
      StampedRun(c, s, ticks[..n]) + Stamp(ticks[n].now, Step(c, Run(c, s, ticks[..n]), ticks[n]).1)
  }

  lemma RunStep(c: Config, s: State, ticks: seq<Tick>, t: Tick)
    ensures Run(c, s, ticks + [t]) == Step(c, Run(c, s, ticks), t).0
    ensures StampedRun(c, s, ticks + [t]) == StampedRun(c, s, ticks) + Stamp(t.now, Step(c, Run(c, s, ticks), t).1)
  {
    hide Step, Stamp;
    assert (ticks + [t])[..|ticks|] == ticks;
  }

  function Fresh(createdAt: real): State {
    State(ZERO, 0, createdAt, map[])
  }

  class Budget {
    const config: Config
    var accumulated: Amounts
    var alertCount: nat
    var lastResetAt: real
    var lastAlertAt: map<Metric, real>
    ghost const createdAt: real
    ghost var trace: seq<Tick>
    ghost var emitted: seq<(real, Alert)>

    ghost predicate Valid()
      reads this
    {
      && View() == Run(config, Fresh(createdAt), trace)
      && emitted == StampedRun(config, Fresh(createdAt), trace)
    }

    function View(): State
      reads this
    {
      State(accumulated, alertCount, lastResetAt, lastAlertAt)
    }

    constructor (config: Config, createdAt: real)
      ensures Valid() && this.config == config && this.createdAt == createdAt
      ensures View() == Fresh(createdAt) && trace == [] && emitted == []
    {
      this.config := config;
      accumulated, alertCount, lastResetAt, lastAlertAt := ZERO, 0, createdAt, map[];
      this.createdAt := createdAt;
      trace, emitted := [], [];
    }

    method Reset(now: real)
      modifies this
      ensures View() == old(View()).(acc := ZERO, lastReset := now) && trace == old(trace) && emitted == old(emitted)
    {
      accumulated := ZERO;
      lastResetAt := now;
    }

    // The body of check_budgets for this budget.
    method Check(t: Tick) returns (exceeded: bool, alerts: seq<Alert>)
      requires Valid()
      modifies this
      ensures Valid() && trace == old(trace) + [t] && emitted == old(emitted) + Stamp(t.now, alerts)
      ensures View() == Step(config, old(View()), t).0
      ensures alerts == Step(config, old(View()), t).1
      ensures exceeded == StepExceeds(config, old(View()), t)
    {
      hide Accumulate, Matches, CheckMetrics, Exceeds, Run;
      ghost var before := View();
      exceeded, alerts := false, [];
      if Matches(config, t.event.tags) {
        Advance(t);
        exceeded, alerts := CheckThresholds(t.now);
      }
      trace, emitted := trace + [t], emitted + Stamp(t.now, alerts);
      RunStep(config, Fresh(createdAt), old(trace), t);
    }

    // The window reset and the accumulation.
    method Advance(t: Tick)
      modifies this
      ensures View() == Accumulate(config, old(View()), t)
      ensures trace == old(trace) && emitted == old(emitted)
    {
      if config.window == Request {
        Reset(t.resetNow);
      } else if config.window == Hour || config.window == Day {
        var seconds := if config.window == Hour then HOUR_SECONDS else DAY_SECONDS;
        if t.now - lastResetAt >= seconds {
          Reset(t.resetNow);
        }
      }
      if t.event.cost.Some? {
        accumulated := accumulated.(cost := accumulated.cost + t.event.cost.value);
      }
      if t.event.energy.Some? {
        accumulated := accumulated.(energy := accumulated.energy + t.event.energy.value);
      }
      if t.event.carbon.Some? {
        accumulated := accumulated.(carbon := accumulated.carbon + t.event.carbon.value);
      }
    }

    method CheckThresholds(now: real) returns (exceeded: bool, alerts: seq<Alert>)
      modifies this
      ensures trace == old(trace) && emitted == old(emitted)
      ensures View() == CheckMetrics(config, old(View()), METRICS, now).0
      ensures alerts == CheckMetrics(config, old(View()), METRICS, now).1
      ensures exceeded <==> exists m :: Exceeds(config, old(View()), m)
    {
      ghost var before := View();
      exceeded, alerts := false, [];
      for i := 0 to |METRICS|
        invariant trace == old(trace) && emitted == old(emitted) && accumulated == before.acc
        invariant (View(), alerts) == CheckMetrics(config, before, METRICS[..i], now)
        invariant exceeded <==> exists j :: 0 <= j < i && Exceeds(config, before, METRICS[j])
      {
        var metric := METRICS[i];
        assert METRICS[..i + 1][..i] == METRICS[..i];
        ghost var here, alertsHere := View(), alerts;
        ghost var checked := CheckMetric(config, here, metric, now);
        if Armed(config, metric) {
          var threshold := config.Threshold(metric).value;
          var pct := (accumulated.Of(metric) / threshold) * 100.0;
          PctAtLeast100Iff(config, here, metric);
          var over := pct >= 100.0;
          if over {
            exceeded := true;
          }
          if pct >= config.warnAtPct {
            var last := if metric in lastAlertAt then lastAlertAt[metric] else 0.0;
            if !(config.cooldown > 0.0 && now - last < config.cooldown) {
              alerts := alerts + [Alert(config.name, metric, threshold, accumulated.Of(metric), pct, over)];
              alertCount := alertCount + 1;
              lastAlertAt := lastAlertAt[metric := now];
            }
          }
        }
        assert View() == checked.0 && alerts == alertsHere + checked.1;
        CheckMetricsStep(config, before, i, now);
      }
      assert METRICS[..|METRICS|] == METRICS;
      MetricsAreAll(config, before);
    }
  }

  lemma CheckMetricsStep(c: Config, s: State, i: int, now: real)
    requires 0 <= i < |METRICS|
    ensures var before := CheckMetrics(c, s, METRICS[..i], now);
      var here := CheckMetric(c, before.0, METRICS[i], now);
      CheckMetrics(c, s, METRICS[..i + 1], now) == (here.0, before.1 + here.1)
  {
    assert METRICS[..i + 1][..i] == METRICS[..i];
  }

  lemma MetricsAreAll(c: Config, s: State)
    ensures (exists m :: Exceeds(c, s, m)) <==> exists j :: 0 <= j < |METRICS| && Exceeds(c, s, METRICS[j])
  {
    assert METRICS[0] == Cost && METRICS[1] == Energy && METRICS[2] == Carbon;
    if m :| Exceeds(c, s, m) {
      var j := if m == Cost then 0 else if m == Energy then 1 else 2;
      assert METRICS[j] == m;
    }
  }

  // ---------- the whole monitor ----------

  type Key = (string, Metric)

  function Keys(alerts: seq<Alert>): seq<Key> {
    seq(|alerts|, i requires 0 <= i < |alerts| => (alerts[i].name, alerts[i].metric))
  }

  // Alerts of the first n budgets, in order.
  function AlertsOfAll(configs: seq<Config>, states: seq<State>, ticks: seq<Tick>, n: nat): seq<Alert>
    requires n <= |configs| == |states| == |ticks|
  {
    if n == 0 then []
    else AlertsOfAll(configs, states, ticks, n - 1) + Step(configs[n - 1], states[n - 1], ticks[n - 1]).1
  }

  predicate ExceededAmong(configs: seq<Config>, states: seq<State>, ticks: seq<Tick>, n: nat)
    requires n <= |configs| == |states| == |ticks|
  {
    n != 0 && (ExceededAmong(configs, states, ticks, n - 1) || StepExceeds(configs[n - 1], states[n - 1], ticks[n - 1]))
  }

  lemma {:induction false} ExceededAmongIff(configs: seq<Config>, states: seq<State>, ticks: seq<Tick>, n: nat)
    requires n <= |configs| == |states| == |ticks|
    ensures ExceededAmong(configs, states, ticks, n) <==>
            exists i :: 0 <= i < n && StepExceeds(configs[i], states[i], ticks[i])
  {
    hide StepExceeds;
    if n != 0 { ExceededAmongIff(configs, states, ticks, n - 1); }
  }

  lemma AlertsOfNone(configs: seq<Config>, states: seq<State>, ticks: seq<Tick>)
    requires |configs| == |states| == |ticks|
    ensures AlertsOfAll(configs, states, ticks, 0) == []
    ensures !ExceededAmong(configs, states, ticks, 0)
  {
  }

  lemma AlertsOfNext(configs: seq<Config>, states: seq<State>, ticks: seq<Tick>, n: nat)
    requires n < |configs| == |states| == |ticks|
    ensures AlertsOfAll(configs, states, ticks, n + 1)
            == AlertsOfAll(configs, states, ticks, n) + Step(configs[n], states[n], ticks[n]).1
    ensures ExceededAmong(configs, states, ticks, n + 1)
            == (ExceededAmong(configs, states, ticks, n) || StepExceeds(configs[n], states[n], ticks[n]))
  {
    hide Step, StepExceeds;
  }

  function Views(budgets: seq<Budget>): (vs: seq<State>)
    reads budgets
    ensures |vs| == |budgets|
    ensures forall i :: 0 <= i < |budgets| ==> vs[i] == budgets[i].View()
  {
    if budgets == [] then [] else Views(budgets[..|budgets| - 1]) + [budgets[|budgets| - 1].View()]
  }

  function Configs(budgets: seq<Budget>): (cs: seq<Config>)
    ensures |cs| == |budgets|
    ensures forall i :: 0 <= i < |budgets| ==> cs[i] == budgets[i].config
  {
    seq(|budgets|, i requires 0 <= i < |budgets| => budgets[i].config)
  }

  function Ticks(event: Event, now: real, resetReads: seq<real>): (ts: seq<Tick>)
    ensures |ts| == |resetReads|
    ensures forall i :: 0 <= i < |ts| ==> ts[i] == Tick(event, now, resetReads[i])
  {
    seq(|resetReads|, i requires 0 <= i < |resetReads| => Tick(event, now, resetReads[i]))
  }

  lemma KeptAfterStep(history: seq<Key>, k: Key)
    ensures KeptAfter(history + [k], MAX_WARNED_KEYS) == AddWarned(KeptAfter(history, MAX_WARNED_KEYS), k, MAX_WARNED_KEYS)
  {
    hide AddWarned;
    var longer := history + [k];
    assert longer[..|longer| - 1] == history;
  }

  class Monitor {
    var budgets: seq<Budget>
    var warned: seq<Key>
    ghost var history: seq<Key>

    ghost predicate Valid()
      reads this, budgets
    {
      && (forall i, j :: 0 <= i < j < |budgets| ==> budgets[i] != budgets[j])
      && (forall i, j :: 0 <= i < j < |budgets| ==> budgets[i].config.name != budgets[j].config.name)
      && (forall i :: 0 <= i < |budgets| ==> budgets[i].Valid())
      && warned == KeptAfter(history, MAX_WARNED_KEYS)
    }

    constructor ()
      ensures Valid() && budgets == [] && warned == [] && history == []
    {
      budgets, warned, history := [], [], [];
    }

    // set_budget: a budget of the same name is replaced where it stands.
    method SetBudget(config: Config, createdAt: real) returns (b: Budget)
      requires Valid()
      modifies this
      ensures Valid() && fresh(b) && b.config == config && b.View() == Fresh(createdAt)
      ensures warned == old(warned) && history == old(history)
      ensures (exists i :: 0 <= i < |old(budgets)| && old(budgets)[i].config.name == config.name
                           && budgets == old(budgets)[i := b])
              || ((forall i :: 0 <= i < |old(budgets)| ==> old(budgets)[i].config.name != config.name)
                  && budgets == old(budgets) + [b])
    {
      hide Run, StampedRun, KeptAfter;
      b := new Budget(config, createdAt);
      for i := 0 to |budgets|
        invariant budgets == old(budgets) && Valid() && warned == old(warned) && history == old(history)
        invariant fresh(b) && b.Valid() && b.config == config && b.View() == Fresh(createdAt)
        invariant forall j :: 0 <= j < i ==> budgets[j].config.name != config.name
      {
        if budgets[i].config.name == config.name {
          budgets := budgets[i := b];
          return;
        }
      }
      budgets := budgets + [b];
    }

    // clear_budgets
    method Clear()
      requires Valid()
      modifies this
      ensures Valid() && budgets == [] && warned == []
    {
      budgets, warned, history := [], [], [];
    }

    // check_budgets: resetReads[i] is the clock reading budget i's reset would take.
    method CheckBudgets(event: Event, now: real, resetReads: seq<real>)
      returns (anyExceeded: bool, alerts: seq<Alert>)
      requires Valid() && |resetReads| == |budgets|
      modifies this, budgets
      ensures Valid() && budgets == old(budgets)
      ensures forall i :: 0 <= i < |budgets| ==>
        && budgets[i].View() == Step(budgets[i].config, old(budgets[i].View()), Tick(event, now, resetReads[i])).0
        && budgets[i].trace == old(budgets[i].trace) + [Tick(event, now, resetReads[i])]
      ensures anyExceeded <==> exists i ::
        0 <= i < |budgets| && StepExceeds(budgets[i].config, old(budgets[i].View()), Tick(event, now, resetReads[i]))
      ensures alerts == AlertsOfAll(Configs(budgets), old(Views(budgets)), Ticks(event, now, resetReads), |budgets|)
      ensures history == old(history) + Keys(alerts)
    {
      hide KeptAfter, Run, Step, StepExceeds, Matches, AlertsOfAll, ExceededAmong, Budget.Valid, Budget.View, Views, Configs,
        Ticks, Keys;
      ExceededAmongIff(Configs(budgets), Views(budgets), Ticks(event, now, resetReads), |budgets|);
      anyExceeded, alerts := CheckAll(event, now, resetReads);
      // One key per alert, in the order the alerts were raised.
      AddWarnedAll(Keys(alerts));
    }

    method CheckAll(event: Event, now: real, resetReads: seq<real>) returns (anyExceeded: bool, alerts: seq<Alert>)
      requires Valid() && |resetReads| == |budgets|
      modifies budgets
      ensures Valid()
      ensures forall i :: 0 <= i < |budgets| ==>
        && budgets[i].View() == Step(budgets[i].config, old(budgets[i].View()), Tick(event, now, resetReads[i])).0
        && budgets[i].trace == old(budgets[i].trace) + [Tick(event, now, resetReads[i])]
      ensures anyExceeded
              == ExceededAmong(Configs(budgets), old(Views(budgets)), Ticks(event, now, resetReads), |budgets|)
      ensures alerts == AlertsOfAll(Configs(budgets), old(Views(budgets)), Ticks(event, now, resetReads), |budgets|)
    {
      hide KeptAfter, Run, Step, StepExceeds, Matches, AlertsOfAll, ExceededAmong, Budget.Valid, Budget.View, Views, Configs,
        Ticks;
      ghost var before, configs, ticks := Views(budgets), Configs(budgets), Ticks(event, now, resetReads);
      anyExceeded, alerts := false, [];
      AlertsOfNone(configs, before, ticks);
      for i := 0 to |budgets|
        invariant forall k :: 0 <= k < |budgets| ==> budgets[k].Valid()
        invariant forall k :: i <= k < |budgets| ==> unchanged(budgets[k])
        invariant forall k :: 0 <= k < i ==>
          budgets[k].View() == Step(configs[k], before[k], ticks[k]).0
          && budgets[k].trace == old(budgets[k].trace) + [ticks[k]]
        invariant anyExceeded == ExceededAmong(configs, before, ticks, i)
        invariant alerts == AlertsOfAll(configs, before, ticks, i)
      {
        var exceeded, raised := budgets[i].Check(Tick(event, now, resetReads[i]));
        AlertsOfNext(configs, before, ticks, i);
        if exceeded {
          anyExceeded := true;
        }
        alerts := alerts + raised;
      }
    }

    method AddWarnedAll(keys: seq<Key>)
      requires warned == KeptAfter(history, MAX_WARNED_KEYS)
      modifies this`warned, this`history
      ensures warned == KeptAfter(history, MAX_WARNED_KEYS)
      ensures history == old(history) + keys
    {
      hide KeptAfter, AddWarned;
      for i := 0 to |keys|
        invariant warned == KeptAfter(history, MAX_WARNED_KEYS)
        invariant history == old(history) + keys[..i]
      {
        var kept, _ := AddWarnedKey(warned, keys[i], MAX_WARNED_KEYS);
        warned := kept;
        KeptAfterStep(history, keys[i]);
        history := history + [keys[i]];
        assert keys[..i + 1] == keys[..i] + [keys[i]];
      }
      assert keys[..|keys|] == keys;
    }
  }
}
