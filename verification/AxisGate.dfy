/**
 The publication gate for one coefficient: identified, not identified, or rejected.
 Follows _relative_half_width and _axis_status in src/vetch/calibrate_v2.py.
 */
module AxisGate {
  import opened Wrappers
  import opened Reals
  import opened Rungs

  const MAX_RELATIVE_CI_HALF_WIDTH := 0.10

  datatype Status = Identified | NotIdentified | Rejected

  datatype Interval = Interval(lo: real, hi: real)

  datatype Reason =
    | NoLeverage(axis: Term)
    | NoInterval
    | SignImpossible
    | Imprecise
    | Determined
    | RungUnusable(rung: Rung)
    | NoRungContains
    | TooFewRows
    | NoIdleMeasurement
    | IdleNotPositive

  datatype AxisFit = AxisFit(
    coefficient: Option<real>,
    ci: Option<Interval>,
    status: Status,
    reason: Reason,
    leverage: Option<real>,
    hasDesignLeverage: bool)

  function RelativeHalfWidth(value: Option<real>, ci: Option<Interval>): Option<real> {
    if value.None? || ci.None? || value.value == 0.0 then None
    else Some(((ci.value.hi - ci.value.lo) / 2.0) / Abs(value.value))
  }

  // The gate without division: a usable interval at most a fifth of the estimate wide,
  // not lying entirely below zero.
  predicate PassesGate(value: real, ci: Interval) {
    value != 0.0 && ci.hi >= 0.0 && ci.hi - ci.lo <= 0.2 * Abs(value)
  }

  lemma HalfWidthAtMostTarget(value: real, width: real)
    requires value != 0.0
    ensures (width / 2.0) / Abs(value) <= MAX_RELATIVE_CI_HALF_WIDTH <==> width <= 0.2 * Abs(value)
  {
    var a := Abs(value);
    var q := (width / 2.0) / a;
    assert q * a == width / 2.0;
    if q <= 0.1 {
      assert (0.1 - q) * a >= 0.0;
    } else {
      assert (q - 0.1) * a > 0.0;
    }
  }

  function AxisStatus(value: Option<real>, ci: Option<Interval>,
                      hasDesignLeverage: bool, designReason: Reason): (fit: AxisFit)
    ensures fit.status.Identified? <==>
            hasDesignLeverage && value.Some? && ci.Some? && PassesGate(value.value, ci.value)
    ensures fit.status.Rejected? <==>
            hasDesignLeverage && value.Some? && ci.Some? && ci.value.hi < 0.0
    ensures fit.coefficient == if fit.status.Identified? then value else None
    ensures fit.ci == ci
  {
    var precision := RelativeHalfWidth(value, ci);
    if !hasDesignLeverage then
      AxisFit(None, ci, NotIdentified, designReason, precision, false)
    else if value.None? || ci.None? then
      AxisFit(None, ci, NotIdentified, NoInterval, None, true)
    else if ci.value.hi < 0.0 then
      AxisFit(None, ci, Rejected, SignImpossible, precision, true)
    else
      assert value.value != 0.0 ==> (precision.value <= MAX_RELATIVE_CI_HALF_WIDTH <==> ci.value.hi - ci.value.lo <= 0.2 * Abs(value.value)) by {
        if value.value != 0.0 { HalfWidthAtMostTarget(value.value, ci.value.hi - ci.value.lo); }
      }
      if precision.None? || precision.value > MAX_RELATIVE_CI_HALF_WIDTH then
        AxisFit(None, ci, NotIdentified, Imprecise, precision, true)
      else
        AxisFit(value, ci, Identified, Determined, precision, true)
  }

  // The reason given tells why: no leverage, no interval, an impossible sign or too wide an
  // interval; each for its own status only.
  lemma ReasonTellsWhy(value: Option<real>, ci: Option<Interval>, hasDesignLeverage: bool, designReason: Reason)
    ensures
      var fit := AxisStatus(value, ci, hasDesignLeverage, designReason);
      && fit.hasDesignLeverage == hasDesignLeverage
      && (!hasDesignLeverage ==> fit.reason == designReason)
      && (hasDesignLeverage ==>
            && (fit.reason == NoInterval <==> value.None? || ci.None?)
            && (fit.reason == SignImpossible <==> fit.status.Rejected?)
            && (fit.reason == Determined <==> fit.status.Identified?)
            && (fit.reason == Imprecise <==> value.Some? && ci.Some? && fit.status.NotIdentified?))
  {
  }

  predicate Brackets(ci: Interval, value: real) {
    ci.lo <= value <= ci.hi
  }

  // A gate-passing interval around its own estimate lies wholly above zero, so the
  // estimate is positive and known to within a fifth either way.
  lemma GatePassedIsPositive(value: real, ci: Interval)
    requires PassesGate(value, ci) && Brackets(ci, value)
    ensures 0.0 < 0.8 * value <= ci.lo <= value <= ci.hi <= 1.2 * value
  {
  }

  // The gate alone does not force the sign: a negative estimate can pass, but only when its
  // own interval lies strictly to the right of it.
  lemma NegativeEstimateOutsideInterval(value: real, ci: Interval)
    requires PassesGate(value, ci)
    ensures value < 0.0 ==> value < ci.lo
  {
  }

  // ... and such an estimate exists.
  lemma NegativeEstimateCanPass()
    ensures PassesGate(-1.0, Interval(-0.05, 0.05))
    ensures AxisStatus(Some(-1.0), Some(Interval(-0.05, 0.05)), true, NoInterval).status.Identified?
  {
  }
}
