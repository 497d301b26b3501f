/**
  The two-threshold (hysteresis) heater decision. Temperatures are exact
  reals standing for the controller's single-precision floats.
 */
module Thermostat {

  /** Target bath temperature in degrees Celsius. */
  const Setpoint: real := 88.0

  /** Half-width of the dead band around the setpoint. */
  const Hysteresis: real := 2.5

  /** The closed band inside which the heater command never changes. */
  predicate InBand(filtered: real, setpoint: real, hysteresis: real)
  {
    setpoint - hysteresis <= filtered <= setpoint + hysteresis
  }

  /**
    The decision as the loop makes it: first the "too hot" test may switch
    the heater off, then the "too cold" test may switch it on, so when both
    hold (only possible for a negative hysteresis) the second one wins.
   */
  function Decide(filtered: real, setpoint: real, hysteresis: real, op: bool): (r: bool)
    ensures filtered - setpoint < -hysteresis ==> r
    ensures filtered - setpoint > hysteresis && filtered - setpoint >= -hysteresis ==> !r
    ensures InBand(filtered, setpoint, hysteresis) ==> r == op
  {
    var afterHot := if filtered - setpoint > hysteresis then false else op;
    if filtered - setpoint < -1.0 * hysteresis then true else afterHot
  }

  /**
    The same rule written as "first match wins" with the switch-off test
    first: an independent reference for `Decide`.
   */
  function DecideOffFirst(filtered: real, setpoint: real, hysteresis: real, op: bool): bool
  {
    if filtered > setpoint + hysteresis then false
    else if filtered < setpoint - hysteresis then true
    else op
  }

  /** With a non-negative band the two tests exclude each other, so their order does not matter. */
  lemma OrderIrrelevant(filtered: real, setpoint: real, hysteresis: real, op: bool)
    requires hysteresis >= 0.0
    ensures Decide(filtered, setpoint, hysteresis, op) == DecideOffFirst(filtered, setpoint, hysteresis, op)
  {
  }

  /** With a negative band both tests can hold at once, and then the loop's order switches the heater on. */
  lemma OrderMattersForNegativeBand()
    ensures Decide(88.0, 88.0, -1.0, false) == true
    ensures DecideOffFirst(88.0, 88.0, -1.0, false) == false
  {
  }

  /** The configured band is positive, so the loop's decision is the plain first-match rule. */
  lemma ConfiguredOrderIrrelevant(filtered: real, op: bool)
    ensures Decide(filtered, Setpoint, Hysteresis, op) == DecideOffFirst(filtered, Setpoint, Hysteresis, op)
  {
    OrderIrrelevant(filtered, Setpoint, Hysteresis, op);
  }
}
