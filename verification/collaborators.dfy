/**
  The outside world as the control loop sees it: the calls it makes on the
  RTD sensor, the smoothing filter and the heater output pin. A tick of the
  loop is described by the values these collaborators answer with and by
  the ordered list of calls the loop made on them.
 */
module Collaborators {

  /** One call from the control loop to an external collaborator. */
  datatype Call =
    | ReadFault               // sensor: read the fault status register
    | ClearFault              // sensor: reset the latched fault bits
    | ReadTemperature         // sensor: convert the RTD reading to degrees
    | ReadRtd                 // sensor: raw resistance code (only logged)
    | FilterSample(raw: real) // smoothing filter: feed one raw temperature
    | WritePower(on: bool)    // heater output pin: drive it high or low

  /** The level of the heater output pin: never driven yet, or driven to `level`. */
  datatype Pin = Undriven | Driven(level: bool)

  /** The heater pin level after `calls`, starting from level `p`: the last power write wins. */
  function PinAfterCalls(p: Pin, calls: seq<Call>): Pin
    decreases |calls|
  {
    if |calls| == 0 then p
    else if calls[|calls| - 1].WritePower? then Driven(calls[|calls| - 1].on)
    else PinAfterCalls(p, calls[..|calls| - 1])
  }

  /** Calls that contain no power write leave the heater pin as it was. */
  lemma {:induction false} NoWriteKeepsPin(p: Pin, calls: seq<Call>)
    requires forall i :: 0 <= i < |calls| ==> !calls[i].WritePower?
    ensures PinAfterCalls(p, calls) == p
    decreases |calls|
  {
    if |calls| > 0 {
      NoWriteKeepsPin(p, calls[..|calls| - 1]);
    }
  }

  /** True when `calls` contains no call other than the two fault-register calls. */
  predicate FaultRegisterOnly(calls: seq<Call>)
  {
    forall i :: 0 <= i < |calls| ==> calls[i] == ReadFault || calls[i] == ClearFault
  }
}
