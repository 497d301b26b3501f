/**
  The fault gate run at the start of every tick: read the sensor's fault
  register and, when any bit is set, clear the latch. The byte is handed
  back unchanged; the caller treats any non-zero byte as "skip this tick".
  Which of the six fault causes a bit stands for only selects a debug
  message, so the byte is opaque here apart from being zero or not.
 */
module FaultGate {
  import opened Collaborators

  /** What one fault check returns and which sensor calls it made, in order. */
  datatype FaultCheck = FaultCheck(fault: bv8, calls: seq<Call>)

  /** A fault byte makes the tick skip control exactly when it is non-zero. */
  predicate Faulted(fault: bv8)
  {
    fault != 0
  }

  /** The fault check, given the byte the sensor's fault register holds. */
  function CheckFault(register: bv8): (r: FaultCheck)
    ensures r.fault == register
    ensures |r.calls| > 0 && r.calls[0] == ReadFault
    ensures multiset(r.calls)[ReadFault] == 1
    ensures multiset(r.calls)[ClearFault] == (if Faulted(register) then 1 else 0)
    ensures FaultRegisterOnly(r.calls)
  {
    if register != 0 then
      FaultCheck(register, [ReadFault, ClearFault])
    else
      FaultCheck(register, [ReadFault])
  }
}
