/**
  One pass of the controller's main loop as a pure step over an explicit
  state. The state is the loop's own globals: the tick counter, the
  heartbeat bit and the heater command. The smoothing filter keeps its own
  running value, which is not modelled; everything the hardware and the
  filter answer during a tick is bundled into an observation.
 */
module Controller {
  import opened Collaborators
  import opened FaultGate
  import opened Thermostat

  /** Number of values an unsigned 32-bit counter can hold. */
  const CounterRange: nat := 0x1_0000_0000

  /** The loop counter is an unsigned 32-bit integer. */
  type Counter = c: nat | c < CounterRange

  /** The heartbeat bit toggles on every tick whose counter is a multiple of this. */
  const HeartbeatPeriod: nat := 8

  /** The loop's persistent state: tick counter, heartbeat bit and heater command. */
  datatype State = State(counter: Counter, flipflop: bool, op: bool)

  /** The state at power-on: all three globals start at zero. */
  const Init: State := State(0, false, false)

  /**
    What the collaborators answer during one tick: the fault register, the
    converted temperature, and what the smoothing filter returns when fed
    that temperature. The last two are only consulted on a fault-free tick.
   */
  datatype Observation = Observation(fault: bv8, temperature: real, filtered: real)

  /** The state after a tick and the calls the tick made, in order. */
  datatype Tick = Tick(next: State, calls: seq<Call>)

  /** True when the tick with this observation runs the control decision. */
  predicate FaultFree(o: Observation)
  {
    !Faulted(o.fault)
  }

  /** True when a tick with this observation cannot change the heater command. */
  predicate Quiet(o: Observation)
  {
    Faulted(o.fault) || InBand(o.filtered, Setpoint, Hysteresis)
  }

  /**
    One run of the loop body: toggle the heartbeat on every eighth tick,
    pass the fault gate, and on a fault-free tick read the sensor, feed the
    filter, decide the heater command and drive the output pin; the counter
    advances (wrapping at 2^32) whether or not the tick faulted.
   */
  function Step(s: State, o: Observation): (t: Tick)
    ensures t.next.counter == (s.counter + 1) % CounterRange
    ensures t.next.flipflop != s.flipflop <==> s.counter % HeartbeatPeriod == 0
    // Threshold switching, and the dead band that faulted ticks also fall in.
    ensures FaultFree(o) && o.filtered - Setpoint > Hysteresis ==> !t.next.op
    ensures FaultFree(o) && o.filtered - Setpoint < -Hysteresis ==> t.next.op
    ensures Quiet(o) ==> t.next.op == s.op
  {
    var flipflop := if s.counter % HeartbeatPeriod == 0 then !s.flipflop else s.flipflop;
    var counter := (s.counter + 1) % CounterRange;
    var gate := CheckFault(o.fault);
    if gate.fault != 0 then
      Tick(State(counter, flipflop, s.op), gate.calls)
    else
      assert gate.calls == [ReadFault];
      var op := Decide(o.filtered, Setpoint, Hysteresis, s.op);
      Tick(State(counter, flipflop, op),
           gate.calls + [ReadTemperature, ReadRtd, FilterSample(o.temperature), WritePower(op)])
  }

  /**
    The calls a tick makes: the fault latch is cleared exactly on a faulted
    tick, which touches nothing but the fault register; a fault-free tick
    feeds the filter once and ends by driving the pin to the new command.
   */
  lemma StepCalls(s: State, o: Observation)
    ensures multiset(Step(s, o).calls)[ClearFault] == (if Faulted(o.fault) then 1 else 0)
    ensures Faulted(o.fault) ==> FaultRegisterOnly(Step(s, o).calls)
    ensures FaultFree(o) ==>
              && multiset(Step(s, o).calls)[FilterSample(o.temperature)] == 1
              && Step(s, o).calls[|Step(s, o).calls| - 1] == WritePower(Step(s, o).next.op)
    // The filter sees only this tick's temperature, and the pin is written only at the end.
    ensures forall i :: 0 <= i < |Step(s, o).calls| && Step(s, o).calls[i].FilterSample? ==>
              Step(s, o).calls[i] == FilterSample(o.temperature)
    ensures forall i :: 0 <= i < |Step(s, o).calls| - 1 ==> !Step(s, o).calls[i].WritePower?
    // The fault register is read once and first; a fault-free tick reads the
    // temperature and then feeds that reading to the filter.
    ensures Step(s, o).calls[0] == ReadFault
    ensures multiset(Step(s, o).calls)[ReadFault] == 1
    ensures FaultFree(o) ==>
              exists i, j :: 0 <= i < j < |Step(s, o).calls|
                && Step(s, o).calls[i] == ReadTemperature
                && Step(s, o).calls[j] == FilterSample(o.temperature)
    ensures forall i, j ::
              (0 <= i < |Step(s, o).calls| && 0 <= j < |Step(s, o).calls|
               && Step(s, o).calls[i] == ReadTemperature && Step(s, o).calls[j].FilterSample?) ==> i < j
  {
    if FaultFree(o) {
      var c := Step(s, o).calls;
      assert c[1] == ReadTemperature && c[3] == FilterSample(o.temperature);
    }
  }

  /** On a fault-free tick the new heater command is the hysteresis decision on the filtered reading. */
  lemma StepDecides(s: State, o: Observation)
    requires FaultFree(o)
    ensures Step(s, o).next.op == Decide(o.filtered, Setpoint, Hysteresis, s.op)
  {
  }

  /** The state after running one tick per observation, in order. */
  function Run(s: State, obs: seq<Observation>): State
    decreases |obs|
  {
    if |obs| == 0 then s else Step(Run(s, obs[..|obs| - 1]), obs[|obs| - 1]).next
  }

  /** The heater pin level after a tick, starting from level `p`: the tick's last power write wins. */
  function PinAfter(p: Pin, t: Tick): Pin
  {
    PinAfterCalls(p, t.calls)
  }

  /** A tick drives the heater pin exactly when it is fault-free, and to the new command. */
  lemma StepDrivesPin(p: Pin, s: State, o: Observation)
    ensures PinAfter(p, Step(s, o)) == if FaultFree(o) then Driven(Step(s, o).next.op) else p
  {
    var t := Step(s, o);
    StepCalls(s, o);
    if Faulted(o.fault) {
      assert forall i :: 0 <= i < |t.calls| ==> !t.calls[i].WritePower?;
      NoWriteKeepsPin(p, t.calls);
    }
  }

  /**
    The loop as it runs on the device: tick once per observation, keeping the
    state and tracking the heater pin from the calls each tick makes.
   */
  method RunLoop(s: State, obs: seq<Observation>) returns (t: State, pin: Pin)
    ensures t == Run(s, obs)
    ensures pin.Driven? <==> exists i :: 0 <= i < |obs| && FaultFree(obs[i])
    ensures pin.Driven? ==> pin.level == t.op
  {
    t := s;
    pin := Undriven;
    for i := 0 to |obs|
      invariant t == Run(s, obs[..i])
      invariant pin.Driven? <==> exists j :: 0 <= j < i && FaultFree(obs[j])
      invariant pin.Driven? ==> pin.level == t.op
    {
      assert obs[..i + 1][..i] == obs[..i];
      var tick := Step(t, obs[i]);
      StepDrivesPin(pin, t, obs[i]);
      pin := PinAfter(pin, tick);
      t := tick.next;
      assert t == Run(s, obs[..i + 1]);
    }
    assert obs[..|obs|] == obs;
  }
}
