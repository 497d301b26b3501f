# Wax bath temperature controller — control core in Dafny

This project models the control core of a single-loop heater controller for a wax-melting bath.
An RTD sensor (read through a MAX31865 converter) is checked for faults every tick. On a fault-free
tick its temperature is smoothed by an exponential filter and compared against a setpoint of
88 degrees with a hysteresis band of ±2.5 degrees. The result drives the heater output pin. A tick
counter and a heartbeat bit that toggles every eighth tick run whether or not the tick faulted.

The state the model tracks is the loop's own globals (src/main.cpp:93-97): the 32-bit tick counter,
the heartbeat bit and the heater command. The smoothing filter also keeps a running value across
ticks, but that value is not modelled. The globals are modelled as the immutable `Controller.State`. One pass of `loop()` is the pure
function `Controller.Step(state, observation)`. The observation bundles what the collaborators answer
during the tick:
- the sensor's fault byte;
- the converted temperature;
- the value the smoothing filter returns for that temperature.

Each tick also returns the ordered list of calls it made on its collaborators: sensor reads, fault
clears, filter samples and writes to the heater pin. Frame conditions such as "a faulted tick feeds
nothing to the filter and does not write the pin" are stated over that list.

Files:
- `collaborators.dfy`: the external calls (`Call`) and the heater pin level (`Pin`).
- `fault_gate.dfy`: `thermo_check_fault`.
- `thermostat.dfy`: the two-threshold decision and the configured constants.
- `controller.dfy`: state, observation, one tick, a run of ticks, and the loop as an iterative method.
- `properties.dfy`: properties over sequences of ticks, such as the heartbeat period, the dead band
  and the rule that the last excursion decides.

Temperatures are exact `real`s standing for the source's single-precision floats. The counter wraps
at 2^32, as `uint32_t` does. Because 16 divides 2^32, the heartbeat phase stays the same across the
wrap.

Points where the code's behaviour differs from a plausible reading of the controller, and which the
model follows as written:
- The two hysteresis tests run in sequence, so when both hold the switch-on test wins. A
  "first match wins" rule with the switch-off test first would differ from this only for a negative
  band. `Thermostat.OrderIrrelevant` proves the two rules agree for any non-negative band.
  `Thermostat.OrderMattersForNegativeBand` gives a negative-band input where they differ.
- The heartbeat bit is toggled using the counter value from before the tick's increment, which
  happens at the end of the tick (src/main.cpp:100-102 and 152).
- The tick counter is a `uint32_t` and wraps to 0 after 2^32 ticks rather than growing for ever.
- Nothing rejects a zero or negative band: the band is the constant 2.5, and `Decide` takes it as a
  parameter without a precondition.

## Model

| member | source | states |
|---|---|---|
| FaultGate.CheckFault | src/main.cpp:64-91 | returns exactly the fault byte the register held; reads the register once, first; clears the fault latch exactly once when the byte is non-zero and never when it is zero; makes no other sensor call |
| Thermostat.Decide | src/main.cpp:113-118 | below `setpoint − band` the heater goes on; above `setpoint + band`, unless the reading is also below `setpoint − band` (possible only for a negative band), it goes off whatever it was; inside the closed band the command is kept |
| Thermostat.OrderIrrelevant | src/main.cpp:113-118 | for any non-negative band the loop's sequential tests give the same command as the first-match rule with switch-off first |
| Thermostat.OrderMattersForNegativeBand | src/main.cpp:113-118 | with a negative band both tests hold at once and the loop's order (second test wins) switches the heater on where first-match would switch it off |
| Thermostat.ConfiguredOrderIrrelevant | src/main.cpp:94-95 | with the configured setpoint 88 and band 2.5 the order of the two tests never matters |
| Controller.Step | src/main.cpp:99-152 | counter advances by one modulo 2^32 every tick, faulted or not; heartbeat toggles exactly when the old counter is a multiple of 8; on a fault-free tick above the band the heater goes off and below it goes on, whatever it was; a faulted or in-band tick keeps the command |
| Controller.StepCalls | src/main.cpp:99-152 | the fault latch is cleared exactly once on a faulted tick and never on a fault-free one; a faulted tick calls nothing but the fault register (no sensor read, no filter sample, no pin write); the fault register is read exactly once; a fault-free tick reads the temperature and then feeds that reading to the filter, feeds the filter exactly once and only with this tick's raw temperature, and writes the pin only as its last call, with the new command; the fault register is always read first |
| Controller.StepDecides | src/main.cpp:104-118 | on a fault-free tick the new command is the hysteresis decision on the filtered reading, the configured constants and the old command |
| Controller.StepDrivesPin | src/main.cpp:104-120 | a tick leaves the heater pin at the new command exactly when it is fault-free, and leaves the pin alone otherwise |
| Collaborators.NoWriteKeepsPin | src/main.cpp:120 | a list of calls that contains no power write leaves the heater pin at the level it had |
| Controller.RunLoop | src/main.cpp:99-152 | the iterative loop reaches the same state as the functional run; the heater pin has been driven iff some tick was fault-free, and then it holds the current command |
| ControlProperties.StepKeepsPhase | src/main.cpp:93-102 | every tick keeps the heartbeat bit consistent with the counter (set iff the number of multiples of 8 below the counter is odd), including the tick where the counter wraps to 0 |
| ControlProperties.InitPhaseConsistent | src/main.cpp:93-97 | the power-on globals (counter 0, heartbeat 0) are consistent |
| ControlProperties.PhaseFromInit | src/main.cpp:93-152 | from power-on, after any number of ticks and counter wraps, the heartbeat bit is set iff the number of multiples of 8 below the current counter value is odd |
| ControlProperties.HeartbeatTick | src/main.cpp:99-152 | one more tick, faulted or not, moves the counter from n to n + 1 modulo 2^32 and the heartbeat from n ticks' toggles to n + 1's |
| ControlProperties.HeartbeatFromInit | src/main.cpp:93-152 | from power-on, after n ticks the counter is n modulo 2^32 and the heartbeat has toggled once per multiple of 8 below n |
| ControlProperties.HeartbeatPeriodSixteen | src/main.cpp:93-152 | from power-on, after the (c+1)-th tick the heartbeat is set iff `(c / 8) % 2 == 0`, i.e. iff `c % 16 < 8`; c is a tick count, equal to the counter value that tick saw until the counter first wraps |
| ControlProperties.DeadBandNoChatter | src/main.cpp:104-118 | any sequence of ticks each faulted or inside the closed band leaves the heater command unchanged |
| ControlProperties.CommandChangeNeedsExcursion | src/main.cpp:104-118 | if a run changed the heater command, some tick in it was fault-free and outside the band |
| ControlProperties.LastExcursionDecides | src/main.cpp:104-118 | when every tick after a fault-free tick k is faulted or in band, the final command is the decision tick k made |
| ControlProperties.HotExcursionKeepsHeaterOff | src/main.cpp:113-115 | after a fault-free tick above `setpoint + band`, followed only by faulted or in-band ticks, the heater is off whatever it was before |
| ControlProperties.ColdExcursionKeepsHeaterOn | src/main.cpp:116-118 | after a fault-free tick below `setpoint − band`, followed only by faulted or in-band ticks, the heater is on whatever it was before |
| ControlProperties.ScenarioColdBath | src/main.cpp:116-118 | from power-on at a steady 84 degrees the heater switches on at the first tick and stays on |
| ControlProperties.ScenarioHotBath | src/main.cpp:113-115 | with the heater on, the first tick at 91 degrees switches it off and a second keeps it off |
| ControlProperties.ScenarioReferenceFault | src/main.cpp:64-104 | a tick reporting fault byte 0x04 keeps the command, clears the latch exactly once and does not write the pin |

## Left out

- The exponential moving-average filter (`Ewma`, α = 0.5) is left out. Its implementation is in an external library that is not part of this model. The filter's output is an input of each tick, so the filter's convergence and weighting properties are not stated.
- The meaning of the six fault bits is left out. `readFault`, `clearFault`, `temperature` and `readRTD` live in the unseen sensor driver, and so do the bit values. The per-bit branches only select debug messages, so the fault byte is opaque apart from zero versus non-zero.
- The resistance code from `readRTD` is left out. The call is recorded in the trace, but its value only feeds the serial log line.
- Display output, the serial log line and the heartbeat LED write are I/O formatting with no effect on the state, so they are left out. So are `setup()` and the pin configuration.
- The debug logging macros expand to RTT print calls or to no-ops, so they are left out.
- Floating-point rounding in `temp_filtered - setpoint` and `-1.0 * hysteresis` is left out. Temperatures are exact reals.
- The loop's cadence is left out. A run is a sequence of observations, one per tick.
