/**
  Properties of the controller over sequences of ticks: the heartbeat
  period, the dead band that stops the heater command from chattering, and
  the rule that the last out-of-band reading decides the command.
 */
module ControlProperties {
  import opened Collaborators
  import opened FaultGate
  import opened Thermostat
  import opened Controller

  // ---------------------------------------------------------------------------
  // Heartbeat

  /**
    The heartbeat bit agrees with the counter: it is set exactly when the
    number of multiples of eight below the counter is odd.
   */
  predicate PhaseConsistent(s: State)
  {
    s.flipflop == ((s.counter + 7) / 8 % 2 == 1)
  }

  /** Division by eight is determined by quotient and remainder. */
  lemma DivMod8(x: int, q: int, r: int)
    requires x == 8 * q + r && 0 <= r < 8
    ensures x / 8 == q && x % 8 == r
  {
  }

  /** Division by 2^32 is determined by quotient and remainder. */
  lemma DivModWord(x: int, q: int, r: int)
    requires x == CounterRange * q + r && 0 <= r < CounterRange
    ensures x / CounterRange == q && x % CounterRange == r
  {
  }

  /** Moving past a multiple of eight flips the parity of the count of multiples below. */
  lemma PassMultipleOfEight(c: nat)
    ensures c % 8 == 0 ==> (c + 8) / 8 % 2 != (c + 7) / 8 % 2
    ensures c % 8 != 0 ==> (c + 8) / 8 == (c + 7) / 8
  {
    var q, r := c / 8, c % 8;
    if r == 0 {
      DivMod8(c + 7, q, 7);
      DivMod8(c + 8, q + 1, 0);
    } else {
      DivMod8(c + 7, q + 1, r - 1);
      DivMod8(c + 8, q + 1, r);
    }
  }

  /** Reducing a tick count to 32 bits keeps its residue modulo 8, since 8 divides 2^32. */
  lemma WrapKeepsResidue(n: nat)
    ensures (n % CounterRange) % 8 == n % 8
  {
    var k, m := n / CounterRange, n % CounterRange;
    DivMod8(n, 0x2000_0000 * k + m / 8, m % 8);
  }

  /** Incrementing a count reduced to 32 bits agrees with reducing the incremented count. */
  lemma WrapIncrement(n: nat)
    ensures (n % CounterRange + 1) % CounterRange == (n + 1) % CounterRange
  {
    var k, m := n / CounterRange, n % CounterRange;
    if m + 1 < CounterRange {
      DivModWord(n + 1, k, m + 1);
      DivModWord(m + 1, 0, m + 1);
    } else {
      DivModWord(n + 1, k + 1, 0);
      DivModWord(m + 1, 1, 0);
    }
  }

  /** Every tick, faulted or not, keeps the heartbeat bit consistent with the counter, across the 32-bit wrap too. */
  lemma StepKeepsPhase(s: State, o: Observation)
    requires PhaseConsistent(s)
    ensures PhaseConsistent(Step(s, o).next)
  {
    var c := s.counter;
    var next := Step(s, o).next;
    if c + 1 < CounterRange {
      DivModWord(c + 1, 0, c + 1);
      assert next.counter == c + 1;
      PassMultipleOfEight(c);
    } else {
      DivModWord(c + 1, 1, 0);
      assert next.counter == 0;
      DivMod8(c, 0x1FFF_FFFF, 7);
      DivMod8(c + 7, 0x2000_0000, 6);
    }
  }

  /** The power-on state is consistent. */
  lemma InitPhaseConsistent()
    ensures PhaseConsistent(Init)
  {
  }

  /**
    From power-on, however many ticks have run and across any number of
    counter wraps, the heartbeat bit is set exactly when the number of
    multiples of eight below the current counter value is odd.
   */
  lemma {:induction false} PhaseFromInit(obs: seq<Observation>)
    ensures PhaseConsistent(Run(Init, obs))
    decreases |obs|
  {
    if |obs| == 0 {
      InitPhaseConsistent();
    } else {
      PhaseFromInit(obs[..|obs| - 1]);
      StepKeepsPhase(Run(Init, obs[..|obs| - 1]), obs[|obs| - 1]);
    }
  }

  /**
    The heartbeat after n ticks from power-on: the counter holds n modulo
    2^32 and the bit has toggled once for every multiple of eight below n.
   */
  predicate HeartbeatAfter(n: nat, s: State)
  {
    s.counter == n % CounterRange && s.flipflop == ((n + 7) / 8 % 2 == 1)
  }

  /** One more tick, faulted or not, moves the heartbeat on from n ticks to n + 1. */
  lemma HeartbeatTick(n: nat, s: State, o: Observation)
    requires HeartbeatAfter(n, s)
    ensures HeartbeatAfter(n + 1, Step(s, o).next)
  {
    CountTick(n + 1);
  }

  /** From power-on, the state after n ticks shows the heartbeat of n ticks. */
  lemma {:induction false} HeartbeatFromInit(obs: seq<Observation>)
    ensures HeartbeatAfter(|obs|, Run(Init, obs))
    decreases |obs|
  {
    if |obs| > 0 {
      var n := |obs|;
      HeartbeatFromInit(obs[..n - 1]);
      HeartbeatTick(n - 1, Run(Init, obs[..n - 1]), obs[n - 1]);
    }
  }

  /** The arithmetic of one tick, from the (n-1)th to the nth, of a run started at power-on. */
  lemma CountTick(n: nat)
    requires n > 0
    ensures ((n - 1) % CounterRange + 1) % CounterRange == n % CounterRange
    ensures ((n - 1) % CounterRange) % 8 == (n - 1) % 8
    ensures (n - 1) % 8 == 0 ==> (n + 7) / 8 % 2 != (n + 6) / 8 % 2
    ensures (n - 1) % 8 != 0 ==> (n + 7) / 8 == (n + 6) / 8
  {
    WrapIncrement(n - 1);
    WrapKeepsResidue(n - 1);
    PassMultipleOfEight(n - 1);
    assert n - 1 + 8 == n + 7 && n - 1 + 7 == n + 6;
  }

  /**
    From power-on, after the tick that saw counter value c the heartbeat bit
    is set exactly in the first half of each sixteen-tick period: it is on
    for eight ticks and off for eight.
   */
  lemma HeartbeatPeriodSixteen(obs: seq<Observation>)
    requires |obs| > 0
    ensures Run(Init, obs).flipflop == ((|obs| - 1) / 8 % 2 == 0)
    ensures Run(Init, obs).flipflop == ((|obs| - 1) % 16 < 8)
  {
    HeartbeatFromInit(obs);
    SixteenTickPeriod(|obs| - 1);
    assert |obs| - 1 + 8 == |obs| + 7;
  }

  /** The parity of the multiples of eight up to c is set exactly in the first half of c's sixteen-tick period. */
  lemma SixteenTickPeriod(c: nat)
    ensures ((c + 8) / 8 % 2 == 1) == (c / 8 % 2 == 0)
    ensures (c / 8 % 2 == 0) == (c % 16 < 8)
  {
    DivMod8(c + 8, c / 8 + 1, c % 8);
    var q, r := c / 16, c % 16;
    if r < 8 {
      DivMod8(c, 2 * q, r);
    } else {
      DivMod8(c, 2 * q + 1, r - 8);
    }
  }

  // ---------------------------------------------------------------------------
  // Hysteresis over sequences of ticks

  /** Ticks that are all faulted or in the dead band never change the heater command. */
  lemma {:induction false} DeadBandNoChatter(s: State, obs: seq<Observation>)
    requires forall i :: 0 <= i < |obs| ==> Quiet(obs[i])
    ensures Run(s, obs).op == s.op
    decreases |obs|
  {
    if |obs| > 0 {
      DeadBandNoChatter(s, obs[..|obs| - 1]);
      assert Quiet(obs[|obs| - 1]);
    }
  }

  /** The heater command only ever changes after some fault-free tick outside the dead band. */
  lemma CommandChangeNeedsExcursion(s: State, obs: seq<Observation>)
    requires Run(s, obs).op != s.op
    ensures exists i :: 0 <= i < |obs| && FaultFree(obs[i]) && !InBand(obs[i].filtered, Setpoint, Hysteresis)
  {
    if forall i :: 0 <= i < |obs| ==> Quiet(obs[i]) {
      DeadBandNoChatter(s, obs);
    }
  }

  /**
    After a fault-free tick above the band, the heater stays off for as long
    as every later tick is faulted or in the band.
   */
  lemma HotExcursionKeepsHeaterOff(s: State, obs: seq<Observation>, k: nat)
    requires k < |obs|
    requires FaultFree(obs[k]) && obs[k].filtered > Setpoint + Hysteresis
    requires forall i :: k < i < |obs| ==> Quiet(obs[i])
    ensures !Run(s, obs).op
  {
    LastExcursionDecides(s, obs, k);
  }

  /**
    After a fault-free tick below the band, the heater stays on for as long
    as every later tick is faulted or in the band.
   */
  lemma ColdExcursionKeepsHeaterOn(s: State, obs: seq<Observation>, k: nat)
    requires k < |obs|
    requires FaultFree(obs[k]) && obs[k].filtered < Setpoint - Hysteresis
    requires forall i :: k < i < |obs| ==> Quiet(obs[i])
    ensures Run(s, obs).op
  {
    LastExcursionDecides(s, obs, k);
  }

  /** The last fault-free tick outside the band decides the heater command. */
  lemma {:induction false} LastExcursionDecides(s: State, obs: seq<Observation>, k: nat)
    requires k < |obs| && FaultFree(obs[k])
    requires forall i :: k < i < |obs| ==> Quiet(obs[i])
    ensures Run(s, obs).op == Decide(obs[k].filtered, Setpoint, Hysteresis, Run(s, obs[..k]).op)
    decreases |obs|
  {
    var n := |obs|;
    var prefix := obs[..n - 1];
    assert Run(s, obs) == Step(Run(s, prefix), obs[n - 1]).next;
    if n - 1 == k {
      assert prefix == obs[..k];
      StepDecides(Run(s, prefix), obs[k]);
    } else {
      assert prefix[k] == obs[k] && prefix[..k] == obs[..k];
      assert Quiet(obs[n - 1]);
      LastExcursionDecides(s, prefix, k);
    }
  }

  // ---------------------------------------------------------------------------
  // Worked scenarios

  /** A fault-free observation whose raw and filtered temperatures are both `t`. */
  function Steady(t: real): Observation
  {
    Observation(0, t, t)
  }

  /** Heater off at 84 degrees: the first tick switches it on and later ticks at 84 keep it on. */
  lemma ScenarioColdBath()
    ensures Run(Init, [Steady(84.0)]).op
    ensures Run(Init, [Steady(84.0), Steady(84.0), Steady(84.0)]).op
  {
    ColdExcursionKeepsHeaterOn(Init, [Steady(84.0)], 0);
    ColdExcursionKeepsHeaterOn(Init, [Steady(84.0), Steady(84.0), Steady(84.0)], 2);
  }

  /** Heater on at 91 degrees: the first tick switches it off. */
  lemma ScenarioHotBath(s: State)
    requires s.op
    ensures !Run(s, [Steady(91.0)]).op
    ensures !Run(s, [Steady(91.0), Steady(91.0)]).op
  {
    HotExcursionKeepsHeaterOff(s, [Steady(91.0)], 0);
    HotExcursionKeepsHeaterOff(s, [Steady(91.0), Steady(91.0)], 1);
  }

  /** A REFIN- fault (0x04) skips control and clears the fault latch once. */
  lemma ScenarioReferenceFault(s: State, t: real, f: real)
    ensures Step(s, Observation(0x04, t, f)).next.op == s.op
    ensures multiset(Step(s, Observation(0x04, t, f)).calls)[ClearFault] == 1
    ensures FaultRegisterOnly(Step(s, Observation(0x04, t, f)).calls)
  {
    var tick := Step(s, Observation(0x04, t, f));
    StepCalls(s, Observation(0x04, t, f));
    assert FaultRegisterOnly(tick.calls);
  }
}
