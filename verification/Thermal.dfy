/** The states of the heater (Shared/src/LpcProtocol.h). */
module HeaterStates {
  datatype HeaterState = Fault | Offline | Off | Suspended | Cooling | Stable | Heating

  predicate IsActive(s: HeaterState) {
    s == Cooling || s == Stable || s == Heating
  }
}

/** The heater controller (LpcFirmware/src/Thermal.cpp). Methods run to the end
    without being interrupted; the interrupt between their steps is the subject
    of HeaterInterlock. Numbers are reals, or known not to be finite. */
module Thermal {
  import opened HeaterStates
  import Pwm

  type u8 = x: nat | x < 0x100
  type u16 = x: nat | x < 0x1_0000
  type i16 = x: int | -0x8000 <= x < 0x8000

  const TICK_RANGE: nat := 0x1_0000_0000
  const SAMPLE_INTERVAL_MILLIS: nat := 250
  const LINK_TIMEOUT_MILLIS: nat := 2500
  const ABSOLUTE_ZERO: real := -273.15
  const TEMPERATURE_CLOSE_ENOUGH: real := 1.5
  const MAX_AMBIENT_TEMPERATURE: real := 45.0
  const NORMAL_AMBIENT_TEMPERATURE: real := 25.0
  const FAN_FEED_FORWARD_MULTIPLIER: real := 0.7

  // LpcProtocol.h
  datatype ThermalError =
    | NoError | NotConfigured | AdcTimeout | ShortCircuit | OpenCircuit | OverTemperature
    | UnderTemperature | LinkTimeout | ControlFault | HeatingTooSlow | TemperatureExcursion

  datatype Float = Finite(value: real) | NotFinite

  datatype Model = Model(
    heatingRate: Float, basicCoolingRate: Float, fanCoolingRate: Float, coolingRateExponent: Float,
    deadTime: Float, maxPwm: Float, overrideKp: Float, overrideRecipTi: Float, overrideTd: Float,
    usePid: bool, inverted: bool, pidOverridden: bool)

  datatype Pid = Pid(kP: real, recipTi: real, tD: real)

  /** What frames ask for; a frame of the wrong length is malformed, which matters
      for models only, or ignored. */
  datatype Message =
    | ThermistorConfig(r25: Float, beta: Float, shC: Float, pullupR: Float)
    | ModelA(heatingRate: Float, basicCoolingRate: Float, fanCoolingRate: Float, coolingRateExponent: Float)
    | ModelB(deadTime: Float, maxPwm: Float, overrideKp: Float, overrideRecipTi: Float)
    | ModelC(overrideTd: Float, flags: u8)
    | MalformedModel
    | HeaterConfig(frequency: u16, upper: i16, lower: i16, excursion: u16, faultTime: u16, maxBad: u8)
    | HeaterCommand(command: u8, target: i16)
    | FeedForward(fan: Float, pwmBoost: Float, temperatureBoost: Float)
    | Ignored

  const COMMAND_OFF: u8 := 0
  const COMMAND_ON: u8 := 1
  const COMMAND_SUSPEND: u8 := 2
  const COMMAND_RESET_FAULT: u8 := 3

  /** What the sensor shows: a temperature, an error that is noticed before the
      temperature is computed, or a temperature that is taken for an open circuit. */
  datatype Sample = Good(temperature: real) | Bad(error: ThermalError) | Implausible(temperature: real)

  /** What a round of control computes with powers and roots, and from earlier samples. */
  datatype Computed = Computed(derivative: real, gotDerivative: bool, coolingWhenHeating: real, cooling: real, pid: Pid)

  function Clamp(value: real, low: real, high: real): real {
    if value < low then low else if value > high then high else value
  }

  predicate Positive(f: Float) { f.Finite? && f.value > 0.0 }

  predicate NotNegative(f: Float) { f.Finite? && f.value >= 0.0 }

  /** ModelReady */
  predicate ModelReady(m: Model) {
    && Positive(m.heatingRate) && NotNegative(m.basicCoolingRate) && NotNegative(m.fanCoolingRate)
    && m.coolingRateExponent.Finite? && 1.0 <= m.coolingRateExponent.value <= 1.6
    && Positive(m.deadTime) && Positive(m.maxPwm) && m.maxPwm.value <= 1.0
    && (m.pidOverridden ==> m.overrideKp.Finite? && m.overrideRecipTi.Finite? && m.overrideTd.Finite?)
  }

  function Flag(flags: u8, bit: nat): bool
    requires bit > 0
  {
    flags / bit % 2 == 1
  }

  /** The model that three messages describe. */
  function Assembled(a: Message, b: Message, c: Message): Model
    requires a.ModelA? && b.ModelB? && c.ModelC?
  {
    Model(a.heatingRate, a.basicCoolingRate, a.fanCoolingRate, a.coolingRateExponent,
          b.deadTime, b.maxPwm, b.overrideKp, b.overrideRecipTi, c.overrideTd,
          Flag(c.flags, 1), Flag(c.flags, 2), Flag(c.flags, 4))
  }

  /** How far a sequence of model messages has got with a model. */
  function PartsOf(messages: seq<Message>): nat {
    var n := |messages|;
    if n >= 1 && messages[n-1].ModelA? then 1
    else if n >= 2 && messages[n-2].ModelA? && messages[n-1].ModelB? then 3
    else 0
  }

  /** The duty that a PWM value between 0 and 1 is rounded to. */
  function DutyOf(pwm: real): (duty: nat)
    ensures duty <= 65535
    ensures pwm <= 0.0 ==> duty == 0
    ensures pwm >= 1.0 ==> duty == 65535
    ensures 0.0 <= pwm <= 1.0 ==> -0.5 <= duty as real - pwm * 65535.0 <= 0.5
  {
    (Clamp(pwm, 0.0, 1.0) * 65535.0 + 0.5).Floor
  }

  lemma DutyIsMonotone(a: real, b: real)
    requires a <= b
    ensures DutyOf(a) <= DutyOf(b)
  {
  }

  /** What an extrusion and a fan are expected to cost at a target, in PWM. */
  ghost function OpenLoop(m: Model, target: real, pwmBoost: real, fanPwm: real): real
    requires m.heatingRate.Finite? && m.fanCoolingRate.Finite? && m.heatingRate.value > 0.0
  {
    pwmBoost
    + (target - 25.0) * 0.01 * m.fanCoolingRate.value / m.heatingRate.value * 0.7 * fanPwm
  }

  lemma OpenLoopChange(m: Model, target: real, pwmBoost: real, fanPwm: real, newBoost: real, newFan: real)
    requires m.heatingRate.Finite? && m.fanCoolingRate.Finite? && m.heatingRate.value > 0.0
    ensures OpenLoop(m, target, newBoost, newFan) - OpenLoop(m, target, pwmBoost, fanPwm)
         == newBoost - pwmBoost
            + (if newFan == fanPwm then 0.0
               else (target - NORMAL_AMBIENT_TEMPERATURE) * 0.01 * m.fanCoolingRate.value * (newFan - fanPwm)
                    / m.heatingRate.value * FAN_FEED_FORWARD_MULTIPLIER)
  {
    GainTimesChange((target - NORMAL_AMBIENT_TEMPERATURE) * 0.01 * m.fanCoolingRate.value, m.heatingRate.value, fanPwm, newFan);
  }

  lemma GainTimesChange(a: real, h: real, from: real, to: real)
    requires h > 0.0
    ensures a * (to - from) / h * FAN_FEED_FORWARD_MULTIPLIER
         == a / h * FAN_FEED_FORWARD_MULTIPLIER * to - a / h * FAN_FEED_FORWARD_MULTIPLIER * from
  {
    var q := a / h;
    assert q * h == a;
    assert q * (to - from) * h == a * (to - from);
    assert a * (to - from) / h == q * (to - from);
  }

  /** The heater output that control asks for. */
  datatype Output = Output(pwm: real, integral: real)

  /** PID control with feed-forward, limited to what the model allows. */
  function PidOutput(m: Model, state: HeaterState, integral: real, tempError: real, i: Computed): (o: Output)
    requires ModelReady(m)
    ensures 0.0 <= o.pwm <= m.maxPwm.value
  {
    var pid := PidFor(m, i);
    Settled(m.maxPwm.value, PPlusD(pid, tempError, i), Expected(m, i), integral, Gain(pid, tempError),
            state == Heating && tempError > 0.0 && i.derivative > 0.0)
  }

  function PidFor(m: Model, i: Computed): Pid
    requires m.pidOverridden ==> m.overrideKp.Finite? && m.overrideRecipTi.Finite? && m.overrideTd.Finite?
  {
    if m.pidOverridden then Pid(m.overrideKp.value, m.overrideRecipTi.value, m.overrideTd.value) else i.pid
  }

  function PPlusD(pid: Pid, tempError: real, i: Computed): real {
    pid.kP * (tempError - (if i.gotDerivative then pid.tD * i.derivative else 0.0))
  }

  function Expected(m: Model, i: Computed): real
    requires m.heatingRate.Finite? && m.heatingRate.value != 0.0
  {
    i.cooling / m.heatingRate.value
  }

  /** What the integral gains in a quarter of a second. */
  function Gain(pid: Pid, tempError: real): real {
    tempError * pid.kP * pid.recipTi * 0.25
  }

  /** The output for a proportional and derivative part, the expected need, and what the integral gains. */
  function Settled(max: real, pPlusD: real, expected: real, integral: real, gain: real, rising: bool): (o: Output)
    requires max >= 0.0
    ensures 0.0 <= o.pwm <= max
  {
    if pPlusD + expected > max then
      Output(max, if rising then expected else integral)
    else if pPlusD + expected < 0.0 then
      Output(0.0, integral)
    else
      var newIntegral := Clamp(integral + gain, 0.0, max);
      Output(Clamp(pPlusD + newIntegral, 0.0, max), newIntegral)
  }

  lemma SettledMeans(max: real, pPlusD: real, expected: real, integral: real, gain: real, rising: bool)
    requires max >= 0.0
    ensures var o := Settled(max, pPlusD, expected, integral, gain, rising);
            && (pPlusD + expected > max ==> o == Output(max, if rising then expected else integral))
            && (pPlusD + expected < 0.0 ==> o == Output(0.0, integral))
            && (0.0 <= pPlusD + expected <= max ==>
                  && (0.0 <= integral + gain <= max ==> o.integral == integral + gain)
                  && (integral + gain < 0.0 ==> o.integral == 0.0) && (integral + gain > max ==> o.integral == max)
                  && (0.0 <= pPlusD + o.integral <= max ==> o.pwm == pPlusD + o.integral)
                  && (pPlusD + o.integral < 0.0 ==> o.pwm == 0.0)
                  && (pPlusD + o.integral > max ==> o.pwm == max))
  {
  }

  lemma SettledFollows(max: real, p1: real, p2: real, expected: real, integral: real, g1: real, g2: real, r1: bool, r2: bool)
    requires max >= 0.0 && p1 <= p2 && g1 <= g2
    ensures Settled(max, p1, expected, integral, g1, r1).pwm <= Settled(max, p2, expected, integral, g2, r2).pwm
  {
  }

  function ControlOutput(m: Model, state: HeaterState, integral: real, tempError: real, i: Computed): (o: Output)
    requires ModelReady(m)
    ensures 0.0 <= o.pwm <= m.maxPwm.value
  {
    var o := if m.usePid then PidOutput(m, state, integral, tempError, i)
             else Output(if tempError > 0.0 then m.maxPwm.value else 0.0, integral);
    if m.inverted then o.(pwm := m.maxPwm.value - o.pwm) else o
  }

  // What control answers to an error, apart from how it is computed.

  /** The PID constants in effect. */
  ghost predicate InEffect(m: Model, i: Computed, pid: Pid) {
    if m.pidOverridden then
      m.overrideKp == Finite(pid.kP) && m.overrideRecipTi == Finite(pid.recipTi) && m.overrideTd == Finite(pid.tD)
    else pid == i.pid
  }

  /** What proportional and derivative part and the expected need ask for. */
  ghost function Demand(m: Model, pid: Pid, error: real, i: Computed): real
    requires m.heatingRate.Finite? && m.heatingRate.value != 0.0
  {
    pid.kP * (error - (if i.gotDerivative then pid.tD * i.derivative else 0.0)) + i.cooling / m.heatingRate.value
  }

  /** Without PID the heater is full on exactly below its target, or if inverted exactly not below it. */
  lemma BangBang(m: Model, state: HeaterState, integral: real, error: real, i: Computed)
    requires ModelReady(m) && !m.usePid
    ensures ControlOutput(m, state, integral, error, i)
         == Output(if (error > 0.0) == m.inverted then 0.0 else m.maxPwm.value, integral)
  {
  }

  lemma PidOutputIs(m: Model, state: HeaterState, integral: real, error: real, i: Computed, pid: Pid)
    requires ModelReady(m) && InEffect(m, i, pid)
    ensures PidOutput(m, state, integral, error, i)
         == Settled(m.maxPwm.value, PPlusD(pid, error, i), Expected(m, i), integral, Gain(pid, error),
                    state == Heating && error > 0.0 && i.derivative > 0.0)
  {
    hide Settled, PPlusD, Expected, Gain;
    assert PidFor(m, i) == pid;
  }

  lemma TermsAre(m: Model, error: real, i: Computed, pid: Pid)
    requires m.heatingRate.Finite? && m.heatingRate.value != 0.0
    ensures PPlusD(pid, error, i) == pid.kP * (error - (if i.gotDerivative then pid.tD * i.derivative else 0.0))
    ensures Expected(m, i) == i.cooling / m.heatingRate.value && Gain(pid, error) == error * pid.kP * pid.recipTi * 0.25
    ensures Demand(m, pid, error, i) == PPlusD(pid, error, i) + Expected(m, i)
  {
  }

  /** With PID the output is at its limits beyond them, and in between the sum of the
      proportional and derivative part and the integral, which gains in proportion to the error. */
  lemma PidAnswers(m: Model, state: HeaterState, integral: real, error: real, i: Computed, pid: Pid)
    requires ModelReady(m) && m.usePid && !m.inverted && InEffect(m, i, pid)
    ensures var o := ControlOutput(m, state, integral, error, i);
            var max, expected := m.maxPwm.value, i.cooling / m.heatingRate.value;
            var pPlusD := pid.kP * (error - (if i.gotDerivative then pid.tD * i.derivative else 0.0));
            var gain := error * pid.kP * pid.recipTi * 0.25;
            && pPlusD + expected == Demand(m, pid, error, i)
            && (pPlusD + expected > max ==>
                  o == Output(max, if state == Heating && error > 0.0 && i.derivative > 0.0 then expected else integral))
            && (pPlusD + expected < 0.0 ==> o == Output(0.0, integral))
            && (0.0 <= pPlusD + expected <= max ==>
                  && (0.0 <= integral + gain <= max ==> o.integral == integral + gain)
                  && (integral + gain < 0.0 ==> o.integral == 0.0) && (integral + gain > max ==> o.integral == max)
                  && (0.0 <= pPlusD + o.integral <= max ==> o.pwm == pPlusD + o.integral)
                  && (pPlusD + o.integral < 0.0 ==> o.pwm == 0.0)
                  && (pPlusD + o.integral > max ==> o.pwm == max))
  {
    TermsAre(m, error, i, pid);
    PidOutputIs(m, state, integral, error, i, pid);
    SettledMeans(m.maxPwm.value, PPlusD(pid, error, i), Expected(m, i), integral, Gain(pid, error),
                 state == Heating && error > 0.0 && i.derivative > 0.0);
    hide Settled, PidOutput, PPlusD, Expected, Gain, Demand;
  }

  /** An inverted heater gets what another one would lack. */
  lemma Inversion(m: Model, state: HeaterState, integral: real, error: real, i: Computed)
    requires ModelReady(m) && m.inverted
    ensures var o := ControlOutput(m.(inverted := false), state, integral, error, i);
            ModelReady(m.(inverted := false))
            && ControlOutput(m, state, integral, error, i) == Output(m.maxPwm.value - o.pwm, o.integral)
  {
    var n := m.(inverted := false);
    var pid := PidFor(m, i);
    PidOutputIs(m, state, integral, error, i, pid);
    PidOutputIs(n, state, integral, error, i, pid);
    hide Settled, PidOutput, PPlusD, Expected, Gain;
  }

  /** The larger the error the more the heater gets, or if inverted the less. */
  lemma DutyFollowsError(m: Model, state: HeaterState, integral: real, e1: real, e2: real, i: Computed, pid: Pid)
    requires ModelReady(m) && InEffect(m, i, pid) && pid.kP >= 0.0 && pid.recipTi >= 0.0 && e1 <= e2
    ensures var d1, d2 := DutyOf(ControlOutput(m, state, integral, e1, i).pwm), DutyOf(ControlOutput(m, state, integral, e2, i).pwm);
            if m.inverted then d2 <= d1 else d1 <= d2
  {
    hide DutyOf, ControlOutput;
    var n := m.(inverted := false);
    var o1, o2 := ControlOutput(n, state, integral, e1, i), ControlOutput(n, state, integral, e2, i);
    assert o1.pwm <= o2.pwm by {
      if m.usePid { PidFollowsError(n, state, integral, e1, e2, i, pid); }
      else {
        BangBang(n, state, integral, e1, i);
        BangBang(n, state, integral, e2, i);
      }
    }
    if m.inverted {
      Inversion(m, state, integral, e1, i);
      Inversion(m, state, integral, e2, i);
      DutyIsMonotone(m.maxPwm.value - o2.pwm, m.maxPwm.value - o1.pwm);
    } else {
      assert m == n;
      DutyIsMonotone(o1.pwm, o2.pwm);
    }
  }

  lemma PidFollowsError(m: Model, state: HeaterState, integral: real, e1: real, e2: real, i: Computed, pid: Pid)
    requires ModelReady(m) && m.usePid && !m.inverted && InEffect(m, i, pid)
    requires pid.kP >= 0.0 && pid.recipTi >= 0.0 && e1 <= e2
    ensures ControlOutput(m, state, integral, e1, i).pwm <= ControlOutput(m, state, integral, e2, i).pwm
  {
    PidOutputIs(m, state, integral, e1, i, pid);
    PidOutputIs(m, state, integral, e2, i, pid);
    TermsFollowError(pid, e1, e2, i);
    SettledFollows(m.maxPwm.value, PPlusD(pid, e1, i), PPlusD(pid, e2, i), Expected(m, i), integral,
                   Gain(pid, e1), Gain(pid, e2),
                   state == Heating && e1 > 0.0 && i.derivative > 0.0, state == Heating && e2 > 0.0 && i.derivative > 0.0);
    hide Settled, PidOutput, PPlusD, Expected, Gain;
  }

  lemma TermsFollowError(pid: Pid, e1: real, e2: real, i: Computed)
    requires pid.kP >= 0.0 && pid.recipTi >= 0.0 && e1 <= e2
    ensures PPlusD(pid, e1, i) <= PPlusD(pid, e2, i) && Gain(pid, e1) <= Gain(pid, e2) && Gain(pid, 0.0) == 0.0
  {
    var d := if i.gotDerivative then pid.tD * i.derivative else 0.0;
    ScaleKeepsOrder(pid.kP, e1 - d, e2 - d);
    ScaleKeepsOrder(pid.kP, e1, e2);
    ScaleKeepsOrder(pid.recipTi, e1 * pid.kP, e2 * pid.kP);
  }

  lemma ScaleKeepsOrder(k: real, a: real, b: real)
    requires k >= 0.0 && a <= b
    ensures k * a <= k * b && a * k <= b * k
  {
  }

  /** Within its range the integral moves in the direction of the error. */
  lemma IntegralFollowsError(m: Model, state: HeaterState, integral: real, error: real, i: Computed, pid: Pid)
    requires ModelReady(m) && m.usePid && !m.inverted && InEffect(m, i, pid) && pid.kP >= 0.0 && pid.recipTi >= 0.0
    requires 0.0 <= integral <= m.maxPwm.value && 0.0 <= Demand(m, pid, error, i) <= m.maxPwm.value
    ensures var after := ControlOutput(m, state, integral, error, i).integral;
            (error >= 0.0 ==> integral <= after) && (error <= 0.0 ==> after <= integral)
  {
    PidOutputIs(m, state, integral, error, i, pid);
    TermsAre(m, error, i, pid);
    if error >= 0.0 {
      TermsFollowError(pid, 0.0, error, i);
    } else {
      TermsFollowError(pid, error, 0.0, i);
    }
    hide PidOutput, PPlusD, Expected, Gain, Demand;
  }

  /** The duty that a round of control leaves: full or none beyond the limits of what
      is asked for, and without PID by the sign of the error alone. */
  ghost predicate Responds(m: Model, error: real, i: Computed, duty: nat)
    requires m.heatingRate.Finite? && m.heatingRate.value != 0.0 && m.maxPwm.Finite?
  {
    var max := m.maxPwm.value;
    if m.usePid then
      forall pid: Pid :: InEffect(m, i, pid) ==>
        && (Demand(m, pid, error, i) > max ==> duty == if m.inverted then 0 else DutyOf(max))
        && (Demand(m, pid, error, i) < 0.0 ==> duty == if m.inverted then DutyOf(max) else 0)
    else duty == if (error > 0.0) == m.inverted then 0 else DutyOf(max)
  }

  lemma OutputResponds(m: Model, state: HeaterState, integral: real, error: real, i: Computed)
    requires ModelReady(m)
    ensures Responds(m, error, i, DutyOf(ControlOutput(m, state, integral, error, i).pwm))
  {
    hide DutyOf, ControlOutput;
    assert DutyOf(0.0) == 0 by { WithinNothing(m); }
    if m.usePid {
      var n := m.(inverted := false);
      forall pid: Pid | InEffect(m, i, pid)
        ensures var duty := DutyOf(ControlOutput(m, state, integral, error, i).pwm);
                && (Demand(m, pid, error, i) > m.maxPwm.value ==> duty == if m.inverted then 0 else DutyOf(m.maxPwm.value))
                && (Demand(m, pid, error, i) < 0.0 ==> duty == if m.inverted then DutyOf(m.maxPwm.value) else 0)
      {
        PidAnswers(n, state, integral, error, i, pid);
        if m.inverted { Inversion(m, state, integral, error, i); } else { assert m == n; }
      }
    } else {
      BangBang(m, state, integral, error, i);
    }
  }

  /** What ConfigureHeater sets besides the frequency and the number of bad readings. */
  datatype Limits = Limits(upper: real, lower: real, maxTempExcursion: real, maxFaultTime: real)

  /** The memory of the control loop, and its feed-forward inputs. */
  datatype Loop = Loop(
    integral: real, averagePwm: real, lastPwm: real, fanPwm: real, extrusionPwmBoost: real,
    extrusionTemperatureBoost: real, lastExtrusionTemperatureBoost: real,
    heatingReferenceTemperature: real, heatingReferenceMillis: nat, timeSetHeating: nat,
    heatingFaultMillis: nat, excursionFaultMillis: nat)

  const FRESH_LOOP := Loop(0.0, 0.0, 0.0, 0.0, 0.0, 0.0, 0.0, 0.0, 0, 0, 0, 0)

  /** One more interval with too slow heating, or too far from the target, and the
      time that is allowed for that is over. */
  predicate FaultTimeRunsOut(l: Loop, limits: Limits) {
    var limit := (limits.maxFaultTime * 1000.0).Floor;
    l.heatingFaultMillis + SAMPLE_INTERVAL_MILLIS > limit || l.excursionFaultMillis + SAMPLE_INTERVAL_MILLIS > limit
  }

  /** Nothing is left over from earlier control. */
  predicate Relaxed(l: Loop) {
    && l.integral == l.extrusionPwmBoost == l.extrusionTemperatureBoost == l.lastExtrusionTemperatureBoost == l.lastPwm == 0.0
    && l.heatingFaultMillis == l.excursionFaultMillis == 0
  }

  predicate NoMoreFaultTime(a: Loop, b: Loop) {
    a.heatingFaultMillis <= b.heatingFaultMillis && a.excursionFaultMillis <= b.excursionFaultMillis
  }

  /** Two memories that agree in what the next output is computed from. */
  predicate SameTargets(a: Loop, b: Loop) {
    a.integral == b.integral && a.extrusionTemperatureBoost == b.extrusionTemperatureBoost
  }

  /** The error that goes with a reading that is not good. */
  function ErrorOf(configured: bool, sample: Sample): ThermalError {
    if !configured then NotConfigured
    else match sample
      case Good(_) => NoError
      case Bad(e) => e
      case Implausible(_) => OpenCircuit
  }

  /** The rate at which a heating temperature is expected to rise. */
  function ExpectedRate(m: Model, l: Loop, i: Computed): real
    requires m.heatingRate.Finite?
  {
    m.heatingRate.value * (if l.averagePwm < l.lastPwm then l.averagePwm else l.lastPwm) - i.coolingWhenHeating
  }

  /** The time since the reference is long enough to judge the rise of a heating temperature. */
  predicate LongEnough(m: Model, l: Loop, now: nat, i: Computed)
    requires m.heatingRate.Finite?
  {
    var rate := ExpectedRate(m, l, i);
    rate <= 0.0 || (Since(now, l.heatingReferenceMillis) as real) * rate >= 3000.0
  }

  /** Since its reference a heating temperature has risen by less than 60% of what the model expects. */
  predicate TooSlow(m: Model, l: Loop, temperature: real, now: nat, i: Computed)
    requires m.heatingRate.Finite?
  {
    var rate := ExpectedRate(m, l, i);
    var interval := Since(now, l.heatingReferenceMillis) as real;
    && rate > 0.0 && LongEnough(m, l, now, i)
    && temperature - l.heatingReferenceTemperature < rate * interval * 0.001 * 0.6
  }

  /** A fault timer that runs up while something is wrong, and down again otherwise. */
  function FaultTimer(millis: nat, wrong: bool): nat {
    if wrong then millis + SAMPLE_INTERVAL_MILLIS
    else if millis >= SAMPLE_INTERVAL_MILLIS then millis - SAMPLE_INTERVAL_MILLIS
    else millis
  }

  /** How the heating goes on: the state, and the memory of the control loop. */
  datatype Course = Course(state: HeaterState, loop: Loop)

  /** A changed boost of the target makes the state fit the target again. */
  ghost function Boosted(c: Course, temperature: real, now: nat, target: real): Course {
    if c.loop.extrusionTemperatureBoost == c.loop.lastExtrusionTemperatureBoost then c
    else
      var s, l := StateFor(temperature, target), c.loop.(lastExtrusionTemperatureBoost := c.loop.extrusionTemperatureBoost);
      if s == c.state then Course(s, l)
      else if s == Heating then
        Course(s, l.(heatingReferenceTemperature := temperature, heatingReferenceMillis := now, timeSetHeating := now,
                     heatingFaultMillis := 0, excursionFaultMillis := 0))
      else Course(s, l.(heatingFaultMillis := 0, excursionFaultMillis := 0))
  }

  /** What watching makes of it: a heater that was heating up is stable once it is near
      the target, and faults exactly if the temperature has been rising too slowly for
      too long, the dead time apart; otherwise the reference moves on whenever the rise
      could be judged, and the fault timer runs down. A stable one faults exactly if it
      has been away from its target for too long. */
  ghost function Watched(m: Model, limits: Limits, temperature: real, now: nat, c: Course,
                         tempError: real, target: real, i: Computed): Course
    requires m.heatingRate.Finite? && m.deadTime.Finite?
  {
    var l, limit := c.loop, (limits.maxFaultTime * 1000.0).Floor;
    match c.state
    case Heating =>
      if tempError <= TEMPERATURE_CLOSE_ENOUGH then Course(Stable, l.(heatingFaultMillis := 0))
      else if Since(now, l.timeSetHeating) as real < m.deadTime.value * 2000.0 then
        Course(Heating, l.(heatingReferenceTemperature := temperature, heatingReferenceMillis := now, heatingFaultMillis := 0))
      else if i.gotDerivative && TooSlow(m, l, temperature, now, i) then
        var millis := FaultTimer(l.heatingFaultMillis, true);
        Course(if millis > limit then Fault else Heating, l.(heatingFaultMillis := millis))
      else if i.gotDerivative && LongEnough(m, l, now, i) then
        Course(Heating, l.(heatingReferenceTemperature := temperature, heatingReferenceMillis := now,
                           heatingFaultMillis := FaultTimer(l.heatingFaultMillis, false)))
      else c
    case Stable =>
      var away := IsAway(limits, temperature, tempError);
      var millis := FaultTimer(l.excursionFaultMillis, away);
      Course(if away && millis > limit then Fault else Stable, l.(excursionFaultMillis := millis))
    case Cooling =>
      if -tempError <= TEMPERATURE_CLOSE_ENOUGH && target > MAX_AMBIENT_TEMPERATURE then
        Course(Stable, l.(heatingFaultMillis := 0, excursionFaultMillis := 0))
      else c
    case _ => c
  }

  predicate IsAway(limits: Limits, temperature: real, tempError: real) {
    (tempError > limits.maxTempExcursion || -tempError > limits.maxTempExcursion) && temperature > MAX_AMBIENT_TEMPERATURE
  }

  /** The state in which a target is approached from a temperature. */
  function StateFor(temperature: real, target: real): HeaterState {
    if temperature + TEMPERATURE_CLOSE_ENOUGH < target then Heating
    else if temperature > target + TEMPERATURE_CLOSE_ENOUGH then Cooling
    else Stable
  }

  /** Less than the timeout has passed since the last heartbeat, on 32-bit counters. */
  predicate Alive(millisTicks: nat, lastHostHeartbeat: nat) {
    Since(millisTicks, lastHostHeartbeat) <= LINK_TIMEOUT_MILLIS
  }

  /** The time between two readings of a 32-bit counter. */
  function Since(now: nat, earlier: nat): (d: nat)
    ensures d < TICK_RANGE
  {
    (now - earlier) % TICK_RANGE
  }

  lemma SinceOneMore(now: nat, earlier: nat)
    requires now < TICK_RANGE && earlier < TICK_RANGE
    ensures var d := Since(now, earlier); Since((now + 1) % TICK_RANGE, earlier) == if d + 1 < TICK_RANGE then d + 1 else 0
  {
  }

  /** An active heater is fully configured; a heater that is not active, or whose
      timeout is latched, is off. */
  ghost predicate OutputOK(state: HeaterState, duty: nat, latched: bool, thermistor: bool, heater: bool, model: bool) {
    && (IsActive(state) ==> thermistor && heater && model)
    && (duty != 0 ==> IsActive(state) && !latched)
  }

  /** The live model is one complete, valid triple of messages that came in a
      row, and the pending one is what has come since. */
  ghost predicate ModelOK(messages: seq<Message>, liveFrom: nat, configured: bool, live: Model, pending: Model, parts: nat) {
    var n := |messages|;
    && parts == PartsOf(messages)
    && (parts == 1 ==> HasPartA(pending, messages[n-1]))
    && (parts == 3 ==> HasPartA(pending, messages[n-2]) && HasPartB(pending, messages[n-1]))
    && (configured ==>
          && liveFrom + 3 <= n && messages[liveFrom].ModelA?
          && messages[liveFrom + 1].ModelB? && messages[liveFrom + 2].ModelC?
          && live == Assembled(messages[liveFrom], messages[liveFrom + 1], messages[liveFrom + 2])
          && ModelReady(live))
  }

  ghost predicate HasPartA(m: Model, a: Message) {
    a.ModelA? && m.heatingRate == a.heatingRate && m.basicCoolingRate == a.basicCoolingRate
    && m.fanCoolingRate == a.fanCoolingRate && m.coolingRateExponent == a.coolingRateExponent
  }

  ghost predicate HasPartB(m: Model, b: Message) {
    b.ModelB? && m.deadTime == b.deadTime && m.maxPwm == b.maxPwm
    && m.overrideKp == b.overrideKp && m.overrideRecipTi == b.overrideRecipTi
  }

  lemma InactiveIsOff(state: HeaterState, duty: nat, latched: bool, thermistor: bool, heater: bool, model: bool)
    requires OutputOK(state, duty, latched, thermistor, heater, model) && !IsActive(state)
    ensures duty == 0
  {
  }

  lemma OffWhen(state: HeaterState, duty: nat, latched: bool, thermistor: bool, heater: bool, model: bool)
    requires OutputOK(state, duty, latched, thermistor, heater, model) && (!IsActive(state) || latched)
    ensures duty == 0
  {
  }

  lemma StableIsConfigured(state: HeaterState, duty: nat, latched: bool, thermistor: bool, heater: bool, model: bool)
    requires OutputOK(state, duty, latched, thermistor, heater, model)
    ensures IsActive(state) ==> thermistor
  {
  }

  lemma IdleIsOK(state: HeaterState, latched: bool, thermistor: bool, heater: bool, model: bool)
    requires !IsActive(state)
    ensures OutputOK(state, 0, latched, thermistor, heater, model)
  {
  }

  lemma NoModelOK(liveFrom: nat, live: Model, pending: Model)
    ensures ModelOK([], liveFrom, false, live, pending, 0)
  {
  }

  lemma LiveModelIsReady(messages: seq<Message>, liveFrom: nat, live: Model, pending: Model, parts: nat)
    requires ModelOK(messages, liveFrom, true, live, pending, parts)
    ensures ModelReady(live)
  {
  }

  /** The heater gets no more than the model allows. */
  ghost predicate Within(duty: nat, model: Model) {
    duty != 0 ==> model.maxPwm.Finite? && duty <= DutyOf(model.maxPwm.value)
  }

  lemma PositiveRates(m: Model)
    requires ModelReady(m)
    ensures Positive(m.heatingRate) && NotNegative(m.fanCoolingRate) && Positive(m.deadTime) && Positive(m.maxPwm)
  {
  }

  lemma WithinNothing(m: Model)
    ensures Within(0, m) && DutyOf(0.0) == 0
  {
  }

  lemma WithinReady(m: Model, pwm: real)
    requires ModelReady(m) && pwm <= m.maxPwm.value
    ensures Within(DutyOf(pwm), m)
  {
    DutyIsMonotone(pwm, m.maxPwm.value);
  }

  /** A pending model after one more message. */
  lemma ModelStep(messages: seq<Message>, liveFrom: nat, configured: bool, live: Model, pending: Model, parts: nat,
                  m: Message, next: Model)
    requires ModelOK(messages, liveFrom, configured, live, pending, parts)
    ensures m.ModelA? && HasPartA(next, m) ==> ModelOK(messages + [m], liveFrom, configured, live, next, 1)
    ensures m.ModelB? && parts == 1 && HasPartB(next, m) && HasPartA(next, messages[|messages|-1]) ==>
              ModelOK(messages + [m], liveFrom, configured, live, next, 3)
    ensures !m.ModelA? && (m.ModelB? ==> parts != 1) ==> ModelOK(messages + [m], liveFrom, configured, live, next, 0)
    ensures m.ModelC? && parts == 3 && ModelReady(next)
            && next == Assembled(messages[|messages|-2], messages[|messages|-1], m) ==>
              ModelOK(messages + [m], |messages| - 2, true, next, next, 0)
    ensures parts == 1 ==> messages != [] && HasPartA(pending, messages[|messages|-1])
    ensures parts == 1 <==> messages != [] && messages[|messages|-1].ModelA?
    ensures parts == 3 ==>
              && |messages| >= 2
              && HasPartA(pending, messages[|messages|-2]) && HasPartB(pending, messages[|messages|-1])
    ensures parts == 3 <==> |messages| >= 2 && messages[|messages|-2].ModelA? && messages[|messages|-1].ModelB?
  {
    hide ModelReady;
  }

  /** What the three assignments to a pending model keep, and that together they set all of it. */
  lemma PartsAreKept(p: Model, a: Message, b: Message, c: Message)
    ensures a.ModelA? ==>
              HasPartA(p.(heatingRate := a.heatingRate, basicCoolingRate := a.basicCoolingRate,
                          fanCoolingRate := a.fanCoolingRate, coolingRateExponent := a.coolingRateExponent), a)
    ensures a.ModelA? && HasPartA(p, a) && b.ModelB? ==>
              var q := p.(deadTime := b.deadTime, maxPwm := b.maxPwm,
                          overrideKp := b.overrideKp, overrideRecipTi := b.overrideRecipTi);
              HasPartA(q, a) && HasPartB(q, b)
    ensures a.ModelA? && HasPartA(p, a) && b.ModelB? && HasPartB(p, b) && c.ModelC? ==>
              p.(overrideTd := c.overrideTd,
                 usePid := Flag(c.flags, 1), inverted := Flag(c.flags, 2), pidOverridden := Flag(c.flags, 4))
              == Assembled(a, b, c)
  {
    hide Flag;
  }

  /** The message ends three in a row that describe a valid model. */
  ghost predicate Accepted(before: seq<Message>, m: Message) {
    var n := |before|;
    && n >= 2 && before[n-2].ModelA? && before[n-1].ModelB? && m.ModelC?
    && m.flags < 8 && ModelReady(Assembled(before[n-2], before[n-1], m))
  }

  /** The model that such messages describe. */
  ghost function NewModel(before: seq<Message>, m: Message): Model
    requires Accepted(before, m)
  {
    Assembled(before[|before|-2], before[|before|-1], m)
  }

  /** In numbers: when three messages make a new model. */
  lemma AcceptedMeans(before: seq<Message>, c: Message)
    ensures Accepted(before, c) <==>
              && |before| >= 2 && before[|before|-2].ModelA? && before[|before|-1].ModelB? && c.ModelC? && c.flags <= 7
              && var a, b := before[|before|-2], before[|before|-1];
                 && a.heatingRate.Finite? && a.heatingRate.value > 0.0
                 && a.basicCoolingRate.Finite? && a.basicCoolingRate.value >= 0.0
                 && a.fanCoolingRate.Finite? && a.fanCoolingRate.value >= 0.0
                 && a.coolingRateExponent.Finite? && 1.0 <= a.coolingRateExponent.value <= 1.6
                 && b.deadTime.Finite? && b.deadTime.value > 0.0 && b.maxPwm.Finite? && 0.0 < b.maxPwm.value <= 1.0
                 && (c.flags >= 4 ==> b.overrideKp.Finite? && b.overrideRecipTi.Finite? && c.overrideTd.Finite?)
    ensures Accepted(before, c) ==>
              var n := NewModel(before, c);
              && (n.usePid <==> c.flags in {1, 3, 5, 7}) && (n.inverted <==> c.flags in {2, 3, 6, 7})
              && (n.pidOverridden <==> c.flags >= 4)
  {
  }

  /** The duty that is on is no more than the new model allows, if the message makes a new model. */
  ghost predicate FitsDuty(before: seq<Message>, m: Message, duty: nat) {
    Accepted(before, m) ==> duty == 0 || duty <= DutyOf(before[|before|-1].maxPwm.value)
  }

  /** What was on when a new model came to life, and what that model allows. */
  datatype Handover = Handover(duty: nat, maxPwm: real)

  ghost predicate Fits(h: Handover) {
    h.duty == 0 || h.duty <= DutyOf(h.maxPwm)
  }

  ghost predicate AllFit(hs: seq<Handover>, from: nat) {
    forall i {:trigger hs[i]} :: from <= i < |hs| ==> Fits(hs[i])
  }

  ghost function HandoverOf(before: seq<Message>, m: Message, duty: nat): (hs: seq<Handover>)
    ensures AllFit(hs, 0) <==> FitsDuty(before, m, duty)
  {
    if Accepted(before, m) then
      var h := Handover(duty, before[|before|-1].maxPwm.value);
      assert [h][0] == h;
      [h]
    else []
  }

  lemma WithinNewModel(before: seq<Message>, m: Message, duty: nat)
    requires Accepted(before, m)
    ensures Within(duty, Assembled(before[|before|-2], before[|before|-1], m)) <==> FitsDuty(before, m, duty)
  {
    hide DutyOf;
  }

  lemma NoNewModel(before: seq<Message>, m: Message, duty: nat)
    ensures Accepted(before, m) ==> m.ModelC?
    ensures !Accepted(before, m) ==> FitsDuty(before, m, duty) && HandoverOf(before, m, duty) == []
  {
  }

  class Thermal {
    var state: HeaterState
    var error: ThermalError
    var linkTimeoutLatched: bool
    var millisTicks: nat
    var lastHostHeartbeat: nat
    var heaterFrequency: nat
    var maxBadReadings: nat
    var badReadings: nat
    var thermistorConfigured: bool
    var heaterConfigured: bool
    var modelConfigured: bool
    var temperature: real
    var targetTemperature: real
    var limits: Limits
    var loop: Loop
    var model: Model
    var pendingModel: Model
    var pendingModelParts: nat

    /** The duty the heater pin was last set to. */
    var heaterDuty: nat

    /** The model messages since the last reset, and where those of the live model begin. */
    ghost var modelMessages: seq<Message>
    ghost var liveFrom: nat

    /** What was on at each change of the model. */
    ghost var handovers: seq<Handover>

    /** Everything that holds between two calls. */
    ghost predicate Valid()
      reads this
    {
      && millisTicks < TICK_RANGE && lastHostHeartbeat < TICK_RANGE
      && 0 < heaterFrequency < 0x1_0000 && maxBadReadings < 0x100 && badReadings < 0x100
      && OutputOK(state, heaterDuty, linkTimeoutLatched, thermistorConfigured, heaterConfigured, modelConfigured)
      && ModelOK(modelMessages, liveFrom, modelConfigured, model, pendingModel, pendingModelParts)
    }

    ghost predicate WithinModel()
      reads this
    {
      Within(heaterDuty, model)
    }

    predicate LinkAlive()
      reads this
    {
      Alive(millisTicks, lastHostHeartbeat)
    }

    constructor ()
      ensures Valid() && state == Off && heaterDuty == 0 && !linkTimeoutLatched && millisTicks == lastHostHeartbeat == 0
      ensures !thermistorConfigured && !heaterConfigured && !modelConfigured && modelMessages == [] && loop == FRESH_LOOP
      ensures handovers == []
    {
      var none := Finite(0.0);
      var noModel := Model(none, none, none, none, none, none, none, none, none, false, false, false);
      state, error, linkTimeoutLatched, millisTicks, lastHostHeartbeat := Fault, NoError, false, 0, 0;
      heaterFrequency, maxBadReadings, badReadings := 250, 3, 0;
      temperature, targetTemperature, limits, loop := 0.0, 0.0, Limits(0.0, 0.0, 0.0, 0.0), FRESH_LOOP;
      model, pendingModel, pendingModelParts := noModel, noModel, 0;
      thermistorConfigured, heaterConfigured, modelConfigured := false, false, false;
      heaterDuty, modelMessages, liveFrom, handovers := 0, [], 0, [];
      new;
      ResetConfiguration();
    }

    /** UpdateHeaterState */
    method UpdateHeaterState(target: real)
      modifies this`state, this`loop
      ensures state == StateFor(temperature, target) && IsActive(state)
      ensures temperature < target - 1.5 ==> state == Heating
      ensures temperature > target + 1.5 ==> state == Cooling
      ensures target - 1.5 <= temperature <= target + 1.5 ==> state == Stable
      ensures SameTargets(loop, old(loop)) && NoMoreFaultTime(loop, old(loop))
      ensures state == old(state) ==> loop == old(loop)
      ensures state != old(state) && state != Heating ==>
                loop == old(loop).(heatingFaultMillis := 0, excursionFaultMillis := 0)
      ensures state != old(state) && state == Heating ==>
                loop == old(loop).(heatingReferenceTemperature := temperature, heatingReferenceMillis := millisTicks,
                                   timeSetHeating := millisTicks, heatingFaultMillis := 0, excursionFaultMillis := 0)
    {
      var newState := StateFor(temperature, target);
      if newState != state {
        if newState == Heating {
          loop := loop.(heatingReferenceTemperature := temperature,
                        heatingReferenceMillis := millisTicks, timeSetHeating := millisTicks);
        }
        loop := loop.(heatingFaultMillis := 0, excursionFaultMillis := 0);
        state := newState;
      }
    }

    /** ApplyHeater: the latch overrules any output. The second look at the latch,
        which can differ only after an interrupt, is in HeaterInterlock. */
    method ApplyHeater(pwm: real)
      requires heaterFrequency != 0
      modifies this`heaterDuty
      ensures heaterDuty == if linkTimeoutLatched then 0 else DutyOf(pwm)
      ensures !linkTimeoutLatched && 0.0 <= pwm <= 1.0 ==> -0.5 <= heaterDuty as real - pwm * 65535.0 <= 0.5
    {
      var timeoutBeforeWrite := linkTimeoutLatched;
      var limited := if timeoutBeforeWrite then 0.0 else Clamp(pwm, 0.0, 1.0);
      var duty := (limited * 65535.0 + 0.5).Floor;
      SetHeaterPwm(duty);
    }

    /** Pwm::Set for the heater pin, which accepts exactly what is sensible. */
    method SetHeaterPwm(duty: nat)
      modifies this`heaterDuty
      ensures heaterDuty == if Pwm.Sensible(duty, heaterFrequency) then duty else old(heaterDuty)
    {
      if Pwm.Sensible(duty, heaterFrequency) {
        heaterDuty := duty;
      }
    }

    /** SetFault */
    method SetFault(newError: ThermalError)
      requires heaterFrequency != 0
      modifies this`heaterDuty, this`state, this`error
      ensures state == Fault && error == newError && heaterDuty == 0
    {
      ApplyHeater(0.0);
      state := Fault;
      error := newError;
    }

    /** SampleTemperature */
    method SampleTemperature(sample: Sample) returns (good: bool)
      modifies this`temperature, this`error
      ensures good <==> thermistorConfigured && sample.Good?
      ensures good ==> temperature == sample.temperature
      ensures error == ErrorOf(thermistorConfigured, sample)
    {
      if !thermistorConfigured {
        error := NotConfigured;
        return false;
      }
      match sample {
        case Bad(e) =>
          error := e;
          good := false;
        case Implausible(t) =>
          temperature := t;
          error := OpenCircuit;
          good := false;
        case Good(t) =>
          temperature := t;
          error := NoError;
          good := true;
      }
    }

    /** The part of Control that watches how the temperature behaves. */
    method Watch(tempError: real, adjustedTarget: real, i: Computed) returns (fine: bool)
      requires Valid() && IsActive(state)
      modifies this`state, this`error, this`heaterDuty, this`loop
      ensures Valid() && (fine <==> IsActive(state))
      ensures !fine ==> state == Fault && heaterDuty == 0
      ensures fine ==> heaterDuty == old(heaterDuty) && error == old(error) && SameTargets(loop, old(loop))
      ensures !fine ==> FaultTimeRunsOut(old(loop), limits) && old(state) != Cooling
      ensures old(state) == Stable ==>
                var away := (tempError > limits.maxTempExcursion || -tempError > limits.maxTempExcursion)
                            && temperature > 45.0;
                var before := old(loop).excursionFaultMillis;
                && loop == old(loop).(excursionFaultMillis :=
                     if away then before + 250 else if before >= 250 then before - 250 else before)
                && (fine <==> !(away && loop.excursionFaultMillis > (limits.maxFaultTime * 1000.0).Floor))
                && (fine ==> state == Stable) && (!fine ==> error == TemperatureExcursion)
      ensures old(state) == Cooling ==>
                state == if -tempError <= TEMPERATURE_CLOSE_ENOUGH && adjustedTarget > MAX_AMBIENT_TEMPERATURE
                         then Stable else Cooling
      ensures model.heatingRate.Finite? && model.deadTime.Finite?
      ensures CourseNow() == Watched(model, limits, temperature, millisTicks, old(CourseNow()), tempError, adjustedTarget, i)
      ensures !fine ==> error == if old(state) == Stable then TemperatureExcursion else HeatingTooSlow
    {
      hide ModelOK, Since, Alive, DutyOf, ModelReady;
      LiveModelIsReady(modelMessages, liveFrom, model, pendingModel, pendingModelParts);
      PositiveRates(model);
      fine := true;
      match state {
        case Heating =>
          fine := WatchHeating(tempError, adjustedTarget, i);
        case Stable =>
          fine := WatchStable(tempError);
        case Cooling =>
          if -tempError <= TEMPERATURE_CLOSE_ENOUGH && adjustedTarget > MAX_AMBIENT_TEMPERATURE {
            state := Stable;
            loop := loop.(heatingFaultMillis := 0, excursionFaultMillis := 0);
          }
        case _ =>
      }
    }

    /** The case of a stable heater. */
    method WatchStable(tempError: real) returns (fine: bool)
      requires state == Stable && heaterFrequency != 0
      modifies this`state, this`error, this`heaterDuty, this`loop
      ensures var away := (tempError > limits.maxTempExcursion || -tempError > limits.maxTempExcursion)
                          && temperature > 45.0;
              var before := old(loop).excursionFaultMillis;
              && loop == old(loop).(excursionFaultMillis :=
                   if away then before + 250 else if before >= 250 then before - 250 else before)
              && (fine <==> !(away && loop.excursionFaultMillis > (limits.maxFaultTime * 1000.0).Floor))
      ensures fine ==> state == Stable && heaterDuty == old(heaterDuty) && error == old(error)
      ensures !fine ==> state == Fault && heaterDuty == 0 && error == TemperatureExcursion
    {
      fine := true;
      if (tempError > limits.maxTempExcursion || -tempError > limits.maxTempExcursion)
         && temperature > MAX_AMBIENT_TEMPERATURE {
        loop := loop.(excursionFaultMillis := loop.excursionFaultMillis + SAMPLE_INTERVAL_MILLIS);
        if loop.excursionFaultMillis > (limits.maxFaultTime * 1000.0).Floor {
          SetFault(TemperatureExcursion);
          return false;
        }
      } else if loop.excursionFaultMillis >= SAMPLE_INTERVAL_MILLIS {
        loop := loop.(excursionFaultMillis := loop.excursionFaultMillis - SAMPLE_INTERVAL_MILLIS);
      }
    }

    ghost function CourseNow(): Course
      reads this
    {
      Course(state, loop)
    }

    /** The case of a heater that is heating up. */
    method WatchHeating(tempError: real, ghost adjustedTarget: real, i: Computed) returns (fine: bool)
      requires state == Heating && heaterFrequency != 0 && Positive(model.heatingRate) && Positive(model.deadTime)
      modifies this`state, this`error, this`heaterDuty, this`loop
      ensures fine ==> (state == Heating || state == Stable) && heaterDuty == old(heaterDuty) && error == old(error)
      ensures fine ==> SameTargets(loop, old(loop))
      ensures !fine ==> state == Fault && heaterDuty == 0 && error == HeatingTooSlow && tempError > TEMPERATURE_CLOSE_ENOUGH
      ensures !fine ==> FaultTimeRunsOut(old(loop), limits)
      ensures CourseNow() == Watched(model, limits, temperature, millisTicks, old(CourseNow()), tempError, adjustedTarget, i)
    {
      hide Since, DutyOf;
      fine := true;
      if tempError <= TEMPERATURE_CLOSE_ENOUGH {
        state := Stable;
        loop := loop.(heatingFaultMillis := 0);
      } else if Since(millisTicks, loop.timeSetHeating) as real < model.deadTime.value * 2000.0 {
        loop := loop.(heatingReferenceTemperature := temperature, heatingReferenceMillis := millisTicks,
                      heatingFaultMillis := 0);
      } else if i.gotDerivative {
        var heatingPwm := if loop.averagePwm < loop.lastPwm then loop.averagePwm else loop.lastPwm;
        var expectedRate := model.heatingRate.value * heatingPwm - i.coolingWhenHeating;
        var actualInterval := Since(millisTicks, loop.heatingReferenceMillis) as real;
        if expectedRate <= 0.0 || actualInterval * expectedRate >= 3000.0 {
          var expectedRise := expectedRate * actualInterval * 0.001;
          var actualRise := temperature - loop.heatingReferenceTemperature;
          if expectedRate > 0.0 && actualRise < expectedRise * 0.6 {
            loop := loop.(heatingFaultMillis := loop.heatingFaultMillis + SAMPLE_INTERVAL_MILLIS);
            if loop.heatingFaultMillis > (limits.maxFaultTime * 1000.0).Floor {
              SetFault(HeatingTooSlow);
              return false;
            }
          } else {
            loop := loop.(heatingReferenceTemperature := temperature, heatingReferenceMillis := millisTicks);
            if loop.heatingFaultMillis >= SAMPLE_INTERVAL_MILLIS {
              loop := loop.(heatingFaultMillis := loop.heatingFaultMillis - SAMPLE_INTERVAL_MILLIS);
            }
          }
        }
      }
    }

    /** The part of Control that reads the temperature, which leaves the error of a fault. */
    method CountReading(sample: Sample) returns (goodTemperature: bool)
      requires badReadings < 0x100
      modifies this`error, this`temperature, this`badReadings
      ensures goodTemperature <==> thermistorConfigured && sample.Good?
      ensures goodTemperature ==> temperature == sample.temperature
      ensures badReadings == if goodTemperature then 0 else Next(old(badReadings))
      ensures error == if state == Fault then old(error) else ErrorOf(thermistorConfigured, sample)
    {
      var faultWasLatched := state == Fault;
      var latchedError := error;
      goodTemperature := SampleTemperature(sample);
      if faultWasLatched {
        error := latchedError;
      }
      if goodTemperature {
        badReadings := 0;
      } else if badReadings < 0xFF {
        badReadings := badReadings + 1;
      }
    }

    /** Control, the round every 250 ms. */
    method Control(sample: Sample, i: Computed)
      requires Valid()
      modifies this`state, this`error, this`temperature, this`badReadings, this`heaterDuty, this`loop
      ensures Valid()
      ensures badReadings == if sample.Good? && thermistorConfigured then 0 else Next(old(badReadings))
      ensures sample.Good? && thermistorConfigured ==> temperature == sample.temperature
      ensures old(state) == Fault ==> state == Fault && error == old(error)
      ensures !IsActive(old(state)) ==> state == old(state) && heaterDuty == 0
      ensures old(WithinModel()) || sample.Good? ==> WithinModel()
      ensures IsActive(state) ==> LinkAlive() && badReadings <= maxBadReadings
      ensures IsActive(state) && sample.Good? ==>
                && !linkTimeoutLatched && temperature == sample.temperature <= limits.upper
                && (limits.lower > ABSOLUTE_ZERO + 1.0 ==> limits.lower <= temperature)
      ensures IsActive(old(state)) && sample.Good? && state == Fault ==>
                || !LinkAlive() || linkTimeoutLatched || FaultTimeRunsOut(old(loop), limits) || sample.temperature > limits.upper
                || (limits.lower > ABSOLUTE_ZERO + 1.0 && sample.temperature < limits.lower)
      ensures IsActive(state) || state == old(state) || state == Fault
      ensures IsActive(state) && sample.Good? ==>
                ModelReady(model) && heaterDuty == DutyFor(old(AdjustedTarget()), old(loop).integral, i)
      ensures IsActive(old(state)) && !sample.Good? ==>
                if LinkAlive() && badReadings <= maxBadReadings
                then state == old(state) && heaterDuty == old(heaterDuty)
                else state == Fault && error == if LinkAlive() then ErrorOf(thermistorConfigured, sample) else LinkTimeout
      ensures !IsActive(old(state)) ==> loop == old(loop).(averagePwm := old(loop).averagePwm * 0.95)
      ensures IsActive(old(state)) && (!sample.Good? || !LinkAlive()) ==> loop == old(loop)
      ensures IsActive(old(state)) && sample.Good? ==>
                if !LinkAlive() then state == Fault && error == LinkTimeout && heaterDuty == 0
                else Regulated(old(CourseNow()), old(AdjustedTarget()), i)
    {
      hide ModelOK, Since, Alive, DutyOf, ModelReady, ControlOutput, StateFor, Within, Driven;
      WithinNothing(model);
      var goodTemperature := CountReading(sample);
      if !IsActive(state) {
        ApplyHeater(0.0);
        loop := loop.(averagePwm := loop.averagePwm * 0.95);
      } else if !LinkAlive() {
        SetFault(LinkTimeout);
      } else if !goodTemperature && badReadings > maxBadReadings {
        SetFault(error);
      } else if goodTemperature {
        Regulate(i);
      }
    }

    /** What a round does for an active heater and a good temperature. */
    ghost predicate Regulated(before: Course, target: real, i: Computed)
      reads this
    {
      if temperature > limits.upper then
        CourseNow() == Course(Fault, before.loop) && error == OverTemperature && heaterDuty == 0
      else if limits.lower > ABSOLUTE_ZERO + 1.0 && temperature < limits.lower then
        CourseNow() == Course(Fault, before.loop) && error == UnderTemperature && heaterDuty == 0
      else Driven(before, target, i)
    }

    /** The rest of Control, for an active heater and a good temperature. */
    method Regulate(i: Computed)
      requires Valid() && IsActive(state)
      modifies this`state, this`error, this`heaterDuty, this`loop
      ensures Valid() && WithinModel() && (state == Fault || IsActive(state))
      ensures IsActive(state) ==>
                && !linkTimeoutLatched && temperature <= limits.upper
                && (limits.lower > ABSOLUTE_ZERO + 1.0 ==> limits.lower <= temperature)
      ensures temperature > limits.upper ==> error == OverTemperature
      ensures state == Fault ==>
                || temperature > limits.upper || (limits.lower > ABSOLUTE_ZERO + 1.0 && temperature < limits.lower)
                || linkTimeoutLatched || FaultTimeRunsOut(old(loop), limits)
      ensures IsActive(state) ==> ModelReady(model) && heaterDuty == DutyFor(old(AdjustedTarget()), old(loop).integral, i)
      ensures Regulated(old(CourseNow()), old(AdjustedTarget()), i)
    {
      hide ModelOK, Since, Alive, DutyOf, ModelReady, ControlOutput, StateFor, Within, Driven;
      WithinNothing(model);
      if temperature > limits.upper {
        SetFault(OverTemperature);
        return;
      }
      if limits.lower > ABSOLUTE_ZERO + 1.0 && temperature < limits.lower {
        SetFault(UnderTemperature);
        return;
      }
      Drive(i);
    }

    /** The target that control aims at: never above the upper limit. */
    function AdjustedTarget(): (target: real)
      reads this
      ensures target <= limits.upper
      ensures targetTemperature + loop.extrusionTemperatureBoost <= limits.upper ==>
                target == targetTemperature + loop.extrusionTemperatureBoost
      ensures targetTemperature + loop.extrusionTemperatureBoost >= limits.upper ==> target == limits.upper
    {
      var boostedTarget := targetTemperature + loop.extrusionTemperatureBoost;
      if boostedTarget < limits.upper then boostedTarget else limits.upper
    }

    /** The duty that control asks for on the way to a target. */
    ghost function DutyFor(target: real, integral: real, i: Computed): nat
      requires ModelReady(model)
      reads this
    {
      DutyOf(ControlOutput(model, state, integral, target - temperature, i).pwm)
    }

    /** What a round does for an active heater and a temperature within the limits. */
    ghost predicate Driven(before: Course, target: real, i: Computed)
      reads this
    {
      && ModelReady(model)
      && var boosted := Boosted(before, temperature, millisTicks, target);
         var watched := Watched(model, limits, temperature, millisTicks, boosted, target - temperature, target, i);
         var o := ControlOutput(model, watched.state, watched.loop.integral, target - temperature, i);
         if watched.state == Fault then
           && CourseNow() == watched && heaterDuty == 0
           && error == (if boosted.state == Stable then TemperatureExcursion else HeatingTooSlow)
         else if linkTimeoutLatched then
           state == Fault && error == LinkTimeout && heaterDuty == 0 && loop == watched.loop.(integral := o.integral)
         else
           && state == watched.state && heaterDuty == DutyOf(o.pwm) && Responds(model, target - temperature, i, heaterDuty)
           && loop == watched.loop.(integral := o.integral, lastPwm := o.pwm,
                                    averagePwm := watched.loop.averagePwm * 0.95 + o.pwm * 0.05)
    }

    /** A changed boost of the target may change the state. */
    method FollowBoost(adjustedTarget: real)
      requires Valid() && IsActive(state)
      modifies this`state, this`loop
      ensures Valid() && IsActive(state) && SameTargets(loop, old(loop)) && NoMoreFaultTime(loop, old(loop))
      ensures CourseNow() == Boosted(old(CourseNow()), temperature, millisTicks, adjustedTarget)
    {
      hide ModelOK, StateFor;
      if loop.extrusionTemperatureBoost != loop.lastExtrusionTemperatureBoost {
        UpdateHeaterState(adjustedTarget);
        loop := loop.(lastExtrusionTemperatureBoost := loop.extrusionTemperatureBoost);
      }
    }

    /** Control of a temperature within the limits. */
    method Drive(i: Computed)
      requires Valid() && IsActive(state)
      modifies this`state, this`error, this`heaterDuty, this`loop
      ensures Valid() && WithinModel() && (state == Fault || IsActive(state))
      ensures IsActive(state) ==> !linkTimeoutLatched
      ensures state == Fault ==> linkTimeoutLatched || FaultTimeRunsOut(old(loop), limits)
      ensures IsActive(state) ==> ModelReady(model) && heaterDuty == DutyFor(old(AdjustedTarget()), old(loop).integral, i)
      ensures IsActive(state) ==> heaterDuty == DutyOf(loop.lastPwm)
      ensures Driven(old(CourseNow()), old(AdjustedTarget()), i)
    {
      hide ModelOK, Since, Alive, DutyOf, ModelReady, ControlOutput, StateFor, Within, Watched, Boosted, FaultTimer, Responds;
      WithinNothing(model);
      LiveModelIsReady(modelMessages, liveFrom, model, pendingModel, pendingModelParts);
      var adjustedTarget := AdjustedTarget();
      FollowBoost(adjustedTarget);
      var tempError := adjustedTarget - temperature;
      var fine := Watch(tempError, adjustedTarget, i);
      if !fine {
        return;
      }
      Actuate(tempError, i);
    }

    /** The part of Control that computes the output and applies it. */
    method Actuate(tempError: real, i: Computed)
      requires Valid() && IsActive(state)
      modifies this`state, this`error, this`heaterDuty, this`loop
      ensures Valid() && WithinModel()
      ensures if linkTimeoutLatched then state == Fault && error == LinkTimeout
              else
                && state == old(state) && ModelReady(model)
                && heaterDuty == DutyOf(ControlOutput(model, state, old(loop).integral, tempError, i).pwm) == DutyOf(loop.lastPwm)
      ensures ModelReady(model)
      ensures var o := ControlOutput(model, old(state), old(loop).integral, tempError, i);
              loop == if linkTimeoutLatched then old(loop).(integral := o.integral)
                      else old(loop).(integral := o.integral, lastPwm := o.pwm,
                                      averagePwm := old(loop).averagePwm * 0.95 + o.pwm * 0.05)
      ensures !linkTimeoutLatched ==> Responds(model, tempError, i, heaterDuty)
      ensures linkTimeoutLatched ==> heaterDuty == 0
    {
      hide ModelOK, Since, Alive, DutyOf, ModelReady, ControlOutput, StateFor, Within, Responds;
      WithinNothing(model);
      LiveModelIsReady(modelMessages, liveFrom, model, pendingModel, pendingModelParts);
      var output := ControlOutput(model, state, loop.integral, tempError, i);
      loop := loop.(integral := output.integral);
      if linkTimeoutLatched {
        SetFault(LinkTimeout);
        return;
      }
      WithinReady(model, output.pwm);
      OutputResponds(model, state, old(loop).integral, tempError, i);
      ApplyHeater(output.pwm);
      loop := loop.(lastPwm := output.pwm, averagePwm := loop.averagePwm * 0.95 + output.pwm * 0.05);
    }

    /** A counter of bad readings that stops at its largest value. */
    static function Next(badReadings: nat): nat {
      if badReadings < 0xFF then badReadings + 1 else badReadings
    }

    /** ResetConfiguration */
    method ResetConfiguration()
      requires heaterFrequency != 0 && millisTicks < TICK_RANGE && lastHostHeartbeat < TICK_RANGE
      modifies this
      ensures Valid() && state == Off && error == NotConfigured && heaterDuty == 0 && !linkTimeoutLatched
      ensures !thermistorConfigured && !heaterConfigured && !modelConfigured && modelMessages == [] && loop == FRESH_LOOP
      ensures millisTicks == old(millisTicks) && lastHostHeartbeat == old(lastHostHeartbeat) && handovers == old(handovers)
      ensures model == old(model)
    {
      hide ModelOK, DutyOf, OutputOK;
      ForgetSettings();
      ForgetReadings();
      state, error, linkTimeoutLatched := Off, NotConfigured, false;
      ApplyHeater(0.0);
      WithinNothing(model);
      assert OutputOK(state, heaterDuty, linkTimeoutLatched, thermistorConfigured, heaterConfigured, modelConfigured) by {
        IdleIsOK(state, linkTimeoutLatched, thermistorConfigured, heaterConfigured, modelConfigured);
      }
    }

    method ForgetSettings()
      modifies this`heaterFrequency, this`maxBadReadings, this`thermistorConfigured, this`heaterConfigured,
               this`modelConfigured, this`pendingModelParts, this`limits, this`modelMessages
      ensures heaterFrequency == 250 && maxBadReadings == 3 && limits == Limits(2000.0, ABSOLUTE_ZERO, 15.0, 5.0)
      ensures !thermistorConfigured && !heaterConfigured && !modelConfigured && modelMessages == []
      ensures ModelOK(modelMessages, liveFrom, modelConfigured, model, pendingModel, pendingModelParts)
    {
      hide ModelOK;
      heaterFrequency, maxBadReadings := 250, 3;
      thermistorConfigured, heaterConfigured, modelConfigured := false, false, false;
      pendingModelParts := 0;
      limits := Limits(2000.0, ABSOLUTE_ZERO, 15.0, 5.0);
      modelMessages := [];
      NoModelOK(liveFrom, model, pendingModel);
    }

    method ForgetReadings()
      modifies this`badReadings, this`temperature, this`targetTemperature, this`loop
      ensures badReadings == 0 && temperature == ABSOLUTE_ZERO && targetTemperature == 0.0 && loop == FRESH_LOOP
    {
      badReadings := 0;
      temperature, targetTemperature := ABSOLUTE_ZERO, 0.0;
      loop := FRESH_LOOP;
    }

    /** Tick, when it does not interrupt anything. */
    method Tick()
      requires Valid()
      modifies this`millisTicks, this`linkTimeoutLatched, this`heaterDuty, this`state, this`error
      ensures Valid() && millisTicks == (old(millisTicks) + 1) % TICK_RANGE
      ensures LinkAlive() <==> (millisTicks - lastHostHeartbeat) % 0x1_0000_0000 <= 2500
      ensures if IsActive(old(state)) && !LinkAlive()
              then linkTimeoutLatched && state == Fault && error == LinkTimeout && heaterDuty == 0
              else linkTimeoutLatched == old(linkTimeoutLatched) && state == old(state) && error == old(error)
                   && heaterDuty == old(heaterDuty)
    {
      hide ModelOK, Since, Alive, DutyOf, ModelReady;
      millisTicks := (millisTicks + 1) % TICK_RANGE;
      AliveMeans(millisTicks, lastHostHeartbeat);
      if IsActive(state) && !LinkAlive() {
        linkTimeoutLatched := true;
        SetFault(LinkTimeout);
      }
    }

    /** HostHeartbeat */
    method HostHeartbeat()
      requires Valid()
      modifies this`lastHostHeartbeat
      ensures Valid() && LinkAlive() && lastHostHeartbeat == millisTicks
    {
      lastHostHeartbeat := millisTicks;
    }

    /** ConfigureThermistor */
    method ConfigureThermistor(m: Message)
      requires Valid() && m.ThermistorConfig?
      modifies this`thermistorConfigured, this`badReadings, this`state, this`error, this`heaterDuty
      ensures Valid() && Undisturbed(old(state), old(heaterDuty))
      ensures thermistorConfigured <==> Positive(m.r25) && Positive(m.beta) && m.shC.Finite? && Positive(m.pullupR)
      ensures thermistorConfigured ==> state == old(state) && heaterDuty == old(heaterDuty) && badReadings == 0
      ensures !thermistorConfigured ==> error == NotConfigured && (IsActive(old(state)) ==> state == Fault)
    {
      hide ModelOK, Since, Alive, DutyOf, ModelReady;
      if !m.r25.Finite? || !m.beta.Finite? || !m.shC.Finite? || !m.pullupR.Finite?
         || m.r25.value <= 0.0 || m.beta.value <= 0.0 || m.pullupR.value <= 0.0 {
        thermistorConfigured := false;
        if IsActive(state) {
          SetFault(NotConfigured);
        } else {
          error := NotConfigured;
        }
        return;
      }
      thermistorConfigured := true;
      badReadings := 0;
    }

    /** A step that may stop the heater but does nothing else to it. */
    ghost predicate Undisturbed(state0: HeaterState, duty0: nat)
      reads this
    {
      || (state == state0 && heaterDuty == duty0)
      || (IsActive(state0) && state == Fault && heaterDuty == 0)
    }

    /** RejectModelUpdate */
    method RejectModelUpdate()
      requires heaterFrequency != 0
      modifies this`pendingModelParts, this`state, this`error, this`heaterDuty
      ensures pendingModelParts == 0
      ensures if IsActive(old(state)) then state == Fault && error == ControlFault && heaterDuty == 0
              else state == old(state) && error == old(error) && heaterDuty == old(heaterDuty)
    {
      pendingModelParts := 0;
      if IsActive(state) {
        SetFault(ControlFault);
      }
    }

    /** ConfigureModelA */
    method ConfigureModelA(m: Message)
      requires Valid() && m.ModelA?
      modifies this`pendingModel, this`pendingModelParts, this`modelMessages
      ensures Valid() && modelMessages == old(modelMessages) + [m]
    {
      hide ModelOK, ModelReady, HasPartA, HasPartB;
      ghost var before, pending, parts := modelMessages, pendingModel, pendingModelParts;
      pendingModel := model.(heatingRate := m.heatingRate, basicCoolingRate := m.basicCoolingRate,
                             fanCoolingRate := m.fanCoolingRate, coolingRateExponent := m.coolingRateExponent);
      pendingModelParts := 1;
      modelMessages := modelMessages + [m];
      PartsAreKept(model, m, m, m);
      ModelStep(before, liveFrom, modelConfigured, model, pending, parts, m, pendingModel);
    }

    /** ConfigureModelB: it counts only right behind the first part. */
    method ConfigureModelB(m: Message)
      requires Valid() && m.ModelB?
      modifies this`pendingModel, this`pendingModelParts, this`state, this`error, this`heaterDuty, this`modelMessages
      ensures Valid() && modelMessages == old(modelMessages) + [m]
      ensures if old(modelMessages) != [] && old(modelMessages)[|old(modelMessages)|-1].ModelA?
              then state == old(state) && heaterDuty == old(heaterDuty) && error == old(error)
              else Rejected(old(state), old(heaterDuty))
    {
      hide ModelOK, ModelReady, HasPartA, HasPartB;
      ghost var before, pending, parts := modelMessages, pendingModel, pendingModelParts;
      ModelStep(before, liveFrom, modelConfigured, model, pending, parts, m, pending);
      if pendingModelParts != 1 {
        RejectModelUpdate();
      } else {
        pendingModel := pendingModel.(deadTime := m.deadTime, maxPwm := m.maxPwm,
                                      overrideKp := m.overrideKp, overrideRecipTi := m.overrideRecipTi);
        pendingModelParts := 3;
        PartsAreKept(pending, before[|before|-1], m, m);
      }
      modelMessages := modelMessages + [m];
      ModelStep(before, liveFrom, modelConfigured, model, pending, parts, m, pendingModel);
    }

    /** ConfigureModelC: the model goes live exactly if it is the last of three
        messages in a row that describe a valid one. The output, which stays, is then
        still within the model exactly if it is no more than the new one allows. */
    method ConfigureModelC(m: Message)
      requires Valid() && m.ModelC?
      modifies this`model, this`pendingModel, this`pendingModelParts, this`modelConfigured,
               this`state, this`error, this`heaterDuty, this`modelMessages, this`liveFrom, this`handovers
      ensures Valid() && modelMessages == old(modelMessages) + [m]
      ensures var before := old(modelMessages);
              var n := |before|;
              if Accepted(before, m) then
                && model == Assembled(before[n-2], before[n-1], m) && modelConfigured
                && state == old(state) && heaterDuty == old(heaterDuty)
              else
                && model == old(model) && modelConfigured == old(modelConfigured)
                && Rejected(old(state), old(heaterDuty))
      ensures handovers == old(handovers) + HandoverOf(old(modelMessages), m, old(heaterDuty))
      ensures old(WithinModel()) ==> (WithinModel() <==> FitsDuty(old(modelMessages), m, old(heaterDuty)))
    {
      hide ModelOK, Within, FitsDuty, HandoverOf, Assembled, OutputOK, Accepted;
      ghost var before, duty := modelMessages, heaterDuty;
      WithinNothing(model);
      NoNewModel(before, m, duty);
      TakeLastPart(m);
      if Accepted(before, m) {
        WithinNewModel(before, m, duty);
      }
      handovers := handovers + HandoverOf(before, m, duty);
    }

    /** The message itself. */
    method TakeLastPart(m: Message)
      requires Valid() && m.ModelC?
      modifies this`model, this`pendingModel, this`pendingModelParts, this`modelConfigured,
               this`state, this`error, this`heaterDuty, this`modelMessages, this`liveFrom
      ensures Valid() && modelMessages == old(modelMessages) + [m]
      ensures var before := old(modelMessages);
              var n := |before|;
              if Accepted(before, m) then
                && model == Assembled(before[n-2], before[n-1], m) && modelConfigured
                && state == old(state) && heaterDuty == old(heaterDuty)
              else
                && model == old(model) && modelConfigured == old(modelConfigured)
                && Rejected(old(state), old(heaterDuty))
    {
      hide ModelOK, ModelReady, HasPartA, HasPartB;
      ghost var before, from, configured, live := modelMessages, liveFrom, modelConfigured, model;
      ghost var pending, parts := pendingModel, pendingModelParts;
      ModelStep(before, from, configured, live, pending, parts, m, pending);
      modelMessages := modelMessages + [m];
      if pendingModelParts != 3 {
        RejectModelUpdate();
      } else {
        PartsAreKept(pending, before[|before|-2], before[|before|-1], m);
        FinishModel(m, |before| - 2);
      }
      ModelStep(before, from, configured, live, pending, parts, m, pendingModel);
    }

    /** The last part of a model whose other two are pending. */
    method FinishModel(m: Message, ghost from: nat)
      requires m.ModelC? && heaterFrequency != 0
      modifies this`model, this`pendingModel, this`pendingModelParts, this`modelConfigured,
               this`state, this`error, this`heaterDuty, this`liveFrom
      ensures pendingModelParts == 0
      ensures var whole := old(pendingModel).(overrideTd := m.overrideTd, usePid := Flag(m.flags, 1),
                                              inverted := Flag(m.flags, 2), pidOverridden := Flag(m.flags, 4));
              if m.flags < 8 && ModelReady(whole) then
                && model == pendingModel == whole && modelConfigured && liveFrom == from
                && state == old(state) && error == old(error) && heaterDuty == old(heaterDuty)
              else
                && model == old(model) && modelConfigured == old(modelConfigured) && liveFrom == old(liveFrom)
                && Rejected(old(state), old(heaterDuty))
    {
      hide ModelReady, Flag;
      pendingModel := pendingModel.(overrideTd := m.overrideTd);
      if m.flags >= 8 {
        RejectModelUpdate();
      } else {
        pendingModel := pendingModel.(usePid := Flag(m.flags, 1), inverted := Flag(m.flags, 2),
                                      pidOverridden := Flag(m.flags, 4));
        if ModelReady(pendingModel) {
          model := pendingModel;
          modelConfigured := true;
          pendingModelParts := 0;
          liveFrom := from;
        } else {
          RejectModelUpdate();
        }
      }
    }

    /** A model message of the wrong length. */
    method RejectMalformedModel()
      requires Valid()
      modifies this`pendingModelParts, this`state, this`error, this`heaterDuty, this`modelMessages
      ensures Valid() && modelMessages == old(modelMessages) + [MalformedModel] && Rejected(old(state), old(heaterDuty))
    {
      hide ModelOK;
      ghost var before, parts := modelMessages, pendingModelParts;
      RejectModelUpdate();
      modelMessages := modelMessages + [MalformedModel];
      ModelStep(before, liveFrom, modelConfigured, model, pendingModel, parts, MalformedModel, pendingModel);
    }

    /** A rejected update stops an active heater and touches no other. */
    ghost predicate Rejected(state0: HeaterState, duty0: nat)
      reads this
    {
      if IsActive(state0) then state == Fault && error == ControlFault && heaterDuty == 0
      else state == state0 && heaterDuty == duty0
    }

    /** ConfigureHeater */
    method ConfigureHeater(m: Message)
      requires Valid() && m.HeaterConfig?
      modifies this`heaterConfigured, this`heaterFrequency, this`limits, this`maxBadReadings,
               this`state, this`error, this`heaterDuty
      ensures Valid() && Undisturbed(old(state), old(heaterDuty))
      ensures heaterConfigured <==> m.frequency != 0 && m.upper > m.lower
      ensures heaterConfigured ==>
                && state == old(state) && heaterFrequency == m.frequency && maxBadReadings == m.maxBad
                && limits == Limits(m.upper as real * 0.1, m.lower as real * 0.1,
                                    m.excursion as real * 0.01, m.faultTime as real * 0.1)
                && limits.lower < limits.upper
      ensures !heaterConfigured ==>
                && heaterFrequency == old(heaterFrequency) && limits == old(limits) && maxBadReadings == old(maxBadReadings)
                && error == (if IsActive(old(state)) then ControlFault else NotConfigured)
                && (IsActive(old(state)) ==> state == Fault)
    {
      hide ModelOK, Since, Alive, DutyOf, ModelReady;
      var newUpperLimit := m.upper as real * 0.1;
      var newLowerLimit := m.lower as real * 0.1;
      if m.frequency == 0 || newUpperLimit <= newLowerLimit {
        heaterConfigured := false;
        if IsActive(state) {
          SetFault(ControlFault);
        } else {
          error := NotConfigured;
        }
        return;
      }
      heaterFrequency := m.frequency;
      limits := Limits(newUpperLimit, newLowerLimit, m.excursion as real * 0.01, m.faultTime as real * 0.1);
      maxBadReadings := m.maxBad;
      heaterConfigured := true;
    }

    /** Whether a request to switch on is granted. */
    predicate MayTurnOn(target: real, sample: Sample)
      reads this
    {
      LinkAlive() && MayTurnOnIfAlive(target, sample)
    }

    predicate MayTurnOnIfAlive(target: real, sample: Sample)
      reads this
    {
      && thermistorConfigured && heaterConfigured && modelConfigured && state != Fault && sample.Good?
      && limits.upper < 1000.0 && target <= limits.upper
      && (limits.lower > ABSOLUTE_ZERO + 1.0 ==> target >= limits.lower)
    }

    /** The command to switch on. */
    method TurnOn(requestedTarget: real, sample: Sample)
      requires Valid()
      modifies this`state, this`error, this`temperature, this`targetTemperature, this`heaterDuty, this`loop
      ensures Valid()
      ensures old(state) == Fault ==> state == Fault && error == old(error)
      ensures IsActive(state) <==> old(MayTurnOn(requestedTarget, sample))
      ensures IsActive(state) ==> targetTemperature == requestedTarget <= limits.upper && heaterDuty == old(heaterDuty)
      ensures IsActive(state) ==> temperature == sample.temperature && state == StateFor(temperature, AdjustedTarget())
      ensures IsActive(state) ==>
                var boosted := requestedTarget + old(loop).extrusionTemperatureBoost;
                var target := if boosted < limits.upper then boosted else limits.upper;
                && (sample.temperature < target - 1.5 ==> state == Heating)
                && (sample.temperature > target + 1.5 ==> state == Cooling)
                && (target - 1.5 <= sample.temperature <= target + 1.5 ==> state == Stable)
      ensures !IsActive(state) ==> state == Fault && heaterDuty == 0
      ensures old(state) != Fault && state == Fault ==>
                error == if !LinkAlive() then LinkTimeout
                         else if !thermistorConfigured || !heaterConfigured || !modelConfigured then NotConfigured
                         else if !sample.Good? then ErrorOf(true, sample)
                         else ControlFault
      ensures SameTargets(loop, old(loop)) && NoMoreFaultTime(loop, old(loop))
    {
      hide ModelOK, Since, Alive, DutyOf, ModelReady, StateFor;
      var good := false;
      if LinkAlive() && thermistorConfigured && heaterConfigured && modelConfigured && state != Fault {
        good := SampleTemperature(sample);
      }
      if !good {
        if state != Fault {
          SetFault(if !LinkAlive() then LinkTimeout
                   else if !thermistorConfigured || !heaterConfigured || !modelConfigured then NotConfigured
                   else error);
        }
        return;
      }
      if limits.upper >= 1000.0 || requestedTarget > limits.upper
         || (limits.lower > ABSOLUTE_ZERO + 1.0 && requestedTarget < limits.lower) {
        SetFault(ControlFault);
        return;
      }
      targetTemperature := requestedTarget;
      UpdateHeaterState(AdjustedTarget());
    }

    /** The commands to switch off and to suspend: a fault stays. */
    method TurnOff(resting: HeaterState)
      requires Valid() && (resting == Off || resting == Suspended)
      modifies this`state, this`heaterDuty, this`loop
      ensures Valid() && heaterDuty == 0 && state == if old(state) == Fault then Fault else resting
      ensures loop.lastPwm == 0.0
      ensures if resting == Off then Relaxed(loop) else SameTargets(loop, old(loop))
    {
      hide ModelOK, DutyOf;
      WithinNothing(model);
      ApplyHeater(0.0);
      if state != Fault {
        state := resting;
      }
      loop := loop.(lastPwm := 0.0);
      if resting == Off {
        loop := loop.(integral := 0.0, extrusionPwmBoost := 0.0, extrusionTemperatureBoost := 0.0,
                      lastExtrusionTemperatureBoost := 0.0, excursionFaultMillis := 0, heatingFaultMillis := 0);
      }
    }

    /** The command to reset a fault, which needs a live link and a good temperature. */
    method ResetFault(sample: Sample)
      requires Valid()
      modifies this`state, this`error, this`temperature, this`heaterDuty, this`badReadings, this`loop, this`linkTimeoutLatched
      ensures Valid()
      ensures if LinkAlive() && thermistorConfigured && sample.Good?
              then state == Off && error == NoError && heaterDuty == 0 && !linkTimeoutLatched && badReadings == 0 && Relaxed(loop)
              else state == old(state) && heaterDuty == old(heaterDuty) && linkTimeoutLatched == old(linkTimeoutLatched)
                   && loop == old(loop) && badReadings == old(badReadings)
    {
      hide ModelOK, Alive, DutyOf, OutputOK;
      WithinNothing(model);
      if LinkAlive() {
        var good := SampleTemperature(sample);
        if good {
          ClearFault();
        }
      }
    }

    /** What a reset that is granted clears. */
    method ClearFault()
      requires Valid()
      modifies this`state, this`error, this`heaterDuty, this`badReadings, this`loop, this`linkTimeoutLatched
      ensures Valid() && state == Off && error == NoError && heaterDuty == 0 && !linkTimeoutLatched
      ensures badReadings == 0 && Relaxed(loop)
    {
      hide ModelOK, Alive, DutyOf, OutputOK;
      WithinNothing(model);
      linkTimeoutLatched := false;
      ApplyHeater(0.0);
      state, error, badReadings := Off, NoError, 0;
      loop := loop.(integral := 0.0, extrusionPwmBoost := 0.0, extrusionTemperatureBoost := 0.0,
                    lastExtrusionTemperatureBoost := 0.0, lastPwm := 0.0,
                    heatingFaultMillis := 0, excursionFaultMillis := 0);
      IdleIsOK(state, linkTimeoutLatched, thermistorConfigured, heaterConfigured, modelConfigured);
    }

    /** Command */
    method Command(m: Message, sample: Sample)
      requires Valid() && m.HeaterCommand?
      modifies this`state, this`error, this`temperature, this`targetTemperature, this`heaterDuty, this`badReadings,
               this`loop, this`linkTimeoutLatched
      ensures Valid() && (heaterDuty == 0 || heaterDuty == old(heaterDuty))
      ensures m.command == COMMAND_OFF ==> heaterDuty == 0 && state == (if old(state) == Fault then Fault else Off) && Relaxed(loop)
      ensures m.command == COMMAND_SUSPEND ==> heaterDuty == 0 && state == if old(state) == Fault then Fault else Suspended
      ensures m.command == COMMAND_ON ==> (IsActive(state) <==> old(MayTurnOn(m.target as real * 0.01, sample)))
      ensures m.command == COMMAND_ON && IsActive(state) ==> targetTemperature == m.target as real * 0.01
      ensures m.command == COMMAND_RESET_FAULT ==>
                if LinkAlive() && thermistorConfigured && sample.Good?
                then state == Off && error == NoError && heaterDuty == 0 && !linkTimeoutLatched
                else state == old(state) && heaterDuty == old(heaterDuty) && linkTimeoutLatched == old(linkTimeoutLatched)
      ensures m.command > COMMAND_RESET_FAULT ==>
                state == old(state) && error == old(error) && heaterDuty == old(heaterDuty) && loop == old(loop)
      ensures m.command != COMMAND_RESET_FAULT ==> linkTimeoutLatched == old(linkTimeoutLatched)
      ensures m.command != COMMAND_ON ==> targetTemperature == old(targetTemperature)
      ensures m.command != COMMAND_ON && IsActive(state) ==> IsActive(old(state))
      ensures old(state) == Fault && state != Fault ==> m.command == COMMAND_RESET_FAULT
      ensures old(linkTimeoutLatched) && !linkTimeoutLatched ==> m.command == COMMAND_RESET_FAULT
    {
      hide ModelOK, Since, Alive, DutyOf, ModelReady;
      if m.command == COMMAND_OFF {
        TurnOff(Off);
      } else if m.command == COMMAND_ON {
        TurnOn(m.target as real * 0.01, sample);
      } else if m.command == COMMAND_SUSPEND {
        TurnOff(Suspended);
      } else if m.command == COMMAND_RESET_FAULT {
        ResetFault(sample);
      }
    }

    /** ConfigureFeedForward */
    method ConfigureFeedForward(m: Message)
      requires Valid() && m.FeedForward?
      modifies this`state, this`error, this`heaterDuty, this`loop
      ensures Valid()
      ensures if m.fan.Finite? && m.pwmBoost.Finite? && m.temperatureBoost.Finite?
              then state == old(state) && heaterDuty == old(heaterDuty)
                   && loop.extrusionTemperatureBoost == m.temperatureBoost.value
                   && (state != Stable ==> loop == old(loop).(extrusionTemperatureBoost := m.temperatureBoost.value))
                   && (state == Stable ==>
                         loop.fanPwm == Clamp(m.fan.value, 0.0, 1.0) && loop.extrusionPwmBoost == m.pwmBoost.value)
                   && (state == Stable ==>
                         && model.heatingRate.Finite? && model.fanCoolingRate.Finite? && model.heatingRate.value > 0.0
                         && loop.integral - OpenLoop(model, targetTemperature, loop.extrusionPwmBoost, loop.fanPwm)
                            == old(loop.integral
                                   - OpenLoop(model, targetTemperature, loop.extrusionPwmBoost, loop.fanPwm)))
              else state == Fault && heaterDuty == 0 && error == ControlFault
    {
      hide ModelOK, Since, Alive, DutyOf, ModelReady, Clamp, OpenLoop;
      if !m.fan.Finite? || !m.pwmBoost.Finite? || !m.temperatureBoost.Finite? {
        SetFault(ControlFault);
        return;
      }
      var clampedFanPwm := Clamp(m.fan.value, 0.0, 1.0);
      if state == Stable {
        LiveModelIsReady(modelMessages, liveFrom, model, pendingModel, pendingModelParts);
        PositiveRates(model);
        var boost := m.pwmBoost.value - loop.extrusionPwmBoost;
        if clampedFanPwm != loop.fanPwm {
          var pwmChange := clampedFanPwm - loop.fanPwm;
          boost := boost + (targetTemperature - NORMAL_AMBIENT_TEMPERATURE) * 0.01
                           * model.fanCoolingRate.value * pwmChange / model.heatingRate.value * FAN_FEED_FORWARD_MULTIPLIER;
        }
        OpenLoopChange(model, targetTemperature, loop.extrusionPwmBoost, loop.fanPwm, m.pwmBoost.value, clampedFanPwm);
        loop := loop.(extrusionPwmBoost := m.pwmBoost.value, fanPwm := clampedFanPwm, integral := loop.integral + boost);
      }
      loop := loop.(extrusionTemperatureBoost := m.temperatureBoost.value);
    }

    /** The frames that make up models. */
    method HandleModel(m: Message)
      requires Valid() && (m.ModelA? || m.ModelB? || m.ModelC? || m.MalformedModel?)
      modifies this`model, this`pendingModel, this`pendingModelParts, this`modelConfigured,
               this`state, this`error, this`heaterDuty, this`modelMessages, this`liveFrom, this`handovers
      ensures Valid() && modelMessages == old(modelMessages) + [m]
      ensures model == if Accepted(old(modelMessages), m) then NewModel(old(modelMessages), m) else old(model)
      ensures modelConfigured == (old(modelConfigured) || Accepted(old(modelMessages), m))
      ensures (state == old(state) && heaterDuty == old(heaterDuty)) || (IsActive(old(state)) && state == Fault && heaterDuty == 0)
      ensures Accepted(old(modelMessages), m) ==> state == old(state)
      ensures handovers == old(handovers) + HandoverOf(old(modelMessages), m, old(heaterDuty))
      ensures old(WithinModel()) ==> (WithinModel() <==> FitsDuty(old(modelMessages), m, old(heaterDuty)))
    {
      hide ModelOK, DutyOf, ModelReady, Within, FitsDuty, HandoverOf, Accepted, OutputOK;
      WithinNothing(model);
      NoNewModel(modelMessages, m, heaterDuty);
      match m {
        case ModelA(_, _, _, _) => ConfigureModelA(m);
        case ModelB(_, _, _, _) => ConfigureModelB(m);
        case ModelC(_, _) => ConfigureModelC(m);
        case MalformedModel => RejectMalformedModel();
      }
    }

    /** HandleFrame: a fault is left by a reset command only, and only the command
        to switch on makes the heater active. */
    method HandleFrame(m: Message, sample: Sample)
      requires Valid()
      modifies this
      ensures Valid()
      ensures old(state) == Fault && state != Fault ==> m.HeaterCommand? && m.command == COMMAND_RESET_FAULT
      ensures old(linkTimeoutLatched) && !linkTimeoutLatched ==> m.HeaterCommand? && m.command == COMMAND_RESET_FAULT
      ensures linkTimeoutLatched ==> old(linkTimeoutLatched)
      ensures !IsActive(old(state)) && IsActive(state) ==>
                m.HeaterCommand? && m.command == COMMAND_ON && old(MayTurnOn(m.target as real * 0.01, sample))
      ensures heaterDuty == old(heaterDuty) || heaterDuty == 0
      ensures handovers == old(handovers) + HandoverOf(old(modelMessages), m, old(heaterDuty))
      ensures old(WithinModel()) ==> (WithinModel() <==> FitsDuty(old(modelMessages), m, old(heaterDuty)))
      ensures millisTicks == old(millisTicks) && lastHostHeartbeat == old(lastHostHeartbeat)
      ensures m.ThermistorConfig? ==>
                (thermistorConfigured <==> Positive(m.r25) && Positive(m.beta) && m.shC.Finite? && Positive(m.pullupR))
      ensures modelMessages == if m.ModelA? || m.ModelB? || m.ModelC? || m.MalformedModel? then old(modelMessages) + [m]
                               else old(modelMessages)
      ensures model == if Accepted(old(modelMessages), m) then NewModel(old(modelMessages), m) else old(model)
      ensures modelConfigured == (old(modelConfigured) || Accepted(old(modelMessages), m))
      ensures m.HeaterCommand? && (m.command == COMMAND_OFF || m.command == COMMAND_SUSPEND) ==> !IsActive(state) && heaterDuty == 0
      ensures m.HeaterConfig? ==> (heaterConfigured <==> m.frequency != 0 && m.upper > m.lower)
      ensures m.HeaterConfig? && heaterConfigured ==>
                && heaterFrequency == m.frequency && maxBadReadings == m.maxBad
                && limits == Limits(m.upper as real * 0.1, m.lower as real * 0.1, m.excursion as real * 0.01, m.faultTime as real * 0.1)
      ensures m.HeaterCommand? && m.command == COMMAND_ON && IsActive(state) ==> targetTemperature == m.target as real * 0.01
      ensures m.FeedForward? ==>
                if m.fan.Finite? && m.pwmBoost.Finite? && m.temperatureBoost.Finite?
                then state == old(state) && loop.extrusionTemperatureBoost == m.temperatureBoost.value
                     && (state == Stable ==>
                           loop.extrusionPwmBoost == m.pwmBoost.value && loop.fanPwm == Clamp(m.fan.value, 0.0, 1.0))
                else state == Fault && error == ControlFault && heaterDuty == 0
    {
      hide ModelOK, Since, Alive, DutyOf, ModelReady, Within, FitsDuty, HandoverOf, Accepted, Clamp;
      NoNewModel(modelMessages, m, heaterDuty);
      if m.ModelA? || m.ModelB? || m.ModelC? || m.MalformedModel? {
        HandleModel(m);
      } else {
        HandleSetting(m, sample);
      }
    }

    /** The other frames. */
    method HandleSetting(m: Message, sample: Sample)
      requires Valid() && !m.ModelA? && !m.ModelB? && !m.ModelC? && !m.MalformedModel?
      modifies this`state, this`error, this`linkTimeoutLatched, this`heaterFrequency, this`maxBadReadings, this`badReadings,
               this`thermistorConfigured, this`heaterConfigured, this`temperature, this`targetTemperature, this`limits,
               this`loop, this`heaterDuty
      ensures Valid()
      ensures old(state) == Fault && state != Fault ==> m.HeaterCommand? && m.command == COMMAND_RESET_FAULT
      ensures old(linkTimeoutLatched) && !linkTimeoutLatched ==> m.HeaterCommand? && m.command == COMMAND_RESET_FAULT
      ensures linkTimeoutLatched ==> old(linkTimeoutLatched)
      ensures !IsActive(old(state)) && IsActive(state) ==>
                m.HeaterCommand? && m.command == COMMAND_ON && old(MayTurnOn(m.target as real * 0.01, sample))
      ensures heaterDuty == old(heaterDuty) || heaterDuty == 0
      ensures old(WithinModel()) ==> WithinModel()
      ensures m.ThermistorConfig? ==>
                (thermistorConfigured <==> Positive(m.r25) && Positive(m.beta) && m.shC.Finite? && Positive(m.pullupR))
      ensures m.HeaterConfig? ==> (heaterConfigured <==> m.frequency != 0 && m.upper > m.lower)
      ensures m.HeaterConfig? && heaterConfigured ==>
                && heaterFrequency == m.frequency && maxBadReadings == m.maxBad
                && limits == Limits(m.upper as real * 0.1, m.lower as real * 0.1, m.excursion as real * 0.01, m.faultTime as real * 0.1)
      ensures m.HeaterCommand? && m.command == COMMAND_ON && IsActive(state) ==> targetTemperature == m.target as real * 0.01
      ensures m.HeaterCommand? && (m.command == COMMAND_OFF || m.command == COMMAND_SUSPEND) ==> !IsActive(state) && heaterDuty == 0
      ensures m.FeedForward? ==>
                if m.fan.Finite? && m.pwmBoost.Finite? && m.temperatureBoost.Finite?
                then state == old(state) && loop.extrusionTemperatureBoost == m.temperatureBoost.value
                     && (state == Stable ==>
                           loop.extrusionPwmBoost == m.pwmBoost.value && loop.fanPwm == Clamp(m.fan.value, 0.0, 1.0))
                else state == Fault && error == ControlFault && heaterDuty == 0
    {
      hide ModelOK, Since, Alive, DutyOf, ModelReady, Within, Clamp, OpenLoop;
      WithinNothing(model);
      match m {
        case ThermistorConfig(_, _, _, _) => ConfigureThermistor(m);
        case HeaterConfig(_, _, _, _, _, _) => ConfigureHeater(m);
        case HeaterCommand(_, _) => Command(m, sample);
        case FeedForward(_, _, _) => ConfigureFeedForward(m);
        case Ignored =>
      }
    }

    /** Milliseconds that pass without a heartbeat, two more than the timeout or
        longer: whatever the counters show at first, the heater is off in the end,
        and if it had been on the timeout is latched. */
    method PassTimeWithoutHeartbeat(n: nat)
      requires Valid() && n >= LINK_TIMEOUT_MILLIS + 2
      modifies this`millisTicks, this`linkTimeoutLatched, this`heaterDuty, this`state, this`error
      ensures Valid() && !IsActive(state) && heaterDuty == 0
      ensures IsActive(old(state)) ==> state == Fault && error == LinkTimeout && linkTimeoutLatched
      ensures !IsActive(old(state)) ==> state == old(state) && linkTimeoutLatched == old(linkTimeoutLatched)
    {
      hide ModelOK, Since, OutputOK;
      ghost var start := Since(millisTicks, lastHostHeartbeat);
      for k := 0 to n
        invariant Valid()
        invariant IsActive(state) ==>
                    && IsActive(old(state))
                    && Since(millisTicks, lastHostHeartbeat)
                       == (if start + k < TICK_RANGE then start + k else start + k - TICK_RANGE)
                    && (k > 0 ==>
                          start + k <= LINK_TIMEOUT_MILLIS || (start + 1 == TICK_RANGE && k <= LINK_TIMEOUT_MILLIS + 1))
        invariant IsActive(old(state)) && !IsActive(state) ==>
                    state == Fault && error == LinkTimeout && linkTimeoutLatched
        invariant !IsActive(old(state)) ==> state == old(state) && linkTimeoutLatched == old(linkTimeoutLatched)
      {
        SinceOneMore(millisTicks, lastHostHeartbeat);
        Tick();
      }
      assert heaterDuty == 0 by {
        InactiveIsOff(state, heaterDuty, linkTimeoutLatched, thermistorConfigured, heaterConfigured, modelConfigured);
      }
    }

    /** A wrap of the counter brings a dead link back: after any number of milliseconds
        without a heartbeat a heater that is ready is switched on exactly if the
        counters show no more than the timeout, as they do after a whole wrap. */
    method SwitchOnAfter(n: nat, target: real, sample: Sample)
      requires Valid() && !IsActive(state) && MayTurnOnIfAlive(target, sample)
      modifies this`millisTicks, this`linkTimeoutLatched, this`state, this`error, this`temperature,
               this`targetTemperature, this`heaterDuty, this`loop
      ensures Valid() && lastHostHeartbeat == old(lastHostHeartbeat)
      ensures IsActive(state) <==> (old(Since(millisTicks, lastHostHeartbeat)) + n) % TICK_RANGE <= LINK_TIMEOUT_MILLIS
    {
      hide ModelOK, Since, Alive, OutputOK;
      PassTimeIdle(n);
      AliveMeans(millisTicks, lastHostHeartbeat);
      TurnOn(target, sample);
    }

    /** Ticks change nothing of a heater that is not active but the time. */
    method PassTimeIdle(n: nat)
      requires Valid() && !IsActive(state)
      modifies this`millisTicks, this`linkTimeoutLatched, this`state, this`error, this`heaterDuty
      ensures Valid() && state == old(state)
      ensures Since(millisTicks, lastHostHeartbeat) == (old(Since(millisTicks, lastHostHeartbeat)) + n) % TICK_RANGE
    {
      hide ModelOK, Since, Alive, OutputOK;
      ghost var start := Since(millisTicks, lastHostHeartbeat);
      OneMoreModulo(start);
      for k := 0 to n
        invariant Valid() && state == old(state)
        invariant Since(millisTicks, lastHostHeartbeat) == (start + k) % TICK_RANGE
      {
        SinceOneMore(millisTicks, lastHostHeartbeat);
        OneMoreModulo(start + k);
        Tick();
      }
    }

    /** Rounds of control in which no temperature can be read: an active heater
        faults with the round that makes more bad readings than are allowed, if
        fewer than 255 are allowed at all; if 255 are, it never does. */
    method ReadBadly(samples: seq<Sample>, computed: seq<Computed>)
      requires Valid() && IsActive(state) && LinkAlive() && badReadings <= maxBadReadings
      requires |samples| == |computed| && forall s <- samples :: !s.Good?
      modifies this
      ensures Valid() && maxBadReadings == old(maxBadReadings)
      ensures state == Fault <==> maxBadReadings < 0xFF && old(badReadings) + |samples| > maxBadReadings
      ensures state != Fault ==> state == old(state) && heaterDuty == old(heaterDuty)
    {
      hide ModelOK, Alive;
      for k := 0 to |samples|
        invariant Valid() && maxBadReadings == old(maxBadReadings) && LinkAlive()
        invariant IsActive(state) ==> state == old(state) && heaterDuty == old(heaterDuty)
        invariant IsActive(state) || state == Fault
        invariant badReadings == if old(badReadings) + k < 0xFF then old(badReadings) + k else 0xFF
        invariant state == Fault <==> maxBadReadings < 0xFF && old(badReadings) + k > maxBadReadings
      {
        assert samples[k] in samples;
        Control(samples[k], computed[k]);
      }
    }

    /** A temperature within the limits that is farther from the target than is allowed. */
    static ghost predicate Astray(limits: Limits, sample: Sample, target: real) {
      && sample.Good? && 45.0 < sample.temperature <= limits.upper
      && (limits.lower > ABSOLUTE_ZERO + 1.0 ==> sample.temperature >= limits.lower)
      && (target - sample.temperature > limits.maxTempExcursion || sample.temperature - target > limits.maxTempExcursion)
    }

    /** One such round. */
    method GoAstray(sample: Sample, i: Computed)
      requires Valid() && state == Stable && LinkAlive() && !linkTimeoutLatched
      requires loop.extrusionTemperatureBoost == loop.lastExtrusionTemperatureBoost && Astray(limits, sample, AdjustedTarget())
      modifies this`state, this`error, this`temperature, this`badReadings, this`heaterDuty, this`loop
      ensures Valid()
      ensures if old(loop).excursionFaultMillis + 250 > (limits.maxFaultTime * 1000.0).Floor
              then state == Fault && error == TemperatureExcursion
              else state == Stable && loop.excursionFaultMillis == old(loop).excursionFaultMillis + 250
      ensures loop.extrusionTemperatureBoost == loop.lastExtrusionTemperatureBoost == old(loop).extrusionTemperatureBoost
    {
      hide ModelOK, Alive, DutyOf, ModelReady, ControlOutput, OutputOK, Responds;
      StableIsConfigured(state, heaterDuty, linkTimeoutLatched, thermistorConfigured, heaterConfigured, modelConfigured);
      Control(sample, i);
    }

    /** Rounds of control in which a stable heater is astray: it faults exactly with the
        round that makes a quarter of a second for each more than the time allowed. */
    method StayAstray(samples: seq<Sample>, computed: seq<Computed>)
      requires Valid() && state == Stable && LinkAlive() && !linkTimeoutLatched && |samples| == |computed|
      requires loop.extrusionTemperatureBoost == loop.lastExtrusionTemperatureBoost
      requires forall s <- samples :: Astray(limits, s, AdjustedTarget())
      modifies this
      ensures Valid()
      ensures state == Fault <==>
                samples != [] && old(loop).excursionFaultMillis + 250 * |samples| > (old(limits).maxFaultTime * 1000.0).Floor
      ensures if state == Fault then error == TemperatureExcursion && heaterDuty == 0
              else state == Stable && loop.excursionFaultMillis == old(loop).excursionFaultMillis + 250 * |samples|
    {
      hide ModelOK, Alive, DutyOf, ModelReady, ControlOutput, OutputOK, Responds, Regulated, Astray;
      ghost var first, limit := loop.excursionFaultMillis, (limits.maxFaultTime * 1000.0).Floor;
      for k := 0 to |samples|
        invariant Valid() && limits == old(limits) && LinkAlive() && !linkTimeoutLatched
        invariant state == Fault <==> k > 0 && first + 250 * k > limit
        invariant state == Fault ==> error == TemperatureExcursion
        invariant state != Fault ==>
                    && state == Stable && loop.excursionFaultMillis == first + 250 * k
                    && loop.extrusionTemperatureBoost == loop.lastExtrusionTemperatureBoost
                    && AdjustedTarget() == old(AdjustedTarget())
      {
        assert samples[k] in samples && Astray(limits, samples[k], old(AdjustedTarget()));
        if state == Stable {
          GoAstray(samples[k], computed[k]);
        } else {
          Control(samples[k], computed[k]);
        }
      }
      if state == Fault {
        InactiveIsOff(state, heaterDuty, linkTimeoutLatched, thermistorConfigured, heaterConfigured, modelConfigured);
      }
    }

    /** Anything that may happen to the controller. */
    method Take(input: Input)
      requires Valid()
      modifies this
      ensures Valid()
      ensures old(state) == Fault && state != Fault ==> MayClearFault(input)
      ensures old(linkTimeoutLatched) && !linkTimeoutLatched ==> MayClearFault(input)
      ensures !IsActive(old(state)) && IsActive(state) ==> MayTurnOnHeater(input) && LinkAlive()
      ensures old(handovers) <= handovers
      ensures old(WithinModel()) && AllFit(handovers, |old(handovers)|) ==> WithinModel()
      ensures millisTicks == if input.Millisecond? then (old(millisTicks) + 1) % TICK_RANGE else old(millisTicks)
      ensures lastHostHeartbeat == if input.Heartbeat? then millisTicks else old(lastHostHeartbeat)
      ensures input.Millisecond? && IsActive(state) ==> LinkAlive()
    {
      hide ModelOK, Since, Alive, DutyOf, ModelReady, Within, FitsDuty, HandoverOf, Fits;
      match input {
        case Frame(m, sample) =>
          ghost var added := HandoverOf(modelMessages, m, heaterDuty);
          HandleFrame(m, sample);
          assert forall i :: 0 <= i < |added| ==> added[i] == handovers[|old(handovers)| + i];
        case Round(sample, computed) => Control(sample, computed);
        case Millisecond => Tick();
        case Heartbeat => HostHeartbeat();
        case ConfigurationReset => ResetConfiguration();
      }
      WithinNothing(model);
    }

    /** Any number of inputs in any order. The heater keeps within its model unless a
        new model allows less than what is on at that moment. */
    method Live(inputs: seq<Input>)
      requires Valid()
      modifies this
      ensures Valid()
      ensures old(state) == Fault && (forall i <- inputs :: !MayClearFault(i)) ==> state == Fault
      ensures old(linkTimeoutLatched) && (forall i <- inputs :: !MayClearFault(i)) ==> linkTimeoutLatched && heaterDuty == 0
      ensures !IsActive(old(state)) && (forall i <- inputs :: !MayTurnOnHeater(i)) ==> !IsActive(state) && heaterDuty == 0
      ensures old(handovers) <= handovers
      ensures old(WithinModel()) && AllFit(handovers, |old(handovers)|) ==> WithinModel()
    {
      hide ModelOK, Since, Alive, DutyOf, ModelReady, Within, Fits;
      for k := 0 to |inputs|
        invariant Valid()
        invariant old(state) == Fault && (forall i <- inputs :: !MayClearFault(i)) ==> state == Fault
        invariant old(linkTimeoutLatched) && (forall i <- inputs :: !MayClearFault(i)) ==> linkTimeoutLatched
        invariant !IsActive(old(state)) && (forall i <- inputs :: !MayTurnOnHeater(i)) ==> !IsActive(state)
        invariant old(handovers) <= handovers
        invariant old(WithinModel()) && AllFit(handovers, |old(handovers)|) ==> WithinModel()
      {
        assert inputs[k] in inputs;
        ghost var before := handovers;
        Take(inputs[k]);
        FitBefore(before, handovers, |old(handovers)|);
      }
    }

    /** The watchdog, whatever happens but a heartbeat: with more than the timeout since
        the last one, and less than one wrap of the counter, an active heater is off
        from the next millisecond on, and cannot be switched on again. */
    method LiveWithoutHeartbeat(inputs: seq<Input>)
      requires Valid() && forall i <- inputs :: !i.Heartbeat?
      modifies this
      ensures Valid()
      ensures var n := Milliseconds(inputs);
              var since := old(Since(millisTicks, lastHostHeartbeat)) + n;
              && Since(millisTicks, lastHostHeartbeat) == since % TICK_RANGE
              && (LinkAlive() <==> since % TICK_RANGE <= LINK_TIMEOUT_MILLIS)
              && (n > 0 && LINK_TIMEOUT_MILLIS < since < TICK_RANGE ==> !IsActive(state) && heaterDuty == 0)
      ensures Milliseconds(inputs) > 0 && IsActive(state) ==> LinkAlive()
    {
      hide ModelOK, Since, Alive, DutyOf, ModelReady, OutputOK, AllFit, Within, Milliseconds, MayClearFault, MayTurnOnHeater;
      ghost var start := Since(millisTicks, lastHostHeartbeat);
      assert Milliseconds(inputs[..0]) == 0 && start % TICK_RANGE == start by { NoMilliseconds(start); }
      for k := 0 to |inputs|
        invariant Valid() && Since(millisTicks, lastHostHeartbeat) == (start + Milliseconds(inputs[..k])) % TICK_RANGE
        invariant Milliseconds(inputs[..k]) > 0 && IsActive(state) ==> LinkAlive()
      {
        assert inputs[k] in inputs;
        MillisecondsOneMore(inputs, k);
        SinceOneMore(millisTicks, lastHostHeartbeat);
        OneMoreModulo(start + Milliseconds(inputs[..k]));
        Take(inputs[k]);
      }
      assert inputs[..|inputs|] == inputs;
      assert LinkAlive() <==> Since(millisTicks, lastHostHeartbeat) <= LINK_TIMEOUT_MILLIS by {
        AliveMeans(millisTicks, lastHostHeartbeat);
      }
      if !IsActive(state) {
        InactiveIsOff(state, heaterDuty, linkTimeoutLatched, thermistorConfigured, heaterConfigured, modelConfigured);
      }
    }
  }

  function Milliseconds(inputs: seq<Input>): nat {
    var last := |inputs| - 1;
    if inputs == [] then 0 else Milliseconds(inputs[..last]) + (if inputs[last].Millisecond? then 1 else 0)
  }

  lemma NoMilliseconds(since: nat)
    requires since < TICK_RANGE
    ensures Milliseconds([]) == 0 && since % TICK_RANGE == since
  {
  }

  lemma MillisecondsOneMore(inputs: seq<Input>, k: nat)
    requires k < |inputs|
    ensures Milliseconds(inputs[..k+1]) == Milliseconds(inputs[..k]) + (if inputs[k].Millisecond? then 1 else 0)
  {
    assert inputs[..k+1][..k] == inputs[..k];
  }

  lemma OneMoreModulo(n: nat)
    ensures (n + 1) % TICK_RANGE == if n % TICK_RANGE + 1 < TICK_RANGE then n % TICK_RANGE + 1 else 0
  {
  }

  lemma AliveMeans(now: nat, earlier: nat)
    ensures Alive(now, earlier) <==> (now - earlier) % 0x1_0000_0000 <= 2500
    ensures Alive(now, earlier) <==> Since(now, earlier) <= LINK_TIMEOUT_MILLIS
  {
  }

  lemma FitBefore(before: seq<Handover>, after: seq<Handover>, from: nat)
    requires before <= after && from <= |before|
    ensures AllFit(after, from) ==> AllFit(before, from) && AllFit(after, |before|)
  {
    hide Fits;
  }

  datatype Input =
    | Frame(message: Message, sample: Sample)
    | Round(sample: Sample, computed: Computed)
    | Millisecond
    | Heartbeat
    | ConfigurationReset

  /** The only two ways out of a fault. */
  predicate MayClearFault(i: Input) {
    i.ConfigurationReset? || (i.Frame? && i.message.HeaterCommand? && i.message.command == COMMAND_RESET_FAULT)
  }

  predicate MayTurnOnHeater(i: Input) {
    i.Frame? && i.message.HeaterCommand? && i.message.command == COMMAND_ON
  }

  const ONE := Finite(1.0)
  const PART_A := ModelA(ONE, ONE, ONE, ONE)
  const PART_B := ModelB(ONE, ONE, ONE, ONE)
  const PART_C := ModelC(ONE, 0)

  /** A heater with a simple model, on its way to 200 degrees at full power. */
  method HeatingUp() returns (t: Thermal)
    ensures fresh(t) && t.Valid() && IsActive(t.state) && t.heaterDuty == 65535
  {
    t := Configured();
    hide ModelOK, OutputOK, ControlOutput, DutyOf, Alive, ModelReady;
    var sample := Good(20.0);
    t.TurnOn(200.0, sample);
    var none := Computed(0.0, false, 0.0, 0.0, Pid(0.0, 0.0, 0.0));
    assert t.AdjustedTarget() == 200.0;
    assert t.limits.maxFaultTime * 1000.0 == 5000.0;
    t.Control(sample, none);
    FullPower(t.model, t.state, 0.0, 180.0, none);
  }

  lemma FullPower(m: Model, state: HeaterState, integral: real, tempError: real, i: Computed)
    requires ModelReady(m) && m == Assembled(PART_A, PART_B, PART_C) && tempError > 0.0
    ensures DutyOf(ControlOutput(m, state, integral, tempError, i).pwm) == 65535
  {
    assert !m.usePid && !m.inverted;
  }

  method Configured() returns (t: Thermal)
    ensures fresh(t) && t.Valid() && t.MayTurnOn(200.0, Good(20.0)) && t.loop == FRESH_LOOP && !t.linkTimeoutLatched
    ensures t.limits == Limits(300.0, 0.0, 15.0, 5.0)
    ensures t.model == Assembled(PART_A, PART_B, PART_C)
  {
    hide ModelOK, OutputOK, ModelReady;
    t := new Thermal();
    SendModel(t);
    t.ConfigureThermistor(ThermistorConfig(ONE, ONE, ONE, ONE));
    t.ConfigureHeater(HeaterConfig(250, 3000, 0, 1500, 50, 3));
  }

  method SendModel(t: Thermal)
    requires t.Valid()
    modifies t`model, t`pendingModel, t`pendingModelParts, t`modelConfigured, t`state, t`error, t`heaterDuty,
             t`modelMessages, t`liveFrom, t`handovers
    ensures t.Valid() && t.modelConfigured && t.model == Assembled(PART_A, PART_B, PART_C)
    ensures t.state == old(t.state) && t.heaterDuty == old(t.heaterDuty)
  {
    hide ModelOK, OutputOK;
    t.ConfigureModelA(PART_A);
    t.ConfigureModelB(PART_B);
    t.ConfigureModelC(PART_C);
  }

  /** A new model can be stricter than the output that is still on: until the next
      good reading the heater then gets more than the live model allows. */
  method OutputBeyondNewModel() returns (t: Thermal)
    ensures fresh(t) && t.Valid() && IsActive(t.state) && !t.WithinModel()
  {
    t := HeatingUp();
    hide ModelOK, OutputOK;
    t.ConfigureModelA(PART_A);
    t.ConfigureModelB(PART_B.(maxPwm := Finite(0.5)));
    t.ConfigureModelC(PART_C);
  }
}
