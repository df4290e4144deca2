/** PWM outputs of the heater processor (LpcFirmware/src/Pwm.cpp). */
module Pwm {
  import opened Options

  const CORE_CLOCK: nat := 12_000_000
  const FULL_DUTY: nat := 65535

  // LpcProtocol.h
  const HEATER_PIN: nat := 0x09
  const HOTEND_FAN_PIN: nat := 0x25
  const REFLOW_FAN_PIN: nat := 0x1A

  /** The longest period of the timer behind a pin, if the pin has one. */
  function MaxPeriod(pin: nat): Option<nat> {
    if pin == HEATER_PIN || pin == REFLOW_FAN_PIN then Some(0xFFFF)
    else if pin == HOTEND_FAN_PIN then Some(0xFFFF_FFFF)
    else None
  }

  /** Whether a duty and a frequency are a command at all. */
  predicate Sensible(duty: nat, frequency: nat) {
    duty == 0 || frequency != 0
  }

  function Divider(frequency: nat, maxPeriod: nat): nat
    requires 0 < frequency && 0 < maxPeriod
  {
    var maxTimerClock := frequency * maxPeriod;
    assert maxTimerClock > 0;
    if maxTimerClock >= CORE_CLOCK then 1 else (CORE_CLOCK + maxTimerClock - 1) / maxTimerClock
  }

  function HighTicks(period: nat, duty: nat): nat {
    (period * duty + 32767) / FULL_DUTY
  }

  lemma QuotientBounds(a: nat, b: nat)
    requires 0 < b
    ensures b * (a / b) <= a < b * (a / b) + b
  {
  }

  lemma QuotientAtMost(a: nat, b: nat, q: nat)
    requires 0 < b && a <= b * q
    ensures a / b <= q
  {
    var d := a / b;
    QuotientBounds(a, b);
    assert b * (q + 1) == b * q + b;
    if d > q {
      Grows(b, q + 1, d);
    }
  }

  lemma QuotientAtLeast(a: nat, b: nat, q: nat)
    requires 0 < b && b * q <= a
    ensures a / b >= q
  {
    var d := a / b;
    QuotientBounds(a, b);
    assert b * (d + 1) == b * d + b;
    if d < q {
      Grows(b, d + 1, q);
    }
  }

  lemma Grows(k: nat, a: nat, b: nat)
    requires a <= b
    ensures k * a <= k * b
  {
    assert k * b == k * a + k * (b - a);
  }

  /** The clock behind the divider is slow enough for the timer's width, and not
      so slow that a cycle is shorter than two ticks. */
  lemma DividedClock(frequency: nat, maxPeriod: nat)
    requires 0 < frequency <= 0xFFFF && 0xFFFF <= maxPeriod
    ensures Divider(frequency, maxPeriod) > 0
    ensures 2 * frequency <= CORE_CLOCK / Divider(frequency, maxPeriod) <= frequency * maxPeriod
  {
    var m := frequency * maxPeriod;
    var d := Divider(frequency, maxPeriod);
    Grows(frequency, 0xFFFF, maxPeriod);
    assert m >= frequency * 0xFFFF >= 0xFFFF;
    if m < CORE_CLOCK {
      var a := CORE_CLOCK + m - 1;
      QuotientBounds(a, m);
      assert m * d <= a < m * d + m;
      assert d > 0 by { QuotientAtLeast(a, m, 1); }
      assert d * m == m * d;
      QuotientAtMost(CORE_CLOCK, d, m);
      // m * d < 2 * CORE_CLOCK, so twice the divided clock is about m or more
      var half := m / 2;
      assert 2 * half <= m;
      Grows(d, 2 * half, m);
      assert d * (2 * half) == 2 * (d * half);
      QuotientAtLeast(CORE_CLOCK, d, half);
      assert half >= 2 * frequency;
    }
  }

  /** The period fits the timer's match register, whatever the frequency. */
  lemma PeriodFits(frequency: nat, maxPeriod: nat)
    requires 0 < frequency <= 0xFFFF && 0xFFFF <= maxPeriod
    ensures Divider(frequency, maxPeriod) > 0
    ensures 2 <= (CORE_CLOCK / Divider(frequency, maxPeriod)) / frequency <= maxPeriod
  {
    hide Divider;
    DividedClock(frequency, maxPeriod);
    var clock := CORE_CLOCK / Divider(frequency, maxPeriod);
    QuotientAtMost(clock, frequency, maxPeriod);
    QuotientAtLeast(clock, frequency, 2);
  }

  /** No smaller divider would make the slowest cycle that fits as long as is needed. */
  predicate IsLeastDivider(divider: int, frequency: int, maxPeriod: int) {
    && divider >= 1 && divider * (frequency * maxPeriod) >= 12_000_000
    && (divider > 1 ==> (divider - 1) * (frequency * maxPeriod) < 12_000_000)
  }

  lemma DividerIsLeast(frequency: nat, maxPeriod: nat)
    requires 0 < frequency && 0 < maxPeriod && frequency * maxPeriod > 0
    ensures IsLeastDivider(Divider(frequency, maxPeriod), frequency, maxPeriod)
  {
    var m := frequency * maxPeriod;
    if m < CORE_CLOCK {
      var d := (CORE_CLOCK + m - 1) / m;
      QuotientBounds(CORE_CLOCK + m - 1, m);
      LeastMultiple(m, d);
    }
  }

  lemma LeastMultiple(m: nat, d: nat)
    requires 0 < m < CORE_CLOCK && m * d <= CORE_CLOCK + m - 1 < m * d + m
    ensures d >= 1 && d * m >= CORE_CLOCK && (d - 1) * m < CORE_CLOCK
  {
    assert d * m == m * d && (d - 1) * m == m * d - m;
    assert d == 0 ==> m * d == 0;
  }

  /** One tick more and the cycle would be longer than the frequency asks for. */
  lemma PeriodIsLongest(divider: nat, frequency: nat)
    requires 0 < divider && 0 < frequency
    ensures IsLongest(divider, frequency, (CORE_CLOCK / divider) / frequency)
  {
    hide IsQuotient, IsLongest;
    var clock := CORE_CLOCK / divider;
    var period := clock / frequency;
    DivisionGivesQuotient(CORE_CLOCK, divider);
    DivisionGivesQuotient(clock, frequency);
    DividedTwice(divider, clock, frequency, period);
  }

  predicate IsLongest(divider: int, frequency: int, period: int) {
    divider * (period * frequency) <= 12_000_000 < divider * ((period + 1) * frequency)
  }

  predicate IsQuotient(a: int, b: int, q: int) {
    b * q <= a < b * q + b
  }

  lemma DivisionGivesQuotient(a: nat, b: nat)
    requires 0 < b
    ensures IsQuotient(a, b, a / b)
  {
    QuotientBounds(a, b);
  }

  lemma DividedTwice(b: nat, q: nat, c: nat, p: nat)
    requires IsQuotient(CORE_CLOCK, b, q) && IsQuotient(q, c, p)
    ensures IsLongest(b, c, p)
  {
    FactorsSwap(q, c, p);
    Grows(b, p * c, q);
    Grows(b, q + 1, (p + 1) * c);
    NextMultiple(b, q);
  }

  lemma FactorsSwap(a: nat, b: nat, q: nat)
    requires b * q <= a < b * q + b
    ensures q * b <= a && a + 1 <= (q + 1) * b
  {
  }

  lemma NextMultiple(k: nat, a: nat)
    ensures k * (a + 1) == k * a + k
  {
  }

  /** The pulse is as close to the wanted duty as a whole number of ticks can be. */
  lemma PulseIsNearest(period: nat, duty: nat)
    requires duty <= FULL_DUTY
    ensures HighTicks(period, duty) <= period
    ensures -32767 <= FULL_DUTY * HighTicks(period, duty) - period * duty <= 32767
  {
    Grows(period, duty, FULL_DUTY);
    Rounding(period * duty, period);
  }

  lemma Rounding(x: nat, limit: nat)
    requires x <= FULL_DUTY * limit
    ensures (x + 32767) / FULL_DUTY <= limit
    ensures -32767 <= FULL_DUTY * ((x + 32767) / FULL_DUTY) - x <= 32767
  {
  }

  /** The registers of a timer, and how the pin is switched. */
  datatype PinFunction = Gpio(high: bool) | Timer

  class Channel {
    const pin: nat
    const maxPeriod: nat
    var pinFunction: PinFunction
    var prescale: nat
    var match_: nat
    var period: nat
    var running: bool

    ghost predicate Valid()
      reads this
    {
      MaxPeriod(pin) == Some(maxPeriod)
    }

    constructor (pin: nat, maxPeriod: nat)
      requires MaxPeriod(pin) == Some(maxPeriod)
      ensures Valid() && this.pin == pin && this.maxPeriod == maxPeriod && pinFunction == Gpio(false) && !running
    {
      this.pin, this.maxPeriod := pin, maxPeriod;
      pinFunction, prescale, match_, period, running := Gpio(false), 0, 0, 0, false;
    }

    method SetConstant(high: bool)
      modifies this`running, this`pinFunction
      ensures !running && pinFunction == Gpio(high)
    {
      running := false;
      pinFunction := Gpio(high);
    }

    /** Set, for a pin that has a channel: it takes effect unless the duty is not
        zero and the frequency is. */
    method Set(duty: nat, frequency: nat) returns (ok: bool)
      requires Valid() && duty <= FULL_DUTY && frequency <= 0xFFFF
      modifies this
      ensures Valid() && (ok <==> Sensible(duty, frequency))
      ensures !ok ==> unchanged(this)
      ensures ok && (duty == 0 || duty == FULL_DUTY) ==> !running && pinFunction == Gpio(duty == FULL_DUTY)
      ensures ok && 0 < duty < FULL_DUTY ==>
                && running && pinFunction == Timer && 2 <= period <= maxPeriod
                && IsLeastDivider(prescale + 1, frequency, maxPeriod) && IsLongest(prescale + 1, frequency, period)
                && match_ <= period && -32767 <= FULL_DUTY * (period - match_) - period * duty <= 32767
    {
      if duty == 0 {
        SetConstant(false);
        return true;
      }
      if frequency == 0 {
        return false;
      }
      if duty == FULL_DUTY {
        SetConstant(true);
        return true;
      }
      PeriodFits(frequency, maxPeriod);
      var divider := Divider(frequency, maxPeriod);
      var timerClock := CORE_CLOCK / divider;
      var newPeriod := timerClock / frequency;
      if newPeriod < 2 || newPeriod > maxPeriod {
        return false;
      }
      var highTicks := HighTicks(newPeriod, duty);
      PulseIsNearest(newPeriod, duty);
      PeriodIsLongest(divider, frequency);
      DividerIsLeast(frequency, maxPeriod);
      hide Divider, HighTicks, IsLongest, IsLeastDivider;
      pinFunction := Timer;
      running := false;
      prescale := divider - 1;
      match_ := newPeriod - highTicks;
      period := newPeriod;
      running := true;
      ok := true;
    }
  }
}
