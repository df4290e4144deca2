/** Tick arithmetic modulo `w` related to true, unbounded time (timers.c). */
module TimerArithmetic {

  /** The tick count shown at a true time, and the wrap of the counter it lies in. */
  function Tick(w: nat, t: nat): nat
    requires 0 < w
  {
    t % w
  }

  function WrapOf(w: nat, t: nat): nat
    requires 0 < w
  {
    t / w
  }

  datatype Placement = ProcessNow | CurrentList | OverflowList

  /** The four-way comparison of prvInsertTimerInActiveList. All times are tick
      counts; the subtraction is the unsigned one of the tick type. */
  function Place(w: nat, period: nat, next: nat, now: nat, command: nat): Placement
    requires next < w && now < w && command < w
  {
    if next <= now then
      if (now - command) % w >= period then ProcessNow else OverflowList
    else if now < command && next >= command then ProcessNow
    else CurrentList
  }

  /** Adding less than one wrap carries at most once. */
  lemma AddLessThanWrap(w: nat, c: nat, k: nat)
    requires 0 < w && k < w
    ensures c % w + k < w ==> (c + k) / w == c / w && (c + k) % w == c % w + k
    ensures c % w + k >= w ==> (c + k) / w == c / w + 1 && (c + k) % w == c % w + k - w
  {
    var q, r := c / w, c % w;
    assert c == w * q + r;
    NextMultiple(w, q);
    if r + k < w {
      DivModUnique(w, c + k, q, r + k);
    } else {
      DivModUnique(w, c + k, q + 1, r + k - w);
    }
  }

  lemma NextMultiple(w: nat, q: nat)
    ensures w * (q + 1) == w * q + w
  {
  }

  lemma DivModUnique(w: nat, x: nat, q: nat, r: nat)
    requires r < w && x == w * q + r
    ensures x / w == q && x % w == r
  {
    var p, e := x / w, x % w;
    assert x == w * p + e;
    if p < q {
      MultiplesApart(w, p, q);
    } else if q < p {
      MultiplesApart(w, q, p);
    }
  }

  /** Different multiples are at least `w` apart. */
  lemma MultiplesApart(w: nat, p: nat, q: nat)
    requires p < q
    ensures w * p + w <= w * q
  {
    var d := q - p - 1;
    assert w * q == w * p + w + w * d;
  }

  /** Ticks may be reduced before or after adding. */
  lemma AddModulo(w: nat, a: nat, k: nat)
    requires 0 < k < w
    ensures Tick(w, Tick(w, a) + k) == Tick(w, a + k)
  {
    AddLessThanWrap(w, a, k);
    if a % w + k < w {
      DivModUnique(w, a % w + k, 0, a % w + k);
    } else {
      DivModUnique(w, a % w + k, 1, a % w + k - w);
    }
  }

  /** For a timer whose period starts to run at true time `c`, looked at at true
      time `n`, less than one wrap later: the comparison says "process now" exactly
      when the expiry has been reached, and otherwise picks the list that belongs
      to the wrap in which the expiry lies. */
  lemma PlacementIsExact(w: nat, period: nat, c: nat, n: nat)
    requires 0 < period < w && c <= n < c + w
    ensures Place(w, period, Tick(w, c + period), Tick(w, n), Tick(w, c))
         == if c + period <= n then ProcessNow
            else if WrapOf(w, c + period) == WrapOf(w, n) then CurrentList
            else OverflowList
    ensures c + period > n ==> WrapOf(w, c + period) == WrapOf(w, n) || WrapOf(w, c + period) == WrapOf(w, n) + 1
  {
    AddLessThanWrap(w, c, period);
    AddLessThanWrap(w, c, n - c);
    AddLessThanWrap(w, n % w, (n - c) % w);
    var elapsed := n % w - c % w;
    if elapsed >= 0 {
      DivModUnique(w, elapsed, 0, elapsed);
    } else {
      assert elapsed == (elapsed + w) + w * (-1);
      WrapNegative(w, elapsed);
    }
  }

  lemma WrapNegative(w: nat, d: int)
    requires 0 - w < d < 0
    ensures d % w == d + w
  {
    var q := d / w;
    assert d == w * q + d % w;
    assert q >= 0 ==> w * q >= 0;
    assert q <= -2 ==> w * q <= -2 * w;
  }

  /** For a command of any age, also of many wraps: only the age modulo one wrap counts. */
  lemma OnlyAgeModuloWrapCounts(w: nat, period: nat, c: nat, n: nat)
    requires 0 < period < w && c <= n
    ensures Place(w, period, Tick(w, c + period), Tick(w, n), Tick(w, c)) == ProcessNow <==> (n - c) % w >= period
  {
    var age := (n - c) % w;
    var wraps := (n - c) / w;
    assert n == c + age + w * wraps;
    AddWraps(w, c + age, wraps);
    PlacementIsExact(w, period, c, c + age);
  }

  lemma AddWraps(w: nat, t: nat, k: nat)
    requires 0 < w
    ensures Tick(w, t + w * k) == Tick(w, t)
  {
    assert w * (t / w + k) == w * (t / w) + w * k;
    DivModUnique(w, t + w * k, t / w + k, t % w);
  }

  /** So an expired start command is missed exactly if its age modulo one wrap is less than the period. */
  lemma StaleCommandIsMissed(w: nat, period: nat, c: nat, n: nat)
    requires 0 < period < w && c + period <= n
    ensures Place(w, period, Tick(w, c + period), Tick(w, n), Tick(w, c)) != ProcessNow <==> (n - c) % w < period
    ensures (n - c) % w < period ==> n >= c + w
  {
    OnlyAgeModuloWrapCounts(w, period, c, n);
    if n < c + w {
      DivModUnique(w, n - c, 0, n - c);
    }
  }

  lemma TimeFromTick(w: nat, t: nat)
    requires 0 < w
    ensures t == WrapOf(w, t) * w + Tick(w, t) && t < (WrapOf(w, t) + 1) * w
  {
    assert t == w * (t / w) + t % w;
  }

  lemma TicksAreSmall(w: nat, a: nat, b: nat, c: nat)
    requires 0 < w
    ensures Tick(w, a) < w && Tick(w, b) < w && Tick(w, c) < w
  {
  }

  /** A tick count of the wrap of `n` that is not greater than that of `n` was shown before. */
  lemma EarlierInWrap(w: nat, wrap: nat, tick: nat, n: nat)
    requires tick < w && WrapOf(w, n) == wrap && tick <= Tick(w, n)
    ensures var at := wrap * w + tick; Tick(w, at) == tick && WrapOf(w, at) == wrap && at <= n < at + w
  {
    DivModUnique(w, wrap * w + tick, wrap, tick);
    TimeFromTick(w, n);
    TicksAreSmall(w, n, n, n);
  }

  /** The last tick of a wrap that is over lies in the past. */
  lemma LastOfWrap(w: nat, wrap: nat, clock: nat)
    requires 0 < w && WrapOf(w, clock) == wrap + 1
    ensures var n := wrap * w + w - 1; WrapOf(w, n) == wrap && Tick(w, n) == w - 1 && n <= clock
  {
    DivModUnique(w, wrap * w + w - 1, wrap, w - 1);
    assert w * (wrap + 1) == wrap * w + w;
  }

  /** A sample taken less than one wrap after the last one shows a smaller count
      exactly when it lies in the next wrap. */
  lemma SmallerCountMeansWrapped(w: nat, last: nat, now: nat)
    requires 0 < w && last <= now < last + w
    ensures Tick(w, now) < Tick(w, last) <==> WrapOf(w, now) == WrapOf(w, last) + 1
    ensures Tick(w, now) >= Tick(w, last) <==> WrapOf(w, now) == WrapOf(w, last)
  {
    AddLessThanWrap(w, last, now - last);
  }

  lemma SomeWrapsLater(w: nat, last: nat, now: nat)
    requires 0 < w && last + w <= now
    ensures WrapOf(w, last) < WrapOf(w, now)
  {
    AddLessThanWrap(w, last, 0);
    var q, r := now / w, last / w;
    assert now == w * q + now % w && last == w * r + last % w;
    assert q <= r ==> w * q <= w * r;
  }

  /** The true time of the `k`th expiry of a timer that runs with `period` from `start`. */
  function Expiry(start: nat, period: nat, k: nat): nat {
    start + k * period
  }

  lemma ExpiryStep(start: nat, period: nat, k: nat)
    ensures Expiry(start, period, k + 1) == Expiry(start, period, k) + period
  {
  }

  lemma FirstExpiry(start: nat, period: nat)
    ensures Expiry(start, period, 0) == start && Expiry(start, period, 1) == start + period
  {
  }

  /** If the `k`th expiry is past and the next one is not, `k` is the number of whole periods. */
  lemma CountIsFloor(start: nat, period: nat, k: nat, n: nat)
    requires 0 < period
    requires Expiry(start, period, k) <= n < Expiry(start, period, k + 1)
    ensures start <= n && k == (n - start) / period
  {
    assert (k + 1) * period == k * period + period;
    DivModUnique(period, n - start, k, n - start - k * period);
  }
}
