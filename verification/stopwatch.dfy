/** The game stopwatch: seconds, minutes and hours counters, the total
    `time` in seconds they denote, and whether the one-second interval is
    running. The interval timer itself is not modelled: `TickAsWritten` is
    the body the interval runs once per second, and `ElapseAsWritten` runs
    it `n` times. `Tick` and `Elapse` are the corrected stopwatch, whose
    minutes wrap to 0 when they carry into the hours. */
module Clock {
  datatype Stopwatch = Stopwatch(seconds: int, minutes: int, hours: int, ticking: bool)

  /** A stopped stopwatch at zero, as the page starts it. */
  const Zero := Stopwatch(0, 0, 0, false)

  /** The counters are in their normal ranges. */
  predicate Normal(w: Stopwatch) {
    0 <= w.seconds < 60 && 0 <= w.minutes < 60 && 0 <= w.hours
  }

  /** The `time` getter: total seconds. On normal counters the reading
      determines them: the seconds past the minute, the minutes past the
      hour and the whole hours. */
  function Time(w: Stopwatch): (t: int)
    ensures Normal(w) ==> t >= 0 && t % 60 == w.seconds && t / 60 % 60 == w.minutes && t / 3600 == w.hours
  {
    var t := w.seconds + w.minutes * 60 + w.hours * 3600;
    if Normal(w) then
      DivUnique(t, 60, w.minutes + 60 * w.hours, w.seconds);
      DivUnique(t / 60, 60, w.hours, w.minutes);
      DivUnique(t, 3600, w.hours, w.minutes * 60 + w.seconds);
      t
    else t
  }

  /** JavaScript's `%` with a positive divisor: the remainder truncates toward
      zero and takes the sign of the dividend. */
  function JsRem(a: int, n: int): (r: int)
    requires n > 0
    ensures a >= 0 ==> r == a % n
    ensures a < 0 ==> -n < r <= 0 && (a - r) % n == 0
  {
    if a >= 0 then a % n
    else
      DivUnique(a + (-a) % n, n, -((-a) / n), 0);
      -((-a) % n)
  }

  lemma MulAtLeast(k: int, d: int)
    requires k >= 1 && d > 0
    ensures k * d >= d
  {
    if k > 1 {
      MulAtLeast(k - 1, d);
      assert k * d == (k - 1) * d + d;
    }
  }

  /** Quotient and remainder are determined by the division equation. */
  lemma DivUnique(t: int, d: int, q: int, r: int)
    requires d > 0 && 0 <= r < d && t == q * d + r
    ensures t / d == q && t % d == r
  {
    var q1, r1 := t / d, t % d;
    assert t == q1 * d + r1;
    if q > q1 {
      MulAtLeast(q - q1, d);
    } else if q < q1 {
      MulAtLeast(q1 - q, d);
    }
  }

  /** The `time` setter for a whole number of seconds: seconds and minutes
      are the remainders of `t` and `t / 60` by 60, hours is `t / 3600`, all
      rounded down as `Math.floor` does. The interval is not touched. */
  function SetTime(w: Stopwatch, t: int): (r: Stopwatch)
    ensures r.ticking == w.ticking
    ensures t >= 0 ==> Normal(r) && Time(r) == t
  {
    var r := Stopwatch(JsRem(t, 60), JsRem(t / 60, 60), t / 3600, w.ticking);
    if t >= 0 then
      var q := t / 60;
      DivUnique(t, 3600, q / 60, q % 60 * 60 + t % 60);
      r
    else r
  }

  /** Setting the time of a normal stopwatch to what it shows changes nothing. */
  lemma SetTimeOfTime(w: Stopwatch)
    requires Normal(w)
    ensures SetTime(w, Time(w)) == w
  {
    var t := Time(w);
    DivUnique(t, 60, w.minutes + 60 * w.hours, w.seconds);
    DivUnique(t / 60, 60, w.hours, w.minutes);
    DivUnique(t, 3600, w.hours, w.minutes * 60 + w.seconds);
  }

  /** `stop`: clear the interval if one runs. */
  function Stop(w: Stopwatch): (r: Stopwatch)
    ensures !r.ticking && Time(r) == Time(w)
    ensures r.(ticking := w.ticking) == w
  {
    w.(ticking := false)
  }

  /** `start`: stop, then start a fresh interval. */
  function Start(w: Stopwatch): (r: Stopwatch)
    ensures r.ticking && Time(r) == Time(w)
    ensures r.(ticking := w.ticking) == w
  {
    Stop(w).(ticking := true)
  }

  /** `reset`: stop and zero every counter. */
  function Reset(w: Stopwatch): (r: Stopwatch)
    ensures r == Zero && Time(r) == 0 && Normal(r)
  {
    Stop(w).(seconds := 0, minutes := 0, hours := 0)
  }

  /** The interval body as written: the seconds carry into the minutes, and
      a minutes count of 60 or more adds an hour, but the minutes are never
      wrapped back to 0. */
  function TickAsWritten(w: Stopwatch): (r: Stopwatch)
    ensures r.ticking == w.ticking
  {
    var s := w.seconds + 1;
    if s >= 60 then
      var m := w.minutes + 1;
      w.(seconds := 0, minutes := m, hours := if m >= 60 then w.hours + 1 else w.hours)
    else w.(seconds := s)
  }

  /** Away from the end of an hour the written tick adds one second. */
  lemma TickAsWrittenWithinHour(w: Stopwatch)
    requires Normal(w) && !(w.seconds == 59 && w.minutes == 59)
    ensures Normal(TickAsWritten(w)) && Time(TickAsWritten(w)) == Time(w) + 1
  {
  }

  /** At 0:59:59 the written tick shows 1:60:00, which is two hours. */
  lemma TickAsWrittenSkipsAnHour()
    ensures Time(TickAsWritten(Stopwatch(59, 59, 0, true))) == 7200
    ensures Time(Stopwatch(59, 59, 0, true)) + 1 == 3600
    ensures !Normal(TickAsWritten(Stopwatch(59, 59, 0, true)))
  {
  }

  /** The interval body with the minutes wrapped to 0 when they carry into
      the hours. */
  function Tick(w: Stopwatch): (r: Stopwatch)
    ensures r.ticking == w.ticking
  {
    var s := w.seconds + 1;
    if s >= 60 then
      var m := w.minutes + 1;
      if m >= 60 then w.(seconds := 0, minutes := 0, hours := w.hours + 1)
      else w.(seconds := 0, minutes := m)
    else w.(seconds := s)
  }

  /** A tick adds exactly one second and keeps the counters normal. */
  lemma TickAdvances(w: Stopwatch)
    requires Normal(w)
    ensures Normal(Tick(w)) && Time(Tick(w)) == Time(w) + 1
  {
  }

  /** The two ticks differ only at the end of an hour. */
  lemma TickAgreesWithinHour(w: Stopwatch)
    requires !(w.seconds + 1 >= 60 && w.minutes + 1 >= 60)
    ensures TickAsWritten(w) == Tick(w)
  {
  }

  /** `n` ticks of the interval as written. */
  function ElapseAsWritten(w: Stopwatch, n: nat): (r: Stopwatch)
    ensures r.ticking == w.ticking
  {
    if n == 0 then w else TickAsWritten(ElapseAsWritten(w, n - 1))
  }

  /** As long as the end of the hour is not reached, `n` written ticks add
      `n` seconds and leave the hours alone. */
  lemma {:induction false} ElapseAsWrittenWithinHour(w: Stopwatch, n: nat)
    requires Normal(w) && w.minutes * 60 + w.seconds + n < 3600
    ensures Normal(ElapseAsWritten(w, n)) && Time(ElapseAsWritten(w, n)) == Time(w) + n
    ensures ElapseAsWritten(w, n).hours == w.hours
  {
    if n > 0 {
      ElapseAsWrittenWithinHour(w, n - 1);
      TickAsWrittenWithinHour(ElapseAsWritten(w, n - 1));
    }
  }

  /** Away from the end of an hour the written and corrected stopwatches
      show the same counters. */
  lemma {:induction false} ElapseAgreesWithinHour(w: Stopwatch, n: nat)
    requires Normal(w) && w.minutes * 60 + w.seconds + n < 3600
    ensures ElapseAsWritten(w, n) == Elapse(w, n)
  {
    if n > 0 {
      ElapseAgreesWithinHour(w, n - 1);
      ElapseAsWrittenWithinHour(w, n - 1);
      TickAgreesWithinHour(ElapseAsWritten(w, n - 1));
    }
  }

  /** `n` ticks of the corrected interval. */
  function Elapse(w: Stopwatch, n: nat): (r: Stopwatch)
    ensures r.ticking == w.ticking
  {
    if n == 0 then w else Tick(Elapse(w, n - 1))
  }

  /** After `n` corrected ticks the stopwatch shows `n` more seconds, and the counters
      equal those the setter would produce for that time. */
  lemma {:induction false} ElapseAdvances(w: Stopwatch, n: nat)
    requires Normal(w)
    ensures Normal(Elapse(w, n)) && Time(Elapse(w, n)) == Time(w) + n
    ensures Elapse(w, n) == SetTime(w, Time(w) + n)
  {
    if n > 0 {
      ElapseAdvances(w, n - 1);
      TickAdvances(Elapse(w, n - 1));
    }
    SetTimeOfTime(Elapse(w, n));
  }
}
