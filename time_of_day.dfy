/** The software clock used when the display is refreshed every second: a
    time of day advanced by one second at a time. */
module TimeOfDay {

  const SECONDS_PER_DAY: nat := 24 * 60 * 60

  /** A time of day as hours, minutes and seconds. */
  datatype Time = Time(hours: int, minutes: int, seconds: int)

  predicate InRange(t: Time)
  {
    0 <= t.hours < 24 && 0 <= t.minutes < 60 && 0 <= t.seconds < 60
  }

  /** One second later: the seconds wrap at 60 and carry into the minutes,
      which wrap at 60 and carry into the hours, which wrap at 24. On any
      input the seconds come out in range; a field only changes when the
      field below it wraps. */
  function TimeIncrement(t: Time): (r: Time)
    ensures 0 <= r.seconds < 60
    ensures r.seconds != 0 ==> r.minutes == t.minutes && r.hours == t.hours
    ensures r.seconds == 0 && r.minutes != 0 ==> r.hours == t.hours
    ensures InRange(t) ==> InRange(r)
  {
    var seconds := (t.seconds + 1) % 60;
    if seconds == 0 then
      var minutes := (t.minutes + 1) % 60;
      if minutes == 0 then Time((t.hours + 1) % 24, minutes, seconds)
      else Time(t.hours, minutes, seconds)
    else Time(t.hours, t.minutes, seconds)
  }

  /** Seconds since midnight. */
  function ToSeconds(t: Time): int
  {
    t.hours * 3600 + t.minutes * 60 + t.seconds
  }

  /** The time of day a number of seconds after midnight. */
  function FromSeconds(n: int): (t: Time)
    requires 0 <= n < SECONDS_PER_DAY
    ensures InRange(t)
  {
    Time(n / 3600, (n % 3600) / 60, n % 60)
  }

  lemma ToSecondsInRange(t: Time)
    requires InRange(t)
    ensures 0 <= ToSeconds(t) < SECONDS_PER_DAY
  {
  }

  /** Seconds since midnight identify a time of day. */
  lemma FromToSeconds(t: Time)
    requires InRange(t)
    ensures FromSeconds(ToSeconds(t)) == t
  {
    var n := ToSeconds(t);
    assert n == t.hours * 3600 + (t.minutes * 60 + t.seconds);
    assert 0 <= t.minutes * 60 + t.seconds < 3600;
    DivMod3600(n, t.hours, t.minutes * 60 + t.seconds);
    DivMod60(t.minutes * 60 + t.seconds, t.minutes, t.seconds);
    DivMod60(n, t.hours * 60 + t.minutes, t.seconds);
  }

  lemma ToFromSeconds(n: int)
    requires 0 <= n < SECONDS_PER_DAY
    ensures ToSeconds(FromSeconds(n)) == n
  {
    var t := FromSeconds(n);
    assert n == (n / 3600) * 3600 + n % 3600;
    assert n % 3600 == ((n % 3600) / 60) * 60 + (n % 3600) % 60;
    DivMod60(n, (n / 3600) * 60 + (n % 3600) / 60, (n % 3600) % 60);
  }

  /** Quotient and remainder are determined by any decomposition with a
      remainder in range. */
  lemma DivMod60(n: int, q: int, r: int)
    requires 0 <= r < 60 && n == q * 60 + r
    ensures n / 60 == q && n % 60 == r
  {
  }

  lemma DivMod3600(n: int, q: int, r: int)
    requires 0 <= r < 3600 && n == q * 3600 + r
    ensures n / 3600 == q && n % 3600 == r
  {
  }

  /** Advancing the clock adds one second modulo a day. */
  lemma TimeIncrementIsSuccessor(t: Time)
    requires InRange(t)
    ensures ToSeconds(TimeIncrement(t)) == (ToSeconds(t) + 1) % SECONDS_PER_DAY
  {
    var n := ToSeconds(t);
    ToSecondsInRange(t);
    IncrementCases(t);
    if t == Time(23, 59, 59) {
      assert n + 1 == SECONDS_PER_DAY;
    } else {
      assert n + 1 < SECONDS_PER_DAY;
      ModSmall(n + 1);
    }
  }

  /** The three ways the clock advances: a second, a minute carry, an hour carry. */
  lemma IncrementCases(t: Time)
    requires InRange(t)
    ensures t.seconds < 59 ==> TimeIncrement(t) == Time(t.hours, t.minutes, t.seconds + 1)
    ensures t.seconds == 59 && t.minutes < 59 ==> TimeIncrement(t) == Time(t.hours, t.minutes + 1, 0)
    ensures t.seconds == 59 && t.minutes == 59 && t.hours < 23 ==> TimeIncrement(t) == Time(t.hours + 1, 0, 0)
    ensures t == Time(23, 59, 59) ==> TimeIncrement(t) == Time(0, 0, 0)
  {
  }

  lemma ModSmall(x: int)
    requires 0 <= x < SECONDS_PER_DAY
    ensures x % SECONDS_PER_DAY == x
  {
  }

  /** The clock agrees with counting seconds since midnight. */
  lemma TimeIncrementFromSeconds(t: Time)
    requires InRange(t)
    ensures TimeIncrement(t) == FromSeconds((ToSeconds(t) + 1) % SECONDS_PER_DAY)
  {
    TimeIncrementIsSuccessor(t);
    FromToSeconds(TimeIncrement(t));
  }

  /** k increments add k seconds modulo a day. */
  lemma {:induction false} IncrementsAdd(t: Time, k: nat)
    requires InRange(t)
    ensures InRange(Increments(t, k))
    ensures ToSeconds(Increments(t, k)) == (ToSeconds(t) + k) % SECONDS_PER_DAY
  {
    if k > 0 {
      IncrementsAdd(t, k - 1);
      var u := Increments(t, k - 1);
      var a := ToSeconds(t) + (k - 1);
      assert Increments(t, k) == TimeIncrement(u);
      assert ToSeconds(u) == a % SECONDS_PER_DAY;
      TimeIncrementIsSuccessor(u);
      ModSucc(a);
      assert a + 1 == ToSeconds(t) + k;
    } else {
      ToSecondsInRange(t);
    }
  }

  lemma ModSucc(a: int)
    ensures (a % SECONDS_PER_DAY + 1) % SECONDS_PER_DAY == (a + 1) % SECONDS_PER_DAY
  {
  }

  lemma DayMod(n: int)
    requires 0 <= n < SECONDS_PER_DAY
    ensures (n + SECONDS_PER_DAY) % SECONDS_PER_DAY == n
  {
  }

  /** The clock after k increments. */
  function Increments(t: Time, k: nat): Time
  {
    if k == 0 then t else TimeIncrement(Increments(t, k - 1))
  }

  /** A day of increments brings the clock back to where it started. */
  lemma DayCycle(t: Time)
    requires InRange(t)
    ensures Increments(t, SECONDS_PER_DAY) == t
  {
    var u := Increments(t, SECONDS_PER_DAY);
    IncrementsAdd(t, SECONDS_PER_DAY);
    ToSecondsInRange(t);
    assert ToSeconds(u) == ToSeconds(t) by {
      DayMod(ToSeconds(t));
    }
    FromToSeconds(u);
    FromToSeconds(t);
  }
}
