/** Calendar time for the RTC: seconds since 1970 against a date and a time of day. */
module RtcTime {
  import opened Bytes

  const UNIX_MIN := 946684800
  const UNIX_MAX := 4102444799
  const EPOCH_YEAR := 2000
  const LAST_YEAR := 2099
  const SECS_PER_DAY := 86400

  // ---- The Gregorian calendar, day by day ----

  datatype Date = Date(year: nat, mon: nat, mday: nat)

  predicate Leap(year: nat) {
    year % 4 == 0 && (year % 100 != 0 || year % 400 == 0)
  }

  function MonthDays(year: nat, mon: nat): (n: nat)
    ensures 28 <= n <= 31
  {
    if mon == 2 then (if Leap(year) then 29 else 28)
    else if mon == 4 || mon == 6 || mon == 9 || mon == 11 then 30
    else 31
  }

  predicate ValidDate(d: Date) {
    EPOCH_YEAR <= d.year && 1 <= d.mon <= 12 && 1 <= d.mday <= MonthDays(d.year, d.mon)
  }

  function NextDay(d: Date): Date {
    if d.mday < MonthDays(d.year, d.mon) then d.(mday := d.mday + 1)
    else if d.mon < 12 then Date(d.year, d.mon + 1, 1)
    else Date(d.year + 1, 1, 1)
  }

  /** The date `n` days after the first of January 2000. */
  function DateAt(n: nat): Date {
    if n == 0 then Date(EPOCH_YEAR, 1, 1) else NextDay(DateAt(n - 1))
  }

  /** The day of the week `n` days after it, Sunday being 0; it was a Saturday. */
  function WeekdayAt(n: nat): nat {
    if n == 0 then 6 else (WeekdayAt(n - 1) + 1) % 7
  }

  function DaysBeforeMonth(year: nat, mon: nat): nat {
    if mon <= 1 then 0 else DaysBeforeMonth(year, mon - 1) + MonthDays(year, mon - 1)
  }

  function YearDays(year: nat): nat {
    if Leap(year) then 366 else 365
  }

  function DaysBeforeYear(year: nat): nat {
    if year <= EPOCH_YEAR then 0 else DaysBeforeYear(year - 1) + YearDays(year - 1)
  }

  function DayNumber(d: Date): int {
    DaysBeforeYear(d.year) + DaysBeforeMonth(d.year, d.mon) + d.mday - 1
  }

  lemma {:induction false} WholeYear(year: nat)
    ensures DaysBeforeMonth(year, 12) + 31 == YearDays(year)
  {
    hide MonthDays;
    MonthsOf(year);
    assert DaysBeforeMonth(year, 2) == 31;
    assert DaysBeforeMonth(year, 3) == 31 + MonthDays(year, 2);
    assert DaysBeforeMonth(year, 5) == DaysBeforeMonth(year, 3) + 61;
    assert DaysBeforeMonth(year, 7) == DaysBeforeMonth(year, 5) + 61;
    assert DaysBeforeMonth(year, 9) == DaysBeforeMonth(year, 7) + 62;
    assert DaysBeforeMonth(year, 11) == DaysBeforeMonth(year, 9) + 61;
  }

  lemma {:induction false} MonthsOf(year: nat)
    ensures MonthDays(year, 1) == 31 && MonthDays(year, 2) == YearDays(year) - 337 && MonthDays(year, 3) == 31
    ensures MonthDays(year, 4) == 30 && MonthDays(year, 5) == 31 && MonthDays(year, 6) == 30
    ensures MonthDays(year, 7) == 31 && MonthDays(year, 8) == 31 && MonthDays(year, 9) == 30
    ensures MonthDays(year, 10) == 31 && MonthDays(year, 11) == 30 && MonthDays(year, 12) == 31
  {
  }

  lemma {:induction false} NextDayCounts(d: Date)
    requires ValidDate(d)
    ensures ValidDate(NextDay(d)) && DayNumber(NextDay(d)) == DayNumber(d) + 1
  {
    WholeYear(d.year);
    assert DaysBeforeYear(d.year + 1) == DaysBeforeYear(d.year) + YearDays(d.year);
    assert DaysBeforeMonth(d.year + 1, 1) == 0;
  }

  /** Counting days one by one and adding up years, months and days agree. */
  lemma {:induction false} DateAtNumber(n: nat)
    ensures ValidDate(DateAt(n)) && DayNumber(DateAt(n)) == n
  {
    if n > 0 {
      DateAtNumber(n - 1);
      NextDayCounts(DateAt(n - 1));
    }
  }

  lemma {:induction false} MonthsGrow(year: nat, a: nat, b: nat)
    requires 1 <= a < b
    ensures DaysBeforeMonth(year, a) + MonthDays(year, a) <= DaysBeforeMonth(year, b)
  {
    if a + 1 < b {
      MonthsGrow(year, a, b - 1);
    }
  }

  lemma {:induction false} YearsGrow(a: nat, b: nat)
    requires EPOCH_YEAR <= a < b
    ensures DaysBeforeYear(a) + YearDays(a) <= DaysBeforeYear(b)
  {
    if a + 1 < b {
      YearsGrow(a, b - 1);
    }
  }

  lemma {:induction false} WithinYear(d: Date)
    requires ValidDate(d)
    ensures 0 <= DaysBeforeMonth(d.year, d.mon) + d.mday - 1 < YearDays(d.year)
  {
    WholeYear(d.year);
    if d.mon < 12 {
      MonthsGrow(d.year, d.mon, 12);
    }
  }

  lemma {:induction false} EarlierDate(a: Date, b: Date)
    requires ValidDate(a) && ValidDate(b)
    requires a.year < b.year || (a.year == b.year && a.mon < b.mon)
    ensures DayNumber(a) < DayNumber(b)
  {
    if a.year < b.year {
      WithinYear(a);
      YearsGrow(a.year, b.year);
    } else {
      MonthsGrow(a.year, a.mon, b.mon);
    }
  }

  /** No two dates are the same number of days from the epoch. */
  lemma {:induction false} DayNumberInjective(a: Date, b: Date)
    requires ValidDate(a) && ValidDate(b) && DayNumber(a) == DayNumber(b)
    ensures a == b
  {
    if a.year < b.year || (a.year == b.year && a.mon < b.mon) {
      EarlierDate(a, b);
    } else if b.year < a.year || b.mon < a.mon {
      EarlierDate(b, a);
    }
  }

  lemma {:induction false} WeekdayIs(n: nat)
    ensures WeekdayAt(n) == (6 + n) % 7
  {
    if n > 0 {
      WeekdayIs(n - 1);
    }
  }

  // ---- The conversions ----

  type uint8 = v: int | 0 <= v < 0x100
  type uint16 = v: int | 0 <= v < 0x1_0000

  datatype Tm = Tm(year: uint16, mon: uint8, mday: uint8, hour: uint8, min: uint8, sec: uint8, wday: uint8) {
    predicate Valid() {
      && ValidDate(Date(year, mon, mday)) && year <= LAST_YEAR
      && hour < 24 && min < 60 && sec < 60
    }

    /** Seconds since 1970. */
    function Unix(): int {
      UNIX_MIN + DayNumber(Date(year, mon, mday)) * SECS_PER_DAY + hour * 3600 + min * 60 + sec
    }
  }

  /** In the years the clock covers every fourth year is a leap year. */
  predicate EveryFourth(year: nat) {
    year % 4 == 0
  }

  lemma {:induction false} FourthIsLeap(year: nat)
    requires EPOCH_YEAR <= year <= LAST_YEAR
    ensures EveryFourth(year) == Leap(year)
  {
  }

  function DaysInMonth(year: uint16, mon: uint8): (n: uint32)
    requires EPOCH_YEAR <= year <= LAST_YEAR && 1 <= mon <= 12
    ensures n == MonthDays(year, mon)
  {
    FourthIsLeap(year);
    var d := [31, 28, 31, 30, 31, 30, 31, 31, 30, 31, 30, 31][mon - 1];
    if mon == 2 && EveryFourth(year) then d + 1 else d
  }

  lemma {:induction false} YearsIs(year: nat)
    requires EPOCH_YEAR <= year <= LAST_YEAR + 1
    ensures DaysBeforeYear(year) == (year - EPOCH_YEAR) * 365 + (year - EPOCH_YEAR + 3) / 4
  {
    hide Leap;
    if year > EPOCH_YEAR {
      YearsIs(year - 1);
      FourthIsLeap(year - 1);
      NextFourth(year - 1 - EPOCH_YEAR);
    }
  }

  lemma {:induction false} NextFourth(n: nat)
    ensures (n + 1 + 3) / 4 == (n + 3) / 4 + if n % 4 == 0 then 1 else 0
    ensures n % 4 == (n + EPOCH_YEAR) % 4
  {
    var q, r := n / 4, n % 4;
    assert n == 4 * q + r;
  }

  /** The year and the day of it, found by cycles of four years. */
  method YearOf(days: uint32) returns (year: uint16, doy: uint32)
    requires days < 36525
    ensures EPOCH_YEAR <= year <= LAST_YEAR && doy < YearDays(year) && DaysBeforeYear(year) + doy == days
  {
    var y := EPOCH_YEAR + 4 * (days / 1461);
    doy := days % 1461;
    if doy >= 366 {
      doy := doy - 366;
      y := y + 1 + doy / 365;
      doy := doy % 365;
    }
    year := y;
    YearsIs(year);
    FourthIsLeap(year);
  }

  /** The month and the day of it; the search stops within the year. */
  method MonthOf(year: uint16, day: uint32) returns (mon: uint8, doy: uint32)
    requires EPOCH_YEAR <= year <= LAST_YEAR && day < YearDays(year)
    ensures 1 <= mon <= 12 && doy < MonthDays(year, mon) && DaysBeforeMonth(year, mon) + doy == day
  {
    hide MonthDays;
    mon, doy := 1, day;
    WholeYear(year);
    MonthsOf(year);
    while doy >= DaysInMonth(year, mon)
      invariant 1 <= mon <= 12 && DaysBeforeMonth(year, mon) + doy == day
      decreases 12 - mon
    {
      doy := doy - DaysInMonth(year, mon);
      mon := mon + 1;
    }
  }

  lemma {:induction false} ClockParts(rem: nat)
    requires rem < SECS_PER_DAY
    ensures rem / 3600 < 24 && rem % 3600 / 60 < 60 && rem / 3600 * 3600 + rem % 3600 / 60 * 60 + rem % 60 == rem
  {
    var h, m := rem / 3600, rem % 3600;
    assert rem == h * 3600 + m && 0 <= m < 3600;
    var a, b := m / 60, m % 60;
    assert m == a * 60 + b && 0 <= b < 60;
    RemOfSum(h * 60 + a, b);
  }

  lemma {:induction false} RemOfSum(q: nat, b: nat)
    requires b < 60
    ensures (q * 60 + b) % 60 == b
  {
  }

  /** The calendar time of a second, for exactly the seconds from 2000 to 2099. */
  method UnixToTm(t: uint32) returns (r: Option<Tm>)
    ensures r.Some? <==> UNIX_MIN <= t <= UNIX_MAX
    ensures r.Some? ==>
              var days := (t - UNIX_MIN) / SECS_PER_DAY;
              && r.value.Valid() && r.value.Unix() == t
              && Date(r.value.year, r.value.mon, r.value.mday) == DateAt(days)
              && r.value.wday == WeekdayAt(days)
  {
    hide DaysBeforeYear, DaysBeforeMonth, MonthDays, DateAt, NextDay, WeekdayAt, Leap;
    if t < UNIX_MIN || t > UNIX_MAX { return None; }
    var secs: uint32 := t - UNIX_MIN;
    var days: uint32 := secs / SECS_PER_DAY;
    var rem: uint32 := secs % SECS_PER_DAY;
    var year, day := YearOf(days);
    var mon, doy := MonthOf(year, day);
    ClockParts(rem);
    WeekdayIs(days);
    DateAtNumber(days);
    DayNumberInjective(Date(year, mon, doy + 1), DateAt(days));
    r := Some(Tm(year, mon, doy + 1, rem / 3600, rem % 3600 / 60, rem % 60, (6 + days) % 7));
  }

  lemma {:induction false} UnixInRange(tm: Tm)
    requires tm.Valid()
    ensures 0 <= DayNumber(Date(tm.year, tm.mon, tm.mday)) < 36525
    ensures UNIX_MIN <= tm.Unix() <= UNIX_MAX
  {
    hide DaysBeforeYear, DaysBeforeMonth, MonthDays, Leap;
    var d := Date(tm.year, tm.mon, tm.mday);
    WithinYear(d);
    YearsIs(tm.year);
    YearsIs(LAST_YEAR + 1);
    YearsGrow(tm.year, LAST_YEAR + 1);
  }

  /** The second of a calendar time, refused exactly when it is not one; every sum fits 32 bits. */
  method TmToUnix(tm: Tm) returns (r: Option<uint32>)
    ensures r.Some? <==> tm.Valid()
    ensures r.Some? ==> r.value == tm.Unix()
  {
    hide DaysBeforeYear, MonthDays, Leap;
    if tm.year < EPOCH_YEAR || tm.year > LAST_YEAR || tm.mon < 1 || tm.mon > 12 || tm.mday < 1
       || tm.mday > DaysInMonth(tm.year, tm.mon) || tm.hour >= 24 || tm.min >= 60 || tm.sec >= 60 {
      return None;
    }
    UnixInRange(tm);
    YearsIs(tm.year);
    var years: uint32 := tm.year - EPOCH_YEAR;
    var days: uint32 := years * 365 + (years + 3) / 4;
    for m := 1 to tm.mon
      invariant days == DaysBeforeYear(tm.year) + DaysBeforeMonth(tm.year, m)
      invariant days <= 36525 + 31 * m
    {
      days := days + DaysInMonth(tm.year, m);
    }
    days := days + tm.mday - 1;
    var u: uint32 := days * SECS_PER_DAY;
    u := UNIX_MIN + u;
    u := u + tm.hour * 3600;
    u := u + tm.min * 60;
    r := Some(u + tm.sec);
  }

  lemma {:induction false} TimeOfDay(days: int, s: int, days': int, s': int)
    requires 0 <= s < SECS_PER_DAY && 0 <= s' < SECS_PER_DAY
    requires days * SECS_PER_DAY + s == days' * SECS_PER_DAY + s'
    ensures days == days' && s == s'
  {
  }

  /** Two calendar times of the same second differ at most in the weekday: the conversions are inverse. */
  lemma {:induction false} UnixInjective(a: Tm, b: Tm)
    requires a.Valid() && b.Valid() && a.Unix() == b.Unix()
    ensures a.(wday := b.wday) == b
  {
    hide DaysBeforeYear, DaysBeforeMonth, MonthDays, Leap, DayNumber;
    var da, db := Date(a.year, a.mon, a.mday), Date(b.year, b.mon, b.mday);
    TimeOfDay(DayNumber(da), a.hour * 3600 + a.min * 60 + a.sec, DayNumber(db), b.hour * 3600 + b.min * 60 + b.sec);
    DayNumberInjective(da, db);
  }
}
