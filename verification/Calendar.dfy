/**
 The RTC date arithmetic of kernel/time.c against the Gregorian calendar.  `DayNumber` is
 the closed form; `NextDay` is the calendar's own successor; `DateOf` inverts the day count.
 */
module Calendar {
  import opened Arithmetic
  import opened Bytes

  datatype Date = Date(year: int, month: int, day: int)

  predicate Leap(y: int) {
    y % 4 == 0 && (y % 100 != 0 || y % 400 == 0)
  }

  /** days_per_month, with February's leap day. */
  function MonthLength(y: int, m: int): int
    requires 1 <= m <= 12
  {
    if m == 2 then (if Leap(y) then 29 else 28)
    else if m == 4 || m == 6 || m == 9 || m == 11 then 30 else 31
  }

  predicate ValidDate(d: Date) {
    1970 <= d.year && 1 <= d.month <= 12 && 1 <= d.day <= MonthLength(d.year, d.month)
  }

  // ---------------------------------------------------------------- the closed form

  /** Leap years among 1..y-1. */
  function LeapsBefore(y: int): int {
    (y - 1) / 4 - (y - 1) / 100 + (y - 1) / 400
  }

  /** Days from 1970-01-01 to January 1st of year y. */
  function YearStart(y: int): int {
    365 * (y - 1970) + LeapsBefore(y) - LeapsBefore(1970)
  }

  /** Days of the year before the first of month m. */
  function MonthStart(y: int, m: int): int
    requires 1 <= m <= 13
  {
    var a := if m <= 2 then 31 * (m - 1)
             else if m <= 8 then 59 + (m - 3) * 30 + (m - 2) / 2
             else 243 + (m - 9) * 30 + (m - 9) / 2;
    if m > 2 && Leap(y) then a + 1 else a
  }

  /** Days since 1970-01-01. */
  function DayNumber(d: Date): int
    requires 1 <= d.month <= 12
  {
    YearStart(d.year) + MonthStart(d.year, d.month) + d.day - 1
  }

  function YearLength(y: int): int {
    if Leap(y) then 366 else 365
  }

  lemma YearStep(y: int)
    ensures YearStart(y + 1) == YearStart(y) + YearLength(y)
  {
    QuotientStep(y, 4);
    QuotientStep(y, 100);
    QuotientStep(y, 400);
    if y % 400 == 0 {
      DivModUnique(y, 100, 4 * (y / 400), 0);
    }
  }

  lemma MonthStep(y: int, m: int)
    requires 1 <= m <= 12
    ensures MonthStart(y, m + 1) == MonthStart(y, m) + MonthLength(y, m)
    ensures MonthStart(y, 1) == 0 && MonthStart(y, 13) == YearLength(y)
  {
  }

  // ---------------------------------------------------------------- the calendar's order

  function NextDay(d: Date): Date
    requires ValidDate(d)
  {
    if d.day < MonthLength(d.year, d.month) then d.(day := d.day + 1)
    else if d.month < 12 then Date(d.year, d.month + 1, 1)
    else Date(d.year + 1, 1, 1)
  }

  /** Across every month, year and leap boundary the count steps by exactly one. */
  lemma StepsByOne(d: Date)
    requires ValidDate(d)
    ensures ValidDate(NextDay(d)) && DayNumber(NextDay(d)) == DayNumber(d) + 1
  {
    MonthStep(d.year, d.month);
    YearStep(d.year);
  }

  predicate Before(a: Date, b: Date) {
    a.year < b.year || (a.year == b.year && (a.month < b.month || (a.month == b.month && a.day < b.day)))
  }

  lemma {:induction false} YearsMonotone(y: int, z: int)
    requires y < z
    ensures YearStart(y) + YearLength(y) <= YearStart(z)
    decreases z - y
  {
    YearStep(y);
    if y + 1 < z {
      YearsMonotone(y + 1, z);
    }
  }

  lemma {:induction false} MonthsMonotone(y: int, m: int, n: int)
    requires 1 <= m < n <= 13
    ensures MonthStart(y, m) + MonthLength(y, m) <= MonthStart(y, n)
    decreases n - m
  {
    MonthStep(y, m);
    if m + 1 < n {
      MonthsMonotone(y, m + 1, n);
    }
  }

  lemma InsideYear(d: Date)
    requires ValidDate(d)
    ensures YearStart(d.year) <= DayNumber(d) < YearStart(d.year) + YearLength(d.year)
  {
    MonthsMonotone(d.year, d.month, 13);
    MonthStep(d.year, d.month);
    if d.month > 1 {
      MonthsMonotone(d.year, 1, d.month);
    }
  }

  /** The count orders dates as the calendar does. */
  lemma StrictlyIncreasing(a: Date, b: Date)
    requires ValidDate(a) && ValidDate(b)
    ensures Before(a, b) <==> DayNumber(a) < DayNumber(b)
  {
    if Before(a, b) {
      OrderKept(a, b);
    } else if a != b {
      OrderKept(b, a);
    }
  }

  lemma OrderKept(a: Date, b: Date)
    requires ValidDate(a) && ValidDate(b) && Before(a, b)
    ensures DayNumber(a) < DayNumber(b)
  {
    if a.year < b.year {
      InsideYear(a);
      InsideYear(b);
      YearsMonotone(a.year, b.year);
    } else if a.month < b.month {
      MonthsMonotone(a.year, a.month, b.month);
    }
  }

  // ---------------------------------------------------------------- the inverse

  function YearOf(n: int, y: int): int
    requires YearStart(y) <= n
    decreases n - YearStart(y)
  {
    YearStep(y);
    if n < YearStart(y + 1) then y else YearOf(n, y + 1)
  }

  function MonthOf(n: int, y: int, m: int): int
    requires 1 <= m <= 12
    decreases 12 - m
  {
    if m == 12 || n < MonthStart(y, m + 1) then m else MonthOf(n, y, m + 1)
  }

  /** The date `n` days after 1970-01-01. */
  function DateOf(n: nat): Date {
    assert YearStart(1970) == 0;
    var y := YearOf(n, 1970);
    var k := n - YearStart(y);
    var m := MonthOf(k, y, 1);
    MonthOfSpec(k, y, 1);
    Date(y, m, k - MonthStart(y, m) + 1)
  }

  lemma {:induction false} YearOfBounds(n: int, y: int)
    requires YearStart(y) <= n
    ensures y <= YearOf(n, y) && YearStart(YearOf(n, y)) <= n < YearStart(YearOf(n, y)) + YearLength(YearOf(n, y))
    decreases n - YearStart(y)
  {
    YearStep(y);
    if n >= YearStart(y + 1) {
      YearOfBounds(n, y + 1);
    }
  }

  lemma {:induction false} MonthOfSpec(n: int, y: int, m: int)
    requires 1 <= m <= 12
    ensures m <= MonthOf(n, y, m) <= 12
    ensures MonthStart(y, m) <= n < MonthStart(y, 13) ==>
              MonthStart(y, MonthOf(n, y, m)) <= n < MonthStart(y, MonthOf(n, y, m) + 1)
    decreases 12 - m
  {
    if m < 12 && n >= MonthStart(y, m + 1) {
      MonthOfSpec(n, y, m + 1);
    }
  }

  /** Counting to a day number and back gives the day number. */
  lemma CountOfDate(n: nat)
    ensures ValidDate(DateOf(n)) && DayNumber(DateOf(n)) == n
  {
    YearOfBounds(n, 1970);
    var y := YearOf(n, 1970);
    var k := n - YearStart(y);
    MonthStep(y, 12);
    MonthOfSpec(k, y, 1);
    MonthStep(y, MonthOf(k, y, 1));
  }

  /** The inverse recovers every valid date. */
  lemma DateOfCount(d: Date)
    requires ValidDate(d)
    ensures DayNumber(d) >= 0 && DateOf(DayNumber(d)) == d
  {
    InsideYear(d);
    if d.year > 1970 {
      YearsMonotone(1970, d.year);
    }
    assert YearStart(1970) == 0;
    CountOfDate(DayNumber(d));
    StrictlyIncreasing(d, DateOf(DayNumber(d)));
    StrictlyIncreasing(DateOf(DayNumber(d)), d);
  }

  // ---------------------------------------------------------------- seconds

  datatype Clock = Clock(date: Date, hour: int, minute: int, second: int)

  predicate ValidClock(c: Clock) {
    ValidDate(c.date) && 0 <= c.hour <= 23 && 0 <= c.minute <= 59 && 0 <= c.second <= 59
  }

  /** Seconds from the start of day 0 to a time of day `day`. */
  function Seconds(day: int, hour: int, minute: int, second: int): int {
    day * 86400 + hour * 3600 + minute * 60 + second
  }

  /** Seconds since 1970-01-01 00:00:00. */
  function Epoch(c: Clock): int
    requires 1 <= c.date.month <= 12
  {
    Seconds(DayNumber(c.date), c.hour, c.minute, c.second)
  }

  function NextSecond(c: Clock): Clock
    requires ValidClock(c)
  {
    if c.second < 59 then c.(second := c.second + 1)
    else if c.minute < 59 then Clock(c.date, c.hour, c.minute + 1, 0)
    else if c.hour < 23 then Clock(c.date, c.hour + 1, 0, 0)
    else Clock(NextDay(c.date), 0, 0, 0)
  }

  lemma EpochStarts()
    ensures Epoch(Clock(Date(1970, 1, 1), 0, 0, 0)) == 0
  {
  }

  lemma Carry(day: int, hour: int, minute: int, second: int)
    ensures second == 59 ==> Seconds(day, hour, minute + 1, 0) == Seconds(day, hour, minute, second) + 1
    ensures second == 59 && minute == 59 ==> Seconds(day, hour + 1, 0, 0) == Seconds(day, hour, minute, second) + 1
    ensures second == 59 && minute == 59 && hour == 23 ==> Seconds(day + 1, 0, 0, 0) == Seconds(day, hour, minute, second) + 1
  {
  }

  /** The count steps by one from each second to the next, across minutes, hours, days, months and years. */
  lemma SecondsStepByOne(c: Clock)
    requires ValidClock(c)
    ensures ValidClock(NextSecond(c)) && Epoch(NextSecond(c)) == Epoch(c) + 1
  {
    StepsByOne(c.date);
    Carry(DayNumber(c.date), c.hour, c.minute, c.second);
  }

  // ---------------------------------------------------------------- the clock registers

  /** bcd2bin; the result is a byte, so invalid BCD still yields at most 165. */
  function Bcd(v: Byte): nat {
    v / 16 * 10 + v % 16
  }

  function ToBcd(n: nat): Byte
    requires n < 100
  {
    n / 10 * 16 + n % 10
  }

  lemma BcdRoundTrip(n: nat)
    requires n < 100
    ensures Bcd(ToBcd(n)) == n
  {
  }

  datatype Rtc = Rtc(sec: Byte, min: Byte, hour: Byte, day: Byte, month: Byte, year: Byte)

  function RtcDate(r: Rtc): Date {
    Date(Bcd(r.year) + 2000, Bcd(r.month), Bcd(r.day))
  }

  function RtcClock(r: Rtc): Clock {
    Clock(RtcDate(r), Bcd(r.hour), Bcd(r.min), Bcd(r.sec))
  }

  /** What the clock's registers hold at a time in this century. */
  function Registers(c: Clock): Rtc
    requires ValidClock(c) && 2000 <= c.date.year <= 2099
  {
    Rtc(ToBcd(c.second), ToBcd(c.minute), ToBcd(c.hour), ToBcd(c.date.day), ToBcd(c.date.month), ToBcd(c.date.year - 2000))
  }

  /** The registers of every such time are accepted and read back as it. */
  lemma RegistersRead(c: Clock)
    requires ValidClock(c) && 2000 <= c.date.year <= 2099
    ensures Accepted(Registers(c)) && RtcClock(Registers(c)) == c
  {
    BcdRoundTrip(c.second);
    BcdRoundTrip(c.minute);
    BcdRoundTrip(c.hour);
    BcdRoundTrip(c.date.day);
    BcdRoundTrip(c.date.month);
    BcdRoundTrip(c.date.year - 2000);
  }

  /** The range check that decides whether the registers are believed. */
  predicate Accepted(r: Rtc) {
    && Bcd(r.sec) <= 59 && Bcd(r.min) <= 59 && Bcd(r.hour) <= 23
    && 1 <= Bcd(r.day) <= 31 && 1 <= Bcd(r.month) <= 12 && Bcd(r.year) + 2000 <= 2099
  }

  /** Readings of real times are accepted up to 2099, and no others whose date is real. */
  lemma AcceptedTimes(r: Rtc)
    ensures Accepted(r) && ValidDate(RtcDate(r)) <==> ValidClock(RtcClock(r)) && RtcDate(r).year <= 2099
  {
  }

  /** cmos_read_epoch after the register reads. */
  method ReadEpoch(r: Rtc) returns (epoch: int)
    ensures epoch == 0 <==> !Accepted(r)
    ensures Accepted(r) ==> epoch == Epoch(RtcClock(r))
  {
    var s, m, h := Bcd(r.sec), Bcd(r.min), Bcd(r.hour);
    var d, mo, y := Bcd(r.day), Bcd(r.month), Bcd(r.year) + 2000;
    if s < 0 || s > 59 || m < 0 || m > 59 || h < 0 || h > 23
       || d < 1 || d > 31 || mo < 1 || mo > 12 || y < 1970 || y > 2099 {
      return 0;
    }
    var days := 0;
    var yr := 1970;
    while yr < y
      invariant 1970 <= yr <= y
      invariant days == YearStart(yr) >= 365 * (yr - 1970)
    {
      YearStep(yr);
      days := days + 365 + if yr % 4 == 0 && (yr % 100 != 0 || yr % 400 == 0) then 1 else 0;
      yr := yr + 1;
    }
    var mn := 1;
    while mn < mo
      invariant 1 <= mn <= mo
      invariant days == YearStart(y) + MonthStart(y, mn) && days >= 365 * (y - 1970)
    {
      MonthStep(y, mn);
      days := days + MonthLength(y, mn);
      mn := mn + 1;
    }
    days := days + (d - 1);
    return days * 86400 + h * 3600 + m * 60 + s;
  }

  /**
   Day numbers past the end of a month are accepted too and spill into the next month, so
   an accepted date is told apart from every valid date exactly when it is valid itself.
   */
  lemma AcceptedButInvalid(r: Rtc)
    requires Accepted(r)
    ensures ValidDate(RtcDate(r)) <==>
              forall d :: ValidDate(d) && DayNumber(d) == DayNumber(RtcDate(r)) ==> d == RtcDate(r)
  {
    var a := RtcDate(r);
    if ValidDate(a) {
      forall d | ValidDate(d) && DayNumber(d) == DayNumber(a)
        ensures d == a
      {
        StrictlyIncreasing(d, a);
        StrictlyIncreasing(a, d);
      }
    } else {
      var spill := Date(a.year, a.month + 1, a.day - MonthLength(a.year, a.month));
      MonthStep(a.year, a.month);
      assert ValidDate(spill) && DayNumber(spill) == DayNumber(a);
    }
  }

  /** 31 February 2023 is accepted and read as 3 March. */
  lemma ThirtyFirstOfFebruary()
    ensures var r := Rtc(0, 0, 0, 0x31, 0x02, 0x23);
            && Accepted(r) && !ValidDate(RtcDate(r)) && RtcDate(r) == Date(2023, 2, 31)
            && ValidDate(Date(2023, 3, 3)) && DayNumber(RtcDate(r)) == DayNumber(Date(2023, 3, 3))
  {
    assert RtcDate(Rtc(0, 0, 0, 0x31, 0x02, 0x23)) == Date(2023, 2, 31);
  }
}
