/** Turning seconds since 1970 into a date and time of day. */
module Calendar {

  const DAY := 86400
  const EPOCH := 1970
  const UINT32_SIZE := 0x1_0000_0000

  predicate Leap(year: nat) {
    year % 4 == 0 && (year % 100 == 0 ==> year % 400 == 0)
  }

  function DaysInMonth(year: nat, month: nat): nat {
    match month
    case 1 | 3 | 5 | 7 | 8 | 10 | 12 => 31
    case 4 | 6 | 9 | 11 => 30
    case 2 => if Leap(year) then 29 else 28
    case _ => 0
  }

  function DaysInYear(year: nat): (d: nat)
    ensures 365 <= d <= 366
  {
    if Leap(year) then 366 else 365
  }

  /** Counting years in 32 bits, up and down. */
  function NextYear(year: nat): nat {
    if year + 1 == UINT32_SIZE then 0 else year + 1
  }

  function LastYear(year: nat): nat {
    if year == 0 then UINT32_SIZE - 1 else year - 1
  }

  /** The year number k years after 1970. */
  function YearAt(k: nat): (y: nat)
    ensures y < UINT32_SIZE
  {
    if k == 0 then EPOCH else NextYear(YearAt(k - 1))
  }

  lemma {:induction false} YearAtIsModular(k: nat)
    ensures YearAt(k) == (EPOCH + k) % UINT32_SIZE
  {
    if k > 0 {
      YearAtIsModular(k - 1);
    }
  }

  /** Seconds in the first k years since 1970. */
  function YearStart(k: nat): nat {
    if k == 0 then 0 else YearStart(k - 1) + DaysInYear(YearAt(k - 1)) * DAY
  }

  /** Seconds in the months of a year before `month`. */
  function MonthStart(year: nat, month: nat): nat
    requires month >= 1
  {
    if month == 1 then 0 else MonthStart(year, month - 1) + DaysInMonth(year, month - 1) * DAY
  }

  datatype Timestamp = Timestamp(year: nat, month: nat, day: nat, hour: nat, minute: nat, second: nat)

  /** A date and a time of day.  Seconds count from 1 to 60, so midnight is the 60th second of 23:59 the day before. */
  predicate Proper(t: Timestamp) {
    && 1 <= t.month <= 12 && 1 <= t.day <= DaysInMonth(t.year, t.month)
    && t.hour <= 23 && t.minute <= 59 && 1 <= t.second <= 60
  }

  /** t is the moment `unix`, k whole years after 1970. */
  predicate IsMoment(unix: int, k: nat, t: Timestamp) {
    && Proper(t) && t.year == YearAt(k)
    && unix == YearStart(k) + MonthStart(t.year, t.month) + (t.day - 1) * DAY + t.hour * 3600 + t.minute * 60 + t.second
  }

  datatype Answer = Nothing | Date(t: Timestamp)

  /** `systime_unix_to_timestamp`: nothing is written for times up to 0. */
  method UnixToTimestamp(unix: int) returns (r: Answer, ghost k: nat)
    ensures r == Nothing <==> unix <= 0
    ensures r != Nothing ==> IsMoment(unix, k, r.t)
  {
    k := 0;
    if unix <= 0 {
      return Nothing, 0;
    }
    var u, y;
    u, y, k := FindYear(unix);
    var m, d, h, min;
    u, m := FindMonth(u, y);
    u, d := Take(u, DAY, 1);
    u, h := Take(u, 3600, 0);
    u, min := Take(u, 60, 0);
    r := Date(Timestamp(y, m, d, h, min, u));
  }

  /** Takes whole years off while anything is left, and gives the last one back. */
  method FindYear(unix: int) returns (left: int, year: nat, ghost k: nat)
    requires unix > 0
    ensures year == YearAt(k) && unix == YearStart(k) + left
    ensures 0 < left <= DaysInYear(year) * DAY
  {
    left, year, k := unix, EPOCH, 0;
    while left > 0
      invariant year == YearAt(k) && unix == YearStart(k) + left
      invariant k == 0 ==> left > 0
      invariant k > 0 ==> left + DaysInYear(YearAt(k - 1)) * DAY > 0
      decreases left
    {
      left := left - DaysInYear(year) * DAY;
      year := NextYear(year);
      k := k + 1;
    }
    year := LastYear(year);
    k := k - 1;
    left := left + DaysInYear(year) * DAY;
  }

  /** Takes whole months off.  There is no thirteenth month to take off, but none is needed: the twelve months of a
      year hold all its seconds. */
  method FindMonth(seconds: int, year: nat) returns (left: int, month: nat)
    requires 0 < seconds <= DaysInYear(year) * DAY
    ensures 1 <= month <= 12 && seconds == MonthStart(year, month) + left
    ensures 0 < left <= DaysInMonth(year, month) * DAY
  {
    MonthsFillYear(year);
    left, month := seconds, 1;
    while left > 0
      invariant 1 <= month <= 13 && seconds == MonthStart(year, month) + left
      invariant month == 1 ==> left > 0
      invariant month > 1 ==> left + DaysInMonth(year, month - 1) * DAY > 0
      decreases 13 - month
    {
      left := left - DaysInMonth(year, month) * DAY;
      month := month + 1;
    }
    month := month - 1;
    left := left + DaysInMonth(year, month) * DAY;
  }

  /** Takes whole units off, counting from `first`, and gives the last one back. */
  method Take(seconds: int, unit: nat, first: nat) returns (left: int, count: nat)
    requires seconds > 0 && unit > 0
    ensures count >= first && seconds == (count - first) * unit + left && 0 < left <= unit
  {
    left, count := seconds, first;
    while left > 0
      invariant count >= first && seconds == (count - first) * unit + left
      invariant count == first ==> left > 0
      invariant left + unit > 0
      decreases left
    {
      left := left - unit;
      count := count + 1;
    }
    count := count - 1;
    left := left + unit;
  }

  // ----- months and years

  lemma MonthsFillYear(year: nat)
    ensures MonthStart(year, 13) == DaysInYear(year) * DAY
  {
    assert MonthStart(year, 2) == 31 * DAY;
    assert MonthStart(year, 3) == MonthStart(year, 2) + DaysInMonth(year, 2) * DAY;
    assert MonthStart(year, 5) == MonthStart(year, 3) + 61 * DAY;
    assert MonthStart(year, 7) == MonthStart(year, 5) + 61 * DAY;
    assert MonthStart(year, 9) == MonthStart(year, 7) + 62 * DAY;
    assert MonthStart(year, 11) == MonthStart(year, 9) + 61 * DAY;
  }

  /** Days before the first of a month, in a common year. */
  function CommonDays(month: nat): int
    requires 1 <= month <= 13
  {
    [0, 31, 59, 90, 120, 151, 181, 212, 243, 273, 304, 334, 365][month - 1]
  }

  /** The leap days of the first k years since 1970, by the calendar: one every four years, not every hundred, but every
      four hundred. */
  function LeapDays(k: nat): int {
    (k + 1) / 4 - (k + 69) / 100 + (k + 369) / 400
  }

  lemma YearAtIs(k: nat)
    requires EPOCH + k < UINT32_SIZE
    ensures YearAt(k) == EPOCH + k
  {
    YearAtIsModular(k);
  }

  /** Years start where the calendar says, as long as they are counted in 32 bits without a wrap. */
  lemma {:induction false} YearStartIs(k: nat, leaps: int)
    requires EPOCH + k < UINT32_SIZE && leaps == LeapDays(k)
    ensures YearStart(k) == DAY * (365 * k + leaps)
  {
    if k > 0 {
      YearStartIs(k - 1, LeapDays(k - 1));
      YearAtIs(k - 1);
      NextYearStarts(k, LeapDays(k - 1), leaps);
    }
  }

  lemma NextYearStarts(k: nat, before: int, leaps: int)
    requires 0 < k && EPOCH + k < UINT32_SIZE && before == LeapDays(k - 1) && leaps == LeapDays(k)
    requires YearStart(k - 1) == DAY * (365 * (k - 1) + before) && YearAt(k - 1) == EPOCH + k - 1
    ensures YearStart(k) == DAY * (365 * k + leaps)
  {
    LeapDaysNext(k - 1, before, leaps);
  }

  lemma LeapDaysNext(k: nat, before: int, leaps: int)
    requires before == LeapDays(k) && leaps == LeapDays(k + 1)
    ensures leaps - before == DaysInYear(EPOCH + k) - 365
  {
    Crosses4(k + 1);
    Crosses100(k + 69);
    Crosses400(k + 369);
    LeapIs(k);
  }

  lemma LeapIs(k: nat)
    ensures Leap(EPOCH + k) <==> (k + 2) % 4 == 0 && ((k + 70) % 100 == 0 ==> (k + 370) % 400 == 0)
    ensures (k + 370) % 400 == 0 ==> (k + 70) % 100 == 0
    ensures (k + 70) % 100 == 0 ==> (k + 2) % 4 == 0
  {
    Shifted(k);
    Multiples(k);
  }

  lemma Shifted(k: nat)
    ensures (EPOCH + k) % 4 == (k + 2) % 4
    ensures (EPOCH + k) % 100 == (k + 70) % 100
    ensures (EPOCH + k) % 400 == (k + 370) % 400
  {
  }

  lemma Multiples(k: nat)
    ensures (k + 370) % 400 == 0 ==> (k + 70) % 100 == 0
    ensures (k + 70) % 100 == 0 ==> (k + 2) % 4 == 0
  {
    if (k + 370) % 400 == 0 {
      IsMultiple100(k + 70, 4 * ((k + 370) / 400) - 3);
    }
    if (k + 70) % 100 == 0 {
      IsMultiple4(k + 2, 25 * ((k + 70) / 100) - 17);
    }
  }

  lemma IsMultiple100(x: int, q: int)
    requires x == 100 * q
    ensures x % 100 == 0
  {
  }

  lemma IsMultiple4(x: int, q: int)
    requires x == 4 * q
    ensures x % 4 == 0
  {
  }

  lemma Crosses4(x: nat)
    ensures (x + 1) / 4 - x / 4 == if (x + 1) % 4 == 0 then 1 else 0
  {
  }

  lemma Crosses100(x: nat)
    ensures (x + 1) / 100 - x / 100 == if (x + 1) % 100 == 0 then 1 else 0
  {
  }

  lemma Crosses400(x: nat)
    ensures (x + 1) / 400 - x / 400 == if (x + 1) % 400 == 0 then 1 else 0
  {
  }

  /** Months start where the calendar says; from March on a leap day lies before them, which the next year tells. */
  lemma MonthStartIs(k: nat, month: nat, leap: int)
    requires EPOCH + k + 1 < UINT32_SIZE && 1 <= month <= 13 && leap == LeapDays(k + 1) - LeapDays(k)
    ensures MonthStart(YearAt(k), month) == DAY * (CommonDays(month) + if month > 2 then leap else 0)
  {
    YearAtIs(k);
    LeapDaysNext(k, LeapDays(k), LeapDays(k + 1));
    MonthStartDays(EPOCH + k, month, leap);
  }

  lemma {:induction false} MonthStartDays(year: nat, month: nat, leap: int)
    requires 1 <= month <= 13 && leap == DaysInYear(year) - 365
    ensures MonthStart(year, month) == DAY * (CommonDays(month) + if month > 2 then leap else 0)
  {
    if month > 1 {
      MonthStartDays(year, month - 1, leap);
    }
  }

  /** The date and time found are those of the calendar: days since 1970, and the time of the day. */
  lemma MomentIs(u: int, k: nat, t: Timestamp, leaps: int, leap: int)
    requires IsMoment(u, k, t) && EPOCH + k + 1 < UINT32_SIZE
    requires leaps == LeapDays(k) && leap == LeapDays(k + 1) - LeapDays(k)
    ensures t.year == 1970 + k
    ensures var days := 365 * k + leaps + CommonDays(t.month) + (if t.month > 2 then leap else 0) + t.day - 1;
            u == 86400 * days + 3600 * t.hour + 60 * t.minute + t.second
  {
    YearAtIs(k);
    YearStartIs(k, leaps);
    MonthStartIs(k, t.month, leap);
  }

  lemma {:induction false} MonthStartGrows(year: nat, m: nat, n: nat)
    requires 1 <= m < n <= 13
    ensures MonthStart(year, m) + DaysInMonth(year, m) * DAY <= MonthStart(year, n)
  {
    if m + 1 < n {
      MonthStartGrows(year, m, n - 1);
    }
  }

  lemma {:induction false} YearStartGrows(j: nat, k: nat)
    requires j < k
    ensures YearStart(j) + DaysInYear(YearAt(j)) * DAY <= YearStart(k)
  {
    if j + 1 < k {
      YearStartGrows(j, k - 1);
    }
  }

  /** Seconds into the year. */
  function WithinYear(t: Timestamp): int
    requires t.month >= 1
  {
    MonthStart(t.year, t.month) + (t.day - 1) * DAY + t.hour * 3600 + t.minute * 60 + t.second
  }

  lemma WithinYearBound(t: Timestamp)
    requires Proper(t)
    ensures 0 < WithinYear(t) <= DaysInYear(t.year) * DAY
  {
    MonthStartGrows(t.year, t.month, 13);
    MonthsFillYear(t.year);
  }

  // ----- order

  /** Earlier, field by field from the month down. */
  predicate EarlierInYear(t: Timestamp, s: Timestamp) {
    t.month < s.month || (t.month == s.month &&
    (t.day < s.day || (t.day == s.day &&
    (t.hour < s.hour || (t.hour == s.hour &&
    (t.minute < s.minute || (t.minute == s.minute && t.second < s.second)))))))
  }

  lemma InYearOrder(t: Timestamp, s: Timestamp)
    requires Proper(t) && Proper(s) && t.year == s.year && WithinYear(t) < WithinYear(s)
    ensures EarlierInYear(t, s)
  {
    if s.month < t.month {
      MonthStartGrows(t.year, s.month, t.month);
    } else if t.month < s.month {
      MonthStartGrows(t.year, t.month, s.month);
    }
  }

  /** Later times have later dates: the whole years first, then month, day, hour, minute and second. */
  lemma LaterIsLater(u: int, j: nat, t: Timestamp, v: int, k: nat, s: Timestamp)
    requires IsMoment(u, j, t) && IsMoment(v, k, s) && u < v
    ensures j < k || (j == k && t.year == s.year && EarlierInYear(t, s))
  {
    WithinYearBound(t);
    WithinYearBound(s);
    if k < j {
      YearStartGrows(k, j);
    } else if j == k {
      InYearOrder(t, s);
    }
  }

  /** So a time has one date. */
  lemma OneDate(u: int, j: nat, t: Timestamp, k: nat, s: Timestamp)
    requires IsMoment(u, j, t) && IsMoment(u, k, s)
    ensures j == k && t == s
  {
    WithinYearBound(t);
    WithinYearBound(s);
    if j < k {
      YearStartGrows(j, k);
    } else if k < j {
      YearStartGrows(k, j);
    } else if t.month < s.month {
      MonthStartGrows(t.year, t.month, s.month);
    } else if s.month < t.month {
      MonthStartGrows(t.year, s.month, t.month);
    }
  }

  /** While the year fits into 32 bits, the six numbers alone tell times apart and sort as the times do. */
  lemma DatesSort(u: int, j: nat, t: Timestamp, v: int, k: nat, s: Timestamp)
    requires IsMoment(u, j, t) && IsMoment(v, k, s) && u < v && EPOCH + k < UINT32_SIZE
    ensures t.year < s.year || (t.year == s.year && EarlierInYear(t, s))
  {
    LaterIsLater(u, j, t, v, k, s);
    YearsCount(j, k);
  }

  lemma YearsCount(j: nat, k: nat)
    requires j <= k && EPOCH + k < UINT32_SIZE
    ensures YearAt(j) == EPOCH + j && YearAt(k) == EPOCH + k
  {
    YearAtIsModular(j);
    YearAtIsModular(k);
  }

  /** The years fit for every time up to four billion short years. */
  lemma {:induction false} YearsFit(u: int, k: nat, t: Timestamp)
    requires IsMoment(u, k, t) && u <= 365 * DAY * (UINT32_SIZE - EPOCH)
    ensures EPOCH + k < UINT32_SIZE
  {
    WithinYearBound(t);
    YearStartAtLeast(k);
  }

  lemma {:induction false} YearStartAtLeast(k: nat)
    ensures YearStart(k) >= 365 * DAY * k
  {
    if k > 0 {
      YearStartAtLeast(k - 1);
    }
  }

  /** Beyond that the year number starts over and every date comes back. */
  lemma DatesComeBack(u: int, k: nat, t: Timestamp)
    requires IsMoment(u, k, t)
    ensures YearStart(k + UINT32_SIZE) + WithinYear(t) > u
    ensures IsMoment(YearStart(k + UINT32_SIZE) + WithinYear(t), k + UINT32_SIZE, t)
  {
    SameNumber(k, k + UINT32_SIZE);
    WithinYearBound(t);
    YearStartGrows(k, k + UINT32_SIZE);
  }

  /** Two years have the same number exactly when they are a multiple of 2^32 apart. */
  lemma SameNumber(j: nat, k: nat)
    ensures YearAt(j) == YearAt(k) <==> (k - j) % UINT32_SIZE == 0
  {
    YearAtIsModular(j);
    YearAtIsModular(k);
    var a, b := EPOCH + j, EPOCH + k;
    SameRemainder(k - j, a / UINT32_SIZE, a % UINT32_SIZE, b / UINT32_SIZE, b % UINT32_SIZE);
  }

  lemma SameRemainder(d: int, p: int, x: int, q: int, y: int)
    requires d == (q * UINT32_SIZE + y) - (p * UINT32_SIZE + x) && 0 <= x < UINT32_SIZE && 0 <= y < UINT32_SIZE
    ensures x == y <==> d % UINT32_SIZE == 0
  {
    if y >= x {
      Remainder(d, q - p, y - x);
    } else {
      Remainder(d, q - p - 1, y - x + UINT32_SIZE);
    }
  }

  lemma Remainder(d: int, q: int, r: int)
    requires d == q * UINT32_SIZE + r && 0 <= r < UINT32_SIZE
    ensures d % UINT32_SIZE == r
  {
  }

  /** Two times share a date exactly when their years are a multiple of 2^32 apart and they are at the same place in
      their year. */
  lemma SharedDateExactlyWhen(u: int, j: nat, t: Timestamp, v: int, k: nat, s: Timestamp)
    requires IsMoment(u, j, t) && IsMoment(v, k, s)
    ensures t == s <==> (k - j) % UINT32_SIZE == 0 && u - YearStart(j) == v - YearStart(k)
  {
    SameNumber(j, k);
    if (k - j) % UINT32_SIZE == 0 && u - YearStart(j) == v - YearStart(k) {
      assert IsMoment(u, j, s);
      OneDate(u, j, t, j, s);
    }
  }

  // ----- the last second of a minute

  lemma {:induction false} YearStartInDays(k: nat) returns (days: nat)
    ensures YearStart(k) == DAY * days
  {
    if k == 0 {
      days := 0;
    } else {
      var before := YearStartInDays(k - 1);
      days := before + DaysInYear(YearAt(k - 1));
    }
  }

  lemma {:induction false} MonthStartInDays(year: nat, month: nat) returns (days: nat)
    requires month >= 1
    ensures MonthStart(year, month) == DAY * days
  {
    if month == 1 {
      days := 0;
    } else {
      var before := MonthStartInDays(year, month - 1);
      days := before + DaysInMonth(year, month - 1);
    }
  }

  /** A time is whole days and the time of day. */
  lemma MomentInDays(u: int, k: nat, t: Timestamp) returns (days: nat)
    requires IsMoment(u, k, t)
    ensures u == DAY * days + t.hour * 3600 + t.minute * 60 + t.second
  {
    var years := YearStartInDays(k);
    var months := MonthStartInDays(t.year, t.month);
    days := years + months + t.day - 1;
  }

  /** Every whole minute is written as second 60 of the minute before, and no other time is. */
  lemma LateExactlyWhen(u: int, k: nat, t: Timestamp)
    requires IsMoment(u, k, t)
    ensures t.second == 60 <==> u % 60 == 0
    ensures t.hour == 23 && t.minute == 59 && t.second == 60 <==> u % DAY == 0
  {
    var days := MomentInDays(u, k, t);
    var minutes := 1440 * days + t.hour * 60 + t.minute;
    assert u == 60 * minutes + t.second;
    var rest := t.hour * 3600 + t.minute * 60 + t.second;
    assert u == DAY * days + rest && 0 < rest <= DAY;
    WholeMinute(u, minutes, t.second);
    WholeDay(u, days, rest);
  }

  lemma WholeMinute(u: int, whole: int, rest: int)
    requires u == 60 * whole + rest && 0 < rest <= 60
    ensures u % 60 == 0 <==> rest == 60
  {
  }

  lemma WholeDay(u: int, whole: int, rest: int)
    requires u == DAY * whole + rest && 0 < rest <= DAY
    ensures u % DAY == 0 <==> rest == DAY
  {
  }
}
