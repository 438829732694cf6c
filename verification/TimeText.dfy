/** storedTime (store.go): an instant as fixed-width UTC text, and why text order is time order. */
module TimeText {
  import opened Common

  // ----- The proleptic Gregorian calendar, in days from 1 January of year 1 -----

  const SECOND := 1_000_000_000
  const DAY := 86_400 * SECOND

  predicate Leap(year: int) {
    year % 4 == 0 && (year % 100 != 0 || year % 400 == 0)
  }

  function YearLength(year: int): int {
    if Leap(year) then 366 else 365
  }

  /** Days from 1 January of year 1 to 1 January of `year`. */
  function DaysBeforeYear(year: int): int {
    365 * (year - 1) + (year - 1) / 4 - (year - 1) / 100 + (year - 1) / 400
  }

  function MonthLength(year: int, month: int): int {
    if month == 2 then (if Leap(year) then 29 else 28)
    else if month == 4 || month == 6 || month == 9 || month == 11 then 30
    else 31
  }

  function DaysBeforeMonth(year: int, month: int): int
    requires 1 <= month <= 13
  {
    if month == 1 then 0 else DaysBeforeMonth(year, month - 1) + MonthLength(year, month - 1)
  }

  datatype Date = Date(year: int, month: int, day: int)

  predicate ValidDate(d: Date) {
    1 <= d.month <= 12 && 1 <= d.day <= MonthLength(d.year, d.month)
  }

  function DayNumber(d: Date): int
    requires ValidDate(d)
  {
    DaysBeforeYear(d.year) + DaysBeforeMonth(d.year, d.month) + d.day - 1
  }

  /** The year a day falls in, by 400-, 100-, 4- and 1-year cycles as Go's time package counts them. */
  function YearOf(day: int): (year: int)
    ensures DaysBeforeYear(year) <= day < DaysBeforeYear(year + 1)
  {
    var n400, d400 := day / 146_097, day % 146_097;
    var n100 := if d400 / 36_524 == 4 then 3 else d400 / 36_524;
    var d100 := d400 - n100 * 36_524;
    var n4, d4 := d100 / 1_461, d100 % 1_461;
    var n1 := if d4 / 365 == 4 then 3 else d4 / 365;
    var year := 400 * n400 + 100 * n100 + 4 * n4 + n1 + 1;
    CyclesCount(n400, n100, n4, n1);
    year
  }

  lemma CyclesCount(n400: int, n100: int, n4: int, n1: int)
    requires 0 <= n100 < 4 && 0 <= n4 < 25 && 0 <= n1 < 4
    ensures var year := 400 * n400 + 100 * n100 + 4 * n4 + n1 + 1;
            && DaysBeforeYear(year) == 146_097 * n400 + 36_524 * n100 + 1_461 * n4 + 365 * n1
            && DaysBeforeYear(year + 1) == DaysBeforeYear(year) + YearLength(year)
            && (Leap(year) <==> n1 == 3 && (n4 != 24 || n100 == 3))
  {
    var y := 400 * n400 + 100 * n100 + 4 * n4 + n1;
    QuotientIs(y, 4, 100 * n400 + 25 * n100 + n4, n1);
    QuotientIs(y, 100, 4 * n400 + n100, 4 * n4 + n1);
    QuotientIs(y, 400, n400, 100 * n100 + 4 * n4 + n1);
    YearGrows(y + 1);
    NextRemainder(y, 4);
    NextRemainder(y, 100);
    NextRemainder(y, 400);
  }

  lemma QuotientIs(y: int, m: int, q: int, r: int)
    requires (m == 4 || m == 100 || m == 400) && y == m * q + r && 0 <= r < m
    ensures y / m == q && y % m == r
  {
  }

  lemma NextRemainder(y: int, m: int)
    requires m == 4 || m == 100 || m == 400
    ensures (y + 1) % m == 0 <==> y % m == m - 1
  {
  }

  lemma NextQuotient(y: int, m: int)
    requires m == 4 || m == 100 || m == 400
    ensures y / m == (y - 1) / m + if y % m == 0 then 1 else 0
  {
  }

  lemma YearGrows(year: int)
    ensures DaysBeforeYear(year + 1) == DaysBeforeYear(year) + YearLength(year)
  {
    NextQuotient(year, 4);
    NextQuotient(year, 100);
    NextQuotient(year, 400);
    CenturiesAreFourths(year);
    var y := year - 1;
    assert DaysBeforeYear(year + 1) == 365 * year + year / 4 - year / 100 + year / 400;
    assert DaysBeforeYear(year) == 365 * y + y / 4 - y / 100 + y / 400;
  }

  lemma CenturiesAreFourths(year: int)
    ensures year % 100 == 0 ==> year % 4 == 0
    ensures year % 400 == 0 ==> year % 100 == 0
  {
    if year % 100 == 0 {
      assert year == 4 * (25 * (year / 100));
    }
    if year % 400 == 0 {
      assert year == 100 * (4 * (year / 400));
    }
  }

  lemma {:induction false} YearsGrow(a: int, b: int)
    requires a <= b
    ensures DaysBeforeYear(a) <= DaysBeforeYear(b)
    decreases b - a
  {
    if a < b {
      YearsGrow(a, b - 1);
      YearGrows(b - 1);
    }
  }

  lemma {:induction false} MonthsGrow(year: int, a: int, b: int)
    requires 1 <= a <= b <= 13
    ensures DaysBeforeMonth(year, a) <= DaysBeforeMonth(year, b)
    ensures a < b ==> DaysBeforeMonth(year, a) + MonthLength(year, a) <= DaysBeforeMonth(year, b)
    decreases b
  {
    if a < b {
      MonthsGrow(year, a, b - 1);
    }
  }

  lemma MonthsFillTheYear(year: int)
    ensures DaysBeforeMonth(year, 13) == YearLength(year)
  {
    var february := MonthLength(year, 2);
    assert DaysBeforeMonth(year, 2) == 31;
    assert DaysBeforeMonth(year, 3) == 31 + february;
    assert DaysBeforeMonth(year, 5) == 92 + february;
    assert DaysBeforeMonth(year, 7) == 153 + february;
    assert DaysBeforeMonth(year, 9) == 215 + february;
    assert DaysBeforeMonth(year, 11) == 276 + february;
    assert DaysBeforeMonth(year, 13) == 337 + february;
  }

  /** The days of each month, and before it, in a common year; February has one more in a leap year. */
  const MONTH_DAYS := [31, 28, 31, 30, 31, 30, 31, 31, 30, 31, 30, 31]
  const DAYS_BEFORE := [0, 31, 59, 90, 120, 151, 181, 212, 243, 273, 304, 334]

  /** Valid dates are those of the Gregorian calendar, month by month. */
  lemma ValidDatesAreGregorian(d: Date)
    ensures ValidDate(d) <==>
            && 1 <= d.month <= 12 && 1 <= d.day
            && d.day <= MONTH_DAYS[d.month - 1]
                        + (if d.month == 2 && d.year % 4 == 0 && (d.year % 100 != 0 || d.year % 400 == 0) then 1 else 0)
  {
  }

  lemma MonthsAddUp(year: int, month: int)
    requires 1 <= month <= 12
    ensures DaysBeforeMonth(year, month) == DAYS_BEFORE[month - 1] + (if month > 2 && Leap(year) then 1 else 0)
    decreases month
  {
    if month > 1 {
      MonthsAddUp(year, month - 1);
    }
  }

  /** Day numbers by the civil-day formula, which counts years from 1 March and knows no months' lengths. */
  function CivilDay(d: Date): int
    requires 1 <= d.month <= 12
  {
    var y := if d.month <= 2 then d.year - 1 else d.year;
    var m := if d.month <= 2 then d.month + 9 else d.month - 3;
    365 * y + y / 4 - y / 100 + y / 400 + (153 * m + 2) / 5 + d.day - 307
  }

  lemma DayNumberIsCivil(d: Date)
    requires ValidDate(d)
    ensures DayNumber(d) == CivilDay(d)
  {
    MonthsAddUp(d.year, d.month);
    YearGrows(d.year);
  }

  /** The month a zero-based day of the year falls in, trying `month` and on. */
  function MonthFrom(year: int, yday: int, month: int): (m: int)
    requires 1 <= month <= 12 && DaysBeforeMonth(year, month) <= yday < DaysBeforeMonth(year, 13)
    ensures month <= m <= 12 && DaysBeforeMonth(year, m) <= yday < DaysBeforeMonth(year, m + 1)
    decreases 12 - month
  {
    if yday < DaysBeforeMonth(year, month + 1) then month else MonthFrom(year, yday, month + 1)
  }

  function DateOf(day: int): (d: Date)
    ensures ValidDate(d) && DayNumber(d) == day
  {
    var year := YearOf(day);
    var yday := day - DaysBeforeYear(year);
    YearGrows(year);
    MonthsFillTheYear(year);
    var month := MonthFrom(year, yday, 1);
    Date(year, month, yday - DaysBeforeMonth(year, month) + 1)
  }

  predicate DateBefore(a: Date, b: Date) {
    a.year < b.year || (a.year == b.year && (a.month < b.month || (a.month == b.month && a.day < b.day)))
  }

  lemma DaysFollowDates(a: Date, b: Date)
    requires ValidDate(a) && ValidDate(b) && DateBefore(a, b)
    ensures DayNumber(a) < DayNumber(b)
  {
    MonthsFillTheYear(a.year);
    MonthsGrow(a.year, a.month, 13);
    MonthsGrow(b.year, 1, b.month);
    if a.year < b.year {
      YearGrows(a.year);
      YearsGrow(a.year + 1, b.year);
    } else if a.month < b.month {
      MonthsGrow(a.year, a.month, b.month);
    }
  }

  lemma DatesFollowDays(a: int, b: int)
    requires a < b
    ensures DateBefore(DateOf(a), DateOf(b))
  {
    if DateBefore(DateOf(b), DateOf(a)) {
      DaysFollowDates(DateOf(b), DateOf(a));
    }
  }

  /** Conversion and count are inverse: a day number has one date. */
  lemma DateOfDayNumber(d: Date)
    requires ValidDate(d)
    ensures DateOf(DayNumber(d)) == d
  {
    var e := DateOf(DayNumber(d));
    if DateBefore(d, e) {
      DaysFollowDates(d, e);
    } else if DateBefore(e, d) {
      DaysFollowDates(e, d);
    }
  }

  // ----- Fixed-width text -----

  function Pow10(w: nat): (p: nat)
    ensures p >= 1
  {
    if w == 0 then 1 else 10 * Pow10(w - 1)
  }

  /** n in exactly w decimal digits, zeros leading. */
  function Digits(w: nat, n: nat): (s: string)
    ensures |s| == w
  {
    if w == 0 then "" else Digits(w - 1, n / 10) + [Digit(n % 10)]
  }

  lemma {:induction false} NumberOfDigits(w: nat, n: nat)
    requires n < Pow10(w)
    ensures Number(Digits(w, n)) == n
  {
    if w > 0 {
      NumberOfDigits(w - 1, n / 10);
      assert Digits(w, n)[..w - 1] == Digits(w - 1, n / 10);
    }
  }

  lemma {:induction false} DigitsKeepOrder(w: nat, a: nat, b: nat)
    requires a < b < Pow10(w)
    ensures Before(Digits(w, a), Digits(w, b))
  {
    if w > 0 {
      BeforeByPrefix(Digits(w - 1, a / 10), Digits(w - 1, b / 10), [Digit(a % 10)], [Digit(b % 10)]);
      if a / 10 < b / 10 {
        DigitsKeepOrder(w - 1, a / 10, b / 10);
      }
    }
  }

  /** One number of the layout, and the character after it. */
  datatype Field = Field(width: nat, mark: char)

  const LAYOUT := [
    Field(4, '-'), Field(2, '-'), Field(2, 'T'), Field(2, ':'), Field(2, ':'), Field(2, '.'), Field(9, 'Z')
  ]

  predicate Fits(layout: seq<Field>, v: seq<nat>) {
    |v| == |layout| && forall i :: 0 <= i < |v| ==> v[i] < Pow10(layout[i].width)
  }

  function Width(layout: seq<Field>): nat {
    if layout == [] then 0 else layout[0].width + 1 + Width(layout[1..])
  }

  function Format(layout: seq<Field>, v: seq<nat>): (s: string)
    requires |v| == |layout|
    ensures |s| == Width(layout)
  {
    if layout == [] then ""
    else Digits(layout[0].width, v[0]) + [layout[0].mark] + Format(layout[1..], v[1..])
  }

  function Fields(layout: seq<Field>, s: string): seq<int>
    requires |s| == Width(layout)
  {
    if layout == [] then []
    else [Number(s[..layout[0].width])] + Fields(layout[1..], s[layout[0].width + 1..])
  }

  lemma {:induction false} FieldsOfFormat(layout: seq<Field>, v: seq<nat>)
    requires Fits(layout, v)
    ensures Fields(layout, Format(layout, v)) == v
  {
    if layout != [] {
      var w, s := layout[0].width, Format(layout, v);
      NumberOfDigits(w, v[0]);
      assert s[..w] == Digits(w, v[0]) && s[w + 1..] == Format(layout[1..], v[1..]);
      FieldsOfFormat(layout[1..], v[1..]);
    }
  }

  /** The first field that differs decides the order of the text. */
  lemma {:induction false} FormatKeepsOrder(layout: seq<Field>, u: seq<nat>, v: seq<nat>, i: nat)
    requires Fits(layout, u) && Fits(layout, v) && i < |u| && u[..i] == v[..i] && u[i] < v[i]
    ensures Before(Format(layout, u), Format(layout, v))
  {
    var w, mark := layout[0].width, [layout[0].mark];
    var x, y := mark + Format(layout[1..], u[1..]), mark + Format(layout[1..], v[1..]);
    BeforeByPrefix(Digits(w, u[0]), Digits(w, v[0]), x, y);
    assert Format(layout, u) == Digits(w, u[0]) + x && Format(layout, v) == Digits(w, v[0]) + y;
    if i == 0 {
      DigitsKeepOrder(w, u[0], v[0]);
    } else {
      assert u[0] == u[..i][0] == v[..i][0] == v[0];
      assert u[1..][..i - 1] == u[..i][1..] == v[1..][..i - 1];
      FormatKeepsOrder(layout[1..], u[1..], v[1..], i - 1);
      BeforeByPrefix(mark, mark, Format(layout[1..], u[1..]), Format(layout[1..], v[1..]));
    }
  }

  // ----- Instants -----

  /** Nanoseconds from Go's zero time; the years 0 to 9999, which four digits print. */
  type Instant = t: int | -366 * DAY <= t < 3_652_059 * DAY

  lemma DayOfInstant(t: Instant)
    ensures -366 <= t / DAY < 3_652_059 && 0 <= t % DAY < DAY && t / DAY * DAY + t % DAY == t
  {
  }

  lemma YearsArePrintable(day: int)
    requires -366 <= day < 3_652_059
    ensures 0 <= DateOf(day).year < 10_000
  {
    var year := DateOf(day).year;
    if year < 0 {
      YearsGrow(year + 1, 0);
    } else if year >= 10_000 {
      YearsGrow(10_000, year);
    }
  }

  /** The seven numbers of an instant's UTC text: date, hour, minute, second, nanosecond. */
  predicate IsClock(t: int, v: seq<nat>) {
    && |v| == 7 && v[0] < 10_000 && ValidDate(Date(v[0], v[1], v[2]))
    && v[3] < 24 && v[4] < 60 && v[5] < 60 && v[6] < SECOND
    && t == DayNumber(Date(v[0], v[1], v[2])) * DAY + TimeOfDay(v[3], v[4], v[5], v[6])
  }

  function TimeOfDay(hour: nat, minute: nat, second: nat, nano: nat): nat {
    ((hour * 60 + minute) * 60 + second) * SECOND + nano
  }

  lemma TimeOfDayFields(rest: nat)
    ensures TimeOfDay(rest / SECOND / 60 / 60, rest / SECOND / 60 % 60, rest / SECOND % 60, rest % SECOND) == rest
    ensures rest < DAY ==> rest / SECOND / 60 / 60 < 24
  {
  }

  function ClockOf(d: Date, rest: nat): (v: seq<nat>)
    requires ValidDate(d) && 0 <= d.year < 10_000 && rest < DAY
    ensures IsClock(DayNumber(d) * DAY + rest, v) && Fits(LAYOUT, v)
  {
    TimeOfDayFields(rest);
    var v: seq<nat> := [
      d.year, d.month, d.day,
      rest / SECOND / 60 / 60, rest / SECOND / 60 % 60, rest / SECOND % 60, rest % SECOND];
    ClockFits(v);
    v
  }

  function ClockAt(day: int, rest: nat): (v: seq<nat>)
    requires -366 <= day < 3_652_059 && rest < DAY
    ensures IsClock(day * DAY + rest, v) && Fits(LAYOUT, v)
  {
    YearsArePrintable(day);
    ClockOf(DateOf(day), rest)
  }

  function Clock(t: Instant): (v: seq<nat>)
    ensures IsClock(t, v) && Fits(LAYOUT, v)
  {
    DayOfInstant(t);
    ClockAt(t / DAY, t % DAY)
  }

  /** The numbers of an instant's text, by the Gregorian calendar and a clock of 24 hours, 60 minutes and 60
      seconds, counted from 1 January of year 1. */
  lemma ClockIsGregorian(t: Instant)
    ensures var v := Clock(t);
            && |v| == 7 && 1 <= v[1] <= 12 && 1 <= v[2]
            && v[2] <= MONTH_DAYS[v[1] - 1]
                       + (if v[1] == 2 && v[0] % 4 == 0 && (v[0] % 100 != 0 || v[0] % 400 == 0) then 1 else 0)
            && v[3] < 24 && v[4] < 60 && v[5] < 60 && v[6] < 1_000_000_000
            && t == CivilDay(Date(v[0], v[1], v[2])) * 86_400_000_000_000
                    + v[3] * 3_600_000_000_000 + v[4] * 60_000_000_000 + v[5] * 1_000_000_000 + v[6]
  {
    var v := Clock(t);
    var d := Date(v[0], v[1], v[2]);
    ValidDatesAreGregorian(d);
    DayNumberIsCivil(d);
  }

  lemma ClockFits(v: seq<nat>)
    requires |v| == 7 && v[0] < 10_000 && v[1] < 100 && v[2] < 100
             && v[3] < 100 && v[4] < 100 && v[5] < 100 && v[6] < SECOND
    ensures Fits(LAYOUT, v)
  {
    assert Pow10(2) == 100;
    assert Pow10(4) == 10_000;
    assert Pow10(6) == 1_000_000;
    assert Pow10(8) == 100_000_000;
    assert Pow10(9) == SECOND;
  }

  function StoredTime(t: Instant): (s: string)
    ensures |s| == 30
  {
    LayoutWidth();
    Format(LAYOUT, Clock(t))
  }

  lemma LayoutWidth()
    ensures Width(LAYOUT) == 30
  {
    assert Width(LAYOUT[7..]) == 0;
    WidthFrom(6);
    WidthFrom(5);
    WidthFrom(4);
    WidthFrom(3);
    WidthFrom(2);
    WidthFrom(1);
    WidthFrom(0);
    assert LAYOUT[0..] == LAYOUT;
  }

  lemma WidthFrom(i: nat)
    requires i < |LAYOUT|
    ensures Width(LAYOUT[i..]) == LAYOUT[i].width + 1 + Width(LAYOUT[i + 1..])
  {
    assert LAYOUT[i..][1..] == LAYOUT[i + 1..];
  }

  /** The instant a stored text names, for text in the layout. */
  function ParseTime(s: string): Option<int> {
    LayoutWidth();
    if |s| != 30 then None
    else
      var v := Fields(LAYOUT, s);
      if |v| != 7 || !ValidDate(Date(v[0], v[1], v[2])) then None
      else Some(DayNumber(Date(v[0], v[1], v[2])) * DAY + ((v[3] * 60 + v[4]) * 60 + v[5]) * SECOND + v[6])
  }

  lemma ParseOfFormat(t: int, v: seq<nat>)
    requires IsClock(t, v) && Fits(LAYOUT, v)
    ensures ParseTime(Format(LAYOUT, v)) == Some(t)
  {
    FieldsOfFormat(LAYOUT, v);
    LayoutWidth();
  }

  /** Reading a stored time gives back the instant that was written. */
  lemma ParseOfStored(t: Instant)
    ensures ParseTime(StoredTime(t)) == Some(t)
  {
    ParseOfFormat(t, Clock(t));
  }

  /** Where the clocks of two instants first differ, the earlier one is smaller. */
  lemma FirstDifference(a: int, b: int, u: seq<nat>, v: seq<nat>) returns (i: nat)
    requires a < b && IsClock(a, u) && IsClock(b, v)
    ensures i < 7 && u[..i] == v[..i] && u[i] < v[i]
  {
    var x, y := Date(u[0], u[1], u[2]), Date(v[0], v[1], v[2]);
    if DateBefore(y, x) {
      DaysFollowDates(y, x);
    }
    DaysThenTimes(DayNumber(x), DayNumber(y), TimeOfDay(u[3], u[4], u[5], u[6]), TimeOfDay(v[3], v[4], v[5], v[6]));
    if x == y {
      TimesDiffer(u[3..], v[3..]);
    }
    i := if u[0] < v[0] then 0 else if u[1] < v[1] then 1 else if u[2] < v[2] then 2
         else if u[3] < v[3] then 3 else if u[4] < v[4] then 4 else if u[5] < v[5] then 5 else 6;
  }

  lemma DaysThenTimes(p: int, q: int, x: nat, y: nat)
    requires p * DAY + x < q * DAY + y && x < DAY && y < DAY
    ensures p < q || (p == q && x < y)
  {
  }

  lemma TimesDiffer(u: seq<nat>, v: seq<nat>)
    requires |u| == |v| == 4 && u[1] < 60 && u[2] < 60 && u[3] < SECOND && v[1] < 60 && v[2] < 60 && v[3] < SECOND
    requires TimeOfDay(u[0], u[1], u[2], u[3]) < TimeOfDay(v[0], v[1], v[2], v[3])
    ensures u[0] < v[0]
            || (u[0] == v[0] && (u[1] < v[1] || (u[1] == v[1] && (u[2] < v[2] || (u[2] == v[2] && u[3] < v[3])))))
  {
  }

  /** Text order is time order, and different instants have different texts. */
  lemma TextOrderIsTimeOrder(a: Instant, b: Instant)
    ensures Before(StoredTime(a), StoredTime(b)) <==> a < b
    ensures StoredTime(a) == StoredTime(b) <==> a == b
  {
    ParseOfStored(a);
    ParseOfStored(b);
    if a < b {
      var i := FirstDifference(a, b, Clock(a), Clock(b));
      FormatKeepsOrder(LAYOUT, Clock(a), Clock(b), i);
    } else if b < a {
      var i := FirstDifference(b, a, Clock(b), Clock(a));
      FormatKeepsOrder(LAYOUT, Clock(b), Clock(a), i);
    }
    BeforeIsStrict(StoredTime(a), StoredTime(b));
    BeforeIsStrict(StoredTime(b), StoredTime(a));
  }

  /** The layout spelled out, for every instant. */
  lemma StoredTimeLayout(t: Instant)
    ensures var v := Clock(t);
            StoredTime(t) == (Digits(4, v[0]) + "-") + ((Digits(2, v[1]) + "-") + ((Digits(2, v[2]) + "T")
                             + ((Digits(2, v[3]) + ":") + ((Digits(2, v[4]) + ":") + ((Digits(2, v[5]) + ".")
                             + ((Digits(9, v[6]) + "Z") + ""))))))
  {
    LayoutOf(Clock(t));
  }

  lemma LayoutOf(v: seq<nat>)
    requires |v| == 7
    ensures Format(LAYOUT, v) == (Digits(4, v[0]) + "-") + ((Digits(2, v[1]) + "-") + ((Digits(2, v[2]) + "T")
                                 + ((Digits(2, v[3]) + ":") + ((Digits(2, v[4]) + ":") + ((Digits(2, v[5]) + ".")
                                 + ((Digits(9, v[6]) + "Z") + ""))))))
  {
    assert Format(LAYOUT[7..], v[7..]) == "";
    FormatStep(v, 6);
    FormatStep(v, 5);
    FormatStep(v, 4);
    FormatStep(v, 3);
    FormatStep(v, 2);
    FormatStep(v, 1);
    FormatStep(v, 0);
    assert v[0..] == v && LAYOUT[0..] == LAYOUT;
  }

  lemma FormatStep(v: seq<nat>, i: nat)
    requires |v| == 7 && i < 7
    ensures Format(LAYOUT[i..], v[i..])
            == Digits(LAYOUT[i].width, v[i]) + [LAYOUT[i].mark] + Format(LAYOUT[i + 1..], v[i + 1..])
  {
    assert LAYOUT[i..][1..] == LAYOUT[i + 1..] && v[i..][1..] == v[i + 1..];
  }
}
