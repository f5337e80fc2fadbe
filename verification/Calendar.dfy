/**
 * The date conversions of `date_time.c`, against a calendar that counts days one year and one
 * month at a time.
 */
module Calendar {
  import opened Bytes

  datatype DateTime = DateTime(
    year: nat, month: nat, day: nat, dayOfWeek: nat,
    hours: nat, minutes: nat, seconds: nat, milliseconds: nat)

  // ---------------------------------------------------------------- the calendar

  predicate IsLeap(y: nat)
  {
    y % 4 == 0 && (y % 100 != 0 || y % 400 == 0)
  }

  function YearLength(y: nat): (n: nat)
  {
    if IsLeap(y) then 366 else 365
  }

  function MonthLength(y: nat, m: nat): (n: nat)
  {
    if m == 2 then if IsLeap(y) then 29 else 28
    else if m == 4 || m == 6 || m == 9 || m == 11 then 30
    else 31
  }

  /** Days from 1970-01-01 to the first day of year `y`. */
  function DaysBeforeYear(y: nat): (n: nat)
    requires y >= 1970
  {
    if y == 1970 then 0 else DaysBeforeYear(y - 1) + YearLength(y - 1)
  }

  /** Days from the first day of year `y` to the first day of month `m`. */
  function DaysBeforeMonth(y: nat, m: nat): (n: nat)
    requires m >= 1
  {
    if m == 1 then 0 else DaysBeforeMonth(y, m - 1) + MonthLength(y, m - 1)
  }

  predicate IsDate(y: nat, m: nat, d: nat)
  {
    1970 <= y && 1 <= m <= 12 && 1 <= d <= MonthLength(y, m)
  }

  /** Days from 1970-01-01. */
  function DayNumber(y: nat, m: nat, d: nat): (n: nat)
    requires IsDate(y, m, d)
  {
    DaysBeforeYear(y) + DaysBeforeMonth(y, m) + d - 1
  }

  predicate IsValid(t: DateTime)
  {
    && IsDate(t.year, t.month, t.day)
    && t.hours < 24 && t.minutes < 60 && t.seconds < 60 && t.milliseconds < 1000
  }

  /** Seconds from 1970-01-01 00:00:00. */
  function Seconds(t: DateTime): (n: nat)
    requires IsValid(t)
  {
    DayNumber(t.year, t.month, t.day) * 86400 + t.hours * 3600 + t.minutes * 60 + t.seconds
  }

  // ---------------------------------------------------------------- the code

  /** 32-bit unsigned arithmetic. */
  function U32(x: int): (r: uint32)
  {
    x % 0x1_0000_0000
  }

  /** `computeDayOfWeek`: Zeller's congruence, Monday being 1. */
  function DayOfWeek(y: nat, m: nat, d: nat): (w: nat)
    requires y >= 1
  {
    var m', y' := if m <= 2 then m + 12 else m, if m <= 2 then y - 1 else y;
    var j, k := y' / 100, y' % 100;
    var h := d + 26 * (m' + 1) / 10 + k + k / 4 + 5 * j + j / 4;
    (h + 5) % 7 + 1
  }

  /** The day number moved to the epoch of the year formula. */
  function EpochDay(t: nat): (b: uint32)
  {
    var a := U32((4 * t + 102032) / 146097 + 15);
    U32(t + 2442113 + a - a / 4)
  }

  /** The month within the March-based year, and the day within the month. */
  function MonthAndDay(d: uint32): (r: (int, int))
  {
    var e := U32(d * 1000) / 30601;
    (e, U32(d - e * 30 - U32(e * 601) / 1000))
  }

  /** The year, month and day that `convertUnixTimeToDate` computes from a day number. */
  function Civil(t: nat): (r: (int, int, int))
  {
    var b := EpochDay(t);
    var c := U32(20 * b - 2442) / 7305;
    var (e, f) := MonthAndDay(U32(b - 365 * c - c / 4));
    if e <= 13 then (U32(c - 4716), U32(e - 1), f) else (U32(c - 4715), U32(e - 13), f)
  }

  /** `convertUnixTimeToDate`; a negative time counts as zero. */
  function FromUnix(time: int): (r: DateTime)
  {
    var t := if time < 1 then 0 else time;
    var (y, m, d) := Civil(t / 60 / 60 / 24);
    var (y, m, d) := (y % 0x1_0000, m % 0x100, d % 0x100);
    DateTime(y, m, d, if y >= 1 then DayOfWeek(y, m, d) else 0, t / 60 / 60 % 24, t / 60 % 60, t % 60, 0)
  }

  /** `convertDateToUnixTime`. */
  function ToUnix(t: DateTime): (r: uint32)
  {
    var m := if t.month <= 2 then t.month + 12 else t.month;
    var y := U32(if t.month <= 2 then t.year - 1 else t.year);
    var n := U32(365 * y + y / 4 - y / 100 + y / 400);
    var n := U32(n + 30 * m + 3 * (m + 1) / 5 + t.day);
    var n := U32(n - 719561);
    var n := U32(n * 86400);
    U32(n + 3600 * t.hours + 60 * t.minutes + t.seconds)
  }

  function CompareInt(a: int, b: int): (r: int)
  {
    if a < b then -1 else if a > b then 1 else 0
  }

  /** `compareDateTime`. */
  function Compare(a: DateTime, b: DateTime): (r: int)
  {
    if a.year != b.year then CompareInt(a.year, b.year)
    else if a.month != b.month then CompareInt(a.month, b.month)
    else if a.day != b.day then CompareInt(a.day, b.day)
    else if a.hours != b.hours then CompareInt(a.hours, b.hours)
    else if a.minutes != b.minutes then CompareInt(a.minutes, b.minutes)
    else if a.seconds != b.seconds then CompareInt(a.seconds, b.seconds)
    else CompareInt(a.milliseconds, b.milliseconds)
  }

  // ---------------------------------------------------------------- closed form of the day count

  /** Days in the years up to and including `y`, by the three leap rules. */
  function YearForm(y: nat): (n: int)
  {
    365 * y + y / 4 - y / 100 + y / 400
  }

  function MonthForm(m: nat): (n: nat)
  {
    30 * m + 3 * (m + 1) / 5
  }

  lemma NextQuotient(y: nat, k: nat)
    requires k > 0
    ensures (y + 1) / k == y / k + if (y + 1) % k == 0 then 1 else 0
  {
    var q, r := y / k, y % k;
    assert y == k * q + r;
    if r + 1 < k {
      DivMod(y + 1, k, q, r + 1);
    } else {
      assert y + 1 == k * (q + 1) + 0;
      DivMod(y + 1, k, q + 1, 0);
    }
  }

  lemma LeapRules(y: nat)
    ensures y % 400 == 0 ==> y % 100 == 0
    ensures y % 100 == 0 ==> y % 4 == 0
  {
    var a, b := y / 400, y / 100;
    if y % 400 == 0 {
      DivMod(y, 100, 4 * a, 0);
    }
    if y % 100 == 0 {
      DivMod(y, 4, 25 * b, 0);
    }
  }

  lemma YearFormStep(y: nat)
    ensures YearForm(y + 1) == YearForm(y) + YearLength(y + 1)
  {
    NextQuotient(y, 4);
    NextQuotient(y, 100);
    NextQuotient(y, 400);
    LeapRules(y + 1);
  }

  lemma {:induction false} DaysBeforeYearForm(y: nat)
    requires y >= 1970
    ensures DaysBeforeYear(y) == YearForm(y - 1) - 719162
  {
    if y > 1970 {
      DaysBeforeYearForm(y - 1);
      hide YearForm, YearLength;
      YearFormStep(y - 2);
    }
  }

  lemma DaysBeforeMonthForm(y: nat, m: nat)
    requires 1 <= m <= 12
    ensures DaysBeforeMonth(y, m)
         == if m <= 2 then 31 * (m - 1) else MonthForm(m) - 33 + if IsLeap(y) then 1 else 0
  {
    hide IsLeap;
    assert DaysBeforeMonth(y, 2) == 31;
    if m >= 3 {
      assert DaysBeforeMonth(y, 3) == 31 + MonthLength(y, 2);
      assert MonthForm(3) == 92;
      var i := 3;
      while i < m
        invariant 3 <= i <= m
        invariant DaysBeforeMonth(y, i) == MonthForm(i) - 33 + if IsLeap(y) then 1 else 0
      {
        MonthFormStep(i, y);
        i := i + 1;
      }
    }
  }

  lemma MonthFormStep(m: nat, y: nat)
    requires 3 <= m <= 11
    ensures MonthForm(m + 1) == MonthForm(m) + MonthLength(y, m)
  {
  }

  /** The formula of `convertDateToUnixTime` counts days. */
  lemma ClosedForm(y: nat, m: nat, d: nat)
    requires IsDate(y, m, d)
    ensures var m', y' := if m <= 2 then m + 12 else m, if m <= 2 then y - 1 else y;
            DayNumber(y, m, d) == YearForm(y') + MonthForm(m') + d - 719561
  {
    hide YearForm, DaysBeforeMonth, DaysBeforeYear;
    DaysBeforeYearForm(y);
    DaysBeforeMonthForm(y, m);
    if m > 2 {
      YearFormStep(y - 1);
    } else {
      assert MonthForm(13) == 398 && MonthForm(14) == 429;
    }
  }

  // ---------------------------------------------------------------- from days to a date

  /** The last day number that a 32-bit time reaches. */
  const LAST_DAY := 49710
  /** 2100-03-01, the first day that a missing leap day shifts. */
  const SHIFT_DAY := 47541

  /** The century correction: a is 15, 16 or 17. */
  lemma CenturyStep(t: nat)
    requires t <= LAST_DAY
    ensures var a := (4 * t + 102032) / 146097 + 15;
            15 <= a <= 17 && a - a / 4 == if t < SHIFT_DAY then 12 else 13
  {
    var x := 4 * t + 102032;
    if x < 146097 {
      DivMod(x, 146097, 0, x);
    } else if x < 292194 {
      DivMod(x, 146097, 1, x - 146097);
    } else {
      DivMod(x, 146097, 2, x - 292194);
    }
  }

  /** The year, counted from March, and the day within it. */
  lemma YearStep(b: nat)
    requires 2442125 <= b <= 2442126 + LAST_DAY
    ensures var c := (20 * b - 2442) / 7305;
            var d := b - 365 * c - c / 4;
            6685 <= c <= 6821 && 123 <= d <= 488 && (d == 488 ==> c % 4 == 3)
  {
    var c := (20 * b - 2442) / 7305;
    var x := (20 * b - 2442) % 7305;
    assert 20 * b - 2442 == 7305 * c + x;
    var q, r := c / 4, c % 4;
    assert c == 4 * q + r;
    var d := b - 365 * c - q;
    assert 20 * d == x + 2442 + 5 * r;
  }

  /** The first day of month number `e` in the March-based year. */
  function MonthStart(e: nat): (n: nat)
  {
    30 * e + 3 * e / 5
  }

  /** The month and the day within it. */
  lemma MonthStep(d: nat)
    requires 123 <= d <= 488
    ensures var e := d * 1000 / 30601;
            && 4 <= e <= 15 && e * 601 / 1000 == 3 * e / 5
            && MonthStart(e) < d && (e < 15 ==> d <= MonthStart(e + 1))
  {
    var e := 4;
    while e < 15 && MonthStart(e + 1) < d
      invariant 4 <= e <= 15 && MonthStart(e) < d
    {
      e := e + 1;
    }
    MonthBounds(d, e);
  }

  lemma MonthBounds(d: nat, e: nat)
    requires 4 <= e <= 15 && MonthStart(e) < d <= 488 && (e < 15 ==> d <= MonthStart(e + 1))
    ensures d * 1000 / 30601 == e && e * 601 / 1000 == 3 * e / 5
  {
    SameFraction(e);
    StartBound(e);
    assert 30601 * e <= d * 1000;
    if e < 15 {
      StartBound(e + 1);
    }
    assert d * 1000 < 30601 * (e + 1);
    DivMod(d * 1000, 30601, e, d * 1000 - 30601 * e);
  }

  lemma StartBound(e: nat)
    requires 4 <= e <= 15
    ensures 1000 * MonthStart(e) < 30601 * e <= 1000 * (MonthStart(e) + 1)
  {
  }

  lemma SameFraction(e: nat)
    requires 4 <= e <= 15
    ensures e * 601 / 1000 == 3 * e / 5
  {
  }

  lemma U32Id(x: int)
    requires 0 <= x < 0x1_0000_0000
    ensures U32(x) == x
  {
  }

  /** The date fields in plain integers: no 32-bit operation of the conversion overflows. */
  lemma CivilIs(t: nat)
    requires t <= LAST_DAY
    ensures var b := t + if t < SHIFT_DAY then 2442125 else 2442126;
            var c := (20 * b - 2442) / 7305;
            var d := b - 365 * c - c / 4;
            var e := d * 1000 / 30601;
            var f := d - MonthStart(e);
            Civil(t) == if e <= 13 then (c - 4716, e - 1, f) else (c - 4715, e - 13, f)
  {
    hide U32, EpochDay, MonthAndDay, MonthStart;
    EpochDayIs(t);
    var b := t + if t < SHIFT_DAY then 2442125 else 2442126;
    YearStep(b);
    U32Id(20 * b - 2442);
    var c := (20 * b - 2442) / 7305;
    var d := b - 365 * c - c / 4;
    U32Id(d);
    MonthAndDayIs(d);
    var e := d * 1000 / 30601;
    U32Id(if e <= 13 then c - 4716 else c - 4715);
    U32Id(if e <= 13 then e - 1 else e - 13);
  }

  lemma EpochDayIs(t: nat)
    requires t <= LAST_DAY
    ensures EpochDay(t) == t + if t < SHIFT_DAY then 2442125 else 2442126
  {
    hide U32;
    CenturyStep(t);
    var a := (4 * t + 102032) / 146097 + 15;
    U32Id(a);
    U32Id(t + 2442113 + a - a / 4);
  }

  lemma MonthAndDayIs(d: nat)
    requires 123 <= d <= 488
    ensures var e := d * 1000 / 30601;
            4 <= e <= 15 && MonthStart(e) < d && MonthAndDay(d) == (e, d - MonthStart(e))
  {
    hide U32;
    MonthStep(d);
    var e := d * 1000 / 30601;
    U32Id(d * 1000);
    U32Id(e * 601);
    U32Id(d - MonthStart(e));
  }

  /** The correction switches exactly at the start of the March-based year 2100. */
  lemma CenturyYear(t: nat, b: nat, c: nat)
    requires t <= LAST_DAY && b == t + (if t < SHIFT_DAY then 2442125 else 2442126) && c == (20 * b - 2442) / 7305
    ensures t < SHIFT_DAY <==> c <= 6815
    ensures b != 2489666
  {
    var x := (20 * b - 2442) % 7305;
    assert 20 * b - 2442 == 7305 * c + x;
  }

  lemma YearFormAt(c: nat)
    requires 6685 <= c <= 6821
    ensures YearForm(c - 4716) == 365 * (c - 4716) + c / 4 - 1179 - if c <= 6815 then 15 else 16
  {
    var y := c - 4716;
    DivMod(y, 4, c / 4 - 1179, c % 4);
    var j, k := if y < 2000 then 19 else if y < 2100 then 20 else 21, if y < 2000 then 4 else 5;
    DivMod(y, 100, j, y - 100 * j);
    DivMod(y, 400, k, y - 400 * k);
  }

  lemma MonthSpan(e: nat, y: nat)
    requires 4 <= e <= 14
    ensures MonthStart(e + 1) - MonthStart(e) == MonthLength(y, if e <= 13 then e - 1 else 1)
  {
  }

  lemma LeapDay(c: nat, d: nat, b: nat)
    requires 6685 <= c <= 6821 && d == b - 365 * c - c / 4 && b != 2489666
    requires d == 488 && c % 4 == 3
    ensures IsLeap(c - 4715)
  {
    var y := c - 4715;
    assert c != 6815;
    DivMod(y, 4, c / 4 - 1178, 0);
    if y < 2000 {
      DivMod(y, 100, 19, y - 1900);
    } else if y == 2000 {
      DivMod(y, 400, 5, 0);
    } else if y < 2100 {
      DivMod(y, 100, 20, y - 2000);
    } else {
      DivMod(y, 100, 21, y - 2100);
    }
  }

  /** The fields form a date. */
  lemma CivilDate(c: nat, d: nat, e: nat, b: nat)
    requires 2442125 <= b != 2489666 && 6685 <= c <= 6821 && d == b - 365 * c - c / 4
    requires 123 <= d <= 488 && (d == 488 ==> c % 4 == 3)
    requires 4 <= e <= 15 && MonthStart(e) < d && (e < 15 ==> d <= MonthStart(e + 1))
    ensures var f := d - MonthStart(e);
            if e <= 13 then IsDate(c - 4716, e - 1, f) else IsDate(c - 4715, e - 13, f)
  {
    var f := d - MonthStart(e);
    FirstYear(c, d, e, b);
    if e <= 14 {
      MonthSpan(e, if e <= 13 then c - 4716 else c - 4715);
    } else if d == 488 {
      LeapDay(c, d, b);
    }
  }

  lemma FirstYear(c: nat, d: nat, e: nat, b: nat)
    requires 2442125 <= b && 6685 <= c && d == b - 365 * c - c / 4
    requires 4 <= e <= 15 && (e < 15 ==> d <= MonthStart(e + 1))
    ensures c == 6685 ==> e >= 14
  {
  }

  lemma MonthStartForm(e: nat)
    requires e >= 1
    ensures MonthForm(e - 1) == MonthStart(e) - 30
  {
  }

  /** Every day number up to the last 32-bit second becomes a Gregorian date with that number. */
  lemma CivilMeaning(t: nat)
    requires t <= LAST_DAY
    ensures var (y, m, d) := Civil(t);
            && 1970 <= y <= 2106 && 1 <= m <= 12 && 1 <= d <= 31
            && IsDate(y, m, d) && DayNumber(y, m, d) == t
  {
    hide IsLeap, Civil, DayNumber, MonthStart, MonthForm, YearForm;
    CivilIs(t);
    var b := t + if t < SHIFT_DAY then 2442125 else 2442126;
    var c := (20 * b - 2442) / 7305;
    var d := b - 365 * c - c / 4;
    YearStep(b);
    MonthStep(d);
    var e := d * 1000 / 30601;
    CenturyYear(t, b, c);
    CivilDate(c, d, e, b);
    CivilNumber(t, b, c, d, e);
  }

  /** The day number of the date that the closed form computes. */
  lemma CivilNumber(t: nat, b: nat, c: nat, d: nat, e: nat)
    requires 6685 <= c <= 6821 && d == b - 365 * c - c / 4 && 4 <= e <= 15 && MonthStart(e) < d
    requires b == t + (if t < SHIFT_DAY then 2442125 else 2442126) && (t < SHIFT_DAY <==> c <= 6815)
    requires if e <= 13 then IsDate(c - 4716, e - 1, d - MonthStart(e)) else IsDate(c - 4715, e - 13, d - MonthStart(e))
    ensures if e <= 13 then DayNumber(c - 4716, e - 1, d - MonthStart(e)) == t
            else DayNumber(c - 4715, e - 13, d - MonthStart(e)) == t
  {
    hide IsLeap, IsDate, DayNumber, MonthStart, MonthForm, YearForm;
    YearFormAt(c);
    MonthStartForm(e);
    if e <= 13 {
      ClosedForm(c - 4716, e - 1, d - MonthStart(e));
    } else {
      ClosedForm(c - 4715, e - 13, d - MonthStart(e));
    }
  }

  // ---------------------------------------------------------------- the conversions

  lemma SplitTime(t: nat)
    ensures t / 60 / 60 / 24 == t / 86400
    ensures t == t / 60 / 60 / 24 * 86400 + t / 60 / 60 % 24 * 3600 + t / 60 % 60 * 60 + t % 60
  {
    var a := t / 60;
    var b := a / 60;
    var c := b / 24;
    DivMod(t, 86400, c, b % 24 * 3600 + a % 60 * 60 + t % 60);
  }

  /** The date of any 32-bit time is a valid Gregorian date and counts exactly that many seconds. */
  lemma FromUnixMeaning(t: uint32)
    ensures IsValid(FromUnix(t)) && Seconds(FromUnix(t)) == t
    ensures FromUnix(t).dayOfWeek == DayOfWeek(FromUnix(t).year, FromUnix(t).month, FromUnix(t).day)
    ensures FromUnix(t).year <= 2106 && FromUnix(t).milliseconds == 0
  {
    hide Civil, DayNumber, IsDate, DayOfWeek;
    SplitTime(t);
    CivilMeaning(t / 60 / 60 / 24);
    var (y, m, d) := Civil(t / 60 / 60 / 24);
    SmallFields(y, m, d);
  }

  /** Times before 1970 count as 1970-01-01 00:00:00. */
  lemma NegativeTime(t: int)
    requires t < 0
    ensures IsValid(FromUnix(t)) && Seconds(FromUnix(t)) == 0
  {
    hide Civil, IsValid, Seconds;
    FromUnixMeaning(0);
    assert FromUnix(t) == FromUnix(0);
  }

  lemma SmallFields(y: int, m: int, d: int)
    requires 0 <= y < 0x1_0000 && 0 <= m < 0x100 && 0 <= d < 0x100
    ensures y % 0x1_0000 == y && m % 0x100 == m && d % 0x100 == d
  {
  }

  /** No 32-bit operation of `convertDateToUnixTime` overflows for a date in the 32-bit range. */
  lemma ToUnixMeaning(t: DateTime)
    requires IsValid(t) && Seconds(t) < 0x1_0000_0000
    ensures ToUnix(t) == Seconds(t)
  {
    hide U32, DayNumber, IsDate, MonthForm, YearForm;
    var y := if t.month <= 2 then t.year - 1 else t.year;
    var m := if t.month <= 2 then t.month + 12 else t.month;
    ClosedForm(t.year, t.month, t.day);
    DateFacts(t.year, t.month, t.day);
    FormBounds(y, m, t.day, DayNumber(t.year, t.month, t.day));
    U32Id(y);
    U32Id(YearForm(y));
    U32Id(YearForm(y) + MonthForm(m) + t.day);
    U32Id(DayNumber(t.year, t.month, t.day));
    U32Id(DayNumber(t.year, t.month, t.day) * 86400);
    U32Id(Seconds(t));
    FormIs(y, m);
  }

  lemma FormIs(y: nat, m: nat)
    ensures YearForm(y) == 365 * y + y / 4 - y / 100 + y / 400
    ensures MonthForm(m) == 30 * m + 3 * (m + 1) / 5
  {
  }

  lemma DateFacts(y: nat, m: nat, d: nat)
    requires IsDate(y, m, d)
    ensures y >= 1970 && 1 <= m <= 12 && 1 <= d <= 31
  {
  }

  lemma FormBounds(y: nat, m: nat, d: nat, n: nat)
    requires 1969 <= y && 3 <= m <= 14 && 1 <= d <= 31
    requires n == YearForm(y) + MonthForm(m) + d - 719561 && n <= LAST_DAY
    ensures y < 0x1_0000_0000 && 0 <= YearForm(y) < 0x1000_0000
  {
    assert y / 4 >= y / 100;
  }

  /** Converting a 32-bit time to a date and back. */
  lemma UnixRoundTrip(t: uint32)
    ensures IsValid(FromUnix(t)) && ToUnix(FromUnix(t)) == t
  {
    hide FromUnix, ToUnix, IsValid, Seconds;
    FromUnixMeaning(t);
    ToUnixMeaning(FromUnix(t));
  }

  // ---------------------------------------------------------------- order

  lemma {:induction false} YearsGrow(a: nat, b: nat)
    requires 1970 <= a < b
    ensures DaysBeforeYear(a) + YearLength(a) <= DaysBeforeYear(b)
    decreases b - a
  {
    if a + 1 < b {
      YearsGrow(a, b - 1);
    }
  }

  lemma {:induction false} MonthsGrow(y: nat, a: nat, b: nat)
    requires 1 <= a < b
    ensures DaysBeforeMonth(y, a) + MonthLength(y, a) <= DaysBeforeMonth(y, b)
    decreases b - a
  {
    if a + 1 < b {
      MonthsGrow(y, a, b - 1);
    }
  }

  lemma DayInYear(y: nat, m: nat, d: nat)
    requires IsDate(y, m, d)
    ensures DaysBeforeMonth(y, m) + d <= YearLength(y)
  {
    hide DaysBeforeMonth;
    DaysBeforeMonthForm(y, m);
  }

  /** Later dates have larger numbers. */
  lemma DayNumberGrows(y: nat, m: nat, d: nat, y': nat, m': nat, d': nat)
    requires IsDate(y, m, d) && IsDate(y', m', d')
    requires y < y' || (y == y' && (m < m' || (m == m' && d < d')))
    ensures DayNumber(y, m, d) < DayNumber(y', m', d')
  {
    hide IsLeap;
    DayInYear(y, m, d);
    if y < y' {
      YearsGrow(y, y');
    } else if m < m' {
      MonthsGrow(y, m, m');
    }
  }

  /** Milliseconds from 1970-01-01 00:00:00. */
  function Millis(t: DateTime): (n: nat)
    requires IsValid(t)
  {
    Seconds(t) * 1000 + t.milliseconds
  }

  /** `compareDateTime` orders valid dates as the instants they denote. */
  lemma CompareMeaning(a: DateTime, b: DateTime)
    requires IsValid(a) && IsValid(b)
    ensures Compare(a, b) < 0 <==> Millis(a) < Millis(b)
    ensures Compare(a, b) == 0 <==> Millis(a) == Millis(b)
    ensures Compare(a, b) > 0 <==> Millis(a) > Millis(b)
  {
    hide DayNumber, IsDate;
    var x, y := DayNumber(a.year, a.month, a.day), DayNumber(b.year, b.month, b.day);
    if a.year == b.year && a.month == b.month && a.day == b.day {
      assert x == y;
    } else if Compare(a, b) == -1 {
      DayNumberGrows(a.year, a.month, a.day, b.year, b.month, b.day);
    } else {
      DayNumberGrows(b.year, b.month, b.day, a.year, a.month, a.day);
    }
  }

  /** Converted dates compare as the times they come from. */
  lemma CompareConverted(s: uint32, t: uint32)
    ensures Compare(FromUnix(s), FromUnix(t)) < 0 <==> s < t
    ensures Compare(FromUnix(s), FromUnix(t)) == 0 <==> s == t
    ensures Compare(FromUnix(s), FromUnix(t)) > 0 <==> s > t
  {
    hide FromUnix, Compare, Seconds, IsValid;
    FromUnixMeaning(s);
    FromUnixMeaning(t);
    CompareMeaning(FromUnix(s), FromUnix(t));
  }

  /** Every valid date in the 32-bit range comes back from its time. */
  lemma DateRoundTrip(t: DateTime)
    requires IsValid(t) && Seconds(t) < 0x1_0000_0000 && t.milliseconds == 0
    ensures FromUnix(ToUnix(t)) == t.(dayOfWeek := DayOfWeek(t.year, t.month, t.day))
  {
    hide FromUnix, ToUnix, Seconds, DayOfWeek, IsDate;
    ToUnixMeaning(t);
    FromUnixMeaning(ToUnix(t));
    CompareMeaning(FromUnix(ToUnix(t)), t);
  }

  // ---------------------------------------------------------------- day of the week

  lemma Fifths(x: nat)
    ensures 26 * x / 10 == 2 * x + 3 * x / 5
  {
    var q, r := 3 * x / 5, 3 * x % 5;
    assert 3 * x == 5 * q + r;
    DivMod(26 * x, 10, 2 * x + q, 2 * r);
  }

  lemma CenturyForm(y: nat)
    ensures var j, k := y / 100, y % 100;
            YearForm(y) == 365 * y + (25 * j + k / 4) - j + j / 4
  {
    var j, k := y / 100, y % 100;
    DivMod(y, 4, 25 * j + k / 4, k % 4);
    DivMod(y, 400, j / 4, 100 * (j % 4) + k);
  }

  lemma SameRest(a: int, b: int, q: int)
    requires a == b + 7 * q
    ensures a % 7 == b % 7
  {
    DivMod(a, 7, b / 7 + q, b % 7);
  }

  /**
   * Zeller's congruence agrees with counting days from Thursday 1970-01-01, for every date and
   * across all leap and century rules.
   */
  lemma DayOfWeekMeaning(y: nat, m: nat, d: nat)
    requires IsDate(y, m, d)
    ensures DayOfWeek(y, m, d) == (DayNumber(y, m, d) + 3) % 7 + 1
  {
    hide YearForm, DayNumber, IsDate;
    ClosedForm(y, m, d);
    DateFacts(y, m, d);
    var m', y' := if m <= 2 then m + 12 else m, if m <= 2 then y - 1 else y;
    var j, k := y' / 100, y' % 100;
    CenturyForm(y');
    Fifths(m' + 1);
    var h := d + 26 * (m' + 1) / 10 + k + k / 4 + 5 * j + j / 4;
    assert y' == 100 * j + k;
    SameRest(DayNumber(y, m, d) + 3, h + 5, 5217 * j + 52 * k + 4 * m' - 102795);
  }

  /** The day of the week of a converted time. */
  lemma ConvertedDayOfWeek(t: uint32)
    ensures FromUnix(t).dayOfWeek == (t / 86400 + 3) % 7 + 1
  {
    hide FromUnix, DayNumber, DayOfWeek;
    FromUnixMeaning(t);
    var r := FromUnix(t);
    DayOfWeekMeaning(r.year, r.month, r.day);
    DivMod(t, 86400, DayNumber(r.year, r.month, r.day), r.hours * 3600 + r.minutes * 60 + r.seconds);
  }
}
