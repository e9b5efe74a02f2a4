/** The text of a minute as `time.Format(time.RFC3339Nano)` writes it in UTC, in
    the proleptic Gregorian calendar: with four-digit years it keeps the order
    of the minutes, as the comparisons of the aggregator need; not beyond. */
module MinuteText {
  import opened Keys
  import opened Usage
  import BigEndian
  import Decimal
  import Lex

  // ------------------------------------------------------------- the calendar

  predicate Leap(year: nat) {
    year % 4 == 0 && (year % 100 != 0 || year % 400 == 0)
  }

  function YearDays(year: nat): nat {
    if Leap(year) then 366 else 365
  }

  function MonthDays(year: nat, month: nat): nat {
    if month == 2 then (if Leap(year) then 29 else 28)
    else if month == 4 || month == 6 || month == 9 || month == 11 then 30
    else 31
  }

  /** The days of the years before `year`, from the year 0 on. */
  function DaysBefore(year: nat): nat {
    if year == 0 then 0 else DaysBefore(year - 1) + YearDays(year - 1)
  }

  /** Rounding up counts one more behind every multiple. */
  lemma Fours(n: nat)
    ensures (n + 4) / 4 == (n + 3) / 4 + if n % 4 == 0 then 1 else 0
  {
  }

  lemma Centuries(n: nat)
    ensures (n + 100) / 100 == (n + 99) / 100 + if n % 100 == 0 then 1 else 0
  {
  }

  lemma Cycles(n: nat)
    ensures (n + 400) / 400 == (n + 399) / 400 + if n % 400 == 0 then 1 else 0
  {
  }

  lemma MultipleOfHundred(m: nat)
    ensures 100 * m % 100 == 0
  {
  }

  lemma MultipleOfFour(m: nat)
    ensures 4 * m % 4 == 0
  {
  }

  lemma HundredsInCycles(n: nat)
    ensures n % 400 == 0 ==> n % 100 == 0
  {
    MultipleOfHundred(4 * (n / 400));
  }

  lemma FoursInHundreds(n: nat)
    ensures n % 100 == 0 ==> n % 4 == 0
  {
    MultipleOfFour(25 * (n / 100));
  }

  lemma LeapDay(n: nat)
    ensures YearDays(n) == 365 + (if n % 4 == 0 then 1 else 0) - (if n % 100 == 0 then 1 else 0) +
                           (if n % 400 == 0 then 1 else 0)
  {
    HundredsInCycles(n);
    FoursInHundreds(n);
  }

  lemma {:induction false} DaysBeforeIs(year: nat)
    ensures DaysBefore(year) == 365 * year + (year + 3) / 4 - (year + 99) / 100 + (year + 399) / 400
  {
    if year > 0 {
      DaysBeforeIs(year - 1);
      Fours(year - 1);
      Centuries(year - 1);
      Cycles(year - 1);
      LeapDay(year - 1);
    }
  }

  /** The year and the day within it that lie `day` days after the beginning of
      `year`, counting both from there. */
  function YearAndDay(day: nat, year: nat): (r: (nat, nat))
    ensures r.0 >= year && r.1 < YearDays(r.0)
    ensures day + DaysBefore(year) == DaysBefore(r.0) + r.1
  {
    if day < YearDays(year) then (year, day) else YearAndDay(day - YearDays(year), year + 1)
  }

  /** The month and the day of the month. */
  function MonthAndDay(day: nat, year: nat, month: nat): (r: (nat, nat))
    requires 1 <= month <= 12
    ensures month <= r.0 <= 12
    decreases 12 - month
  {
    if month == 12 || day < MonthDays(year, month) then (month, day + 1)
    else MonthAndDay(day - MonthDays(year, month), year, month + 1)
  }

  /** The days left from the beginning of a month to the end of its year. */
  function DaysFrom(year: nat, month: nat): nat
    requires 1 <= month <= 12
    decreases 12 - month
  {
    MonthDays(year, month) + if month == 12 then 0 else DaysFrom(year, month + 1)
  }

  lemma {:induction false} DayOfMonth(day: nat, year: nat, month: nat)
    requires 1 <= month <= 12 && day < DaysFrom(year, month)
    ensures 1 <= MonthAndDay(day, year, month).1 <= MonthDays(year, MonthAndDay(day, year, month).0)
    decreases 12 - month
  {
    if month < 12 && day >= MonthDays(year, month) {
      DayOfMonth(day - MonthDays(year, month), year, month + 1);
    }
  }

  lemma DaysOfYear(year: nat)
    ensures DaysFrom(year, 1) == YearDays(year)
  {
    assert DaysFrom(year, 9) == 122 by { assert DaysFrom(year, 11) == 61; }
    assert DaysFrom(year, 5) == 245 by { assert DaysFrom(year, 7) == 184; }
    assert DaysFrom(year, 3) == 306;
  }

  /** The Gregorian calendar repeats after 400 years. */
  const CYCLE: int := 146097

  /** Year, month, day, hour and minute of a minute. */
  datatype Civil = Civil(year: int, month: nat, day: nat, hour: nat, minute: nat)

  function CivilOf(m: int): Civil {
    var n := m - FIRST_MINUTE;
    var days := n / 1440;
    var y := YearAndDay(days % CYCLE, 0);
    var md := MonthAndDay(y.1, y.0, 1);
    Civil(days / CYCLE * 400 + y.0, md.0, md.1, n % 1440 / 60, n % 60)
  }

  // --------------------------------------------------------- order of the days

  lemma {:induction false} YearsAscend(d: nat, e: nat, year: nat)
    requires d < e
    ensures var a, b := YearAndDay(d, year), YearAndDay(e, year);
      a.0 < b.0 || (a.0 == b.0 && a.1 < b.1)
    decreases d
  {
    if d >= YearDays(year) {
      YearsAscend(d - YearDays(year), e - YearDays(year), year + 1);
    }
  }

  lemma {:induction false} MonthsAscend(d: nat, e: nat, year: nat, month: nat)
    requires d < e && 1 <= month <= 12
    ensures var a, b := MonthAndDay(d, year, month), MonthAndDay(e, year, month);
      a.0 < b.0 || (a.0 == b.0 && a.1 < b.1)
    decreases 12 - month
  {
    if month < 12 && d >= MonthDays(year, month) {
      MonthsAscend(d - MonthDays(year, month), e - MonthDays(year, month), year, month + 1);
    }
  }

  lemma {:induction false} DaysBeforeGrow(a: nat, b: nat)
    requires a <= b
    ensures DaysBefore(a) <= DaysBefore(b)
    decreases b
  {
    if a < b { DaysBeforeGrow(a, b - 1); }
  }

  /** Within a cycle the years are 0 to 399. */
  lemma YearOfCycle(d: nat)
    requires d < CYCLE
    ensures YearAndDay(d, 0).0 < 400
  {
    var y := YearAndDay(d, 0).0;
    DaysBeforeIs(400);
    if y >= 400 { DaysBeforeGrow(400, y); }
  }

  lemma CivilInRange(m: int)
    requires FourDigit(m)
    ensures var c := CivilOf(m);
      0 <= c.year < 10000 && 1 <= c.month <= 12 && 1 <= c.day <= 31 && c.hour < 24 && c.minute < 60
  {
    var days := (m - FIRST_MINUTE) / 1440;
    assert 0 <= days < CYCLE * 25;
    assert 0 <= days / CYCLE < 25;
    YearOfCycle(days % CYCLE);
    var y := YearAndDay(days % CYCLE, 0);
    DaysOfYear(y.0);
    DayOfMonth(y.1, y.0, 1);
  }

  /** One reading of the clock is before another. */
  predicate Before(a: Civil, b: Civil) {
    if a.year != b.year then a.year < b.year
    else if a.month != b.month then a.month < b.month
    else if a.day != b.day then a.day < b.day
    else if a.hour != b.hour then a.hour < b.hour
    else a.minute < b.minute
  }

  lemma CivilAscends(m: int, n: int)
    requires m < n
    ensures Before(CivilOf(m), CivilOf(n))
  {
    var d, e := (m - FIRST_MINUTE) / 1440, (n - FIRST_MINUTE) / 1440;
    if d < e {
      DatesAscend(d, e);
    } else {
      SameDay(m - FIRST_MINUTE, n - FIRST_MINUTE);
    }
  }

  lemma SameDay(m: int, n: int)
    requires m < n && m / 1440 == n / 1440
    ensures m % 1440 / 60 < n % 1440 / 60 || (m % 1440 / 60 == n % 1440 / 60 && m % 60 < n % 60)
  {
    var x, y := m % 1440, n % 1440;
    assert x < y && x % 60 == m % 60 && y % 60 == n % 60;
  }

  /** Years and days of two days counted from the year 0, the earlier first. */
  lemma DatesAscend(d: int, e: int)
    requires d < e
    ensures var a, b := YearAndDay(d % CYCLE, 0), YearAndDay(e % CYCLE, 0);
      var y, z := d / CYCLE * 400 + a.0, e / CYCLE * 400 + b.0;
      var p, q := MonthAndDay(a.1, a.0, 1), MonthAndDay(b.1, b.0, 1);
      y < z || (y == z && (p.0 < q.0 || (p.0 == q.0 && p.1 < q.1)))
  {
    YearOfCycle(d % CYCLE);
    YearOfCycle(e % CYCLE);
    if d / CYCLE == e / CYCLE {
      YearsAscend(d % CYCLE, e % CYCLE, 0);
      var a, b := YearAndDay(d % CYCLE, 0), YearAndDay(e % CYCLE, 0);
      if a.0 == b.0 { MonthsAscend(a.1, b.1, a.0, 1); }
    }
  }

  // ------------------------------------------------------------------ the text

  function Pow10(width: nat): nat {
    if width == 0 then 1 else 10 * Pow10(width - 1)
  }

  function Pad(n: nat, width: nat): (s: Bytes)
    ensures |s| == width && Decimal.AllDigits(s)
  {
    if width == 0 then [] else Pad(n / 10, width - 1) + [('0' as int + n % 10) as char]
  }

  lemma {:induction false} PadLess(m: nat, n: nat, width: nat)
    requires m < n < Pow10(width)
    ensures Lex.Less(Pad(m, width), Pad(n, width))
  {
    var x: Bytes, y: Bytes := [('0' as int + m % 10) as char], [('0' as int + n % 10) as char];
    if m / 10 < n / 10 {
      PadLess(m / 10, n / 10, width - 1);
      BigEndian.LessAppend(Pad(m / 10, width - 1), Pad(n / 10, width - 1), x, y);
    } else {
      Lex.CommonPrefix(Pad(m / 10, width - 1), x, y);
    }
  }

  function Numeral(n: nat): (s: Bytes)
    ensures s != [] && Decimal.AllDigits(s)
  {
    Decimal.Digits(n)
  }

  /** Years are padded to four digits, and longer when they need to be. */
  function YearText(year: int): (s: Bytes)
    ensures '|' !in s
  {
    if 0 <= year < 10000 then Pad(year, 4)
    else if year < 0 then "-" + (if -year < 10000 then Pad(-year, 4) else Numeral(-year))
    else Numeral(year)
  }

  /** `2006-01-02T15:04:05Z`: whole minutes have no fraction of a second. */
  function Written(c: Civil): (s: Bytes)
    ensures '|' !in s
    ensures 0 <= c.year < 10000 ==> |s| == 20
  {
    YearText(c.year) + ("-" + (Pad(c.month, 2) + ("-" + (Pad(c.day, 2) + ("T" + ClockText(c.hour, c.minute))))))
  }

  function ClockText(hour: nat, minute: nat): (s: Bytes)
    ensures |s| == 9 && '|' !in s
  {
    Pad(hour, 2) + (":" + (Pad(minute, 2) + ":00Z"))
  }

  /** The fields of a reading fit their columns. */
  predicate InColumns(c: Civil) {
    0 <= c.year < 10000 && c.month < 100 && c.day < 100 && c.hour < 100 && c.minute < 100
  }

  /** A smaller field decides, an equal one leaves it to the rest. */
  lemma FieldLess(m: nat, n: nat, width: nat, x: string, y: string)
    requires m < Pow10(width) && n < Pow10(width)
    requires m < n || (m == n && Lex.Less(x, y))
    ensures Lex.Less(Pad(m, width) + x, Pad(n, width) + y)
  {
    if m < n {
      PadLess(m, n, width);
      BigEndian.LessAppend(Pad(m, width), Pad(n, width), x, y);
    } else {
      Lex.CommonPrefix(Pad(m, width), x, y);
    }
  }

  lemma ClockLess(h: nat, m: nat, i: nat, n: nat)
    requires h < 100 && m < 100 && i < 100 && n < 100 && (h < i || (h == i && m < n))
    ensures Lex.Less(ClockText(h, m), ClockText(i, n))
  {
    assert Pow10(2) == 100 by { assert Pow10(1) == 10; }
    var x, y := Pad(m, 2) + ":00Z", Pad(n, 2) + ":00Z";
    if m < n {
      FieldLess(m, n, 2, ":00Z", ":00Z");
      Lex.CommonPrefix(":", x, y);
    }
    FieldLess(h, i, 2, ":" + x, ":" + y);
  }

  lemma WrittenLess(a: Civil, b: Civil)
    requires InColumns(a) && InColumns(b) && Before(a, b)
    ensures Lex.Less(Written(a), Written(b))
  {
    assert Pow10(2) == 100 by { assert Pow10(1) == 10; }
    assert Pow10(4) == 10000;
    var ct, du := ClockText(a.hour, a.minute), ClockText(b.hour, b.minute);
    if a.year == b.year && a.month == b.month && a.day == b.day {
      ClockLess(a.hour, a.minute, b.hour, b.minute);
      Lex.CommonPrefix("T", ct, du);
    }
    var ad, bd := Pad(a.day, 2) + ("T" + ct), Pad(b.day, 2) + ("T" + du);
    if a.year == b.year && a.month == b.month {
      FieldLess(a.day, b.day, 2, "T" + ct, "T" + du);
      Lex.CommonPrefix("-", ad, bd);
    }
    var am, bm := Pad(a.month, 2) + ("-" + ad), Pad(b.month, 2) + ("-" + bd);
    if a.year == b.year {
      FieldLess(a.month, b.month, 2, "-" + ad, "-" + bd);
      Lex.CommonPrefix("-", am, bm);
    }
    FieldLess(a.year, b.year, 4, "-" + am, "-" + bm);
  }

  /** The text of a minute. No year has so many digits that they fill a string. */
  function Render(m: int): Text {
    var s := Written(CivilOf(m));
    if |s| < 0x8000_0000_0000_0000 then s else []
  }

  lemma RenderLess(m: int, n: int)
    requires FourDigit(m) && FourDigit(n) && m < n
    ensures Lex.Less(Render(m), Render(n))
  {
    CivilInRange(m);
    CivilInRange(n);
    CivilAscends(m, n);
    WrittenLess(CivilOf(m), CivilOf(n));
  }

  /** Byte order is time order from the year 0000 to the year 9999. */
  lemma RenderMeetsRfc3339()
    ensures Rfc3339(Render)
  {
    forall m, n | FourDigit(m) && FourDigit(n) ensures m < n <==> Lex.Less(Render(m), Render(n)) {
      if m < n {
        RenderLess(m, n);
      } else if Lex.Less(Render(m), Render(n)) {
        Lex.Asymmetric(Render(m), Render(n));
        if n < m { RenderLess(n, m); }
      }
    }
  }

  lemma PadFirst(n: nat)
    ensures Pad(n, 4)[0] == ('0' as int + n / 1000 % 10) as char
  {
    assert Pad(n, 4)[0] == Pad(n / 10, 3)[0] == Pad(n / 10 / 10, 2)[0] == Pad(n / 10 / 10 / 10, 1)[0];
    assert n / 10 / 10 / 10 == n / 1000;
  }

  lemma TenThousand()
    ensures Numeral(10000)[0] == '1' && |Numeral(10000)| == 5
  {
    assert Decimal.Digits(100)[0] == '1' && |Decimal.Digits(100)| == 3 by { assert Decimal.Digits(10)[0] == '1'; }
    assert Decimal.Digits(1000)[0] == '1' && |Decimal.Digits(1000)| == 4;
  }

  lemma YearsAtTheEnd()
    ensures CivilOf(END_MINUTE).year == 10000 && 9600 <= CivilOf(END_MINUTE - 1).year < 10000
  {
    var days := (END_MINUTE - 1 - FIRST_MINUTE) / 1440;
    assert days == 24 * CYCLE + (CYCLE - 1);
    assert (END_MINUTE - FIRST_MINUTE) / 1440 == 25 * CYCLE;
    YearOfCycle(CYCLE - 1);
  }

  lemma FirstDigit(c: Civil)
    requires 9600 <= c.year < 10000
    ensures Written(c)[0] == '9'
  {
    PadFirst(c.year);
  }

  lemma FiveDigits(c: Civil)
    requires c.year == 10000
    ensures Written(c)[0] == '1' && |Written(c)| == 21
  {
    TenThousand();
  }

  /** The first minute with a five-digit year sorts before the one it follows. */
  lemma TenThousandSortsFirst()
    ensures Lex.Less(Render(END_MINUTE), Render(END_MINUTE - 1))
  {
    YearsAtTheEnd();
    FiveDigits(CivilOf(END_MINUTE));
    FirstDigit(CivilOf(END_MINUTE - 1));
  }

  /** From the year 0000 and before minute `t`, byte order is time order. */
  ghost predicate SortsUpTo(t: int) {
    forall m, n :: FIRST_MINUTE <= m < t && FIRST_MINUTE <= n < t ==> (m < n <==> Lex.Less(Render(m), Render(n)))
  }

  /** Texts sort as times exactly up to the end of the year 9999. */
  lemma SortingIsExact(t: int)
    ensures SortsUpTo(t) <==> t <= END_MINUTE
  {
    if t <= END_MINUTE {
      RenderMeetsRfc3339();
    } else {
      TenThousandSortsFirst();
      Lex.Asymmetric(Render(END_MINUTE), Render(END_MINUTE - 1));
    }
  }

  // ------------------------------------------------------- minute after minute

  /** The last day of a month of the Gregorian calendar. */
  function LastDay(year: int, month: nat): nat {
    if month == 2 then (if year % 4 == 0 && (year % 100 != 0 || year % 400 == 0) then 29 else 28)
    else 30 + (month + month / 8) % 2
  }

  function NextDate(c: Civil): Civil {
    if c.day < LastDay(c.year, c.month) then Civil(c.year, c.month, c.day + 1, 0, 0)
    else if c.month < 12 then Civil(c.year, c.month + 1, 1, 0, 0)
    else Civil(c.year + 1, 1, 1, 0, 0)
  }

  /** What a clock with a calendar shows a minute later. */
  function NextMinute(c: Civil): Civil {
    if c.minute < 59 then c.(minute := c.minute + 1)
    else if c.hour < 23 then c.(hour := c.hour + 1, minute := 0)
    else NextDate(c)
  }

  /** The day after is the next of the year, or the first of the next. */
  lemma {:induction false} NextYearDay(day: nat, year: nat)
    ensures var a, b := YearAndDay(day, year), YearAndDay(day + 1, year);
      b == if a.1 + 1 < YearDays(a.0) then (a.0, a.1 + 1) else (a.0 + 1, 0)
    decreases day
  {
    if day >= YearDays(year) {
      NextYearDay(day - YearDays(year), year + 1);
    }
  }

  lemma {:induction false} NextMonthDay(day: nat, year: nat, month: nat)
    requires 1 <= month <= 12 && day + 1 < DaysFrom(year, month)
    ensures FollowsInYear(year, MonthAndDay(day, year, month), MonthAndDay(day + 1, year, month))
    decreases 12 - month
  {
    var n := MonthDays(year, month);
    if month < 12 && day >= n {
      NextMonthDay(day - n, year, month + 1);
      assert MonthAndDay(day, year, month) == MonthAndDay(day - n, year, month + 1);
      assert MonthAndDay(day + 1, year, month) == MonthAndDay(day - n + 1, year, month + 1);
    } else if month < 12 && day + 1 == n {
      assert MonthAndDay(day + 1, year, month) == MonthAndDay(0, year, month + 1) == (month + 1, 1);
    }
  }

  predicate FollowsInYear(year: nat, a: (nat, nat), b: (nat, nat)) {
    if a.1 < MonthDays(year, a.0) then b == (a.0, a.1 + 1) else a.0 < 12 && b == (a.0 + 1, 1)
  }

  lemma {:induction false} LastOfYear(day: nat, year: nat, month: nat)
    requires 1 <= month <= 12 && day + 1 == DaysFrom(year, month)
    ensures MonthAndDay(day, year, month) == (12, 31)
    decreases 12 - month
  {
    if month < 12 {
      LastOfYear(day - MonthDays(year, month), year, month + 1);
    }
  }

  lemma AtLeast(k: int, d: int)
    requires k >= 1 && d > 0
    ensures k * d >= d
  {
    assert (k - 1) * d >= 0;
  }

  lemma DivisionIs(x: int, q: int, r: int, d: int)
    requires d > 0 && 0 <= r < d && x == q * d + r
    ensures x / d == q && x % d == r
  {
    var p := x / d;
    assert (p - q) * d == p * d - q * d == r - x % d;
    if p > q {
      AtLeast(p - q, d);
    } else if p < q {
      AtLeast(q - p, d);
    }
  }

  /** Counting up by one carries over exactly at the end. */
  lemma CountUp(x: int, d: int)
    requires d > 1
    ensures if x % d == d - 1 then (x + 1) / d == x / d + 1 && (x + 1) % d == 0
            else (x + 1) / d == x / d && (x + 1) % d == x % d + 1
  {
    var q, r := x / d, x % d;
    assert x == q * d + r;
    if r == d - 1 {
      assert x + 1 == (q + 1) * d + 0;
      DivisionIs(x + 1, q + 1, 0, d);
    } else {
      DivisionIs(x + 1, q, r + 1, d);
    }
  }

  lemma ModShift(y: int, k: int, d: int)
    requires d > 0
    ensures (k * d + y) % d == y % d
  {
    var q, r := y / d, y % d;
    assert k * d + y == (k + q) * d + r;
    DivisionIs(k * d + y, k + q, r, d);
  }

  /** The date of a day, counted from the beginning of the year 0. */
  function DateOf(d: int): Civil {
    DateIn(d / CYCLE, YearAndDay(d % CYCLE, 0))
  }

  function DateIn(cycles: int, y: (nat, nat)): Civil {
    var md := MonthAndDay(y.1, y.0, 1);
    Civil(cycles * 400 + y.0, md.0, md.1, 0, 0)
  }

  lemma SameLeap(y: nat, cycles: int, month: nat)
    requires 1 <= month <= 12
    ensures LastDay(cycles * 400 + y, month) == MonthDays(y, month)
  {
    ModShift(y, 100 * cycles, 4);
    ModShift(y, 4 * cycles, 100);
    ModShift(y, cycles, 400);
    SameDays(cycles * 400 + y, y, month);
  }

  lemma SameDays(x: int, y: nat, month: nat)
    requires 1 <= month <= 12 && x % 4 == y % 4 && x % 100 == y % 100 && x % 400 == y % 400
    ensures LastDay(x, month) == MonthDays(y, month)
  {
  }

  lemma LastOfCycle()
    ensures YearAndDay(CYCLE - 1, 0) == (399, 364)
  {
    var r := YearAndDay(CYCLE - 1, 0);
    YearOfCycle(CYCLE - 1);
    DaysBeforeIs(399);
    DaysBeforeIs(400);
    if r.0 < 399 { DaysBeforeGrow(r.0 + 1, 399); }
  }

  lemma NextInYear(y: (nat, nat), cycles: int)
    requires y.1 + 1 < YearDays(y.0)
    ensures DateIn(cycles, (y.0, y.1 + 1)) == NextDate(DateIn(cycles, y))
  {
    DaysOfYear(y.0);
    NextMonthDay(y.1, y.0, 1);
    SameLeap(y.0, cycles, MonthAndDay(y.1, y.0, 1).0);
  }

  lemma NextYear(y: (nat, nat), cycles: int)
    requires y.1 + 1 == YearDays(y.0)
    ensures NextDate(DateIn(cycles, y)) == Civil(cycles * 400 + y.0 + 1, 1, 1, 0, 0)
  {
    DaysOfYear(y.0);
    LastOfYear(y.1, y.0, 1);
  }

  lemma NewYear(y: nat, cycles: int)
    ensures DateIn(cycles, (y, 0)) == Civil(cycles * 400 + y, 1, 1, 0, 0)
  {
  }

  lemma DayAfterDay(d: int)
    ensures DateOf(d + 1) == NextDate(DateOf(d))
  {
    var cycles: int, n: nat := d / CYCLE, d % CYCLE;
    var y := YearAndDay(n, 0);
    CountUp(d, CYCLE);
    if n == CYCLE - 1 {
      LastOfCycle();
      NextYear(y, cycles);
      NewYear(0, cycles + 1);
    } else {
      NextYearDay(n, 0);
      if y.1 + 1 < YearDays(y.0) {
        NextInYear(y, cycles);
      } else {
        NextYear(y, cycles);
        NewYear(y.0 + 1, cycles);
      }
    }
  }

  lemma Beginning()
    ensures CivilOf(0) == Civil(1, 1, 1, 0, 0)
  {
    var y := YearAndDay(366, 0);
    NextYearDay(365, 0);
    assert YearAndDay(365, 0) == (0, 365);
    NewYear(1, 0);
  }

  function CivilAt(d: int, t: nat): Civil {
    DateOf(d).(hour := t / 60, minute := t % 60)
  }

  lemma CivilIs(m: int)
    ensures CivilOf(m) == CivilAt((m - FIRST_MINUTE) / 1440, (m - FIRST_MINUTE) % 1440)
  {
    ModOfMod(m - FIRST_MINUTE);
  }

  lemma NextOnClock(d: int, t: nat)
    requires t < 1439
    ensures CivilAt(d, t + 1) == NextMinute(CivilAt(d, t))
  {
    CountUp(t, 60);
  }

  lemma Midnight(d: int)
    ensures CivilAt(d + 1, 0) == NextMinute(CivilAt(d, 1439))
  {
    DayAfterDay(d);
  }

  /** The calendar begins on the first of January of the year 1, at midnight, and
      counts as a Gregorian calendar does, backwards and forwards. */
  lemma CivilCounts(m: int)
    ensures CivilOf(0) == Civil(1, 1, 1, 0, 0)
    ensures CivilOf(m + 1) == NextMinute(CivilOf(m))
  {
    var n := m - FIRST_MINUTE;
    Beginning();
    CivilIs(m);
    CivilIs(m + 1);
    CountUp(n, 1440);
    if n % 1440 == 1439 {
      Midnight(n / 1440);
    } else {
      NextOnClock(n / 1440, n % 1440);
    }
  }

  lemma ModOfMod(n: int)
    ensures n % 60 == n % 1440 % 60
  {
    ModShift(n % 1440, 24 * (n / 1440), 60);
  }

  // ------------------------------------------------------------ reading it back

  lemma {:induction false} PadReads(n: nat, width: nat)
    requires n < Pow10(width)
    ensures Decimal.Value(Pad(n, width)) == n
  {
    if width > 0 {
      PadReads(n / 10, width - 1);
      assert Pad(n, width)[..width - 1] == Pad(n / 10, width - 1);
    }
  }

  /** `2006-01-02T15:04:00Z`: each field in its column. */
  ghost predicate Reads(s: string, c: Civil) {
    && |s| == 20 && s[4] == '-' && s[7] == '-' && s[10] == 'T' && s[13] == ':' && s[16..] == ":00Z"
    && ReadsAs(s[..4], c.year) && ReadsAs(s[5..7], c.month) && ReadsAs(s[8..10], c.day)
    && ReadsAs(s[11..13], c.hour) && ReadsAs(s[14..16], c.minute)
  }

  predicate ReadsAs(s: string, n: int) {
    Decimal.AllDigits(s) && Decimal.Value(s) == n
  }

  /** The text of a minute of a four-digit year is its date and its time of day. */
  lemma RenderReads(m: int)
    requires FourDigit(m)
    ensures Reads(Render(m), CivilOf(m))
  {
    var c := CivilOf(m);
    CivilInRange(m);
    assert Pow10(2) == 100 && Pow10(4) == 10000 by { assert Pow10(1) == 10; }
    PadReads(c.year, 4);
    PadReads(c.month, 2);
    PadReads(c.day, 2);
    PadReads(c.hour, 2);
    PadReads(c.minute, 2);
    InTheirColumns(Pad(c.year, 4), Pad(c.month, 2), Pad(c.day, 2), Pad(c.hour, 2), Pad(c.minute, 2), Render(m));
  }

  lemma InTheirColumns(y: string, m: string, d: string, h: string, min: string, s: string)
    requires |y| == 4 && |m| == 2 && |d| == 2 && |h| == 2 && |min| == 2
    requires s == y + ("-" + (m + ("-" + (d + ("T" + (h + (":" + (min + ":00Z"))))))))
    ensures |s| == 20 && s[4] == '-' && s[7] == '-' && s[10] == 'T' && s[13] == ':' && s[16..] == ":00Z"
    ensures s[..4] == y && s[5..7] == m && s[8..10] == d && s[11..13] == h && s[14..16] == min
  {
    var t5 := min + ":00Z";
    var t4 := h + (":" + t5);
    var t3 := d + ("T" + t4);
    var t2 := m + ("-" + t3);
    assert s == y + ("-" + t2) && s[5..] == t2 && s[8..] == t3 && s[11..] == t4 && s[14..] == t5;
  }

  /** A year is written with a sign if it is negative and with four digits at least. */
  lemma YearReads(year: int)
    ensures var s := YearText(year); var d := if year < 0 then s[1..] else s;
      && (year < 0 ==> s[0] == '-') && |d| >= 4 && ReadsAs(d, if year < 0 then -year else year)
      && (|d| > 4 ==> d[0] != '0')
  {
    var n := if year < 0 then -year else year;
    assert Pow10(4) == 10000 by { assert Pow10(2) == 100; }
    if n < 10000 {
      PadReads(n, 4);
    } else {
      Decimal.ValueOfDigits(n);
      FourDigits(n);
    }
    assert year < 0 ==> YearText(year)[1..] == (if n < 10000 then Pad(n, 4) else Numeral(n));
  }

  lemma FourDigits(n: nat)
    requires n >= 1000
    ensures |Decimal.Digits(n)| >= 4
  {
    assert |Decimal.Digits(n / 10)| >= 3 by { assert |Decimal.Digits(n / 10 / 10)| >= 2; }
  }
}
