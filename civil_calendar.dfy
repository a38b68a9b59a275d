/** The proleptic Gregorian calendar and the vendored days-to-date routine
    (Proposition 6.3 of Neri and Schneider, "Euclidean Affine Functions and
    Applications to Calendar Algorithms"), which writes a day count since
    1970-01-01 as YYYY-MM-DD.

    DaysFromCivil is the reference: it counts days, with 1970-01-01 as day 0,
    and every later valid date gets one more than its predecessor. The
    routine's arithmetic is modelled twice: step by step on unbounded
    integers (MarchSplit), which CivilFromDays uses for any day count, and
    exactly as the uint32 code computes it (WriteDaySinceEpochAsYyyyMmDd). */
module CivilCalendar {
  import opened Common

  datatype Date = Date(year: int, month: int, day: int)

  predicate IsLeap(y: int) { y % 4 == 0 && (y % 100 != 0 || y % 400 == 0) }

  function DaysInMonth(y: int, m: int): (n: int)
    requires 1 <= m <= 12
    ensures 28 <= n <= 31
  {
    if m == 2 then (if IsLeap(y) then 29 else 28)
    else if m == 4 || m == 6 || m == 9 || m == 11 then 30
    else 31
  }

  predicate ValidDate(d: Date) { 1 <= d.month <= 12 && 1 <= d.day <= DaysInMonth(d.year, d.month) }

  /** The day after a valid date. */
  function NextDate(d: Date): (n: Date)
    requires ValidDate(d)
    ensures ValidDate(n)
  {
    if d.day < DaysInMonth(d.year, d.month) then Date(d.year, d.month, d.day + 1)
    else if d.month < 12 then Date(d.year, d.month + 1, 1)
    else Date(d.year + 1, 1, 1)
  }

  // The routine counts in "March years": a year starts on March 1 so that
  // the leap day is the last day of the year. Month index 0 is March,
  // 11 is February of the following calendar year.

  /** Days from March 1 of year 0 to March 1 of year y. */
  function YearStart(y: int): int { 365 * y + y / 4 - y / 100 + y / 400 }

  /** Days from March 1 to the first day of month index mp. */
  function MonthStart(mp: int): int
    requires 0 <= mp <= 11
  {
    (153 * mp + 2) / 5
  }

  function MarchMonthLength(y: int, mp: int): int
    requires 0 <= mp <= 11
  {
    if mp == 11 then (if IsLeap(y + 1) then 29 else 28) else MonthStart(mp + 1) - MonthStart(mp)
  }

  function MarchYear(d: Date): int { if d.month <= 2 then d.year - 1 else d.year }

  function MarchMonth(d: Date): int
    requires 1 <= d.month <= 12
  {
    if d.month > 2 then d.month - 3 else d.month + 9
  }

  /** Days since 1970-01-01 (negative before it). */
  function DaysFromCivil(d: Date): int
    requires 1 <= d.month <= 12
  {
    YearStart(MarchYear(d)) + MonthStart(MarchMonth(d)) + d.day - 1 - 719468
  }

  lemma EpochIsDayZero()
    ensures DaysFromCivil(Date(1970, 1, 1)) == 0
  {
  }

  lemma {:induction false} DivModUnique(x: int, d: int, q: int, r: int)
    requires d > 0 && 0 <= r < d && x == d * q + r
    ensures x / d == q && x % d == r
  {
    var q', r' := x / d, x % d;
    assert d * (q - q') == r' - r;
    if q > q' {
      MulAtLeast(d, q - q');
    } else if q < q' {
      MulAtLeast(d, q' - q);
    }
  }

  lemma {:induction false} MulAtLeast(d: int, k: int)
    requires d > 0 && k >= 1
    ensures d * k >= d
  {
  }

  /** A March year is 365 days long, 366 when the February it ends with is a leap month. */
  lemma {:induction false} YearStartStep(y: int)
    ensures YearStart(y + 1) == YearStart(y) + 365 + (if IsLeap(y + 1) then 1 else 0)
  {
    FloorStep(y, 4);
    FloorStep(y, 100);
    FloorStep(y, 400);
  }

  /** Floor division steps up by one exactly at a multiple of the divisor. */
  lemma {:induction false} FloorStep(y: int, d: int)
    requires d > 0
    ensures (y + 1) / d == y / d + (if (y + 1) % d == 0 then 1 else 0)
  {
    var z := y + 1;
    if z % d == 0 {
      DivModUnique(y, d, z / d - 1, d - 1);
    } else {
      DivModUnique(y, d, z / d, z % d - 1);
    }
  }

  /** Moving 400 years moves 146097 days; the leap rule repeats every 400 years. */
  lemma {:induction false} YearStartShift(y: int, k: int)
    ensures YearStart(y + 400 * k) == YearStart(y) + 146097 * k
    ensures IsLeap(y + 400 * k) == IsLeap(y)
  {
    DivModUnique(y + 400 * k, 4, y / 4 + 100 * k, y % 4);
    DivModUnique(y + 400 * k, 100, y / 100 + 4 * k, y % 100);
    DivModUnique(y + 400 * k, 400, y / 400 + k, y % 400);
  }

  lemma {:induction false} YearStartMonotone(a: int, b: int)
    requires a <= b
    ensures YearStart(a) + 365 * (b - a) <= YearStart(b)
    decreases b - a
  {
    if a < b {
      YearStartMonotone(a, b - 1);
      YearStartStep(b - 1);
    }
  }

  /** Every valid date lies on the day one less than the day after it. */
  lemma {:induction false} DaysFromCivilNext(d: Date)
    requires ValidDate(d)
    ensures DaysFromCivil(NextDate(d)) == DaysFromCivil(d) + 1
  {
    if d.day < DaysInMonth(d.year, d.month) {
      NextDayInMonth(d);
    } else if d.month == 2 {
      NextDayAfterFebruary(d);
    } else {
      NextDayAfterMonthEnd(d);
    }
  }

  lemma NextDayInMonth(d: Date)
    requires ValidDate(d) && d.day < DaysInMonth(d.year, d.month)
    ensures DaysFromCivil(NextDate(d)) == DaysFromCivil(d) + 1
  {
    assert NextDate(d) == d.(day := d.day + 1);
  }

  /** The last day of February ends a March year. */
  lemma NextDayAfterFebruary(d: Date)
    requires ValidDate(d) && d.month == 2 && d.day == DaysInMonth(d.year, d.month)
    ensures DaysFromCivil(NextDate(d)) == DaysFromCivil(d) + 1
  {
    YearStartStep(d.year - 1);
    assert NextDate(d) == Date(d.year, 3, 1);
    assert MonthStart(MarchMonth(d)) == 337;
  }

  /** The last day of any other month moves to the next month of the same March year. */
  lemma NextDayAfterMonthEnd(d: Date)
    requires ValidDate(d) && d.month != 2 && d.day == DaysInMonth(d.year, d.month)
    ensures DaysFromCivil(NextDate(d)) == DaysFromCivil(d) + 1
  {
    var mp := MarchMonth(d);
    MonthStartNext(mp);
    var n := NextDate(d);
    assert MarchYear(n) == MarchYear(d) && MarchMonth(n) == mp + 1 && n.day == 1;
  }

  /** The March-year months from March to January and their lengths. */
  lemma {:induction false} MonthStartNext(mp: int)
    requires 0 <= mp <= 10
    ensures MonthStart(mp + 1) == MonthStart(mp) + (if mp == 1 || mp == 3 || mp == 6 || mp == 8 then 30 else 31)
  {
    if mp == 0 {
    } else if mp == 1 {
    } else if mp == 2 {
    } else if mp == 3 {
    } else if mp == 4 {
    } else if mp == 5 {
    } else if mp == 6 {
    } else if mp == 7 {
    } else if mp == 8 {
    } else if mp == 9 {
    }
  }

  /** A date in March-year terms: year, month index 0..11, zero-based day. */
  datatype MarchDate = MarchDate(year: int, monthIndex: int, dayIndex: int)

  predicate ValidMarchDate(m: MarchDate)
  {
    0 <= m.monthIndex <= 11 && 0 <= m.dayIndex < MarchMonthLength(m.year, m.monthIndex)
  }

  function MarchDayNumber(m: MarchDate): int
    requires 0 <= m.monthIndex <= 11
  {
    YearStart(m.year) + MonthStart(m.monthIndex) + m.dayIndex
  }

  /** The routine's last step: from March-year terms back to the calendar
      (the routine's j flag is monthIndex >= 10, i.e. January or February). */
  function ToCivil(m: MarchDate): (d: Date)
    requires ValidMarchDate(m)
    ensures ValidDate(d)
    ensures DaysFromCivil(d) == MarchDayNumber(m) - 719468
  {
    var j := m.monthIndex >= 10;
    Date(if j then m.year + 1 else m.year, if j then m.monthIndex - 9 else m.monthIndex + 3, m.dayIndex + 1)
  }

  /** A quotient and the remainder the next step works on. */
  datatype Split = Split(q: int, r: int)

  /** First step, on the 400-year cycle (source lines 19-21). */
  function CenturyStep(n: int): Split
  {
    var n1 := 4 * n + 3;
    Split(n1 / 146097, n1 % 146097 / 4)
  }

  /** Second step, on the 4-year cycle (source lines 24-27, with the
      multiply-and-shift written as the division it stands for). */
  function YearStep(r1: int): Split
  {
    var n2 := 4 * r1 + 3;
    Split(n2 / 1461, n2 % 1461 / 4)
  }

  /** Third step: month and day from the day of the March year (source lines 30-32). */
  function MonthStep(r2: int): Split
  {
    var n3 := 2141 * r2 + 197913;
    Split(n3 / 65536, n3 % 65536 / 2141)
  }

  /** N = 36524 q1 + q1/4 + r1: q1 counts centuries, r1 is the day in the century. */
  lemma {:induction false} CenturySplit(n: int)
    requires n >= 0
    ensures var c := CenturyStep(n);
      c.q >= 0 && n == 36524 * c.q + c.q / 4 + c.r && 0 <= c.r <= 36524 && (c.r == 36524 ==> c.q % 4 == 3)
  {
    var n1 := 4 * n + 3;
    var q1 := n1 / 146097;
    var rho := n1 % 146097;
    assert n1 == 146097 * q1 + rho;
    var a, b, c, e := q1 / 4, q1 % 4, rho / 4, rho % 4;
    assert q1 == 4 * a + b && rho == 4 * c + e;
    assert 4 * n + 3 == 4 * (36524 * q1 + a + c) + b + e;
    assert b + e == 3;
  }

  /** r1 = 365 q2 + q2/4 + r2: q2 counts years in the century, r2 is the day in the March year. */
  lemma {:induction false} YearSplit(r1: int)
    requires 0 <= r1 <= 36524
    ensures var y := YearStep(r1);
      0 <= y.q <= 99 && 0 <= y.r <= 365 && r1 == 365 * y.q + y.q / 4 + y.r
      && (y.r == 365 ==> y.q % 4 == 3 && (y.q == 99 ==> r1 == 36524))
  {
    var n2 := 4 * r1 + 3;
    var q2 := n2 / 1461;
    var s := n2 % 1461;
    assert n2 == 1461 * q2 + s;
    var a, b, c, e := q2 / 4, q2 % 4, s / 4, s % 4;
    assert q2 == 4 * a + b && s == 4 * c + e;
    assert 4 * r1 + 3 == 4 * (365 * q2 + a + c) + b + e;
    assert b + e == 3;
  }

  /** q3 is the month (3 = March .. 14 = February), r3 the zero-based day in it. */
  lemma {:induction false} MonthSplit(r2: int)
    requires 0 <= r2 <= 365
    ensures var m := MonthStep(r2);
      3 <= m.q <= 14 && MonthStart(m.q - 3) + m.r == r2 && 0 <= m.r <= 30
      && (m.q < 14 ==> r2 < MonthStart(m.q - 2))
  {
    if r2 < 31 { MonthSplitCase(r2, 0, 1305); }
    else if r2 < 61 { MonthSplitCase(r2, 1, 2140); }
    else if r2 < 92 { MonthSplitCase(r2, 2, 834); }
    else if r2 < 122 { MonthSplitCase(r2, 3, 1669); }
    else if r2 < 153 { MonthSplitCase(r2, 4, 363); }
    else if r2 < 184 { MonthSplitCase(r2, 5, 1198); }
    else if r2 < 214 { MonthSplitCase(r2, 6, 2033); }
    else if r2 < 245 { MonthSplitCase(r2, 7, 727); }
    else if r2 < 275 { MonthSplitCase(r2, 8, 1562); }
    else if r2 < 306 { MonthSplitCase(r2, 9, 256); }
    else if r2 < 337 { MonthSplitCase(r2, 10, 1091); }
    else { MonthSplitCase(r2, 11, 1926); }
  }

  /** Within month index mp, whose first day makes 2141 r2 + 197913 land c
      past (mp + 3) * 65536, the month step gives mp + 3 and the day in it. */
  lemma {:induction false} MonthSplitCase(r2: int, mp: int, c: int)
    requires 0 <= mp <= 11 && MonthStart(mp) <= r2 && 0 <= c < 2141
    requires 2141 * MonthStart(mp) + 197913 == 65536 * (mp + 3) + c
    requires 2141 * (r2 - MonthStart(mp)) + c < 65536
    ensures MonthStep(r2) == Split(mp + 3, r2 - MonthStart(mp))
  {
    var lo := MonthStart(mp);
    var rest := 2141 * (r2 - lo) + c;
    DivModUnique(2141 * r2 + 197913, 65536, mp + 3, rest);
    DivModUnique(rest, 2141, r2 - lo, c);
  }

  /** The routine's arithmetic on a non-negative day number (days since
      March 1 of year 0), on unbounded integers. */
  function MarchSplit(n: nat): MarchDate
  {
    var century := CenturyStep(n);
    var year := YearStep(century.r);
    var month := MonthStep(year.r);
    MarchDate(100 * century.q + year.q, month.q - 3, month.r)
  }

  /** The three steps together name the valid March date with that number. */
  lemma {:induction false} MarchSplitCorrect(n: nat)
    ensures ValidMarchDate(MarchSplit(n))
    ensures MarchDayNumber(MarchSplit(n)) == n
  {
    var century := CenturyStep(n);
    CenturySplit(n);
    var year := YearStep(century.r);
    YearSplit(century.r);
    MonthSplit(year.r);
    var q1, q2 := century.q, year.q;
    YearStartOfSplit(q1, q2);
    var m := MarchSplit(n);
    if m.monthIndex == 11 && m.dayIndex == 28 {
      assert year.r == 365;
      LeapOfSplit(q1, q2);
    }
  }

  lemma {:induction false} YearStartOfSplit(q1: int, q2: int)
    requires q1 >= 0 && 0 <= q2 <= 99
    ensures YearStart(100 * q1 + q2) == 36524 * q1 + q1 / 4 + 365 * q2 + q2 / 4
  {
    var y := 100 * q1 + q2;
    DivModUnique(y, 4, 25 * q1 + q2 / 4, q2 % 4);
    DivModUnique(y, 100, q1, q2);
    DivModUnique(y, 400, q1 / 4, 100 * (q1 % 4) + q2);
  }

  /** The year after a fourth year of a four-year cycle is a leap year,
      unless it starts a century that is not a fourth century. */
  lemma {:induction false} LeapOfSplit(q1: int, q2: int)
    requires q1 >= 0 && 0 <= q2 <= 99 && q2 % 4 == 3 && (q2 == 99 ==> q1 % 4 == 3)
    ensures IsLeap(100 * q1 + q2 + 1)
  {
    var y := 100 * q1 + q2;
    if q2 == 99 {
      DivModUnique(y + 1, 400, q1 / 4 + 1, 0);
    } else {
      DivModUnique(y + 1, 100, q1, q2 + 1);
      DivModUnique(y + 1, 4, 25 * q1 + q2 / 4 + 1, 0);
    }
  }

  /** Calendar date of any day count, as gmtime_r computes it for the date part. */
  function CivilFromDays(z: int): (d: Date)
    ensures ValidDate(d)
    ensures DaysFromCivil(d) == z
  {
    var era := (z + 719468) / 146097;
    var n := (z + 719468) % 146097;
    ShiftedSplitCorrect(n, era);
    ToCivil(ShiftedSplit(n, era))
  }

  /** MarchSplit moved by a whole number of 400-year eras. */
  function ShiftedSplit(n: nat, era: int): MarchDate
  {
    ShiftEras(MarchSplit(n), era)
  }

  function ShiftEras(m: MarchDate, era: int): MarchDate
  {
    MarchDate(m.year + 400 * era, m.monthIndex, m.dayIndex)
  }

  lemma {:induction false} ShiftedSplitCorrect(n: nat, era: int)
    ensures ValidMarchDate(ShiftedSplit(n, era))
    ensures MarchDayNumber(ShiftedSplit(n, era)) == n + 146097 * era
  {
    MarchSplitCorrect(n);
    MarchDateShift(MarchSplit(n), era);
  }

  lemma {:induction false} MarchDateShift(m: MarchDate, era: int)
    requires ValidMarchDate(m)
    ensures ValidMarchDate(ShiftEras(m, era))
    ensures MarchDayNumber(ShiftEras(m, era)) == MarchDayNumber(m) + 146097 * era
  {
    YearStartShift(m.year, era);
    YearStartShift(m.year + 1, era);
    assert m.year + 1 + 400 * era == m.year + 400 * era + 1;
  }

  lemma {:induction false} MarchDayNumberInjective(a: MarchDate, b: MarchDate)
    requires ValidMarchDate(a) && ValidMarchDate(b) && MarchDayNumber(a) == MarchDayNumber(b)
    ensures a == b
  {
    if a.year < b.year {
      YearStartStep(a.year);
      YearStartMonotone(a.year + 1, b.year);
      assert false;
    } else if b.year < a.year {
      YearStartStep(b.year);
      YearStartMonotone(b.year + 1, a.year);
      assert false;
    }
  }

  function ToMarch(d: Date): (m: MarchDate)
    requires ValidDate(d)
    ensures ValidMarchDate(m) && ToCivil(m) == d
    ensures MarchDayNumber(m) - 719468 == DaysFromCivil(d)
  {
    MarchDate(MarchYear(d), MarchMonth(d), d.day - 1)
  }

  /** Distinct valid dates have distinct day counts. */
  lemma {:induction false} DaysFromCivilInjective(a: Date, b: Date)
    requires ValidDate(a) && ValidDate(b) && DaysFromCivil(a) == DaysFromCivil(b)
    ensures a == b
  {
    MarchDayNumberInjective(ToMarch(a), ToMarch(b));
  }

  /** CivilFromDays and DaysFromCivil are inverse bijections between day
      counts and valid dates. */
  lemma {:induction false} CivilFromDaysRoundTrip(d: Date)
    requires ValidDate(d)
    ensures CivilFromDays(DaysFromCivil(d)) == d
  {
    DaysFromCivilInjective(CivilFromDays(DaysFromCivil(d)), d);
  }

  /** Consecutive day counts are consecutive dates. */
  lemma {:induction false} CivilFromDaysNext(z: int)
    ensures CivilFromDays(z + 1) == NextDate(CivilFromDays(z))
  {
    DaysFromCivilNext(CivilFromDays(z));
    DaysFromCivilInjective(CivilFromDays(z + 1), NextDate(CivilFromDays(z)));
  }

  /** "%04d-%02d-%02d" of a date's three fields. */
  function FormatDate(d: Date): string
  {
    FormatIntWidth(d.year, 4) + "-" + FormatIntWidth(d.month, 2) + "-" + FormatIntWidth(d.day, 2)
  }

  /** A date in years 0..9999 prints as exactly YYYY-MM-DD. */
  lemma {:induction false} FormatDateShape(d: Date)
    requires ValidDate(d) && 0 <= d.year <= 9999
    ensures |FormatDate(d)| == 10
    ensures FormatDate(d)[4] == '-' && FormatDate(d)[7] == '-'
  {
    FourDigits(d.year);
    TwoDigits(d.month);
    TwoDigits(d.day);
    DashesAt(FormatIntWidth(d.year, 4), FormatIntWidth(d.month, 2), FormatIntWidth(d.day, 2));
  }

  lemma FourDigits(n: nat)
    requires n <= 9999
    ensures |FormatIntWidth(n, 4)| == 4
  {
    assert Pow10(4) == 10000 by {
      assert Pow10(1) == 10 && Pow10(2) == 100 && Pow10(3) == 1000;
    }
    FormatIntWidthLength(n, 4);
  }

  lemma TwoDigits(n: nat)
    requires n <= 99
    ensures |FormatIntWidth(n, 2)| == 2
  {
    assert Pow10(2) == 100 by { assert Pow10(1) == 10; }
    FormatIntWidthLength(n, 2);
  }

  lemma DashesAt(y: string, m: string, dd: string)
    requires |y| == 4 && |m| == 2 && |dd| == 2
    ensures |y + "-" + m + "-" + dd| == 10
    ensures (y + "-" + m + "-" + dd)[4] == '-' && (y + "-" + m + "-" + dd)[7] == '-'
  {
  }

  function Take(s: string, n: nat): (t: string)
    ensures |t| == if |s| <= n then |s| else n
    ensures t == s[..|t|]
  {
    if |s| <= n then s else s[..n]
  }

  const Z2: uint32 := 0x1_0000_0000 - 1468000
  const R2E3: uint32 := 536895458

  /** Lines 17-21 in uint32 arithmetic. */
  function CenturyStepU32(days: int32): Split
  {
    var r0 := (days + R2E3) % UINT32_MODULUS;
    var n1 := (4 * r0 + 3) % UINT32_MODULUS;
    Split(n1 / 146097, n1 % 146097 / 4)
  }

  /** Lines 23-27: the division by 1461 done as a 64-bit multiply and a 32-bit shift. */
  function YearStepU32(r1: uint32): Split
  {
    var n2 := (4 * r1 + 3) % UINT32_MODULUS;
    var u2 := (2939745 * n2) % UINT64_MODULUS;
    Split((u2 / UINT32_MODULUS) % UINT32_MODULUS, u2 % UINT32_MODULUS / 2939745 / 4)
  }

  /** Lines 29-32 in uint32 arithmetic. */
  function MonthStepU32(r2: uint32): Split
  {
    var n3 := (2141 * r2 + 197913) % UINT32_MODULUS;
    Split(n3 / 65536, n3 % 65536 / 2141)
  }

  /** The three numbers the vendored routine hands to snprintf, computed in
      uint32 arithmetic exactly as the code computes them (lines 34-41; the
      year still carries the offset Z2 and is read back as a signed int). */
  function NeriSchneiderFields(days: int32): Date
  {
    var century := CenturyStepU32(days);
    var year := YearStepU32(century.r);
    AssembleFieldsU32(century, year, MonthStepU32(year.r))
  }

  /** Lines 34-41: the year, month and day from the three steps, in uint32. */
  function AssembleFieldsU32(century: Split, year: Split, month: Split): Date
  {
    var y0 := (100 * century.q + year.q) % UINT32_MODULUS;
    var j := if year.r >= 306 then 1 else 0;
    var y1 := (y0 + j) % UINT32_MODULUS;
    var m1 := (if j == 1 then month.q - 12 else month.q) % UINT32_MODULUS;
    var d1 := (month.r + 1) % UINT32_MODULUS;
    Date(AsInt32((y1 + Z2) % UINT32_MODULUS), AsInt32(m1), AsInt32(d1))
  }

  /** write_day_since_epoch_as_yyyy_mm_dd: snprintf with a size of 11 keeps
      at most ten characters before the terminating NUL. */
  function WriteDaySinceEpochAsYyyyMmDd(days: int32): (out: string)
    ensures |out| <= 10
  {
    Take(FormatDate(NeriSchneiderFields(days)), 10)
  }

  /** The day counts for which no uint32 step wraps around. */
  predicate InNeriSchneiderRange(days: int) { -536895458 <= days <= 536846365 }

  /** Multiplying by 2939745 and shifting right by 32 divides by 1461, since
      2939745 * 1461 == 2^32 + 149 and the error stays below one unit. */
  lemma {:induction false} MultiplyShiftDivides(n2: int)
    requires 0 <= n2 <= 146099
    ensures (2939745 * n2) / UINT32_MODULUS == n2 / 1461
    ensures (2939745 * n2) % UINT32_MODULUS / 2939745 == n2 % 1461
  {
    var q, r := n2 / 1461, n2 % 1461;
    assert 2939745 * n2 == UINT32_MODULUS * q + (149 * q + 2939745 * r);
    DivModUnique(2939745 * n2, UINT32_MODULUS, q, 149 * q + 2939745 * r);
    DivModUnique(149 * q + 2939745 * r, 2939745, r, 149 * q);
  }

  lemma {:induction false} CenturyStepNoWrap(days: int32)
    requires InNeriSchneiderRange(days)
    ensures CenturyStepU32(days) == CenturyStep(days + R2E3)
  {
    var r0 := days + R2E3;
    DivModUnique(r0, UINT32_MODULUS, 0, r0);
    DivModUnique(4 * r0 + 3, UINT32_MODULUS, 0, 4 * r0 + 3);
  }

  lemma {:induction false} YearStepNoWrap(r1: uint32)
    requires r1 <= 36524
    ensures YearStepU32(r1) == YearStep(r1)
  {
    var n2 := 4 * r1 + 3;
    DivModUnique(n2, UINT32_MODULUS, 0, n2);
    var u2 := 2939745 * n2;
    DivModUnique(u2, UINT64_MODULUS, 0, u2);
    MultiplyShiftDivides(n2);
    DivModUnique(u2 / UINT32_MODULUS, UINT32_MODULUS, 0, n2 / 1461);
  }

  lemma {:induction false} MonthStepNoWrap(r2: uint32)
    requires r2 <= 365
    ensures MonthStepU32(r2) == MonthStep(r2)
  {
    DivModUnique(2141 * r2 + 197913, UINT32_MODULUS, 0, 2141 * r2 + 197913);
  }

  /** Lines 34, 39 and 43 without wrap-around: adding Z2 in uint32 and
      reading the sum as an int subtracts 1468000. */
  lemma {:induction false} YearOffset(q1: int, q2: int, j: int)
    requires 0 <= q1 <= 29398 && 0 <= q2 <= 99 && 0 <= j <= 1
    ensures var y0 := (100 * q1 + q2) % UINT32_MODULUS; var y1 := (y0 + j) % UINT32_MODULUS;
      AsInt32((y1 + Z2) % UINT32_MODULUS) == 100 * q1 + q2 + j - 1468000
  {
    var y0 := 100 * q1 + q2;
    DivModUnique(y0, UINT32_MODULUS, 0, y0);
    var y1 := y0 + j;
    DivModUnique(y1, UINT32_MODULUS, 0, y1);
    if y1 >= 1468000 {
      DivModUnique(y1 + Z2, UINT32_MODULUS, 1, y1 - 1468000);
    } else {
      DivModUnique(y1 + Z2, UINT32_MODULUS, 0, y1 + Z2);
    }
  }

  /** The date lines 34-41 assemble from the three steps, without wrap-around. */
  function AssembleFields(century: Split, year: Split, month: Split): Date
  {
    var j := year.r >= 306;
    Date(100 * century.q + year.q + (if j then 1 else 0) - 1468000, if j then month.q - 12 else month.q, month.r + 1)
  }

  lemma {:induction false} NeriSchneiderFieldsNoWrap(days: int32)
    requires InNeriSchneiderRange(days)
    ensures var century := CenturyStep(days + R2E3); var year := YearStep(century.r);
      NeriSchneiderFields(days) == AssembleFields(century, year, MonthStep(year.r))
  {
    var r0: nat := days + R2E3;
    CenturyStepNoWrap(days);
    CenturySplit(r0);
    var century := CenturyStep(r0);
    YearStepNoWrap(century.r);
    YearSplit(century.r);
    var year := YearStep(century.r);
    MonthStepNoWrap(year.r);
    MonthSplit(year.r);
    var month := MonthStep(year.r);
    assert century.q <= 29398;
    JanuaryFlag(year.r);
    AssembleNoWrap(century, year, month);
  }

  lemma {:induction false} AssembleNoWrap(century: Split, year: Split, month: Split)
    requires 0 <= century.q <= 29398 && 0 <= year.q <= 99 && 0 <= year.r <= 365
    requires 3 <= month.q <= 14 && 0 <= month.r <= 30 && (year.r >= 306 ==> month.q >= 13)
    ensures AssembleFieldsU32(century, year, month) == AssembleFields(century, year, month)
  {
    var j := year.r >= 306;
    YearOffset(century.q, year.q, if j then 1 else 0);
    DivModUnique(month.r + 1, UINT32_MODULUS, 0, month.r + 1);
    if j {
      DivModUnique(month.q - 12, UINT32_MODULUS, 0, month.q - 12);
    } else {
      DivModUnique(month.q, UINT32_MODULUS, 0, month.q);
    }
  }

  lemma {:induction false} ShiftedSplitAssembles(r0: nat)
    ensures ValidMarchDate(ShiftedSplit(r0, -3670))
    ensures var century := CenturyStep(r0); var year := YearStep(century.r);
      ToCivil(ShiftedSplit(r0, -3670)) == AssembleFields(century, year, MonthStep(year.r))
  {
    ShiftedSplitCorrect(r0, -3670);
    CenturySplit(r0);
    var century := CenturyStep(r0);
    YearSplit(century.r);
    var year := YearStep(century.r);
    MonthSplit(year.r);
    JanuaryFlag(year.r);
  }

  /** The routine's j flag (day of the March year at least 306) marks
      January and February. */
  lemma {:induction false} JanuaryFlag(r2: int)
    requires 0 <= r2 <= 365
    ensures r2 >= 306 <==> MonthStep(r2).q >= 13
  {
    var month := MonthStep(r2);
    MonthSplit(r2);
    if month.q <= 12 {
      assert MonthStart(month.q - 2) <= MonthStart(10);
    } else {
      assert MonthStart(month.q - 3) >= MonthStart(10);
    }
  }

  /** Within its range the uint32 routine computes the calendar date of the day count. */
  lemma {:induction false} NeriSchneiderAgrees(days: int32)
    requires InNeriSchneiderRange(days)
    ensures NeriSchneiderFields(days) == CivilFromDays(days)
  {
    var r0: nat := days + R2E3;
    NeriSchneiderFieldsNoWrap(days);
    ShiftedSplitAssembles(r0);
    ShiftedSplitCorrect(r0, -3670);
    DaysFromCivilInjective(ToCivil(ShiftedSplit(r0, -3670)), CivilFromDays(days));
  }

  /** Within its range, and for years 0..9999, the routine writes exactly
      the YYYY-MM-DD text of the date. */
  lemma {:induction false} WriteDaySinceEpochIsIsoDate(days: int32)
    requires InNeriSchneiderRange(days) && 0 <= CivilFromDays(days).year <= 9999
    ensures WriteDaySinceEpochAsYyyyMmDd(days) == FormatDate(CivilFromDays(days))
    ensures |WriteDaySinceEpochAsYyyyMmDd(days)| == 10
  {
    var d := CivilFromDays(days);
    assert |FormatDate(d)| == 10 by { FormatDateShape(d); }
    assert NeriSchneiderFields(days) == d by { NeriSchneiderAgrees(days); }
  }

  /** Within its range the routine prints a month in 1..12 and a day in 1..31. */
  lemma {:induction false} NeriSchneiderFieldRanges(days: int32)
    requires InNeriSchneiderRange(days)
    ensures 1 <= NeriSchneiderFields(days).month <= 12
    ensures 1 <= NeriSchneiderFields(days).day <= 31
  {
    NeriSchneiderAgrees(days);
  }

  /** The routine's date for the day after is the calendar day after its date. */
  lemma {:induction false} NeriSchneiderNext(days: int32)
    requires InNeriSchneiderRange(days) && InNeriSchneiderRange(days + 1)
    ensures ValidDate(NeriSchneiderFields(days))
    ensures NeriSchneiderFields(days + 1) == NextDate(NeriSchneiderFields(days))
  {
    NeriSchneiderAgrees(days);
    NeriSchneiderAgrees(days + 1);
    CivilFromDaysNext(days);
  }

  /** Day 0 is written as 1970-01-01. */
  lemma EpochWritten()
    ensures WriteDaySinceEpochAsYyyyMmDd(0) == "1970-01-01"
  {
    var epoch := Date(1970, 1, 1);
    EpochIsDayZero();
    CivilFromDaysRoundTrip(epoch);
    WriteDaySinceEpochIsIsoDate(0);
    EpochText();
  }

  lemma EpochText()
    ensures FormatDate(Date(1970, 1, 1)) == "1970-01-01"
  {
    YearDigits1970();
    assert FormatIntWidth(1970, 4) == "1970";
    PaddedOne();
  }

  lemma YearDigits1970()
    ensures NatToDecimal(1970) == "1970"
  {
    assert DecimalValue("1970") == 1970 by {
      assert "1970"[..3] == "197" && "197"[..2] == "19" && "19"[..1] == "1" && "1"[..0] == "";
    }
    DecimalRoundTrip("1970");
  }

  lemma PaddedOne()
    ensures FormatIntWidth(1, 2) == "01"
  {
    assert NatToDecimal(1) == "1";
    assert seq(1, _ => '0') + "1" == "01";
  }

}
