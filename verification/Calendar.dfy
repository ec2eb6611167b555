/** Civil dates from day numbers: Hinnant's integer-only conversion against the calendar.

    All divisions here are by positive constants, so Dafny's `/` and `%` are the Euclidean
    division the source asks for, and also its truncating one on the non-negative values it
    is applied to. */
module Calendar {
  const DAYS_PER_ERA: int := 146097
  const EPOCH_SHIFT: int := 719468

  datatype Date = Date(year: int, month: int, day: int) {
    predicate Before(that: Date) {
      || year < that.year
      || (year == that.year && month < that.month)
      || (year == that.year && month == that.month && day < that.day)
    }
  }

  // ---------- The calendar as everyone learns it ----------

  predicate Leap(y: int) {
    y % 4 == 0 && (y % 100 != 0 || y % 400 == 0)
  }

  function DaysInMonth(y: int, m: int): int {
    if m == 2 then (if Leap(y) then 29 else 28)
    else if m == 4 || m == 6 || m == 9 || m == 11 then 30
    else 31
  }

  predicate Valid(d: Date) {
    1 <= d.month <= 12 && 1 <= d.day <= DaysInMonth(d.year, d.month)
  }

  function NextDay(d: Date): Date {
    if d.day < DaysInMonth(d.year, d.month) then Date(d.year, d.month, d.day + 1)
    else if d.month < 12 then Date(d.year, d.month + 1, 1)
    else Date(d.year + 1, 1, 1)
  }

  // ---------- The conversion, step by step ----------

  /** The year of the 400-year era, counted from March. */
  function YearOfEra(doe: int): int {
    (doe - doe / 1460 + doe / 36524 - doe / 146096) / 365
  }

  function YearStart(yoe: int): int {
    365 * yoe + yoe / 4 - yoe / 100
  }

  /** Counted from March, the month of a day of the year. */
  function MonthOfYear(doy: int): int {
    (5 * doy + 2) / 153
  }

  function MonthStart(mp: int): int {
    (153 * mp + 2) / 5
  }

  function CivilFromDays(z: int): Date {
    var z := z + EPOCH_SHIFT;
    var era := z / DAYS_PER_ERA;
    var doe := z % DAYS_PER_ERA;
    var yoe := YearOfEra(doe);
    var y := yoe + era * 400;
    var doy := doe - YearStart(yoe);
    var mp := MonthOfYear(doy);
    var d := doy - MonthStart(mp) + 1;
    var m := if mp < 10 then mp + 3 else mp - 9;
    Date(if m <= 2 then y + 1 else y, m, d)
  }

  /** Days in the year of the era that starts in March: its February decides. */
  function YearLength(yoe: int): int {
    if Leap(yoe + 1) then 366 else 365
  }

  // ---------- Years of the era ----------

  /** Days of an era in centuries, four-year cycles, years and days. */
  lemma SplitEra(doe: int) returns (c: int, k: int, j: int, u: int)
    requires 0 <= doe < DAYS_PER_ERA
    ensures 0 <= c <= 3 && 0 <= k <= 24 && 0 <= j <= 3
    ensures doe == 36524 * c + 1461 * k + u
    ensures 365 * j <= u <= 1460 && (u == 1460 || u < 365 * (j + 1))
    ensures u == 1460 ==> j == 3 && (k == 24 ==> c == 3)
  {
    c := if doe == 146096 then 3 else doe / 36524;
    var t := doe - 36524 * c;
    k := t / 1461;
    u := t - 1461 * k;
    j := if u == 1460 then 3 else u / 365;
  }

  lemma YearOfSplit(doe: int, c: int, k: int, j: int, u: int)
    requires 0 <= c <= 3 && 0 <= k <= 24 && 0 <= j <= 3
    requires doe == 36524 * c + 1461 * k + u
    requires 365 * j <= u <= 1460 && (u == 1460 || u < 365 * (j + 1))
    requires u == 1460 ==> j == 3 && (k == 24 ==> c == 3)
    ensures YearOfEra(doe) == 100 * c + 4 * k + j
  {
    var bump := (k + u + 24 * c) / 1460;
    assert 0 <= bump <= 1;
    assert doe / 1460 == 25 * c + k + bump;
    var last := if doe == 146096 then 1 else 0;
    assert doe / 146096 == last;
    assert doe / 36524 == c + last;
    assert bump == 1 ==> u >= 1364;
    assert doe - doe / 1460 + doe / 36524 - doe / 146096 == 365 * (100 * c + 4 * k) + u - bump;
  }

  lemma StartOfSplit(c: int, k: int, j: int)
    requires 0 <= c <= 3 && 0 <= k <= 24 && 0 <= j <= 3
    ensures YearStart(100 * c + 4 * k + j) == 36524 * c + 1461 * k + 365 * j
    ensures YearLength(100 * c + 4 * k + j) == if j == 3 && (k == 24 ==> c == 3) then 366 else 365
  {
    var yoe := 100 * c + 4 * k + j;
    assert yoe / 100 == c && yoe / 4 == 25 * c + k;
    assert (yoe + 1) % 4 == 0 <==> j == 3;
    if j == 3 {
      assert yoe + 1 == 100 * c + 4 * (k + 1);
      assert (yoe + 1) % 100 == 0 <==> k == 24;
      assert k == 24 ==> ((yoe + 1) % 400 == 0 <==> c == 3);
    }
  }

  /** Every day of an era falls in the year the division chain computes. */
  lemma YearOfEraContains(doe: int)
    requires 0 <= doe < DAYS_PER_ERA
    ensures var yoe := YearOfEra(doe);
            0 <= yoe < 400 && YearStart(yoe) <= doe < YearStart(yoe) + YearLength(yoe)
  {
    var c, k, j, u := SplitEra(doe);
    YearOfSplit(doe, c, k, j, u);
    StartOfSplit(c, k, j);
  }

  /** The years of an era follow one another without gap or overlap. */
  lemma YearsAbut(yoe: int)
    requires 0 <= yoe < 400
    ensures YearStart(yoe) + YearLength(yoe) == if yoe == 399 then DAYS_PER_ERA else YearStart(yoe + 1)
  {
    hide YearStart, YearLength;
    var c, k, j := yoe / 100, yoe % 100 / 4, yoe % 100 % 4;
    assert yoe == 100 * c + 4 * k + j;
    StartOfSplit(c, k, j);
    if j < 3 {
      StartOfSplit(c, k, j + 1);
    } else if k < 24 {
      StartOfSplit(c, k + 1, 0);
    } else if c < 3 {
      StartOfSplit(c + 1, 0, 0);
    }
  }

  lemma YearStartIncreases(a: int, b: int)
    requires 0 <= a < b < 400
    ensures YearStart(a) + YearLength(a) <= YearStart(b)
  {
    YearsAbut(a);
    assert (a + 1) / 4 <= b / 4;
    assert b / 100 - (a + 1) / 100 <= b - (a + 1);
  }

  lemma YearOfEraUnique(doe: int, yoe: int)
    requires 0 <= yoe < 400 && YearStart(yoe) <= doe < YearStart(yoe) + YearLength(yoe)
    ensures 0 <= doe < DAYS_PER_ERA && YearOfEra(doe) == yoe
  {
    YearsAbut(yoe);
    if yoe < 399 {
      YearStartIncreases(yoe, 399);
      YearsAbut(399);
    }
    YearOfEraContains(doe);
    var other := YearOfEra(doe);
    if other < yoe {
      YearStartIncreases(other, yoe);
    } else if yoe < other {
      YearStartIncreases(yoe, other);
    }
  }

  // ---------- Months of the year ----------

  lemma MonthContains(doy: int)
    requires 0 <= doy <= 365
    ensures var mp := MonthOfYear(doy);
            0 <= mp <= 11 && MonthStart(mp) <= doy && (mp < 11 ==> doy < MonthStart(mp + 1))
  {
  }

  lemma MonthUnique(doy: int, mp: int)
    requires 0 <= doy <= 365 && 0 <= mp <= 11
    requires MonthStart(mp) <= doy && (mp < 11 ==> doy < MonthStart(mp + 1))
    ensures MonthOfYear(doy) == mp
  {
  }

  // ---------- Dates as an era, a year of it and a day of that ----------

  function DateOf(era: int, yoe: int, doy: int): Date {
    var mp := MonthOfYear(doy);
    Date(CivilYear(era, yoe, mp), CivilMonth(mp), doy - MonthStart(mp) + 1)
  }

  function DayNumber(era: int, yoe: int, doy: int): int {
    era * DAYS_PER_ERA + YearStart(yoe) + doy - EPOCH_SHIFT
  }

  predicate InEra(yoe: int, doy: int) {
    0 <= yoe < 400 && 0 <= doy < YearLength(yoe)
  }

  lemma CivilOfDayNumber(era: int, yoe: int, doy: int)
    requires InEra(yoe, doy)
    ensures CivilFromDays(DayNumber(era, yoe, doy)) == DateOf(era, yoe, doy)
  {
    hide CivilFromDays, YearOfEra, YearStart, YearLength, DateOf;
    var doe := YearStart(yoe) + doy;
    YearOfEraUnique(doe, yoe);
    EraOf(era, doe);
    assert DayNumber(era, yoe, doy) + EPOCH_SHIFT == era * DAYS_PER_ERA + doe;
    CivilOfParts(DayNumber(era, yoe, doy), era, doe);
  }

  lemma CivilOfParts(z: int, era: int, doe: int)
    requires (z + EPOCH_SHIFT) / DAYS_PER_ERA == era && (z + EPOCH_SHIFT) % DAYS_PER_ERA == doe
    ensures CivilFromDays(z) == DateOf(era, YearOfEra(doe), doe - YearStart(YearOfEra(doe)))
  {
    hide YearOfEra, YearStart, MonthOfYear, MonthStart;
  }

  lemma EraOf(era: int, doe: int)
    requires 0 <= doe < DAYS_PER_ERA
    ensures (era * DAYS_PER_ERA + doe) / DAYS_PER_ERA == era && (era * DAYS_PER_ERA + doe) % DAYS_PER_ERA == doe
  {
  }

  lemma DayNumberOf(z: int) returns (era: int, yoe: int, doy: int)
    ensures InEra(yoe, doy) && z == DayNumber(era, yoe, doy)
  {
    era := (z + EPOCH_SHIFT) / DAYS_PER_ERA;
    var doe := (z + EPOCH_SHIFT) % DAYS_PER_ERA;
    yoe := YearOfEra(doe);
    YearOfEraContains(doe);
    doy := doe - YearStart(yoe);
  }

  lemma LeapRepeats(y: int, era: int)
    ensures Leap(y + 400 * era) == Leap(y)
  {
    Remainder4(y + 400 * era, y / 4 + 100 * era, y % 4);
    Remainder100(y + 400 * era, y / 100 + 4 * era, y % 100);
    Remainder400(y + 400 * era, y / 400 + era, y % 400);
  }

  lemma Remainder4(n: int, q: int, r: int)
    requires n == 4 * q + r && 0 <= r < 4
    ensures n % 4 == r
  {
  }

  lemma Remainder100(n: int, q: int, r: int)
    requires n == 100 * q + r && 0 <= r < 100
    ensures n % 100 == r
  {
  }

  lemma Remainder400(n: int, q: int, r: int)
    requires n == 400 * q + r && 0 <= r < 400
    ensures n % 400 == r
  {
  }

  function CivilMonth(mp: int): int {
    if mp < 10 then mp + 3 else mp - 9
  }

  function CivilYear(era: int, yoe: int, mp: int): int {
    if CivilMonth(mp) <= 2 then yoe + era * 400 + 1 else yoe + era * 400
  }

  /** The month lengths of the calendar are the gaps between month starts; February takes
      what is left of the year. */
  lemma MonthLength(era: int, yoe: int, mp: int)
    requires 0 <= yoe < 400 && 0 <= mp <= 11
    ensures DaysInMonth(CivilYear(era, yoe, mp), CivilMonth(mp))
         == (if mp == 11 then YearLength(yoe) else MonthStart(mp + 1)) - MonthStart(mp)
  {
    LeapRepeats(yoe + 1, era);
    hide Leap;
    assert MonthStart(11) == 337;
  }

  lemma DateOfParts(era: int, yoe: int, doy: int, mp: int)
    requires InEra(yoe, doy) && 0 <= mp <= 11
    requires MonthStart(mp) <= doy && (mp < 11 ==> doy < MonthStart(mp + 1))
    ensures DateOf(era, yoe, doy) == Date(CivilYear(era, yoe, mp), CivilMonth(mp), doy - MonthStart(mp) + 1)
  {
    MonthUnique(doy, mp);
  }

  lemma DateOfIsValid(era: int, yoe: int, doy: int)
    requires InEra(yoe, doy)
    ensures Valid(DateOf(era, yoe, doy))
  {
    var mp := MonthOfYear(doy);
    MonthContains(doy);
    DateOfParts(era, yoe, doy, mp);
    MonthLength(era, yoe, mp);
  }

  lemma NextDayOf(era: int, yoe: int, doy: int)
    requires InEra(yoe, doy)
    ensures NextDay(DateOf(era, yoe, doy)) ==
            if doy + 1 < YearLength(yoe) then DateOf(era, yoe, doy + 1)
            else if yoe < 399 then DateOf(era, yoe + 1, 0)
            else DateOf(era + 1, 0, 0)
  {
    hide DateOf, DaysInMonth, Leap;
    var mp := MonthOfYear(doy);
    MonthContains(doy);
    hide MonthOfYear;
    DateOfParts(era, yoe, doy, mp);
    MonthLength(era, yoe, mp);
    if doy + 1 < YearLength(yoe) {
      DateOfParts(era, yoe, doy + 1, if mp < 11 && doy + 1 == MonthStart(mp + 1) then mp + 1 else mp);
    } else if yoe < 399 {
      DateOfParts(era, yoe + 1, 0, 0);
    } else {
      DateOfParts(era + 1, 0, 0, 0);
    }
  }

  // ---------- The conversion is the calendar ----------

  lemma EpochIsDayZero()
    ensures CivilFromDays(0) == Date(1970, 1, 1)
  {
  }

  /** One day later is the next day of the calendar, for every day number, and every date
      produced exists. */
  lemma NextDayAgrees(z: int)
    ensures Valid(CivilFromDays(z))
    ensures CivilFromDays(z + 1) == NextDay(CivilFromDays(z))
  {
    hide CivilFromDays, DateOf, NextDay, Valid, YearStart, YearLength;
    var era, yoe, doy := DayNumberOf(z);
    CivilOfDayNumber(era, yoe, doy);
    DateOfIsValid(era, yoe, doy);
    NextDayOf(era, yoe, doy);
    YearsAbut(yoe);
    YearLengths(yoe);
    if doy + 1 < YearLength(yoe) {
      CivilOfDayNumber(era, yoe, doy + 1);
    } else if yoe < 399 {
      YearLengths(yoe + 1);
      CivilOfDayNumber(era, yoe + 1, 0);
    } else {
      FirstDays(era);
      CivilOfDayNumber(era + 1, 0, 0);
    }
  }

  lemma YearLengths(yoe: int)
    ensures 365 <= YearLength(yoe) <= 366
  {
  }

  lemma FirstDays(era: int)
    ensures YearStart(0) == 0 && YearLength(0) == 365
    ensures DayNumber(era + 1, 0, 0) == DayNumber(era, 0, DAYS_PER_ERA)
  {
  }

  lemma NextDayIsLater(d: Date)
    requires Valid(d)
    ensures d.Before(NextDay(d)) && Valid(NextDay(d))
  {
  }

  lemma {:induction false} LaterDaysAreLaterDates(z1: int, z2: int)
    requires z1 < z2
    ensures CivilFromDays(z1).Before(CivilFromDays(z2))
    decreases z2 - z1
  {
    hide CivilFromDays, NextDay, Valid;
    NextDayAgrees(z2 - 1);
    NextDayIsLater(CivilFromDays(z2 - 1));
    if z1 < z2 - 1 {
      LaterDaysAreLaterDates(z1, z2 - 1);
    }
  }

  /** The day number of a date: the inverse of the conversion. */
  function DaysFromCivil(d: Date): int {
    var y := if d.month <= 2 then d.year - 1 else d.year;
    var mp := if d.month > 2 then d.month - 3 else d.month + 9;
    DayNumber(y / 400, y % 400, MonthStart(mp) + d.day - 1)
  }

  lemma EveryDateIsReached(d: Date)
    requires Valid(d)
    ensures CivilFromDays(DaysFromCivil(d)) == d
  {
    hide CivilFromDays, YearStart, Leap;
    var y := if d.month <= 2 then d.year - 1 else d.year;
    var mp := if d.month > 2 then d.month - 3 else d.month + 9;
    var doy := MonthStart(mp) + d.day - 1;
    var era, yoe := y / 400, y % 400;
    LeapRepeats(yoe + 1, era);
    assert y == yoe + 400 * era;
    MonthUnique(doy, mp);
    CivilOfDayNumber(era, yoe, doy);
  }

  /** Day numbers and valid dates are in bijection. */
  lemma Bijection(z: int)
    ensures Valid(CivilFromDays(z)) && DaysFromCivil(CivilFromDays(z)) == z
  {
    NextDayAgrees(z);
    var back := DaysFromCivil(CivilFromDays(z));
    EveryDateIsReached(CivilFromDays(z));
    if back < z {
      LaterDaysAreLaterDates(back, z);
    } else if z < back {
      LaterDaysAreLaterDates(z, back);
    }
  }
}
