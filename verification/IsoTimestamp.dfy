/** `YYYY-MM-DDTHH:MM:SSZ`, the timestamp of section 5.6 of RFC 3339, from a count of seconds. */
module IsoTimestamp {
  import opened Wrappers
  import opened Calendar
  import opened Texts
  import opened Decimals

  const SECONDS_PER_DAY: int := 86400

  // ---------- Decimal text ----------

  /** Zero padding on the left, up to a width and never cutting anything off. */
  function Padded(s: string, width: nat): string
    decreases width - |s|
  {
    if |s| >= width then s else Padded("0" + s, width)
  }

  /** The formatting directive `:0width`: the sign counts towards the width and goes before
      the zeros. */
  function Zeroed(n: int, width: nat): string {
    if n >= 0 then Padded(Decimal(n), width)
    else "-" + Padded(Decimal(-n), if width == 0 then 0 else width - 1)
  }

  function Iso8601(secs: int): string {
    var days := secs / SECONDS_PER_DAY;
    var timeOfDay := secs % SECONDS_PER_DAY;
    var d := CivilFromDays(days);
    Zeroed(d.year, 4) + ("-" + (Zeroed(d.month, 2) + ("-" + (Zeroed(d.day, 2) + ("T"
    + (Zeroed(timeOfDay / 3600, 2) + (":" + (Zeroed(timeOfDay % 3600 / 60, 2) + (":"
    + (Zeroed(timeOfDay % 60, 2) + "Z"))))))))))
  }

  // ---------- Machine integers ----------

  predicate I64(n: int) {
    -0x8000_0000_0000_0000 <= n <= 0x7FFF_FFFF_FFFF_FFFF
  }

  predicate U32(n: int) {
    0 <= n <= 0xFFFF_FFFF
  }

  /** Every value the conversion of a day number computes on the way, in order. */
  function ConversionSteps(z: int): seq<int> {
    var shifted := z + EPOCH_SHIFT;
    var era, doe := shifted / DAYS_PER_ERA, shifted % DAYS_PER_ERA;
    var yoe := YearOfEra(doe);
    var y := yoe + era * 400;
    var doy := doe - YearStart(yoe);
    var mp := MonthOfYear(doy);
    [shifted, era, doe] + YearSteps(doe) + [era * 400, y, y + 1] + DayOfYearSteps(doe, yoe) + MonthSteps(doy, mp)
  }

  function YearSteps(doe: int): seq<int> {
    [doe / 1460, doe - doe / 1460, doe / 36524, doe - doe / 1460 + doe / 36524, doe / 146096,
     doe - doe / 1460 + doe / 36524 - doe / 146096, YearOfEra(doe)]
  }

  function DayOfYearSteps(doe: int, yoe: int): seq<int> {
    [365 * yoe, yoe / 4, 365 * yoe + yoe / 4, yoe / 100, YearStart(yoe), doe - YearStart(yoe)]
  }

  function MonthSteps(doy: int, mp: int): seq<int> {
    [5 * doy, 5 * doy + 2, mp, 153 * mp, 153 * mp + 2, MonthStart(mp), doy - MonthStart(mp), doy - MonthStart(mp) + 1,
     if mp < 10 then mp + 3 else mp - 9]
  }

  /** Every value the timestamp computes on the way. */
  function TimestampSteps(secs: int): seq<int> {
    var t := secs % SECONDS_PER_DAY;
    ConversionSteps(secs / SECONDS_PER_DAY)
    + [secs / SECONDS_PER_DAY, t, t / 3600, t % 3600, t % 3600 / 60, t % 60]
  }

  ghost predicate AllWithin(steps: seq<int>, bound: int) {
    forall i :: 0 <= i < |steps| ==> -bound <= steps[i] <= bound
  }

  lemma AllWithinJoin(a: seq<int>, b: seq<int>, bound: int)
    requires AllWithin(a, bound) && AllWithin(b, bound)
    ensures AllWithin(a + b, bound)
  {
  }

  /** No step is further from zero than a day count of a 64-bit second count allows. */
  const STEP_BOUND: int := 200_000_000_000_000

  lemma SmallSteps(doe: int)
    requires 0 <= doe < DAYS_PER_ERA
    ensures var yoe := YearOfEra(doe);
      var doy := doe - YearStart(yoe);
      && 0 <= yoe < 400
      && AllWithin(YearSteps(doe), STEP_BOUND) && AllWithin(DayOfYearSteps(doe, yoe), STEP_BOUND)
      && AllWithin(MonthSteps(doy, MonthOfYear(doy)), STEP_BOUND)
  {
    YearOfEraContains(doe);
    var yoe := YearOfEra(doe);
    var doy := doe - YearStart(yoe);
    assert 0 <= YearStart(yoe) <= 150000;
    MonthContains(doy);
    hide YearOfEra, MonthOfYear, YearStart;
    assert AllWithin(YearSteps(doe), STEP_BOUND);
  }

  /** On every 64-bit input no intermediate value overflows, and both narrowing casts keep their
      value: a month and a day are never negative and never large. */
  lemma NothingOverflows(secs: int)
    requires I64(secs)
    ensures forall i :: 0 <= i < |TimestampSteps(secs)| ==> I64(TimestampSteps(secs)[i])
    ensures var d := CivilFromDays(secs / SECONDS_PER_DAY);
            && I64(d.year) && U32(d.month) && U32(d.day)
            && 1 <= d.month <= 12 && 1 <= d.day <= 31
  {
    hide CivilFromDays, YearSteps, DayOfYearSteps, MonthSteps, YearOfEra, YearStart, MonthOfYear, MonthStart;
    var z := secs / SECONDS_PER_DAY;
    assert -110_000_000_000_000 <= z <= 110_000_000_000_000;
    StepsAreSmall(z);
    var t := secs % SECONDS_PER_DAY;
    assert AllWithin([z, t, t / 3600, t % 3600, t % 3600 / 60, t % 60], STEP_BOUND);
    AllWithinJoin(ConversionSteps(z), [z, t, t / 3600, t % 3600, t % 3600 / 60, t % 60], STEP_BOUND);
    NextDayAgrees(z);
    YearIsSmall(z);
  }

  lemma ThreeWithin(a: int, b: int, c: int, bound: int)
    requires -bound <= a <= bound && -bound <= b <= bound && -bound <= c <= bound
    ensures AllWithin([a, b, c], bound)
  {
  }

  lemma ErasAreFew(shifted: int)
    requires -120_000_000_000_000 <= shifted <= 120_000_000_000_000
    ensures -1_000_000_000 <= shifted / DAYS_PER_ERA <= 1_000_000_000
  {
  }

  lemma StepsAreSmall(z: int)
    requires -110_000_000_000_000 <= z <= 110_000_000_000_000
    ensures AllWithin(ConversionSteps(z), STEP_BOUND)
  {
    hide YearSteps, DayOfYearSteps, MonthSteps, YearOfEra, YearStart, MonthOfYear, AllWithin;
    var shifted := z + EPOCH_SHIFT;
    var era, doe := shifted / DAYS_PER_ERA, shifted % DAYS_PER_ERA;
    ErasAreFew(shifted);
    SmallSteps(doe);
    var yoe := YearOfEra(doe);
    var y := yoe + era * 400;
    var doy := doe - YearStart(yoe);
    var head, middle := [shifted, era, doe], [era * 400, y, y + 1];
    var years, days := YearSteps(doe), DayOfYearSteps(doe, yoe);
    ThreeWithin(shifted, era, doe, STEP_BOUND);
    ThreeWithin(era * 400, y, y + 1, STEP_BOUND);
    AllWithinJoin(head, years, STEP_BOUND);
    AllWithinJoin(head + years, middle, STEP_BOUND);
    AllWithinJoin(head + years + middle, days, STEP_BOUND);
    AllWithinJoin(head + years + middle + days, MonthSteps(doy, MonthOfYear(doy)), STEP_BOUND);
  }

  lemma YearIsSmall(z: int)
    requires -110_000_000_000_000 <= z <= 110_000_000_000_000
    ensures I64(CivilFromDays(z).year)
  {
    hide YearOfEra;
    YearOfEraContains((z + EPOCH_SHIFT) % DAYS_PER_ERA);
  }

  // ---------- Fixed-width fields ----------

  function Pow10(w: nat): nat {
    if w == 0 then 1 else 10 * Pow10(w - 1)
  }

  /** The last `w` decimal digits of `n`. */
  function Fixed(n: nat, w: nat): (s: string)
    ensures |s| == w
  {
    if w == 0 then "" else Fixed(n / 10, w - 1) + [Digit(n % 10)]
  }

  lemma {:induction false} PaddedIsZerosThenText(s: string, w: nat)
    requires |s| <= w
    ensures Padded(s, w) == Zeros(w - |s|) + s
    decreases w - |s|
  {
    if |s| < w {
      PaddedIsZerosThenText("0" + s, w);
      ZerosSnoc(w - |s| - 1);
      assert Zeros(w - |s| - 1) + ("0" + s) == (Zeros(w - |s| - 1) + "0") + s;
    }
  }

  function Zeros(k: nat): string {
    if k == 0 then "" else "0" + Zeros(k - 1)
  }

  lemma {:induction false} ZerosSnoc(k: nat)
    ensures Zeros(k) + "0" == Zeros(k + 1)
  {
    if k > 0 {
      ZerosSnoc(k - 1);
      assert Zeros(k) + "0" == "0" + (Zeros(k - 1) + "0");
    }
  }

  lemma {:induction false} FixedZero(w: nat)
    ensures Fixed(0, w) == Zeros(w)
  {
    if w > 0 {
      FixedZero(w - 1);
      ZerosSnoc(w - 1);
    }
  }

  lemma {:induction false} DecimalInFixed(n: nat, w: nat)
    requires w > 0 && n < Pow10(w)
    ensures |Decimal(n)| <= w && Fixed(n, w) == Zeros(w - |Decimal(n)|) + Decimal(n)
  {
    if n < 10 {
      FixedZero(w - 1);
    } else {
      assert w > 1 by {
        assert Pow10(1) == 10 * Pow10(0);
      }
      DecimalInFixed(n / 10, w - 1);
    }
  }

  lemma ZeroedIsFixed(n: nat, w: nat)
    requires w > 0 && n < Pow10(w)
    ensures Zeroed(n, w) == Fixed(n, w)
  {
    DecimalInFixed(n, w);
    PaddedIsZerosThenText(Decimal(n), w);
  }

  lemma {:induction false} ValueOfFixed(n: nat, w: nat)
    requires n < Pow10(w)
    ensures Value(Fixed(n, w)) == n
  {
    if w > 0 {
      ValueOfFixed(n / 10, w - 1);
      assert Fixed(n, w)[..w - 1] == Fixed(n / 10, w - 1);
    }
  }

  // ---------- Order of texts ----------

  lemma {:induction false} TextLessSplit(a: string, b: string, a': string, b': string)
    requires |a| == |a'|
    ensures TextLess(a + b, a' + b') <==> TextLess(a, a') || (a == a' && TextLess(b, b'))
  {
    if a == "" {
      assert a + b == b && a' + b' == b';
    } else {
      TextLessSplit(a[1..], b, a'[1..], b');
      assert (a + b)[1..] == a[1..] + b && (a' + b')[1..] == a'[1..] + b';
      assert a == [a[0]] + a[1..] && a' == [a'[0]] + a'[1..];
    }
  }

  lemma {:induction false} FixedOrder(n: nat, n': nat, w: nat)
    requires n < Pow10(w) && n' < Pow10(w)
    ensures TextLess(Fixed(n, w), Fixed(n', w)) <==> n < n'
    ensures Fixed(n, w) == Fixed(n', w) <==> n == n'
  {
    ValueOfFixed(n, w);
    ValueOfFixed(n', w);
    if w > 0 {
      FixedOrder(n / 10, n' / 10, w - 1);
      TextLessSplit(Fixed(n / 10, w - 1), [Digit(n % 10)], Fixed(n' / 10, w - 1), [Digit(n' % 10)]);
      assert [Digit(n % 10)][1..] == "" && [Digit(n' % 10)][1..] == "";
    }
  }

  // ---------- The timestamp as a list of fields ----------

  const WIDTHS: seq<nat> := [4, 2, 2, 2, 2, 2]
  const ENDS: string := "--T::Z"

  /** Year, month, day, hour, minute and second of an instant. */
  function Fields(secs: int): (f: seq<int>)
    ensures |f| == 6
  {
    var d := CivilFromDays(secs / SECONDS_PER_DAY);
    var timeOfDay := secs % SECONDS_PER_DAY;
    [d.year, d.month, d.day, timeOfDay / 3600, timeOfDay % 3600 / 60, timeOfDay % 60]
  }

  function SecondOf(f: seq<int>): int
    requires |f| == 6
  {
    DaysFromCivil(Date(f[0], f[1], f[2])) * SECONDS_PER_DAY + f[3] * 3600 + f[4] * 60 + f[5]
  }

  predicate FourDigitYear(secs: int) {
    0 <= CivilFromDays(secs / SECONDS_PER_DAY).year <= 9999
  }

  /** Every field fits its width. */
  predicate Fits(f: seq<int>, widths: seq<nat>) {
    |f| == |widths| && forall i :: 0 <= i < |f| ==> 0 <= f[i] < Pow10(widths[i])
  }

  function Layout(f: seq<int>, widths: seq<nat>, ends: string): string
    requires |f| == |widths| == |ends| && forall i :: 0 <= i < |f| ==> f[i] >= 0
  {
    if f == [] then ""
    else Fixed(f[0], widths[0]) + ([ends[0]] + Layout(f[1..], widths[1..], ends[1..]))
  }

  /** Reads back fields of known widths and terminators, and nothing else. */
  function Parse(s: string, widths: seq<nat>, ends: string): Option<seq<int>>
    requires |widths| == |ends|
    decreases |widths|
  {
    if widths == [] then (if s == "" then Some([]) else None)
    else if |s| > widths[0] && IsDigits(s[..widths[0]]) && s[widths[0]] == ends[0] then
      match Parse(s[widths[0] + 1..], widths[1..], ends[1..])
      case Some(rest) => Some([Value(s[..widths[0]])] + rest)
      case None => None
    else None
  }

  function ParseTimestamp(s: string): Option<int> {
    match Parse(s, WIDTHS, ENDS)
    case Some(f) => if |f| == 6 then Some(SecondOf(f)) else None
    case None => None
  }

  predicate FieldsBefore(f: seq<int>, g: seq<int>) {
    g != [] && (f == [] || f[0] < g[0] || (f[0] == g[0] && FieldsBefore(f[1..], g[1..])))
  }

  lemma {:induction false} FixedIsDigits(n: nat, w: nat)
    ensures IsDigits(Fixed(n, w))
  {
    if w > 0 {
      FixedIsDigits(n / 10, w - 1);
    }
  }

  lemma {:induction false} ParseUndoesLayout(f: seq<int>, widths: seq<nat>, ends: string)
    requires Fits(f, widths) && |widths| == |ends|
    ensures Parse(Layout(f, widths, ends), widths, ends) == Some(f)
  {
    if f != [] {
      ParseUndoesLayout(f[1..], widths[1..], ends[1..]);
      var s := Layout(f, widths, ends);
      var rest := Layout(f[1..], widths[1..], ends[1..]);
      assert s[..widths[0]] == Fixed(f[0], widths[0]);
      assert s[widths[0] + 1..] == rest;
      FixedIsDigits(f[0], widths[0]);
      ValueOfFixed(f[0], widths[0]);
      assert f == [f[0]] + f[1..];
    }
  }

  lemma {:induction false} LayoutOrder(f: seq<int>, g: seq<int>, widths: seq<nat>, ends: string)
    requires Fits(f, widths) && Fits(g, widths) && |widths| == |ends|
    ensures TextLess(Layout(f, widths, ends), Layout(g, widths, ends)) <==> FieldsBefore(f, g)
  {
    if f != [] {
      var rest, rest' := Layout(f[1..], widths[1..], ends[1..]), Layout(g[1..], widths[1..], ends[1..]);
      LayoutOrder(f[1..], g[1..], widths[1..], ends[1..]);
      TextLessSplit(Fixed(f[0], widths[0]), [ends[0]] + rest, Fixed(g[0], widths[0]), [ends[0]] + rest');
      TextLessSplit([ends[0]], rest, [ends[0]], rest');
      FixedOrder(f[0], g[0], widths[0]);
      assert !TextLess([ends[0]], [ends[0]]) by {
        assert [ends[0]][1..] == "";
      }
    }
  }

  lemma FieldsFit(secs: int)
    requires FourDigitYear(secs)
    ensures Fits(Fields(secs), WIDTHS)
  {
    hide CivilFromDays, NextDay;
    NextDayAgrees(secs / SECONDS_PER_DAY);
    assert Pow10(2) == 100 && Pow10(4) == 10000 by {
      assert Pow10(1) == 10 && Pow10(3) == 1000;
    }
  }

  /** Within years 0 to 9999 the text is the six fixed-width fields and nothing more. */
  lemma TextIsLayout(secs: int)
    requires FourDigitYear(secs)
    ensures Fits(Fields(secs), WIDTHS)
    ensures Iso8601(secs) == Layout(Fields(secs), WIDTHS, ENDS)
    ensures |Iso8601(secs)| == 20
  {
    FieldsFit(secs);
    var f := Fields(secs);
    forall i | 0 <= i < 6
      ensures Zeroed(f[i], WIDTHS[i]) == Fixed(f[i], WIDTHS[i])
    {
      ZeroedIsFixed(f[i], WIDTHS[i]);
    }
    LayoutOfSix(f);
  }

  lemma LayoutOfSix(f: seq<int>)
    requires Fits(f, WIDTHS)
    ensures Layout(f, WIDTHS, ENDS) ==
            Fixed(f[0], 4) + ("-" + (Fixed(f[1], 2) + ("-" + (Fixed(f[2], 2) + ("T"
            + (Fixed(f[3], 2) + (":" + (Fixed(f[4], 2) + (":" + (Fixed(f[5], 2) + "Z"))))))))))
  {
    hide Layout, Fixed;
    LayoutFrom(f, 0);
    LayoutFrom(f, 1);
    LayoutFrom(f, 2);
    LayoutFrom(f, 3);
    LayoutFrom(f, 4);
    LayoutFrom(f, 5);
    assert f[0..] == f && WIDTHS[0..] == WIDTHS && ENDS[0..] == ENDS;
    assert f[6..] == [];
    LayoutOfNone(f[6..], WIDTHS[6..], ENDS[6..]);
    assert "Z" + "" == "Z";
  }

  lemma LayoutOfNone(f: seq<int>, widths: seq<nat>, ends: string)
    requires f == [] && widths == [] && ends == []
    ensures Layout(f, widths, ends) == ""
  {
  }

  lemma LayoutFrom(f: seq<int>, i: nat)
    requires Fits(f, WIDTHS) && i < 6
    ensures Layout(f[i..], WIDTHS[i..], ENDS[i..])
         == Fixed(f[i], WIDTHS[i]) + ([ENDS[i]] + Layout(f[i + 1..], WIDTHS[i + 1..], ENDS[i + 1..]))
  {
    assert f[i..][1..] == f[i + 1..] && WIDTHS[i..][1..] == WIDTHS[i + 1..] && ENDS[i..][1..] == ENDS[i + 1..];
  }

  lemma SecondOfFields(secs: int)
    ensures SecondOf(Fields(secs)) == secs
  {
    hide CivilFromDays, DaysFromCivil;
    Bijection(secs / SECONDS_PER_DAY);
    var t := secs % SECONDS_PER_DAY;
    ClockParts(t);
  }

  /** Hours, minutes and seconds of a time of day. */
  lemma ClockParts(t: int)
    requires 0 <= t < SECONDS_PER_DAY
    ensures t == 3600 * (t / 3600) + 60 * (t % 3600 / 60) + t % 60
    ensures 0 <= t % 3600 / 60 < 60 && 0 <= t % 60 < 60
  {
    var h, r := t / 3600, t % 3600;
    var m, s := r / 60, r % 60;
    assert t == 3600 * h + r && r == 60 * m + s;
    Remainder60(t, 60 * h + m, s);
  }

  lemma Remainder60(n: int, q: int, r: int)
    requires n == 60 * q + r && 0 <= r < 60
    ensures n % 60 == r
  {
  }

  lemma ClockOrder(t: int, t': int)
    requires 0 <= t < t' < SECONDS_PER_DAY
    ensures t / 3600 <= t' / 3600
    ensures t / 3600 == t' / 3600 ==> t % 3600 / 60 <= t' % 3600 / 60
    ensures t / 3600 == t' / 3600 && t % 3600 / 60 == t' % 3600 / 60 ==> t % 60 < t' % 60
  {
    ClockParts(t);
    ClockParts(t');
    PartsInOrder(t / 3600, t % 3600 / 60, t % 60, t' / 3600, t' % 3600 / 60, t' % 60);
  }

  lemma PartsInOrder(h: int, m: int, s: int, h': int, m': int, s': int)
    requires 0 <= m < 60 && 0 <= s < 60 && 0 <= m' < 60 && 0 <= s' < 60
    requires 3600 * h + 60 * m + s < 3600 * h' + 60 * m' + s'
    ensures h <= h' && (h == h' ==> m <= m') && (h == h' && m == m' ==> s < s')
  {
  }

  lemma FieldsInOrder(a: int, b: int)
    requires a < b
    ensures FieldsBefore(Fields(a), Fields(b)) && !FieldsBefore(Fields(b), Fields(a))
  {
    hide CivilFromDays, FieldsBefore;
    if a / SECONDS_PER_DAY < b / SECONDS_PER_DAY {
      LaterDaysAreLaterDates(a / SECONDS_PER_DAY, b / SECONDS_PER_DAY);
    } else {
      ClockOrder(a % SECONDS_PER_DAY, b % SECONDS_PER_DAY);
    }
    var f, g := Fields(a), Fields(b);
    Unfold6(f, g);
    Unfold6(g, f);
  }

  lemma Unfold6(f: seq<int>, g: seq<int>)
    requires |f| == |g| == 6
    ensures FieldsBefore(f, g) <==>
      (f[0] < g[0] || (f[0] == g[0] && (f[1] < g[1] || (f[1] == g[1] && (f[2] < g[2] || (f[2] == g[2] &&
      (f[3] < g[3] || (f[3] == g[3] && (f[4] < g[4] || (f[4] == g[4] && f[5] < g[5]))))))))))
  {
    BeforeFrom(f, g, 0);
    BeforeFrom(f, g, 1);
    BeforeFrom(f, g, 2);
    BeforeFrom(f, g, 3);
    BeforeFrom(f, g, 4);
    BeforeFrom(f, g, 5);
    assert f[0..] == f && g[0..] == g;
    assert f[6..] == [] && g[6..] == [] && !FieldsBefore([], []);
  }

  lemma BeforeFrom(f: seq<int>, g: seq<int>, i: nat)
    requires i < |f| == |g|
    ensures FieldsBefore(f[i..], g[i..]) <==> f[i] < g[i] || (f[i] == g[i] && FieldsBefore(f[i + 1..], g[i + 1..]))
  {
    assert f[i..][1..] == f[i + 1..] && g[i..][1..] == g[i + 1..];
  }

  lemma {:induction false} DecimalIsLong(n: nat, w: nat)
    requires n >= Pow10(w)
    ensures |Decimal(n)| > w
  {
    if w > 0 {
      assert n / 10 >= Pow10(w - 1);
      if n >= 10 {
        DecimalIsLong(n / 10, w - 1);
      } else {
        assert Pow10(w) == 10 * Pow10(w - 1);
        PowPositive(w - 1);
      }
    }
  }

  lemma {:induction false} PowPositive(w: nat)
    ensures Pow10(w) >= 1
  {
    if w > 0 {
      PowPositive(w - 1);
    }
  }

  /** A year that is negative or needs five digits leaves a text that does not start with
      four digits and a hyphen. */
  lemma OtherYearsAreNotRead(year: int, rest: string)
    requires year < 0 || year > 9999
    ensures Parse(Zeroed(year, 4) + rest, WIDTHS, ENDS) == None
  {
    var y := Zeroed(year, 4);
    var s := y + rest;
    if year < 0 {
      assert y[0] == '-' && |s| > 4 ==> s[..4][0] == '-';
    } else {
      assert Pow10(4) == 10000 by {
        assert Pow10(2) == 100;
      }
      DecimalIsLong(year, 4);
      DecimalReadsBack(year);
      assert y == Decimal(year) && s[4] == y[4] && '0' <= y[4] <= '9';
    }
  }

  /** The text decodes back to the second it was made from, exactly in years 0 to 9999. */
  lemma RoundTrip(secs: int)
    ensures ParseTimestamp(Iso8601(secs)) == Some(secs) <==> FourDigitYear(secs)
  {
    if FourDigitYear(secs) {
      TextIsLayout(secs);
      ParseUndoesLayout(Fields(secs), WIDTHS, ENDS);
      SecondOfFields(secs);
    } else {
      hide Parse, CivilFromDays, Zeroed;
      var year := CivilFromDays(secs / SECONDS_PER_DAY).year;
      var y := Zeroed(year, 4);
      var rest := Iso8601(secs)[|y|..];
      assert Iso8601(secs) == y + rest;
      OtherYearsAreNotRead(year, rest);
    }
  }

  /** Within years 0 to 9999 texts sort as the instants do. */
  lemma TextOrderIsTimeOrder(a: int, b: int)
    requires FourDigitYear(a) && FourDigitYear(b)
    ensures TextLess(Iso8601(a), Iso8601(b)) <==> a < b
  {
    hide Fields, FourDigitYear, Iso8601, Layout, Fits, FieldsBefore, TextLess;
    TextIsLayout(a);
    TextIsLayout(b);
    LayoutOrder(Fields(a), Fields(b), WIDTHS, ENDS);
    if a < b {
      FieldsInOrder(a, b);
    } else if b < a {
      FieldsInOrder(b, a);
    } else {
      Unfold6(Fields(a), Fields(a));
    }
  }

  lemma YearZeroStarts()
    ensures CivilFromDays(-719_528).year == 0 && CivilFromDays(-719_529).year == -1
  {
    hide CivilFromDays;
    CivilOfDayNumber(-1, 399, 306);
    CivilOfDayNumber(-1, 399, 305);
  }

  lemma Year9999Ends()
    ensures CivilFromDays(2_932_896).year == 9999 && CivilFromDays(2_932_897).year == 10000
  {
    hide CivilFromDays;
    CivilOfDayNumber(24, 399, 305);
    CivilOfDayNumber(24, 399, 306);
  }

  /** The four-digit years are the seconds of one closed interval. */
  lemma FourDigitYears(secs: int)
    ensures FourDigitYear(secs) <==> -62_167_219_200 <= secs <= 253_402_300_799
  {
    hide CivilFromDays;
    var first, last := -719_528, 2_932_896;
    YearZeroStarts();
    Year9999Ends();
    var day := secs / SECONDS_PER_DAY;
    if day < first - 1 { LaterDaysAreLaterDates(day, first - 1); }
    if first < day { LaterDaysAreLaterDates(first, day); }
    if day < last { LaterDaysAreLaterDates(day, last); }
    if last + 1 < day { LaterDaysAreLaterDates(last + 1, day); }
  }
}
