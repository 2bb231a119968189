/**
  The two `util.rs` calendar conversions and the checked third one of `datetime.rs`, with Rust's
  truncating division written out, against the Gregorian calendar given as a successor function.
*/
module Calendar {
  import opened Prelude

  datatype Date = Date(year: int, month: int, day: int)

  /** Rust's `/` on signed integers truncates toward zero. */
  function TruncDiv(a: int, b: int): int
    requires b > 0
  {
    if a >= 0 then a / b else -((-a) / b)
  }

  /** Rust's `%` takes the sign of the dividend. */
  function TruncRem(a: int, b: int): int
    requires b > 0
  {
    a - b * TruncDiv(a, b)
  }

  // ---------------------------------------------------------------------------------------------
  // The conversions, as the code writes them
  // ---------------------------------------------------------------------------------------------

  function CivilFromDays(days: int): Date {
    var z := days + 719468;
    var era := TruncDiv(if z >= 0 then z else z - 146096, 146097);
    var doe := z - era * 146097;
    var yoe := TruncDiv(doe - TruncDiv(doe, 1460) + TruncDiv(doe, 36524) - TruncDiv(doe, 146096), 365);
    var y := yoe + era * 400;
    var doy := doe - (365 * yoe + TruncDiv(yoe, 4) - TruncDiv(yoe, 100));
    var mp := TruncDiv(5 * doy + 2, 153);
    var d := doy - TruncDiv(153 * mp + 2, 5) + 1;
    var m := if mp < 10 then mp + 3 else mp - 9;
    Date(if m <= 2 then y + 1 else y, m, d)
  }

  function DaysFromCivil(date: Date): int {
    var y := date.year - (if date.month <= 2 then 1 else 0);
    var era := TruncDiv(if y >= 0 then y else y - 399, 400);
    var yoe := y - era * 400;
    var mp := if date.month > 2 then date.month - 3 else date.month + 9;
    var doy := TruncDiv(153 * mp + 2, 5) + date.day - 1;
    var doe := yoe * 365 + TruncDiv(yoe, 4) - TruncDiv(yoe, 100) + doy;
    era * 146097 + doe - 719468
  }

  predicate IsLeapYear(year: int) {
    TruncRem(year, 4) == 0 && (TruncRem(year, 100) != 0 || TruncRem(year, 400) == 0)
  }

  function DaysInMonth(year: int, month: int): Option<nat> {
    if month in {1, 3, 5, 7, 8, 10, 12} then Some(31)
    else if month in {4, 6, 9, 11} then Some(30)
    else if month == 2 then Some(if IsLeapYear(year) then 29 else 28)
    else None
  }

  predicate ValidDate(date: Date) {
    DaysInMonth(date.year, date.month).Some? && 1 <= date.day <= DaysInMonth(date.year, date.month).value
  }

  /** The next day of the calendar. */
  function NextDay(date: Date): Date
    requires ValidDate(date)
  {
    if date.day < DaysInMonth(date.year, date.month).value then date.(day := date.day + 1)
    else if date.month < 12 then Date(date.year, date.month + 1, 1)
    else Date(date.year + 1, 1, 1)
  }

  // ---------------------------------------------------------------------------------------------
  // Truncating division, where the code uses it, is floor division
  // ---------------------------------------------------------------------------------------------

  /** The guard `if z >= 0 { z } else { z - (n - 1) }` turns truncation into floor division. */
  lemma EraIsFloor(z: int, n: int)
    requires n > 0
    ensures TruncDiv(if z >= 0 then z else z - (n - 1), n) == z / n
  {
    if z < 0 {
      var k := (-(z - (n - 1))) / n;
      FloorOfNegative(z, n, k);
    }
  }

  lemma FloorOfNegative(z: int, n: int, k: int)
    requires n > 0 && z < 0 && k == (-(z - (n - 1))) / n
    ensures z / n == -k
  {
    var w := -z + (n - 1);
    assert w == n * k + w % n && 0 <= w % n < n;
    assert z == n * (-k) + (n - 1 - w % n);
    DivUnique(z, n, -k, n - 1 - w % n);
  }

  lemma DivUnique(z: int, n: int, q: int, r: int)
    requires n > 0 && 0 <= r < n && z == n * q + r
    ensures z / n == q && z % n == r
  {
    var q', r' := z / n, z % n;
    assert n * q' - n * q == n * (q' - q) && n * q - n * q' == n * (q - q');
    if q' > q {
      AtLeast(n, q' - q);
    } else if q' < q {
      AtLeast(n, q - q');
    }
  }

  lemma AtLeast(n: int, k: int)
    requires n > 0 && k >= 1
    ensures n * k >= n
  {
  }

  lemma RemIsMod(a: int, b: int)
    requires b > 0
    ensures TruncRem(a, b) == 0 <==> a % b == 0
  {
    if a < 0 {
      var k := (-a) / b;
      var r := (-a) % b;
      assert -a == b * k + r;
      if r == 0 {
        DivUnique(a, b, -k, 0);
      } else {
        DivUnique(a, b, -k - 1, b - r);
      }
    }
  }

  // ---------------------------------------------------------------------------------------------
  // Years of an era and months of a year, both starting in March
  // ---------------------------------------------------------------------------------------------

  /** Days of an era before its year `y`. */
  function YearStart(y: int): int {
    365 * y + y / 4 - y / 100
  }

  function YearOfEra(doe: int): int {
    (doe - doe / 1460 + doe / 36524 - doe / 146096) / 365
  }

  /** Days of a March-based year before its month `mp`. */
  function MonthStart(mp: int): int {
    (153 * mp + 2) / 5
  }

  /** The last year of an era has one more day than `YearStart` shows. */
  function YearEnd(y: int): int {
    if y == 399 then 146097 else YearStart(y + 1)
  }

  /** A day of an era is a century, a four-year cycle, a year of the cycle and a day of the year. */
  lemma SplitEra(doe: int) returns (c: int, k: int, i: int, doy: int)
    requires 0 <= doe < 146097
    ensures 0 <= c <= 3 && 0 <= k <= 24 && 0 <= i <= 3 && 0 <= doy <= 365
    ensures doe == 36524 * c + 1461 * k + 365 * i + doy
    ensures doy == 365 ==> i == 3 && (k < 24 || c == 3)
  {
    c := if doe == 146096 then 3 else doe / 36524;
    var r := doe - 36524 * c;
    k := r / 1461;
    var t := r - 1461 * k;
    i := if t == 1460 then 3 else t / 365;
    doy := t - 365 * i;
  }

  lemma YearStartSplit(c: int, k: int, i: int)
    requires 0 <= c <= 3 && 0 <= k <= 24 && 0 <= i <= 3
    ensures YearStart(100 * c + 4 * k + i) == 36524 * c + 1461 * k + 365 * i
  {
    var y := 100 * c + 4 * k + i;
    assert y / 4 == 25 * c + k;
    assert y / 100 == c;
  }

  /** The closed formula finds the year the split names. */
  lemma YearFormula(doe: int, c: int, k: int, i: int, doy: int)
    requires 0 <= c <= 3 && 0 <= k <= 24 && 0 <= i <= 3 && 0 <= doy <= 365
    requires 0 <= doe < 146097 && doe == 36524 * c + 1461 * k + 365 * i + doy
    requires doy == 365 ==> i == 3 && (k < 24 || c == 3)
    ensures YearOfEra(doe) == 100 * c + 4 * k + i
  {
    var w := 24 * c + k + 365 * i + doy;
    var f := if w >= 1460 then 1 else 0;
    assert doe == 1460 * (25 * c + k) + w;
    assert doe / 1460 == 25 * c + k + f;
    assert doe / 36524 - doe / 146096 == c by {
      if doe == 146096 { assert doe / 36524 == 4; } else { assert doe / 146096 == 0 && doe / 36524 == c; }
    }
    var y := 100 * c + 4 * k + i;
    assert doe - doe / 1460 + doe / 36524 - doe / 146096 == 365 * y + (doy - f);
    assert 0 <= doy - f < 365;
  }

  lemma YearDigits(c: int, k: int, i: int)
    requires 0 <= c <= 3 && 0 <= k <= 24 && 0 <= i <= 3
    ensures (100 * c + 4 * k + i) % 4 == i && (100 * c + 4 * k + i) % 100 == 4 * k + i
  {
  }

  lemma YearOfEraExact(doe: int)
    requires 0 <= doe < 146097
    ensures 0 <= YearOfEra(doe) < 400
    ensures YearStart(YearOfEra(doe)) <= doe < YearEnd(YearOfEra(doe))
    ensures doe - YearStart(YearOfEra(doe)) == 365 ==> YearOfEra(doe) % 4 == 3 && (YearOfEra(doe) % 100 != 99 || YearOfEra(doe) == 399)
  {
    hide YearOfEra, YearStart;
    var c, k, i, doy := SplitEra(doe);
    YearFormula(doe, c, k, i, doy);
    YearStartSplit(c, k, i);
    YearDigits(c, k, i);
    if i < 3 {
      YearStartSplit(c, k, i + 1);
    } else if k < 24 {
      YearStartSplit(c, k + 1, 0);
    } else if c < 3 {
      YearStartSplit(c + 1, 0, 0);
    }
  }

  predicate LongMarchYear(y: int) {
    y % 4 == 3 && (y % 100 != 99 || y % 400 == 399)
  }

  lemma YearOfEraInverse(y: int, doy: int)
    requires 0 <= y < 400 && 0 <= doy <= 365 && (doy == 365 ==> LongMarchYear(y))
    ensures 0 <= YearStart(y) + doy < 146097 && YearOfEra(YearStart(y) + doy) == y
  {
    var c, k, i := y / 100, (y % 100) / 4, y % 4;
    assert y == 100 * c + 4 * k + i;
    YearStartSplit(c, k, i);
    YearFormula(YearStart(y) + doy, c, k, i, doy);
  }

  /** Months of a March-based year: the month formula finds the month a day falls in. */
  lemma MonthExact(doy: int)
    requires 0 <= doy <= 365
    ensures var mp := (5 * doy + 2) / 153; 0 <= mp <= 11 && MonthStart(mp) <= doy < MonthStart(mp + 1)
  {
  }

  lemma MonthInverse(mp: int, day: int)
    requires 0 <= mp <= 11 && 1 <= day && MonthStart(mp) + day - 1 < MonthStart(mp + 1)
    ensures (5 * (MonthStart(mp) + day - 1) + 2) / 153 == mp
  {
  }

  function MonthOf(mp: int): int {
    if mp < 10 then mp + 3 else mp - 9
  }

  function MarchMonth(month: int): int {
    if month > 2 then month - 3 else month + 9
  }

  /** A March-based year and day of the year as a civil date. */
  function CivilOf(y: int, doy: int): Date {
    var mp := (5 * doy + 2) / 153;
    var m := MonthOf(mp);
    Date(if m <= 2 then y + 1 else y, m, doy - MonthStart(mp) + 1)
  }

  lemma LeapIsLong(y: int)
    ensures IsLeapYear(y + 1) <==> LongMarchYear(y)
  {
    hide TruncRem;
    RemIsMod(y + 1, 4);
    RemIsMod(y + 1, 100);
    RemIsMod(y + 1, 400);
    assert (y + 1) % 4 == 0 <==> y % 4 == 3;
    assert (y + 1) % 100 == 0 <==> y % 100 == 99;
    assert (y + 1) % 400 == 0 <==> y % 400 == 399;
  }

  /** The first conversion in floor-division terms. */
  lemma CivilParts(days: int)
    ensures var z := days + 719468;
            var era, doe := z / 146097, z % 146097;
            && 0 <= doe < 146097
            && CivilFromDays(days) == CivilOf(YearOfEra(doe) + 400 * era, doe - YearStart(YearOfEra(doe)))
            && 0 <= doe - YearStart(YearOfEra(doe)) <= 365
            && (doe - YearStart(YearOfEra(doe)) == 365 ==> LongMarchYear(YearOfEra(doe) + 400 * era))
  {
    hide TruncDiv, YearStart, LongMarchYear, YearOfEra, CivilOf;
    var z := days + 719468;
    EraIsFloor(z, 146097);
    var era, doe := z / 146097, z % 146097;
    assert z - era * 146097 == doe;
    YearOfEraExact(doe);
    var yoe := YearOfEra(doe);
    YearParts(doe);
    MonthParts(yoe + era * 400, doe - YearStart(yoe));
    ErasRepeat(yoe, era);
    YearLength(yoe);
    LongInEra(yoe, doe - YearStart(yoe));
  }

  /** The year formulas of the code, with nonnegative operands. */
  lemma YearParts(doe: int)
    requires 0 <= doe < 146097 && 0 <= YearOfEra(doe) < 400
    ensures TruncDiv(doe - TruncDiv(doe, 1460) + TruncDiv(doe, 36524) - TruncDiv(doe, 146096), 365) == YearOfEra(doe)
    ensures var yoe := YearOfEra(doe); 365 * yoe + TruncDiv(yoe, 4) - TruncDiv(yoe, 100) == YearStart(yoe)
  {
    hide TruncDiv;
    TruncIsDiv(doe, 1460);
    TruncIsDiv(doe, 36524);
    TruncIsDiv(doe, 146096);
    TruncIsDiv(doe - doe / 1460 + doe / 36524 - doe / 146096, 365);
    TruncIsDiv(YearOfEra(doe), 4);
    TruncIsDiv(YearOfEra(doe), 100);
  }

  /** The month formulas of the code. */
  lemma MonthParts(y: int, doy: int)
    requires 0 <= doy
    ensures var mp := TruncDiv(5 * doy + 2, 153);
            var m := if mp < 10 then mp + 3 else mp - 9;
            CivilOf(y, doy) == Date(if m <= 2 then y + 1 else y, m, doy - TruncDiv(153 * mp + 2, 5) + 1)
  {
    hide TruncDiv;
    TruncIsDiv(5 * doy + 2, 153);
    TruncIsDiv(153 * ((5 * doy + 2) / 153) + 2, 5);
  }

  lemma TruncIsDiv(a: int, b: int)
    requires a >= 0 && b > 0
    ensures TruncDiv(a, b) == a / b
  {
  }

  lemma YearStartIs(y: int)
    ensures YearStart(y) == 365 * y + y / 4 - y / 100
  {
  }

  lemma LongInEra(yoe: int, doy: int)
    requires 0 <= yoe < 400
    requires doy == 365 ==> yoe % 4 == 3 && (yoe % 100 != 99 || yoe == 399)
    ensures doy == 365 ==> LongMarchYear(yoe)
  {
  }

  lemma ErasRepeat(y: int, era: int)
    ensures (y + 400 * era) % 4 == y % 4 && (y + 400 * era) % 100 == y % 100 && (y + 400 * era) % 400 == y % 400
    ensures LongMarchYear(y + 400 * era) == LongMarchYear(y)
  {
    DivUnique(y + 400 * era, 400, y / 400 + era, y % 400);
    DivUnique(y + 400 * era, 100, y / 100 + 4 * era, y % 100);
    DivUnique(y + 400 * era, 4, y / 4 + 100 * era, y % 4);
  }

  lemma YearLength(y: int)
    requires 0 <= y < 400
    ensures YearEnd(y) - YearStart(y) <= 366
  {
  }

  /** The second conversion in floor-division terms. */
  lemma DaysParts(date: Date)
    requires 1 <= date.month <= 12
    ensures var y := date.year - (if date.month <= 2 then 1 else 0);
            DaysFromCivil(date) == y / 400 * 146097 + YearStart(y % 400) + MonthStart(MarchMonth(date.month)) + date.day - 1 - 719468
  {
    var y := date.year - (if date.month <= 2 then 1 else 0);
    EraIsFloor(y, 400);
    assert y - y / 400 * 400 == y % 400;
  }

  /** A civil date produced from March-based parts is valid and has those parts. */
  lemma CivilOfValid(y: int, doy: int)
    requires 0 <= doy <= 365 && (doy == 365 ==> LongMarchYear(y))
    ensures var d := CivilOf(y, doy);
            && ValidDate(d)
            && d.year - (if d.month <= 2 then 1 else 0) == y
            && MonthStart(MarchMonth(d.month)) + d.day - 1 == doy
  {
    MonthExact(doy);
    LeapIsLong(y);
  }

  /** Every day number names a valid date, and converting back returns the day number. */
  lemma DaysOfCivil(days: int)
    ensures ValidDate(CivilFromDays(days))
    ensures DaysFromCivil(CivilFromDays(days)) == days
  {
    hide CivilFromDays, DaysFromCivil, YearOfEra, YearStart, CivilOf, LongMarchYear, MonthStart, MarchMonth, ValidDate;
    CivilParts(days);
    var z := days + 719468;
    var era, doe := z / 146097, z % 146097;
    var yoe := YearOfEra(doe);
    var y, doy := yoe + 400 * era, doe - YearStart(yoe);
    CivilOfValid(y, doy);
    var d := CivilOf(y, doy);
    ValidMonth(d);
    DaysParts(d);
    YearOfEraExact(doe);
    DivUnique(y, 400, era, yoe);
  }

  lemma ValidMonth(d: Date)
    requires ValidDate(d)
    ensures 1 <= d.month <= 12 && 1 <= d.day <= 31
  {
  }

  /** The March-based day of the year of a valid date. */
  lemma ValidParts(date: Date)
    requires ValidDate(date)
    ensures var y := date.year - (if date.month <= 2 then 1 else 0);
            var doy := MonthStart(MarchMonth(date.month)) + date.day - 1;
            && 1 <= date.month <= 12 && 0 <= doy <= 365 && (doy == 365 ==> LongMarchYear(y))
            && CivilOf(y, doy) == date
  {
    var mp := MarchMonth(date.month);
    LeapIsLong(date.year - 1);
    MonthInverse(mp, date.day);
  }

  /** Every valid date, negative years included, is the date of its own day number. */
  lemma CivilOfDays(date: Date)
    requires ValidDate(date)
    ensures CivilFromDays(DaysFromCivil(date)) == date
  {
    hide CivilFromDays, DaysFromCivil, YearOfEra, YearStart, CivilOf, LongMarchYear, MonthStart, MarchMonth, ValidDate;
    var y := date.year - (if date.month <= 2 then 1 else 0);
    var doy := MonthStart(MarchMonth(date.month)) + date.day - 1;
    ValidParts(date);
    DaysParts(date);
    var era, yoe := y / 400, y % 400;
    ErasRepeat(yoe, era);
    YearOfEraInverse(yoe, doy);
    var days := DaysFromCivil(date);
    DivUnique(days + 719468, 146097, era, YearStart(yoe) + doy);
    CivilParts(days);
  }

  // ---------------------------------------------------------------------------------------------
  // The calendar is right: day numbers follow the successor function from the epoch
  // ---------------------------------------------------------------------------------------------

  lemma NextYearStart(y: int)
    ensures var era, yoe := y / 400, y % 400;
            (y + 1) / 400 * 146097 + YearStart((y + 1) % 400)
            == era * 146097 + YearStart(yoe) + (if LongMarchYear(y) then 366 else 365)
  {
    var era, yoe := y / 400, y % 400;
    ErasRepeat(yoe, era);
    if yoe == 399 {
      DivUnique(y + 1, 400, era + 1, 0);
    } else {
      DivUnique(y + 1, 400, era, yoe + 1);
      assert (yoe + 1) / 4 == yoe / 4 + (if yoe % 4 == 3 then 1 else 0);
      assert (yoe + 1) / 100 == yoe / 100 + (if yoe % 100 == 99 then 1 else 0);
    }
  }

  lemma NextDayAddsOne(date: Date)
    requires ValidDate(date)
    ensures ValidDate(NextDay(date)) && DaysFromCivil(NextDay(date)) == DaysFromCivil(date) + 1
  {
    hide DaysFromCivil, YearStart, IsLeapYear;
    DaysParts(date);
    DaysParts(NextDay(date));
    if date.month == 2 {
      var y := date.year - 1;
      LeapIsLong(y);
      NextYearStart(y);
    }
  }

  /** `n` days after the epoch, counted with the calendar. */
  function DayAfterEpoch(n: nat): (d: Date)
    ensures ValidDate(d)
  {
    if n == 0 then Date(1970, 1, 1)
    else
      NextDayAddsOne(DayAfterEpoch(n - 1));
      NextDay(DayAfterEpoch(n - 1))
  }

  /** The conversion from days agrees with counting, for every number of days. */
  lemma {:induction false} CountingFromTheEpoch(n: nat)
    ensures CivilFromDays(n) == DayAfterEpoch(n) && DaysFromCivil(DayAfterEpoch(n)) == n
  {
    hide DaysFromCivil, CivilFromDays, NextDay, ValidDate;
    if n == 0 {
      EpochIsZero();
    } else {
      CountingFromTheEpoch(n - 1);
      NextDayAddsOne(DayAfterEpoch(n - 1));
    }
    CivilOfDays(DayAfterEpoch(n));
  }

  lemma EpochIsZero()
    ensures DaysFromCivil(Date(1970, 1, 1)) == 0
  {
  }

  // ---------------------------------------------------------------------------------------------
  // Unix seconds
  // ---------------------------------------------------------------------------------------------

  datatype Clock = Clock(hour: int, minute: int, second: int)

  predicate ValidClock(c: Clock) {
    0 <= c.hour <= 23 && 0 <= c.minute <= 59 && 0 <= c.second <= 59
  }

  function SecondOfDay(c: Clock): int {
    c.hour * 3600 + c.minute * 60 + c.second
  }

  /** The calendar split of Unix seconds. */
  function UtcComponents(unix: int): (Date, Clock) {
    var days, seconds := unix / 86400, unix % 86400;
    (CivilFromDays(days), Clock(seconds / 3600, seconds % 3600 / 60, seconds % 60))
  }

  /** `i64` arithmetic that reports overflow. */
  function Checked(x: int): Option<int> {
    if InI64(x) then Some(x) else None
  }

  /** The checked day number. */
  function CheckedDays(date: Date): Option<int> {
    match if date.month <= 2 then Checked(date.year - 1) else Some(date.year)
    case None => None
    case Some(y) =>
      match if y >= 0 then Some(y) else Checked(y - 399)
      case None => None
      case Some(shifted) =>
        var era := TruncDiv(shifted, 400);
        var yoe := y - era * 400;
        if Checked(era * 400).None? || Checked(yoe).None? || Checked(yoe * 365).None? then None
        else
          var doy := TruncDiv(153 * (if date.month > 2 then date.month - 3 else date.month + 9) + 2, 5) + date.day - 1;
          var doe := yoe * 365 + TruncDiv(yoe, 4) - TruncDiv(yoe, 100) + doy;
          if Checked(era * 146097).None? || Checked(era * 146097 + doe).None? then None
          else Checked(era * 146097 + doe - 719468)
  }

  function CheckedSeconds(days: int, clock: Clock): Option<int> {
    var t := days * 86400;
    var u := t + clock.hour * 3600;
    var v := u + clock.minute * 60;
    if Checked(t).None? || Checked(clock.hour * 3600).None? || Checked(u).None?
       || Checked(clock.minute * 60).None? || Checked(v).None? then None
    else Checked(v + clock.second)
  }

  function CivilToUnix(date: Date, clock: Clock): Option<int> {
    match CheckedDays(date)
    case None => None
    case Some(days) => CheckedSeconds(days, clock)
  }

  /** The checked day number is the plain one, and is refused only for days whose seconds overflow. */
  lemma CheckedDaysExact(date: Date)
    requires InI64(date.year) && 1 <= date.month <= 12 && 1 <= date.day <= 31
    ensures CheckedDays(date).Some? ==> CheckedDays(date) == Some(DaysFromCivil(date))
    ensures CheckedDays(date).None? ==> !InI64(DaysFromCivil(date) * 86400)
  {
    hide TruncDiv, YearStart, DaysFromCivil;
    var y := date.year - (if date.month <= 2 then 1 else 0);
    DaysParts(date);
    EraIsFloor(y, 400);
    var era, yoe := y / 400, y % 400;
    assert y == 400 * era + yoe;
    TruncIsDiv(yoe, 4);
    TruncIsDiv(yoe, 100);
    YearStartIs(yoe);
    var mp := MarchMonth(date.month);
    TruncIsDiv(153 * mp + 2, 5);
    var doe := YearStart(yoe) + MonthStart(mp) + date.day - 1;
    assert DaysFromCivil(date) == era * 146097 + doe - 719468;
    assert 0 <= doe <= 150000;
    if InI64(DaysFromCivil(date) * 86400) {
      assert -800000000 <= era <= 800000000;
    }
  }

  /**
    The checked conversion is `DaysFromCivil` in seconds.  It answers exactly when midnight of the day
    and the result both fit `i64`; no intermediate overflow refuses anything else.
  */
  lemma CivilToUnixExact(date: Date, clock: Clock)
    requires InI64(date.year) && 1 <= date.month <= 12 && 1 <= date.day <= 31
    requires 0 <= clock.hour <= 23 && 0 <= clock.minute <= 59 && 0 <= clock.second <= 60
    ensures var midnight := DaysFromCivil(date) * 86400;
            CivilToUnix(date, clock)
            == if I64_MIN <= midnight && midnight + SecondOfDay(clock) <= I64_MAX then Some(midnight + SecondOfDay(clock)) else None
  {
    hide CheckedDays, DaysFromCivil;
    CheckedDaysExact(date);
  }

  // The results of the `i64` operators of `CivilFromDays`, in the order the code evaluates them.

  function EraOperations(days: int): (xs: seq<int>)
    ensures |xs| == 5
  {
    var z := days + 719468;
    var dividend := if z >= 0 then z else z - 146096;
    var era := TruncDiv(dividend, 146097);
    [z, dividend, era, era * 146097, z - era * 146097]
  }

  function YearOperations(doe: int): (xs: seq<int>)
    ensures |xs| == 7
  {
    var a, b, c := TruncDiv(doe, 1460), TruncDiv(doe, 36524), TruncDiv(doe, 146096);
    [a, doe - a, b, doe - a + b, c, doe - a + b - c, TruncDiv(doe - a + b - c, 365)]
  }

  function DayOperations(era: int, doe: int, yoe: int): (xs: seq<int>)
    ensures |xs| == 8 && xs[1] == yoe + era * 400
  {
    var a, b := TruncDiv(yoe, 4), TruncDiv(yoe, 100);
    [era * 400, yoe + era * 400, 365 * yoe, a, 365 * yoe + a, b, 365 * yoe + a - b, doe - (365 * yoe + a - b)]
  }

  function MonthOperations(y: int, doy: int): (xs: seq<int>)
    ensures |xs| == 11
  {
    var mp := TruncDiv(5 * doy + 2, 153);
    var n := TruncDiv(153 * mp + 2, 5);
    var m := if mp < 10 then mp + 3 else mp - 9;
    [5 * doy, 5 * doy + 2, mp, 153 * mp, 153 * mp + 2, n, doy - n, m, if m <= 2 then y + 1 else y, m, doy - n + 1]
  }

  function CivilOperations(days: int): seq<int> {
    var e := EraOperations(days);
    var ys := YearOperations(e[4]);
    var ds := DayOperations(e[2], e[4], ys[6]);
    e + ys + ds + MonthOperations(ds[1], ds[7])
  }

  predicate AllInI64(xs: seq<int>) {
    forall x :: x in xs ==> InI64(x)
  }

  lemma AllInI64Append(a: seq<int>, b: seq<int>)
    requires AllInI64(a) && AllInI64(b)
    ensures AllInI64(a + b)
  {
  }

  lemma EraInI64(days: int)
    requires -200_000_000_000_000 <= days <= 200_000_000_000_000
    ensures AllInI64(EraOperations(days))
    ensures var e, z := EraOperations(days), days + 719468;
            e[2] == z / 146097 && e[4] == z % 146097 && -2_000_000_000 <= e[2] <= 2_000_000_000
  {
    hide TruncDiv;
    EraIsFloor(days + 719468, 146097);
  }

  lemma YearInI64(doe: int)
    requires 0 <= doe < 146097
    ensures AllInI64(YearOperations(doe)) && YearOperations(doe)[6] == YearOfEra(doe) && 0 <= YearOfEra(doe) < 400
  {
    hide TruncDiv, YearOfEra, YearStart;
    YearOfEraExact(doe);
    YearParts(doe);
    TruncIsDiv(doe, 1460);
    TruncIsDiv(doe, 36524);
    TruncIsDiv(doe, 146096);
  }

  lemma DayInI64(era: int, doe: int, yoe: int)
    requires -2_000_000_000 <= era <= 2_000_000_000 && 0 <= doe < 146097 && yoe == YearOfEra(doe) && 0 <= yoe < 400
    ensures AllInI64(DayOperations(era, doe, yoe))
    ensures DayOperations(era, doe, yoe)[7] == doe - YearStart(yoe)
  {
    hide TruncDiv, YearOfEra;
    TruncIsDiv(yoe, 4);
    TruncIsDiv(yoe, 100);
  }

  lemma MonthInI64(y: int, doy: int)
    requires -1_000_000_000_000 <= y <= 1_000_000_000_000 && 0 <= doy <= 365
    ensures AllInI64(MonthOperations(y, doy))
    ensures var ms := MonthOperations(y, doy); CivilOf(y, doy) == Date(ms[8], ms[9], ms[10])
  {
    hide TruncDiv, CivilOf;
    MonthParts(y, doy);
    TruncIsDiv(5 * doy + 2, 153);
    TruncIsDiv(153 * ((5 * doy + 2) / 153) + 2, 5);
  }

  /** No operator of the split overflows on an `i64` instant; the last three results are the date. */
  lemma SplitStaysInI64(unix: int)
    requires InI64(unix)
    ensures var ops := CivilOperations(unix / 86400);
            && |ops| == 31 && AllInI64(ops)
            && CivilFromDays(unix / 86400) == Date(ops[28], ops[29], ops[30])
    ensures -1_000_000_000_000 < CivilFromDays(unix / 86400).year < 1_000_000_000_000
  {
    hide CivilFromDays, YearStart, YearOfEra, LongMarchYear, CivilOf, EraOperations, YearOperations, DayOperations,
      MonthOperations, AllInI64;
    var days := unix / 86400;
    EraInI64(days);
    CivilParts(days);
    var e := EraOperations(days);
    YearInI64(e[4]);
    var ys := YearOperations(e[4]);
    DayInI64(e[2], e[4], ys[6]);
    var ds := DayOperations(e[2], e[4], ys[6]);
    MonthInI64(ds[1], ds[7]);
    AllInI64Append(e, ys);
    AllInI64Append(e + ys, ds);
    AllInI64Append(e + ys + ds, MonthOperations(ds[1], ds[7]));
    YearOf(ds[1], ds[7]);
  }

  lemma YearOf(y: int, doy: int)
    ensures y <= CivilOf(y, doy).year <= y + 1
  {
  }

  /** Splitting and converting back is the identity exactly when the day's midnight fits `i64`. */
  lemma UnixRoundTrip(unix: int)
    requires InI64(unix)
    ensures var (date, clock) := UtcComponents(unix);
            && ValidDate(date) && ValidClock(clock)
            && (CivilToUnix(date, clock) == Some(unix) <==> I64_MIN <= unix / 86400 * 86400)
  {
    hide CivilFromDays, DaysFromCivil, CivilToUnix, ValidDate, CivilOperations, AllInI64;
    var days := unix / 86400;
    DaysOfCivil(days);
    SplitStaysInI64(unix);
    var (date, clock) := UtcComponents(unix);
    ValidMonth(date);
    CivilToUnixExact(date, clock);
    assert SecondOfDay(clock) == unix % 86400;
  }
}
