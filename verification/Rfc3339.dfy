/**
  The RFC 3339 UTC timestamp parser (section 5.6 of RFC 3339, `Z` only): it accepts exactly the texts
  of valid date-times and returns their Unix seconds.
*/
module Rfc3339 {
  import opened Prelude
  import opened Calendar
  import opened Decimals
  import opened Splitting

  const DASH: byte := 45
  const COLON: byte := 58
  const DOT: byte := 46
  const TEE: byte := 84
  const ZED: byte := 90

  // ---------------------------------------------------------------------------------------------
  // The parser
  // ---------------------------------------------------------------------------------------------

  function ParseFixedWidth(field: Text, width: nat): Option<int> {
    if |field| != width || !AllDigits(field) then None else Some(DecimalValue(field))
  }

  function ParseSecondsField(field: Text): Option<int> {
    match SplitOnce(field, DOT)
    case None => ParseFixedWidth(field, 2)
    case Some((whole, fraction)) =>
      if fraction == [] || !AllDigits(fraction) then None else ParseFixedWidth(whole, 2)
  }

  function ParseDate(s: Text): Option<Date> {
    var parts := Split(s, DASH);
    if |parts| != 3 then None
    else
      match (ParseFixedWidth(parts[0], 4), ParseFixedWidth(parts[1], 2), ParseFixedWidth(parts[2], 2))
      case (Some(y), Some(m), Some(d)) => Some(Date(y, m, d))
      case _ => None
  }

  function ParseTime(s: Text): Option<Clock> {
    var parts := Split(s, COLON);
    if |parts| != 3 then None
    else
      match (ParseFixedWidth(parts[0], 2), ParseFixedWidth(parts[1], 2), ParseSecondsField(parts[2]))
      case (Some(h), Some(m), Some(s)) => Some(Clock(h, m, s))
      case _ => None
  }

  function ParseRfc3339Utc(s: Text): Option<int> {
    if s == [] || s[|s| - 1] != ZED then None
    else
      match SplitOnce(s[..|s| - 1], TEE)
      case None => None
      case Some((dateText, timeText)) =>
        match (ParseDate(dateText), ParseTime(timeText))
        case (Some(date), Some(clock)) =>
          if !(1 <= date.month <= 12) || !LeapClock(clock) then None
          else
            (match DaysInMonth(date.year, date.month)
             case None => None
             case Some(n) => if 1 <= date.day <= n then CivilToUnix(date, clock) else None)
        case _ => None
  }

  /** A time of day; second 60 is tolerated. */
  predicate LeapClock(c: Clock) {
    0 <= c.hour <= 23 && 0 <= c.minute <= 59 && 0 <= c.second <= 60
  }

  // ---------------------------------------------------------------------------------------------
  // The grammar
  // ---------------------------------------------------------------------------------------------

  function Digits(n: nat, width: nat): (s: Text)
    ensures |s| == width && AllDigits(s)
  {
    if width == 0 then [] else Digits(n / 10, width - 1) + [48 + n % 10]
  }

  /** An optional fraction: nothing, or a dot and at least one digit. */
  predicate IsFraction(f: Text) {
    f == [] || (|f| >= 2 && f[0] == '.' as byte && AllDigits(f[1..]))
  }

  function DateText(d: Date): Text
    requires 0 <= d.year && 0 <= d.month && 0 <= d.day
  {
    Digits(d.year, 4) + (Lit("-") + (Digits(d.month, 2) + (Lit("-") + Digits(d.day, 2))))
  }

  function TimeText(c: Clock, fraction: Text): Text
    requires LeapClock(c)
  {
    Digits(c.hour, 2) + (Lit(":") + (Digits(c.minute, 2) + (Lit(":") + (Digits(c.second, 2) + fraction))))
  }

  predicate Writable(d: Date, c: Clock, fraction: Text) {
    0 <= d.year <= 9999 && ValidDate(d) && LeapClock(c) && IsFraction(fraction)
  }

  function Format(d: Date, c: Clock, fraction: Text): Text
    requires Writable(d, c, fraction)
  {
    DateText(d) + (Lit("T") + TimeText(c, fraction)) + Lit("Z")
  }

  // ---------------------------------------------------------------------------------------------
  // Decimal fields
  // ---------------------------------------------------------------------------------------------

  function Pow10(n: nat): nat {
    if n == 0 then 1 else 10 * Pow10(n - 1)
  }

  lemma {:induction false} ValueOfDigits(n: nat, width: nat)
    requires n < Pow10(width)
    ensures DecimalValue(Digits(n, width)) == n
  {
    if width > 0 {
      ValueOfDigits(n / 10, width - 1);
      var s := Digits(n, width);
      assert s[..|s| - 1] == Digits(n / 10, width - 1);
    }
  }

  lemma {:induction false} DigitsOfValue(s: Text)
    requires AllDigits(s)
    ensures 0 <= DecimalValue(s) < Pow10(|s|) && Digits(DecimalValue(s), |s|) == s
    decreases |s|
  {
    if s != [] {
      DigitsOfValue(s[..|s| - 1]);
      assert s == s[..|s| - 1] + [s[|s| - 1]];
    }
  }

  lemma FieldIsDigits(n: nat, width: nat)
    requires n < Pow10(width)
    ensures ParseFixedWidth(Digits(n, width), width) == Some(n)
  {
    ValueOfDigits(n, width);
  }

  lemma DigitsHaveNo(s: Text, sep: byte)
    requires AllDigits(s) && !IsDigit(sep)
    ensures sep !in s
  {
  }

  lemma Pow10Values()
    ensures Pow10(2) == 100 && Pow10(4) == 10000
  {
    assert Pow10(1) == 10 && Pow10(3) == 1000;
  }

  // ---------------------------------------------------------------------------------------------
  // Dates and times
  // ---------------------------------------------------------------------------------------------

  lemma MarksAre()
    ensures Lit("-") == [DASH] && Lit(":") == [COLON] && Lit("T") == [TEE] && Lit("Z") == [ZED]
  {
  }

  lemma DateParses(d: Date)
    requires 0 <= d.year <= 9999 && 0 <= d.month <= 99 && 0 <= d.day <= 99
    ensures ParseDate(DateText(d)) == Some(d)
  {
    hide Digits, Split;
    MarksAre();
    Pow10Values();
    var y, m, day := Digits(d.year, 4), Digits(d.month, 2), Digits(d.day, 2);
    JoinThree(y, m, day, DASH);
    FieldIsDigits(d.year, 4);
    FieldIsDigits(d.month, 2);
    FieldIsDigits(d.day, 2);
  }

  lemma DateSound(s: Text)
    requires ParseDate(s).Some?
    ensures var d := ParseDate(s).value;
            0 <= d.year <= 9999 && 0 <= d.month <= 99 && 0 <= d.day <= 99 && s == DateText(d)
  {
    hide Digits, Split;
    MarksAre();
    Pow10Values();
    SplitThree(s, DASH);
    var p := Split(s, DASH);
    DigitsOfValue(p[0]);
    DigitsOfValue(p[1]);
    DigitsOfValue(p[2]);
  }

  lemma SecondsParse(second: nat, fraction: Text)
    requires second <= 99 && IsFraction(fraction)
    ensures ParseSecondsField(Digits(second, 2) + fraction) == Some(second)
  {
    hide Digits;
    Pow10Values();
    var whole := Digits(second, 2);
    FieldIsDigits(second, 2);
    if fraction == [] {
      assert whole + fraction == whole;
      SplitOnceNone(whole, DOT);
    } else {
      assert fraction == [DOT] + fraction[1..];
      SplitOnceComplete(whole, DOT, fraction[1..]);
    }
  }

  lemma SecondsSound(field: Text) returns (fraction: Text)
    requires ParseSecondsField(field).Some?
    ensures IsFraction(fraction) && 0 <= ParseSecondsField(field).value <= 99
    ensures field == Digits(ParseSecondsField(field).value, 2) + fraction
  {
    hide Digits;
    Pow10Values();
    SplitOnceSound(field, DOT);
    match SplitOnce(field, DOT)
    case None =>
      fraction := [];
      DigitsOfValue(field);
    case Some((whole, f)) =>
      fraction := [DOT] + f;
      assert fraction[1..] == f;
      DigitsOfValue(whole);
  }

  lemma TimeParses(c: Clock, fraction: Text)
    requires LeapClock(c) && IsFraction(fraction)
    ensures ParseTime(TimeText(c, fraction)) == Some(c)
  {
    hide Digits, Split;
    MarksAre();
    Pow10Values();
    var h, m, s := Digits(c.hour, 2), Digits(c.minute, 2), Digits(c.second, 2) + fraction;
    JoinThree(h, m, s, COLON);
    FieldIsDigits(c.hour, 2);
    FieldIsDigits(c.minute, 2);
    SecondsParse(c.second, fraction);
  }

  lemma TimeSound(s: Text) returns (fraction: Text)
    requires ParseTime(s).Some? && LeapClock(ParseTime(s).value)
    ensures IsFraction(fraction) && s == TimeText(ParseTime(s).value, fraction)
  {
    hide Digits, Split;
    SplitThree(s, COLON);
    var p := Split(s, COLON);
    DigitsOfValue(p[0]);
    DigitsOfValue(p[1]);
    fraction := SecondsSound(p[2]);
  }

  // ---------------------------------------------------------------------------------------------
  // Main statements
  // ---------------------------------------------------------------------------------------------

  function UnixOf(d: Date, c: Clock): int {
    DaysFromCivil(d) * 86400 + SecondOfDay(c)
  }

  lemma FourDigitYearFits(d: Date, c: Clock)
    requires 0 <= d.year <= 9999 && ValidDate(d) && LeapClock(c)
    ensures CivilToUnix(d, c) == Some(UnixOf(d, c))
    ensures -62167219200 <= UnixOf(d, c) <= 253402300800
  {
    hide CivilToUnix, DaysFromCivil, YearStart, YearOfEra;
    ValidMonth(d);
    CivilToUnixExact(d, c);
    DaysParts(d);
    var y := d.year - (if d.month <= 2 then 1 else 0);
    YearRange(y, d);
  }

  /** January and February end a March-based year, and December is not past day 305 of it. */
  lemma MarchDays(d: Date)
    requires ValidDate(d)
    ensures var doy := MonthStart(MarchMonth(d.month)) + d.day - 1;
            if d.month <= 2 then 306 <= doy <= 365 else 0 <= doy <= 305
  {
  }

  /** Day numbers of the years 0000 to 9999. */
  lemma YearRange(y: int, d: Date)
    requires 0 <= d.year <= 9999 && ValidDate(d) && y == d.year - (if d.month <= 2 then 1 else 0)
    ensures -719528 <= DaysFromCivil(d) <= 2932896
  {
    hide YearStart, DaysFromCivil, MonthStart, MarchMonth, CivilOf, LongMarchYear;
    ValidParts(d);
    DaysParts(d);
    MarchDays(d);
    YearStartIs(y % 400);
    if y == -1 {
      YearStartIs(399);
    } else if y / 400 < 24 {
      YearStartBound(y % 400);
    }
  }

  lemma YearStartBound(yoe: int)
    requires 0 <= yoe < 400
    ensures 0 <= YearStart(yoe) <= 145731
  {
  }

  /** The parser inverts the text form: every date-time of years 0000 to 9999 is read back. */
  lemma ParsesWhatIsWritten(d: Date, c: Clock, fraction: Text)
    requires Writable(d, c, fraction)
    ensures ParseRfc3339Utc(Format(d, c, fraction)) == Some(UnixOf(d, c))
  {
    hide ParseDate, ParseTime, SplitOnce, CivilToUnix;
    ValidMonth(d);
    var s := Format(d, c, fraction);
    assert s[..|s| - 1] == DateText(d) + ([TEE] + TimeText(c, fraction));
    NoTee(d);
    SplitOnceComplete(DateText(d), TEE, TimeText(c, fraction));
    DateParses(d);
    TimeParses(c, fraction);
    FourDigitYearFits(d, c);
  }

  lemma NoTee(d: Date)
    requires 0 <= d.year && 0 <= d.month && 0 <= d.day
    ensures TEE !in DateText(d)
  {
    hide Digits;
    DigitsHaveNo(Digits(d.year, 4), TEE);
    DigitsHaveNo(Digits(d.month, 2), TEE);
    DigitsHaveNo(Digits(d.day, 2), TEE);
  }

  /** Nothing else is accepted: an accepted text is the text of a valid date-time. */
  lemma AcceptsOnlyWhatIsWritten(s: Text) returns (d: Date, c: Clock, fraction: Text)
    requires ParseRfc3339Utc(s).Some?
    ensures Writable(d, c, fraction) && s == Format(d, c, fraction) && ParseRfc3339Utc(s) == Some(UnixOf(d, c))
  {
    MarksAre();
    hide ParseDate, ParseTime, SplitOnce, CivilToUnix, DateText, TimeText, Lit, IsFraction;
    var body := s[..|s| - 1];
    SplitOnceSound(body, TEE);
    var (dateText, timeText) := SplitOnce(body, TEE).value;
    DateSound(dateText);
    d, c := ParseDate(dateText).value, ParseTime(timeText).value;
    fraction := TimeSound(timeText);
    FourDigitYearFits(d, c);
    assert s == body + [ZED];
  }

  /** The parser accepts a text exactly when it is the text of a valid UTC date-time. */
  lemma ParserIsGrammar(s: Text, v: int)
    ensures ParseRfc3339Utc(s) == Some(v)
       <==> exists d, c, fraction :: Writable(d, c, fraction) && s == Format(d, c, fraction) && v == UnixOf(d, c)
  {
    hide ParseRfc3339Utc, Format, Writable, UnixOf;
    if ParseRfc3339Utc(s) == Some(v) {
      var d, c, fraction := AcceptsOnlyWhatIsWritten(s);
    }
    if d, c, fraction :| Writable(d, c, fraction) && s == Format(d, c, fraction) && v == UnixOf(d, c) {
      ParsesWhatIsWritten(d, c, fraction);
    }
  }

  /** Accepted values lie in the years 0000 to 9999, up to one leap second. */
  lemma AcceptedRange(s: Text)
    requires ParseRfc3339Utc(s).Some?
    ensures -62167219200 <= ParseRfc3339Utc(s).value <= 253402300800
  {
    var d, c, fraction := AcceptsOnlyWhatIsWritten(s);
    FourDigitYearFits(d, c);
  }

  /** The last date and time of day the parser accepts. */
  const LAST_DAY: Date := Date(9999, 12, 31)
  const LEAP_SECOND: Clock := Clock(23, 59, 60)

  lemma LastDayNumber()
    ensures ValidDate(LAST_DAY) && DaysFromCivil(LAST_DAY) == 2932896
  {
    hide DaysFromCivil;
    DaysParts(LAST_DAY);
    YearStartIs(399);
    assert MonthStart(MarchMonth(12)) == 275;
  }

  lemma LastDay(d: Date)
    requires ValidDate(d) && DaysFromCivil(d) == 2932896
    ensures d == LAST_DAY
  {
    hide CivilFromDays, DaysFromCivil, ValidDate;
    LastDayNumber();
    CivilOfDays(LAST_DAY);
    CivilOfDays(d);
  }

  lemma PastTheLastSecond(d: Date, c: Clock)
    requires 0 <= d.year <= 9999 && ValidDate(d) && LeapClock(c)
    ensures UnixOf(d, c) > 253402300799 <==> d == LAST_DAY && c == LEAP_SECOND
    ensures UnixOf(d, c) > 253402300799 ==> UnixOf(d, c) == 253402300800
  {
    hide DaysFromCivil, ValidDate;
    YearRange(d.year - (if d.month <= 2 then 1 else 0), d);
    LastDayNumber();
    if DaysFromCivil(d) == 2932896 {
      LastDay(d);
    }
    assert SecondOfDay(c) == 86400 <==> c == LEAP_SECOND;
  }

  /** Exactly one instant lies past 9999-12-31T23:59:59Z: the leap second, with any fraction. */
  lemma PastYear9999(s: Text)
    requires ParseRfc3339Utc(s).Some?
    ensures Writable(LAST_DAY, LEAP_SECOND, [])
    ensures ParseRfc3339Utc(s).value > 253402300799
       <==> exists fraction :: IsFraction(fraction) && Writable(LAST_DAY, LEAP_SECOND, fraction)
                               && s == Format(LAST_DAY, LEAP_SECOND, fraction)
    ensures ParseRfc3339Utc(s).value > 253402300799 ==> ParseRfc3339Utc(s).value == 253402300800
  {
    hide ParseRfc3339Utc, Format, UnixOf, ValidDate;
    var d, c, fraction := AcceptsOnlyWhatIsWritten(s);
    LastDayNumber();
    PastTheLastSecond(d, c);
    if f :| IsFraction(f) && Writable(LAST_DAY, LEAP_SECOND, f) && s == Format(LAST_DAY, LEAP_SECOND, f) {
      ParsesWhatIsWritten(LAST_DAY, LEAP_SECOND, f);
      PastTheLastSecond(LAST_DAY, LEAP_SECOND);
    }
  }

  /** The bound of `AcceptedRange` is reached. */
  lemma LeapSecondAccepted(fraction: Text)
    requires IsFraction(fraction)
    ensures Writable(LAST_DAY, LEAP_SECOND, fraction)
    ensures ParseRfc3339Utc(Format(LAST_DAY, LEAP_SECOND, fraction)) == Some(253402300800)
  {
    hide ParseRfc3339Utc, Format, UnixOf, ValidDate;
    LastDayNumber();
    ParsesWhatIsWritten(LAST_DAY, LEAP_SECOND, fraction);
    PastTheLastSecond(LAST_DAY, LEAP_SECOND);
  }

  lemma ComponentsWritable(unix: int)
    requires 0 <= UtcComponents(unix).0.year <= 9999
    ensures var (d, c) := UtcComponents(unix); Writable(d, c, []) && UnixOf(d, c) == unix
  {
    hide CivilFromDays, DaysFromCivil, ValidDate;
    DaysOfCivil(unix / 86400);
  }

  /** Writing the split of an instant and parsing it returns the instant. */
  lemma SplitThenParse(unix: int)
    requires InI64(unix) && 0 <= UtcComponents(unix).0.year <= 9999
    ensures var (d, c) := UtcComponents(unix);
            Writable(d, c, []) && ParseRfc3339Utc(Format(d, c, [])) == Some(unix)
  {
    hide UtcComponents, Writable, UnixOf, ParseRfc3339Utc, Format;
    ComponentsWritable(unix);
    var (d, c) := UtcComponents(unix);
    ParsesWhatIsWritten(d, c, []);
  }
}
