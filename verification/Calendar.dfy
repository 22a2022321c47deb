/** A second count as a proleptic Gregorian date and time, and its text. */
module Calendar {
  import opened Base
  import opened Decimal

  const FIRST_KNOWN: nat := 1_234_567_890

  datatype Date = Date(year: int, month: int, day: int)
  datatype Clock = Clock(hour: int, minute: int, second: int)

  // ------------------------------------------------------ the calendar itself

  predicate IsLeap(y: int) { y % 4 == 0 && (y % 100 != 0 || y % 400 == 0) }

  function YearLength(y: int): int { if IsLeap(y) then 366 else 365 }

  function DaysIn(y: int, m: int): int {
    if m == 2 then (if IsLeap(y) then 29 else 28)
    else if m == 4 || m == 6 || m == 9 || m == 11 then 30
    else 31
  }

  predicate IsDate(d: Date) { 1 <= d.year && 1 <= d.month <= 12 && 1 <= d.day <= DaysIn(d.year, d.month) }

  predicate IsClock(c: Clock) { 0 <= c.hour < 24 && 0 <= c.minute < 60 && 0 <= c.second < 60 }

  /** Days before the first of January of year `y`, counted year by year from year 1. */
  function YearStart(y: int): int
    requires y >= 1
  {
    if y == 1 then 0 else YearStart(y - 1) + YearLength(y - 1)
  }

  /** Days of year `y` before the first of month `m`. */
  function MonthStart(y: int, m: int): int
    requires 1 <= m <= 13
  {
    if m == 1 then 0 else MonthStart(y, m - 1) + DaysIn(y, m - 1)
  }

  function Ordinal(d: Date): int
    requires d.year >= 1 && 1 <= d.month <= 13
  {
    YearStart(d.year) + MonthStart(d.year, d.month) + d.day - 1
  }

  /** Days before the start of 1970. */
  const EPOCH: int := 719_162

  /** Seconds from the start of 1970. */
  function Seconds(d: Date, c: Clock): int
    requires d.year >= 1 && 1 <= d.month <= 13
  {
    (Ordinal(d) - EPOCH) * 86_400 + c.hour * 3_600 + c.minute * 60 + c.second
  }

  // ------------------------------------------------------------ the algorithm

  function YearOfEra(doe: nat): nat
    requires doe < 146_097
  {
    (doe - doe / 1_460 + doe / 36_524 - doe / 146_096) / 365
  }

  /** Day `doy` of the year that starts in March of year `y`. */
  function MarchDate(y: int, doy: int): Date {
    var mp := (5 * doy + 2) / 153;
    var day := doy - (153 * mp + 2) / 5 + 1;
    var month := if mp < 10 then mp + 3 else mp - 9;
    Date(y + (if month <= 2 then 1 else 0), month, day)
  }

  /** Day `z` counted from the first of March of year 0. */
  function CivilFromDays(z: nat): Date {
    var era, doe := z / 146_097, z % 146_097;
    var yoe := YearOfEra(doe);
    MarchDate(yoe + era * 400, doe - (365 * yoe + yoe / 4 - yoe / 100))
  }

  function DateOf(ts: nat): Date { CivilFromDays(ts / 86_400 + 719_468) }

  function ClockOf(ts: nat): Clock {
    var secs := ts % 86_400;
    Clock(secs / 3_600, secs / 60 % 60, secs % 60)
  }

  // ---------------------------------------------------------- years of an era

  /** Days of an era before its year `c * 100 + q * 4 + r` starts in March. */
  function EraDays(c: nat, q: nat, r: nat): nat { 36_524 * c + 1_461 * q + 365 * r }

  /** The day is in the year: the 366th only where the year holds a leap day. */
  predicate DayOfYear(c: nat, q: nat, r: nat, doy: nat) {
    c <= 3 && q <= 24 && r <= 3 && (doy <= 364 || (doy == 365 && r == 3 && (q < 24 || c == 3)))
  }

  lemma EraSplit(doe: nat) returns (c: nat, q: nat, r: nat, doy: nat)
    requires doe < 146_097
    ensures DayOfYear(c, q, r, doy) && doe == EraDays(c, q, r) + doy
  {
    c := Min(doe / 36_524, 3);
    var inCentury := doe - 36_524 * c;
    q := Min(inCentury / 1_461, 24);
    var inFour := inCentury - 1_461 * q;
    r := Min(inFour / 365, 3);
    doy := inFour - 365 * r;
  }

  lemma YearOfEraIs(c: nat, q: nat, r: nat, doy: nat)
    requires DayOfYear(c, q, r, doy)
    ensures EraDays(c, q, r) + doy < 146_097
    ensures YearOfEra(EraDays(c, q, r) + doy) == 100 * c + 4 * q + r
  {
    var doe := EraDays(c, q, r) + doy;
    var carry := 24 * c + q + 365 * r + doy;
    assert doe == 1_460 * (25 * c + q) + carry;
    assert doe / 1_460 == 25 * c + q + carry / 1_460;
    assert doe / 36_524 - doe / 146_096 == c;
  }

  lemma EraYearStart(c: nat, q: nat, r: nat)
    requires c <= 3 && q <= 24 && r <= 3
    ensures var y := 100 * c + 4 * q + r; 365 * y + y / 4 - y / 100 == EraDays(c, q, r)
  {}

  // --------------------------------------------------------- months of a year

  /** The month and day of day `doy` of a year that starts in March. */
  predicate InMonth(doy: nat, month: int, day: int) {
    match month
    case 3 => doy == day - 1 && day <= 31
    case 4 => doy == day + 30 && day <= 30
    case 5 => doy == day + 60 && day <= 31
    case 6 => doy == day + 91 && day <= 30
    case 7 => doy == day + 121 && day <= 31
    case 8 => doy == day + 152 && day <= 31
    case 9 => doy == day + 183 && day <= 30
    case 10 => doy == day + 213 && day <= 31
    case 11 => doy == day + 244 && day <= 30
    case 12 => doy == day + 274 && day <= 31
    case 1 => doy == day + 305 && day <= 31
    case 2 => doy == day + 336 && day <= 29
    case _ => false
  }

  lemma MonthAndDay(y: int, doy: nat)
    requires doy <= 365
    ensures var d := MarchDate(y, doy);
      InMonth(doy, d.month, d.day) && d.day >= 1 && d.year == y + if d.month <= 2 then 1 else 0
  {
    var mp := (5 * doy + 2) / 153;
    assert 0 <= mp <= 11;
    if mp == 0 {} else if mp == 1 {} else if mp == 2 {} else if mp == 3 {} else if mp == 4 {} else if mp == 5 {}
    else if mp == 6 {} else if mp == 7 {} else if mp == 8 {} else if mp == 9 {} else if mp == 10 {} else {}
  }

  lemma MonthStarts(y: int)
    ensures MonthStart(y, 1) == 0 && MonthStart(y, 2) == 31
    ensures var march := YearLength(y) - 306;
      && MonthStart(y, 3) == march && MonthStart(y, 4) == march + 31 && MonthStart(y, 5) == march + 61
      && MonthStart(y, 6) == march + 92 && MonthStart(y, 7) == march + 122 && MonthStart(y, 8) == march + 153
      && MonthStart(y, 9) == march + 184 && MonthStart(y, 10) == march + 214 && MonthStart(y, 11) == march + 245
      && MonthStart(y, 12) == march + 275 && MonthStart(y, 13) == YearLength(y)
  {
    var march := YearLength(y) - 306;
    assert MonthStart(y, 2) == 31;
    assert MonthStart(y, 3) == march;
    assert MonthStart(y, 5) == march + 61 by { assert MonthStart(y, 4) == march + 31; }
    assert MonthStart(y, 7) == march + 122 by { assert MonthStart(y, 6) == march + 92; }
    assert MonthStart(y, 9) == march + 184 by { assert MonthStart(y, 8) == march + 153; }
    assert MonthStart(y, 11) == march + 245 by { assert MonthStart(y, 10) == march + 214; }
    assert MonthStart(y, 12) == march + 275;
  }

  // -------------------------------------------------------------- whole years

  /** The closed form of the year-by-year count. */
  lemma {:induction false} YearStartIs(y: int)
    requires y >= 1
    ensures YearStart(y) == 365 * (y - 1) + (y - 1) / 4 - (y - 1) / 100 + (y - 1) / 400
    decreases y
  {
    if y > 1 {
      YearStartIs(y - 1);
      LeapCount(y - 1);
    }
  }

  lemma LeapCount(y: int)
    requires y >= 1
    ensures (y / 4 - y / 100 + y / 400) - ((y - 1) / 4 - (y - 1) / 100 + (y - 1) / 400) == YearLength(y) - 365
  {
    Steps4(y);
    Steps100(y);
    Steps400(y);
    Multiples(y);
    LeapRule(y % 4 == 0, y % 100 == 0, y % 400 == 0, y);
  }

  lemma Steps4(y: int)
    ensures y / 4 - (y - 1) / 4 == if y % 4 == 0 then 1 else 0
  {}

  lemma Steps100(y: int)
    ensures y / 100 - (y - 1) / 100 == if y % 100 == 0 then 1 else 0
  {}

  lemma Steps400(y: int)
    ensures y / 400 - (y - 1) / 400 == if y % 400 == 0 then 1 else 0
  {}

  lemma Multiples(y: int)
    ensures y % 100 == 0 ==> y % 4 == 0
    ensures y % 400 == 0 ==> y % 100 == 0
  {
    if y % 100 == 0 { MultipleOf4(y, y / 100); }
    if y % 400 == 0 { MultipleOf100(y, y / 400); }
  }

  lemma MultipleOf4(y: int, k: int)
    requires y == 100 * k
    ensures y % 4 == 0
  {
    assert y == 4 * (25 * k);
  }

  lemma MultipleOf100(y: int, k: int)
    requires y == 400 * k
    ensures y % 100 == 0
  {
    assert y == 100 * (4 * k);
  }

  lemma LeapRule(four: bool, hundred: bool, fourHundred: bool, y: int)
    requires (four <==> y % 4 == 0) && (hundred <==> y % 100 == 0) && (fourHundred <==> y % 400 == 0)
    requires (hundred ==> four) && (fourHundred ==> hundred)
    ensures YearLength(y) - 365 == (if four then 1 else 0) - (if hundred then 1 else 0) + (if fourHundred then 1 else 0)
  {}

  /** Days from March of year 0 to March of year `y`. */
  function MarchStart(y: int): int { 365 * y + y / 4 - y / 100 + y / 400 }

  /** The two counts agree: March to March, and January to January a year later. */
  lemma MarchIs(y: int)
    requires y >= 1
    ensures YearStart(y) + YearLength(y) == YearStart(y + 1) == MarchStart(y)
  {
    YearStartIs(y + 1);
  }

  lemma EraMarch(era: nat, c: nat, q: nat, r: nat, y: int)
    requires c <= 3 && q <= 24 && r <= 3 && y == 400 * era + 100 * c + 4 * q + r
    ensures MarchStart(y) == 146_097 * era + EraDays(c, q, r)
  {
    assert y / 4 == 100 * era + 25 * c + q;
    assert y / 100 == 4 * era + c;
    assert y / 400 == era;
  }

  lemma EraLeap(era: nat, c: nat, q: nat, r: nat, y: int)
    requires c <= 3 && q <= 24 && r <= 3 && y == 400 * era + 100 * c + 4 * q + r
    ensures IsLeap(y + 1) <==> r == 3 && (q < 24 || c == 3)
  {
    Divides4(y + 1, 100 * era + 25 * c + q, r + 1);
    Divides100(y + 1, 4 * era + c, 4 * q + r + 1);
    Divides400(y + 1, era, 100 * c + 4 * q + r + 1);
  }

  lemma Divides4(n: nat, k: nat, rem: nat)
    requires n == 4 * k + rem && 0 < rem <= 4
    ensures n % 4 == 0 <==> rem == 4
  {}

  lemma Divides100(n: nat, k: nat, rem: nat)
    requires n == 100 * k + rem && 0 < rem <= 100
    ensures n % 100 == 0 <==> rem == 100
  {}

  lemma Divides400(n: nat, k: nat, rem: nat)
    requires n == 400 * k + rem && 0 < rem <= 400
    ensures n % 400 == 0 <==> rem == 400
  {}

  // --------------------------------------------------------------- the result

  lemma CivilIs(era: nat, c: nat, q: nat, r: nat, doy: nat, z: nat)
    requires DayOfYear(c, q, r, doy)
    requires z / 146_097 == era && z % 146_097 == EraDays(c, q, r) + doy
    ensures CivilFromDays(z) == MarchDate(400 * era + 100 * c + 4 * q + r, doy)
  {
    var yoe := 100 * c + 4 * q + r;
    assert YearOfEra(z % 146_097) == yoe by { YearOfEraIs(c, q, r, doy); }
    assert z % 146_097 - (365 * yoe + yoe / 4 - yoe / 100) == doy by { EraYearStart(c, q, r); }
  }

  lemma CivilParts(z: nat) returns (y: int, doy: nat)
    ensures z == MarchStart(y) + doy && y >= 0
    ensures doy <= 364 || (doy == 365 && IsLeap(y + 1))
    ensures var d := CivilFromDays(z);
      InMonth(doy, d.month, d.day) && d.day >= 1 && d.year == y + if d.month <= 2 then 1 else 0
  {
    var era := z / 146_097;
    var c, q, r, k := EraSplit(z % 146_097);
    y, doy := 400 * era + 100 * c + 4 * q + r, k;
    CivilIs(era, c, q, r, doy, z);
    MonthAndDay(y, doy);
    EraMarch(era, c, q, r, y);
    EraLeap(era, c, q, r, y);
  }

  lemma InMonthIsDate(y: int, doy: nat, d: Date)
    requires y >= 1 && InMonth(doy, d.month, d.day) && d.day >= 1 && d.year == y + if d.month <= 2 then 1 else 0
    requires doy <= 364 || (doy == 365 && IsLeap(y + 1))
    ensures IsDate(d) && Ordinal(d) + 306 == MarchStart(y) + doy
  {
    MarchIs(y);
    MonthStarts(d.year);
  }

  /** The algorithm gives a date of the calendar, and counting that date's days gives its input. */
  lemma CivilIsRight(z: nat)
    requires z >= 366
    ensures IsDate(CivilFromDays(z)) && Ordinal(CivilFromDays(z)) + 306 == z
  {
    var y, doy := CivilParts(z);
    assert y >= 1;
    InMonthIsDate(y, doy, CivilFromDays(z));
  }

  lemma ClockIsRight(ts: nat)
    ensures var c := ClockOf(ts); IsClock(c) && c.hour * 3_600 + c.minute * 60 + c.second == ts % 86_400
  {}

  /** Every second has a valid date and time, whose own count is that second. */
  lemma TimestampIsRight(ts: nat)
    ensures IsDate(DateOf(ts)) && IsClock(ClockOf(ts)) && Seconds(DateOf(ts), ClockOf(ts)) == ts
    ensures Ordinal(Date(1970, 1, 1)) == EPOCH
  {
    EpochIs1970();
    CivilIsRight(ts / 86_400 + 719_468);
    ClockIsRight(ts);
  }

  /** The days counted from 1970 are counted from its first day. */
  lemma EpochIs1970()
    ensures Ordinal(Date(1970, 1, 1)) == EPOCH
  {
    YearStartIs(1970);
  }

  // ----------------------------------------------------------- order and text

  predicate DateBefore(a: Date, b: Date) {
    a.year < b.year || (a.year == b.year && (a.month < b.month || (a.month == b.month && a.day < b.day)))
  }

  predicate ClockBefore(a: Clock, b: Clock) {
    a.hour < b.hour || (a.hour == b.hour && (a.minute < b.minute || (a.minute == b.minute && a.second < b.second)))
  }

  predicate Before(d: Date, c: Clock, d': Date, c': Clock) { DateBefore(d, d') || (d == d' && ClockBefore(c, c')) }

  lemma {:induction false} YearStartGrows(a: int, b: int)
    requires 1 <= a < b
    ensures YearStart(a) + YearLength(a) <= YearStart(b)
    decreases b
  {
    if a < b - 1 { YearStartGrows(a, b - 1); }
  }

  lemma {:induction false} MonthStartGrows(y: int, a: int, b: int)
    requires 1 <= a < b <= 13
    ensures MonthStart(y, a) + DaysIn(y, a) <= MonthStart(y, b)
    decreases b
  {
    if a < b - 1 { MonthStartGrows(y, a, b - 1); }
  }

  lemma MonthStartAt(y: int, m: int)
    requires 1 <= m <= 13
    ensures MonthStart(y, m) >= 0
  {
    if m > 1 { MonthStartGrows(y, 1, m); }
  }

  lemma OrdinalGrows(a: Date, b: Date)
    requires IsDate(a) && IsDate(b) && DateBefore(a, b)
    ensures Ordinal(a) < Ordinal(b)
  {
    if a.year < b.year {
      YearStartGrows(a.year, b.year);
      MonthStartGrows(a.year, a.month, 13);
      MonthStarts(a.year);
      MonthStartAt(b.year, b.month);
    } else if a.month < b.month {
      MonthStartGrows(a.year, a.month, b.month);
    }
  }

  lemma SecondsGrow(d: Date, c: Clock, d': Date, c': Clock)
    requires IsDate(d) && IsDate(d') && IsClock(c) && IsClock(c') && Before(d, c, d', c')
    ensures Seconds(d, c) < Seconds(d', c')
  {
    if DateBefore(d, d') { OrdinalGrows(d, d'); }
  }

  /** Later seconds have later fields, field by field from the year down, and only they do. */
  lemma FieldsAreOrdered(a: nat, b: nat)
    ensures a < b <==> Before(DateOf(a), ClockOf(a), DateOf(b), ClockOf(b))
  {
    TimestampIsRight(a);
    TimestampIsRight(b);
    if Before(DateOf(a), ClockOf(a), DateOf(b), ClockOf(b)) {
      SecondsGrow(DateOf(a), ClockOf(a), DateOf(b), ClockOf(b));
    } else if Before(DateOf(b), ClockOf(b), DateOf(a), ClockOf(a)) {
      SecondsGrow(DateOf(b), ClockOf(b), DateOf(a), ClockOf(a));
    } else {
      assert DateOf(a) == DateOf(b) && ClockOf(a) == ClockOf(b);
    }
  }

  function FieldsText(d: Date, c: Clock): string
    requires IsDate(d) && IsClock(c)
  {
    AtLeast(d.year, 4) + "-" + Padded(d.month, 2) + "-" + Padded(d.day, 2) + " "
    + Padded(c.hour, 2) + ":" + Padded(c.minute, 2) + ":" + Padded(c.second, 2)
  }

  function Timestamp(ts: nat): string {
    if ts < FIRST_KNOWN then "<unknown>"
    else
      TimestampIsRight(ts);
      FieldsText(DateOf(ts), ClockOf(ts))
  }

  lemma TwoDigits(n: nat)
    requires n < 100
    ensures Value(Padded(n, 2)) == n
  {
    assert Pow10(2) == 100;
    PaddedValue(n, 2);
  }

  lemma SuffixFields(t: string, year: string, m: string, d: string, h: string, min: string, s: string)
    requires t == year + "-" + m + "-" + d + " " + h + ":" + min + ":" + s
    requires |m| == |d| == |h| == |min| == |s| == 2
    ensures var n := |t| - 15;
      n == |year| && t[..n] == year && t[n + 1..n + 3] == m && t[n + 4..n + 6] == d
      && t[n + 7..n + 9] == h && t[n + 10..n + 12] == min && t[n + 13..] == s
      && t[n] == t[n + 3] == '-' && t[n + 6] == ' ' && t[n + 9] == t[n + 12] == ':'
  {}

  /** The text gives the fields back, whatever the year's width. */
  lemma TextDeterminesFields(d: Date, c: Clock, d': Date, c': Clock)
    requires IsDate(d) && IsClock(c) && IsDate(d') && IsClock(c') && FieldsText(d, c) == FieldsText(d', c')
    ensures d == d' && c == c'
  {
    TextLayout(d, c);
    TextLayout(d', c');
    ValuesOf(d, c);
    ValuesOf(d', c');
  }

  /** Year, month and day joined by dashes, a blank, then the time joined by colons. */
  lemma TextLayout(d: Date, c: Clock)
    requires IsDate(d) && IsClock(c)
    ensures var t := FieldsText(d, c);
      var n := |t| - 15;
      && n >= 0 && t[..n] == AtLeast(d.year, 4)
      && t[n + 1..n + 3] == Padded(d.month, 2) && t[n + 4..n + 6] == Padded(d.day, 2)
      && t[n + 7..n + 9] == Padded(c.hour, 2) && t[n + 10..n + 12] == Padded(c.minute, 2)
      && t[n + 13..] == Padded(c.second, 2)
      && t[n] == t[n + 3] == '-' && t[n + 6] == ' ' && t[n + 9] == t[n + 12] == ':'
  {
    SuffixFields(FieldsText(d, c), AtLeast(d.year, 4), Padded(d.month, 2), Padded(d.day, 2),
      Padded(c.hour, 2), Padded(c.minute, 2), Padded(c.second, 2));
  }

  lemma ValuesOf(d: Date, c: Clock)
    requires IsDate(d) && IsClock(c)
    ensures Value(AtLeast(d.year, 4)) == d.year
    ensures Value(Padded(d.month, 2)) == d.month && Value(Padded(d.day, 2)) == d.day
    ensures Value(Padded(c.hour, 2)) == c.hour && Value(Padded(c.minute, 2)) == c.minute
    ensures Value(Padded(c.second, 2)) == c.second
  {
    AtLeastValue(d.year, 4);
    TwoDigits(d.month);
    TwoDigits(d.day);
    TwoDigits(c.hour);
    TwoDigits(c.minute);
    TwoDigits(c.second);
  }

  lemma UnknownIsNoDate(ts: nat)
    requires ts >= FIRST_KNOWN
    ensures Timestamp(ts) != "<unknown>"
  {
    TimestampIsRight(ts);
    assert IsDigit(Timestamp(ts)[0]);
  }

  /** Two seconds print alike exactly when they are the same or both before 2009's first known one. */
  lemma TextIsInjective(a: nat, b: nat)
    ensures Timestamp(a) == Timestamp(b) <==> a == b || (a < FIRST_KNOWN && b < FIRST_KNOWN)
  {
    TimestampIsRight(a);
    TimestampIsRight(b);
    if a >= FIRST_KNOWN { UnknownIsNoDate(a); }
    if b >= FIRST_KNOWN { UnknownIsNoDate(b); }
    if a >= FIRST_KNOWN && b >= FIRST_KNOWN && Timestamp(a) == Timestamp(b) {
      TextDeterminesFields(DateOf(a), ClockOf(a), DateOf(b), ClockOf(b));
    }
  }
}
