/** The texts of metric keys: a local time printed in fixed fields, without separators. A time is a number
    of minutes or of hours since the first instant of year 1, in the proleptic Gregorian calendar. */
module KeyText {
  import opened Integers

  // ---- numbers

  function Digit(n: nat): char
    requires n < 10
  {
    '0' + n as char
  }

  /** A number in decimal, with zeros in front up to the width. */
  function Padded(n: nat, width: nat): (s: string)
    ensures |s| >= 1 && |s| >= width
    decreases n, width
  {
    if n < 10 && width <= 1 then [Digit(n)]
    else Padded(n / 10, if width == 0 then 0 else width - 1) + [Digit(n % 10)]
  }

  function ValueOf(s: string): int {
    if s == "" then 0 else ValueOf(s[..|s| - 1]) * 10 + (s[|s| - 1] as int - '0' as int)
  }

  predicate Digits(s: string) {
    forall i :: 0 <= i < |s| ==> '0' <= s[i] <= '9'
  }

  lemma ValueSnoc(s: string, d: nat)
    requires d < 10
    ensures ValueOf(s + [Digit(d)]) == ValueOf(s) * 10 + d
    ensures Digits(s) ==> Digits(s + [Digit(d)])
  {
    var t := s + [Digit(d)];
    assert t[..|t| - 1] == s;
  }

  lemma {:induction false} PaddedReads(n: nat, width: nat)
    ensures ValueOf(Padded(n, width)) == n && Digits(Padded(n, width))
    decreases n, width
  {
    if n < 10 && width <= 1 {
      ValueSnoc("", n);
      assert "" + [Digit(n)] == [Digit(n)];
    } else {
      var w := if width == 0 then 0 else width - 1;
      PaddedReads(n / 10, w);
      ValueSnoc(Padded(n / 10, w), n % 10);
    }
  }

  lemma TwoDigits(n: nat)
    requires n < 100
    ensures |Padded(n, 2)| == 2
  {
    assert |Padded(n / 10, 1)| == 1;
  }

  lemma FourDigits(n: nat)
    requires n < 10000
    ensures |Padded(n, 4)| == 4
  {
    TwoDigits(n / 100);
    assert n / 10 / 10 == n / 100;
    assert |Padded(n / 10, 3)| == |Padded(n / 100, 2)| + 1;
  }

  // ---- the calendar

  predicate Leap(year: int) {
    year % 4 == 0 && (year % 100 != 0 || year % 400 == 0)
  }

  function YearLength(year: int): nat {
    if Leap(year) then 366 else 365
  }

  function MonthLength(year: int, month: nat): nat {
    if month == 2 then if Leap(year) then 29 else 28
    else if month == 4 || month == 6 || month == 9 || month == 11 then 30 else 31
  }

  /** The days before the first of January. */
  function DaysBefore(year: int): int {
    var y := year - 1;
    365 * y + y / 4 - y / 100 + y / 400
  }

  /** A quotient grows with the number exactly at the multiples. */
  lemma QuotientStep(y: int, d: int)
    requires d >= 1
    ensures (y + 1) / d == y / d + if (y + 1) % d == 0 then 1 else 0
  {
    var q, r := y / d, y % d;
    assert y == q * d + r;
    MulAdds(q, 1, d);
    if r == d - 1 {
      DivUnique(y + 1, d, q + 1, 0);
    } else {
      DivUnique(y + 1, d, q, r + 1);
    }
  }

  lemma YearStep(year: int)
    ensures DaysBefore(year + 1) == DaysBefore(year) + YearLength(year)
  {
    QuotientStep(year - 1, 4);
    QuotientStep(year - 1, 100);
    QuotientStep(year - 1, 400);
    assert year % 400 == 0 ==> year % 100 == 0 by { if year % 400 == 0 { assert year == 100 * (4 * (year / 400)); } }
    assert year % 100 == 0 ==> year % 4 == 0 by { if year % 100 == 0 { assert year == 4 * (25 * (year / 100)); } }
  }

  function YearFrom(day: int, year: int): (y: int)
    requires DaysBefore(year) <= day
    ensures DaysBefore(y) <= day < DaysBefore(y + 1)
    decreases day - DaysBefore(year)
  {
    YearStep(year);
    if day < DaysBefore(year + 1) then year else YearFrom(day, year + 1)
  }

  lemma EarlyYear(day: int)
    ensures DaysBefore(day / 365 + 1) <= day || day >= 0
  {
  }

  /** The year of a day. */
  function YearOf(day: int): (y: int)
    ensures DaysBefore(y) <= day < DaysBefore(y + 1)
  {
    EarlyYear(day);
    YearFrom(day, if day >= 0 then 1 else day / 365 + 1)
  }

  /** The days of the year before a month, and from a month on. */
  function BeforeMonth(year: int, month: nat): nat {
    if month <= 1 then 0 else BeforeMonth(year, month - 1) + MonthLength(year, month - 1)
  }

  function FromMonth(year: int, month: nat): nat
    requires 1 <= month <= 12
    decreases 12 - month
  {
    MonthLength(year, month) + if month == 12 then 0 else FromMonth(year, month + 1)
  }

  lemma MonthsMakeYear(year: int)
    ensures FromMonth(year, 1) == YearLength(year)
  {
    assert FromMonth(year, 9) == 30 + (31 + (30 + 31));
    assert FromMonth(year, 5) == 31 + (30 + (31 + (31 + FromMonth(year, 9))));
    assert FromMonth(year, 1) == 31 + (MonthLength(year, 2) + (31 + (30 + FromMonth(year, 5))));
  }

  /** The month and the day of the month, for a day counted from the first of a month. */
  function MonthFrom(year: int, month: nat, rest: nat): (md: (nat, nat))
    requires 1 <= month <= 12 && rest < FromMonth(year, month)
    ensures 1 <= md.0 <= 12 && 1 <= md.1 <= MonthLength(year, md.0)
    ensures BeforeMonth(year, md.0) + md.1 - 1 == BeforeMonth(year, month) + rest
    decreases 12 - month
  {
    if rest < MonthLength(year, month) then (month, rest + 1)
    else MonthFrom(year, month + 1, rest - MonthLength(year, month))
  }

  function MonthAndDay(day: int): (md: (nat, nat))
    ensures 1 <= md.0 <= 12 && 1 <= md.1 <= MonthLength(YearOf(day), md.0)
    ensures var y := YearOf(day); DaysBefore(y) + BeforeMonth(y, md.0) + md.1 - 1 == day
  {
    var y := YearOf(day);
    YearStep(y);
    MonthsMakeYear(y);
    MonthFrom(y, 1, day - DaysBefore(y))
  }

  // ---- the printed time

  /** time.Format prints a year with a sign where it is negative, and in at least four digits. */
  function YearText(year: int): string {
    if year < 0 then "-" + Padded(-year, 4) else Padded(year, 4)
  }

  function DateText(day: int): string {
    var md := MonthAndDay(day);
    YearText(YearOf(day)) + Padded(md.0, 2) + Padded(md.1, 2)
  }

  function HourText(hours: int): string {
    DateText(hours / 24) + Padded(hours % 24, 2)
  }

  function MinuteText(minutes: int): string {
    HourText(minutes / 60) + Padded(minutes % 60, 2)
  }

  // ---- which the text gives back

  lemma SameTail(a: string, x: nat, b: string, y: nat)
    requires x < 100 && y < 100
    ensures a + Padded(x, 2) == b + Padded(y, 2) <==> a == b && x == y
  {
    var s, t := a + Padded(x, 2), b + Padded(y, 2);
    TwoDigits(x);
    TwoDigits(y);
    PaddedReads(x, 2);
    PaddedReads(y, 2);
    if s == t {
      assert |a| == |b| && a == s[..|a|] && b == t[..|b|];
      assert Padded(x, 2) == s[|a|..] && Padded(y, 2) == t[|b|..];
    }
  }

  lemma YearTextInjective(a: int, b: int)
    ensures YearText(a) == YearText(b) <==> a == b
  {
    var x, y := if a < 0 then -a else a, if b < 0 then -b else b;
    PaddedReads(x, 4);
    PaddedReads(y, 4);
    if a < 0 { assert YearText(a)[0] == '-' && YearText(a)[1..] == Padded(x, 4); }
    if b < 0 { assert YearText(b)[0] == '-' && YearText(b)[1..] == Padded(y, 4); }
  }

  lemma DateTextInjective(a: int, b: int)
    ensures DateText(a) == DateText(b) <==> a == b
  {
    if DateText(a) == DateText(b) {
      var p, q := MonthAndDay(a), MonthAndDay(b);
      SameTail(YearText(YearOf(a)) + Padded(p.0, 2), p.1, YearText(YearOf(b)) + Padded(q.0, 2), q.1);
      SameTail(YearText(YearOf(a)), p.0, YearText(YearOf(b)), q.0);
      YearTextInjective(YearOf(a), YearOf(b));
    }
  }

  lemma HourTextInjective(a: int, b: int)
    ensures HourText(a) == HourText(b) <==> a == b
  {
    if HourText(a) == HourText(b) {
      SameTail(DateText(a / 24), a % 24, DateText(b / 24), b % 24);
      DateTextInjective(a / 24, b / 24);
    }
  }

  lemma MinuteTextInjective(a: int, b: int)
    ensures MinuteText(a) == MinuteText(b) <==> a == b
  {
    if MinuteText(a) == MinuteText(b) {
      SameTail(HourText(a / 60), a % 60, HourText(b / 60), b % 60);
      HourTextInjective(a / 60, b / 60);
    }
  }

  // ---- its form

  lemma YearTextForm(year: int)
    ensures ':' !in YearText(year)
    ensures 0 <= year < 10000 ==> |YearText(year)| == 4
  {
    PaddedReads(if year < 0 then -year else year, 4);
    if 0 <= year < 10000 { FourDigits(year); }
  }

  /** The text of an hour holds no colon, and has ten characters in the years 0 to 9999. */
  lemma HourTextForm(hours: int)
    ensures ':' !in HourText(hours)
    ensures 0 <= YearOf(hours / 24) < 10000 ==> |HourText(hours)| == 10
  {
    var md := MonthAndDay(hours / 24);
    YearTextForm(YearOf(hours / 24));
    PaddedReads(md.0, 2);
    PaddedReads(md.1, 2);
    PaddedReads(hours % 24, 2);
    TwoDigits(md.0);
    TwoDigits(md.1);
    TwoDigits(hours % 24);
  }

  /** That of a minute has twelve. */
  lemma MinuteTextForm(minutes: int)
    ensures ':' !in MinuteText(minutes)
    ensures 0 <= YearOf(minutes / 60 / 24) < 10000 ==> |MinuteText(minutes)| == 12
  {
    HourTextForm(minutes / 60);
    PaddedReads(minutes % 60, 2);
    TwoDigits(minutes % 60);
  }

  // ---- which date it shows

  /** The days of a common year before each month. */
  const MONTH_STARTS: seq<nat> := [0, 31, 59, 90, 120, 151, 181, 212, 243, 273, 304, 334, 365]

  /** A date of the calendar: February has 29 days in a leap year, and its end otherwise where March starts. */
  ghost predicate Date(year: int, month: nat, day: nat) {
    1 <= month <= 12 &&
    1 <= day <= MONTH_STARTS[month] - MONTH_STARTS[month - 1] + if Leap(year) && month == 2 then 1 else 0
  }

  /** Its number, counted from the first of January of year 1. */
  ghost function DayNumber(year: int, month: nat, day: nat): int
    requires 1 <= month <= 12
  {
    var y := year - 1;
    365 * y + y / 4 - y / 100 + y / 400 +
    MONTH_STARTS[month - 1] + (if Leap(year) && month > 2 then 1 else 0) + day - 1
  }

  lemma {:induction false} MonthsByTable(year: int, month: nat)
    requires 1 <= month <= 12
    ensures MonthLength(year, month) ==
            MONTH_STARTS[month] - MONTH_STARTS[month - 1] + if Leap(year) && month == 2 then 1 else 0
    ensures BeforeMonth(year, month) == MONTH_STARTS[month - 1] + if Leap(year) && month > 2 then 1 else 0
  {
    if month > 1 {
      MonthsByTable(year, month - 1);
    }
  }

  lemma {:induction false} YearsGrow(a: int, b: int)
    requires a <= b
    ensures DaysBefore(a) <= DaysBefore(b)
    decreases b - a
  {
    if a < b {
      YearStep(a);
      YearsGrow(a + 1, b);
    }
  }

  /** A day lies in one year only. */
  lemma YearOnly(day: int, year: int)
    requires DaysBefore(year) <= day < DaysBefore(year + 1)
    ensures YearOf(day) == year
  {
    var y := YearOf(day);
    if y < year { YearsGrow(y + 1, year); }
    if year < y { YearsGrow(year + 1, y); }
  }

  lemma {:induction false} MonthsGrow(year: int, a: nat, b: nat)
    requires 1 <= a < b
    ensures BeforeMonth(year, a) + MonthLength(year, a) <= BeforeMonth(year, b)
    decreases b - a
  {
    if a + 1 < b {
      MonthsGrow(year, a, b - 1);
    }
  }

  lemma InsideYear(year: int, month: nat, day: nat)
    requires 1 <= month <= 12 && day <= MonthLength(year, month)
    ensures BeforeMonth(year, month) + day <= YearLength(year)
  {
    MonthsGrow(year, month, 13);
    MonthsByTable(year, 12);
  }

  /** The calendar finds a date again from its number. */
  lemma DateFound(year: int, month: nat, day: nat)
    requires Date(year, month, day)
    ensures YearOf(DayNumber(year, month, day)) == year
    ensures MonthAndDay(DayNumber(year, month, day)) == (month, day)
  {
    var n := DayNumber(year, month, day);
    var md := MonthAndDay(n);
    MonthsByTable(year, month);
    InsideYear(year, month, day);
    YearStep(year);
    YearOnly(n, year);
    if md.0 < month { MonthsGrow(year, md.0, month); }
    if month < md.0 { MonthsGrow(year, month, md.0); }
  }

  /** Every day has a date. */
  lemma EveryDay(n: int) returns (year: int, month: nat, day: nat)
    ensures Date(year, month, day) && n == DayNumber(year, month, day)
  {
    year := YearOf(n);
    month, day := MonthAndDay(n).0, MonthAndDay(n).1;
    MonthsByTable(year, month);
  }

  /** The digits are those of the number. */
  ghost predicate Reads(s: string, n: nat) {
    Digits(s) && ValueOf(s) == n
  }

  /** Year, month, day and hour, in this order, on ten digits. */
  ghost predicate ReadsHour(text: string, year: nat, month: nat, day: nat, hour: nat) {
    |text| == 10 && Reads(text[..4], year) && Reads(text[4..6], month) && Reads(text[6..8], day) &&
    Reads(text[8..], hour)
  }

  /** Year, month and day on eight digits. */
  ghost predicate ReadsDate(text: string, year: nat, month: nat, day: nat) {
    |text| == 8 && Reads(text[..4], year) && Reads(text[4..6], month) && Reads(text[6..], day)
  }

  lemma DateReads(year: nat, month: nat, day: nat)
    requires Date(year, month, day) && year < 10000
    ensures ReadsDate(DateText(DayNumber(year, month, day)), year, month, day)
  {
    DateFound(year, month, day);
    MonthsByTable(year, month);
    var text := DateText(DayNumber(year, month, day));
    var a, b, c := Padded(year, 4), Padded(month, 2), Padded(day, 2);
    assert text == a + b + c;
    FourDigits(year);
    TwoDigits(month);
    TwoDigits(day);
    PaddedReads(year, 4);
    PaddedReads(month, 2);
    PaddedReads(day, 2);
    assert text[..4] == a && text[4..6] == b && text[6..] == c;
  }

  /** A number of two digits behind a text. */
  lemma TwoBehind(front: string, n: nat)
    requires n < 100
    ensures var text := front + Padded(n, 2);
            |text| == |front| + 2 && text[..|front|] == front && Reads(text[|front|..], n)
  {
    TwoDigits(n);
    PaddedReads(n, 2);
    assert (front + Padded(n, 2))[|front|..] == Padded(n, 2);
  }

  lemma HourBehind(date: string, year: nat, month: nat, day: nat, hour: nat)
    requires ReadsDate(date, year, month, day) && hour < 24
    ensures ReadsHour(date + Padded(hour, 2), year, month, day, hour)
  {
    var text := date + Padded(hour, 2);
    TwoBehind(date, hour);
    assert date[..4] == text[..4] && date[4..6] == text[4..6] && date[6..] == text[6..8];
  }

  /** The text of an hour shows its date and the hour of the day. */
  lemma HourReads(hours: int, year: nat, month: nat, day: nat)
    requires Date(year, month, day) && year < 10000 && hours / 24 == DayNumber(year, month, day)
    ensures ReadsHour(HourText(hours), year, month, day, hours % 24)
  {
    DateReads(year, month, day);
    HourBehind(DateText(hours / 24), year, month, day, hours % 24);
  }

  /** The text of a minute shows the hour's, and then the minute. */
  lemma MinuteReads(minutes: int, year: nat, month: nat, day: nat)
    requires Date(year, month, day) && year < 10000 && minutes / 60 / 24 == DayNumber(year, month, day)
    ensures var text := MinuteText(minutes);
            |text| == 12 && ReadsHour(text[..10], year, month, day, minutes / 60 % 24) &&
            Reads(text[10..], minutes % 60)
  {
    HourReads(minutes / 60, year, month, day);
    TwoBehind(HourText(minutes / 60), minutes % 60);
  }
}
