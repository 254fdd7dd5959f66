/**
 The date the SES signer sends and signs: a UTC time rendered in the layout
 `AMZ_DATE_STYLE = "Mon, 02 Jan 2006 15:04:05 -0700"` by Go's
 `time.Time.Format`. Only this layout is modelled. The parser is the
 inverse a verifier applies to the `Date` header.
 */
module SesDate {
  import opened Aws

  const AmzDateStyle := "Mon, 02 Jan 2006 15:04:05 -0700"

  /** A UTC civil time, as `time.Now().UTC()` yields it (to the second). */
  datatype DateTime = DateTime(year: int, month: int, day: int, hour: int, minute: int, second: int)
  {
    predicate Valid()
    {
      1 <= month <= 12 && 1 <= day <= DaysIn(year, month) &&
      0 <= hour < 24 && 0 <= minute < 60 && 0 <= second < 60
    }
  }

  predicate IsLeap(year: int)
  {
    year % 4 == 0 && (year % 100 != 0 || year % 400 == 0)
  }

  function DaysIn(year: int, month: int): int
    requires 1 <= month <= 12
  {
    if month == 2 then (if IsLeap(year) then 29 else 28)
    else if month == 4 || month == 6 || month == 9 || month == 11 then 30
    else 31
  }

  /**
   The day of the week in the proleptic Gregorian calendar, 0 for Sunday as
   Go's `time.Weekday` counts (Sakamoto's method; `/` and `%` here round
   down, which is what the method needs for years before 1).
   */
  function Weekday(t: DateTime): (w: int)
    requires t.Valid()
    ensures 0 <= w < 7
  {
    DayCount(t) % 7
  }

  /** Sakamoto's sum, whose remainder modulo 7 is the weekday. */
  function DayCount(t: DateTime): int
    requires t.Valid()
  {
    var offsets := [0, 3, 2, 5, 0, 3, 5, 1, 4, 6, 2, 4];
    var y := if t.month < 3 then t.year - 1 else t.year;
    y + y / 4 - y / 100 + y / 400 + offsets[t.month - 1] + t.day
  }

  /** The same time of day on the following calendar day. */
  function NextDay(t: DateTime): (r: DateTime)
    requires t.Valid()
    ensures r.Valid() && (r.hour, r.minute, r.second) == (t.hour, t.minute, t.second)
    ensures r.year == t.year || (r.year == t.year + 1 && r.month == 1 && r.day == 1 && t.month == 12)
  {
    if t.day < DaysIn(t.year, t.month) then t.(day := t.day + 1)
    else if t.month < 12 then t.(month := t.month + 1, day := 1)
    else t.(year := t.year + 1, month := 1, day := 1)
  }

  /**
   `Weekday` advances by one, modulo 7, from each day to the next, across
   month ends, leap days and year ends. With `ReferenceTime` fixing one
   date, this determines the weekday of every date.
   */
  lemma WeekdayNext(t: DateTime)
    requires t.Valid()
    ensures Weekday(NextDay(t)) == (Weekday(t) + 1) % 7
  {
    var d := DayCountNext(t);
    ModSevenStep(DayCount(t), d);
  }

  lemma ModSevenStep(x: int, d: int)
    ensures (x + 1 - 7 * d) % 7 == (x % 7 + 1) % 7
  {
    var q, r := x / 7, x % 7;
    var k := q - d;
    assert x + 1 - 7 * d == 7 * k + (r + 1);
    if r + 1 < 7 {
      assert (7 * k + (r + 1)) / 7 == k;
    } else {
      assert 7 * k + (r + 1) == 7 * (k + 1);
    }
  }

  /** From one day to the next, Sakamoto's sum grows by one, less 0, 4 or 5 weeks. */
  lemma DayCountNext(t: DateTime) returns (weeks: int)
    requires t.Valid()
    ensures DayCount(NextDay(t)) == DayCount(t) + 1 - 7 * weeks
  {
    if t.day < DaysIn(t.year, t.month) {
      weeks := 0;
    } else if t.month == 2 {
      LeapCount(t.year);
      weeks := 4;
    } else if t.month < 12 {
      weeks := if t.month in {4, 7, 10} then 5 else 4;
    } else {
      weeks := 5;
    }
  }

  /** The leap-year correction in `Weekday` grows by two from the year before a leap year, else by one. */
  lemma LeapCount(year: int)
    ensures var y0, y1 := year - 1, year;
      (y1 + y1 / 4 - y1 / 100 + y1 / 400) - (y0 + y0 / 4 - y0 / 100 + y0 / 400)
      == if IsLeap(year) then 2 else 1
  {
    MultipleStep(year, 4);
    MultipleStep(year, 100);
    MultipleStep(year, 400);
    DivisorChain(year);
    var a, b, c := year / 4 - (year - 1) / 4, year / 100 - (year - 1) / 100, year / 400 - (year - 1) / 400;
    assert 1 + a - b + c == if IsLeap(year) then 2 else 1;
  }

  /** A multiple of 400 is a multiple of 100, and a multiple of 100 a multiple of 4. */
  lemma DivisorChain(n: int)
    ensures n % 400 == 0 ==> n % 100 == 0
    ensures n % 100 == 0 ==> n % 4 == 0
  {
    if n % 400 == 0 {
      MultipleOf(n, 400, 100);
    }
    if n % 100 == 0 {
      MultipleOf(n, 100, 4);
    }
  }

  lemma MultipleOf(n: int, k: int, j: int)
    requires (k == 400 && j == 100) || (k == 100 && j == 4)
    requires n % k == 0
    ensures n % j == 0
  {
    var q, p := n / k, n / j;
    assert n == j * (k / j * q);
    assert n == j * p + n % j;
    assert j * (k / j * q - p) == n % j;
  }

  /** `n / k` goes up by one from `n - 1` to `n` exactly when `k` divides `n`. */
  lemma MultipleStep(n: int, k: int)
    requires k == 4 || k == 100 || k == 400
    ensures n / k - (n - 1) / k == if n % k == 0 then 1 else 0
  {
    var q, r := n / k, n % k;
    if r == 0 {
      assert n - 1 == (q - 1) * k + (k - 1);
    } else {
      assert n - 1 == q * k + (r - 1);
    }
  }

  const ShortDayNames: seq<string> := ["Sun", "Mon", "Tue", "Wed", "Thu", "Fri", "Sat"]
  const ShortMonthNames: seq<string> :=
    ["Jan", "Feb", "Mar", "Apr", "May", "Jun", "Jul", "Aug", "Sep", "Oct", "Nov", "Dec"]

  function DigitChar(d: int): (c: char)
    requires 0 <= d < 10
    ensures '0' <= c <= '9'
  {
    ('0' as int + d) as char
  }

  /** The decimal digits of `n`, without leading zeros. */
  function Decimal(n: nat): (s: string)
    ensures |s| >= 1 && forall i :: 0 <= i < |s| ==> '0' <= s[i] <= '9'
  {
    if n < 10 then [DigitChar(n)] else Decimal(n / 10) + [DigitChar(n % 10)]
  }

  function Zeros(n: nat): (s: string)
    ensures |s| == n && forall i :: 0 <= i < n ==> s[i] == '0'
  {
    if n == 0 then "" else "0" + Zeros(n - 1)
  }

  /** Go's `appendInt(x, width)`: a `-` for negatives, then the digits padded with `0` to `width`. */
  function AppendInt(x: int, width: nat): (r: string)
    ensures |r| >= width && |r| >= 1
    ensures x >= 0 ==> forall i :: 0 <= i < |r| ==> '0' <= r[i] <= '9'
    ensures x < 0 ==> r[0] == '-'
  {
    var u: nat := if x < 0 then -x else x;
    var digits := Decimal(u);
    (if x < 0 then "-" else "") + (if |digits| < width then Zeros(width - |digits|) else "") + digits
  }

  /**
   `t.Format(AMZ_DATE_STYLE)` for a UTC time: the zone offset of UTC is
   zero, which the numeric zone field `-0700` renders as `+0000`.
   */
  function FormatDate(t: DateTime): (r: string)
    requires t.Valid()
    ensures |r| >= 31
    ensures r[..3] == ShortDayNames[Weekday(t)] && r[3..5] == ", "
    ensures r[|r| - 6..] == " +0000"
  {
    var w, d, m, y := ShortDayNames[Weekday(t)], AppendInt(t.day, 2), ShortMonthNames[t.month - 1],
      AppendInt(t.year, 4);
    var h, mi, se := AppendInt(t.hour, 2), AppendInt(t.minute, 2), AppendInt(t.second, 2);
    LayoutFrame(w, d, m, y, h, mi, se);
    w + ", " + d + " " + m + " " + y + " " + h + ":" + mi + ":" + se + " +0000"
  }

  /** The layout's fixed weekday, separators and zone around fields of at least their widths. */
  lemma LayoutFrame(w: string, d: string, m: string, y: string, h: string, mi: string, se: string)
    requires |w| == 3 && |d| >= 2 && |m| == 3 && |y| >= 4 && |h| >= 2 && |mi| >= 2 && |se| >= 2
    ensures var r := w + ", " + d + " " + m + " " + y + " " + h + ":" + mi + ":" + se + " +0000";
      |r| >= 31 && r[..3] == w && r[3..5] == ", " && r[|r| - 6..] == " +0000"
  {
    var head := w + ", ";
    var r := head + d + " " + m + " " + y + " " + h + ":" + mi + ":" + se + " +0000";
    assert head <= r;
    assert r[..5] == head;
  }

  /** Two decimal digits of `n < 100`. */
  function TwoDigits(n: int): (s: string)
    requires 0 <= n < 100
  {
    [DigitChar(n / 10), DigitChar(n % 10)]
  }

  /** Four decimal digits of `n < 10000`. */
  function FourDigits(n: int): (s: string)
    requires 0 <= n < 10000
  {
    [DigitChar(n / 1000), DigitChar(n / 100 % 10), DigitChar(n / 10 % 10), DigitChar(n % 10)]
  }

  lemma AppendIntTwo(n: int)
    requires 0 <= n < 100
    ensures AppendInt(n, 2) == TwoDigits(n)
  {
    if n >= 10 {
      assert Decimal(n) == Decimal(n / 10) + [DigitChar(n % 10)];
    }
  }

  lemma AppendIntFour(n: int)
    requires 0 <= n < 10000
    ensures AppendInt(n, 4) == FourDigits(n)
  {
    if n >= 1000 {
      DecimalFour(n);
    } else if n >= 100 {
      DecimalThree(n);
      assert n / 1000 == 0;
    } else if n >= 10 {
      DecimalTwo(n);
      assert n / 1000 == 0 && n / 100 == 0;
    } else {
      assert n / 1000 == 0 && n / 100 == 0 && n / 10 == 0;
    }
  }

  lemma DecimalTwo(n: int)
    requires 10 <= n < 100
    ensures Decimal(n) == [DigitChar(n / 10), DigitChar(n % 10)]
  {
  }

  lemma DecimalThree(n: int)
    requires 100 <= n < 1000
    ensures Decimal(n) == [DigitChar(n / 100), DigitChar(n / 10 % 10), DigitChar(n % 10)]
  {
    var q := n / 10;
    DecimalTwo(q);
    assert q / 10 == n / 100;
  }

  lemma DecimalFour(n: int)
    requires 1000 <= n < 10000
    ensures Decimal(n) == FourDigits(n)
  {
    var q := n / 10;
    DecimalThree(q);
    assert q / 100 == n / 1000 && q / 10 == n / 100;
  }

  /** For years 0 through 9999 every numeric field has its fixed width. */
  lemma FormatDateFields(t: DateTime)
    requires t.Valid() && 0 <= t.year < 10000
    ensures FormatDate(t) == ShortDayNames[Weekday(t)] + ", " + TwoDigits(t.day) + " "
      + ShortMonthNames[t.month - 1] + " " + FourDigits(t.year) + " " + TwoDigits(t.hour) + ":"
      + TwoDigits(t.minute) + ":" + TwoDigits(t.second) + " +0000"
  {
    AppendIntTwo(t.day);
    AppendIntFour(t.year);
    AppendIntTwo(t.hour);
    AppendIntTwo(t.minute);
    AppendIntTwo(t.second);
  }

  /**
   A time in years 0 through 9999 is rendered in exactly 31 characters, the
   length of the layout itself.
   */
  lemma FormatDateLength(t: DateTime)
    requires t.Valid() && 0 <= t.year < 10000
    ensures |FormatDate(t)| == |AmzDateStyle| == 31
  {
    FormatDateFields(t);
  }

  /** The layout's reference time as a UTC time renders as: the layout with a `+0000` zone. */
  const ReferenceUtc := "Mon, 02 Jan 2006 15:04:05 +0000"

  /** Monday 2 January 2006 15:04:05, the time the layout is written in, renders as the layout. */
  lemma ReferenceTime(t: DateTime)
    requires t == DateTime(2006, 1, 2, 15, 4, 5)
    ensures t.Valid() && FormatDate(t) == ReferenceUtc
  {
    ReferenceFields(t);
    ReferencePieces();
  }

  lemma ReferenceFields(t: DateTime)
    requires t == DateTime(2006, 1, 2, 15, 4, 5)
    ensures t.Valid() && FormatDate(t) == "Mon" + ", " + "02" + " " + "Jan" + " " + "2006" + " " + "15" + ":"
      + "04" + ":" + "05" + " +0000"
  {
    FormatDateFields(t);
    assert ShortDayNames[Weekday(t)] == "Mon" by { assert Weekday(t) == 1; }
    assert ShortMonthNames[t.month - 1] == "Jan";
    assert TwoDigits(2) == "02" && FourDigits(2006) == "2006" && TwoDigits(15) == "15";
    assert TwoDigits(4) == "04" && TwoDigits(5) == "05";
  }

  lemma ReferencePieces()
    ensures "Mon" + ", " + "02" + " " + "Jan" + " " + "2006" + " " + "15" + ":" + "04" + ":" + "05" + " +0000"
         == ReferenceUtc
  {
  }

  function DigitValue(c: char): int
  {
    c as int - '0' as int
  }

  predicate IsDigit(c: char)
  {
    '0' <= c <= '9'
  }

  function Number2(c0: char, c1: char): int
  {
    DigitValue(c0) * 10 + DigitValue(c1)
  }

  function Number4(c0: char, c1: char, c2: char, c3: char): int
  {
    Number2(c0, c1) * 100 + Number2(c2, c3)
  }

  /** The month number whose short name is `name`, if any. */
  function MonthOf(name: string): (r: Option<int>)
    ensures r.Some? ==> 1 <= r.value <= 12 && ShortMonthNames[r.value - 1] == name
  {
    MonthFrom(name, 1)
  }

  function MonthFrom(name: string, m: int): (r: Option<int>)
    requires 1 <= m <= 13
    ensures r.Some? ==> m <= r.value <= 12 && ShortMonthNames[r.value - 1] == name
    decreases 13 - m
  {
    if m == 13 then None
    else if ShortMonthNames[m - 1] == name then Some(m)
    else MonthFrom(name, m + 1)
  }

  /**
   Reads a `Date` header written in the layout (years 0 through 9999): fixed
   separators, two- and four-digit fields, a month name, a weekday name that
   must be the weekday of the date, and the UTC zone.
   */
  function ParseDate(s: string): Option<DateTime>
  {
    if |s| != 31 then None
    else if !(s[3] == ',' && s[4] == ' ' && s[7] == ' ' && s[11] == ' ' && s[16] == ' '
              && s[19] == ':' && s[22] == ':' && s[25..] == " +0000") then None
    else if !(IsDigit(s[5]) && IsDigit(s[6]) && IsDigit(s[12]) && IsDigit(s[13]) && IsDigit(s[14])
              && IsDigit(s[15]) && IsDigit(s[17]) && IsDigit(s[18]) && IsDigit(s[20]) && IsDigit(s[21])
              && IsDigit(s[23]) && IsDigit(s[24])) then None
    else
      match MonthOf([s[8], s[9], s[10]])
      case None => None
      case Some(month) =>
        var t := DateTime(Number4(s[12], s[13], s[14], s[15]), month, Number2(s[5], s[6]),
                          Number2(s[17], s[18]), Number2(s[20], s[21]), Number2(s[23], s[24]));
        if t.Valid() && [s[0], s[1], s[2]] == ShortDayNames[Weekday(t)] then Some(t) else None
  }

  /** The rendered date character by character. */
  lemma FormatDateChars(t: DateTime)
    requires t.Valid() && 0 <= t.year < 10000
    ensures var s, w, m := FormatDate(t), ShortDayNames[Weekday(t)], ShortMonthNames[t.month - 1];
      var d, y, h, mi, se := TwoDigits(t.day), FourDigits(t.year), TwoDigits(t.hour), TwoDigits(t.minute),
        TwoDigits(t.second);
      s == [w[0], w[1], w[2], ',', ' ', d[0], d[1], ' ', m[0], m[1], m[2], ' ', y[0], y[1], y[2], y[3], ' ',
            h[0], h[1], ':', mi[0], mi[1], ':', se[0], se[1], ' ', '+', '0', '0', '0', '0']
  {
    FormatDateFields(t);
    assert |ShortDayNames[Weekday(t)]| == 3;
    assert |ShortMonthNames[t.month - 1]| == 3;
    LayoutChars(ShortDayNames[Weekday(t)], TwoDigits(t.day), ShortMonthNames[t.month - 1], FourDigits(t.year),
                TwoDigits(t.hour), TwoDigits(t.minute), TwoDigits(t.second));
  }

  lemma LayoutChars(w: string, d: string, m: string, y: string, h: string, mi: string, se: string)
    requires |w| == 3 && |d| == 2 && |m| == 3 && |y| == 4 && |h| == 2 && |mi| == 2 && |se| == 2
    ensures w + ", " + d + " " + m + " " + y + " " + h + ":" + mi + ":" + se + " +0000"
         == [w[0], w[1], w[2], ',', ' ', d[0], d[1], ' ', m[0], m[1], m[2], ' ', y[0], y[1], y[2], y[3], ' ',
             h[0], h[1], ':', mi[0], mi[1], ':', se[0], se[1], ' ', '+', '0', '0', '0', '0']
  {
  }

  lemma MonthOfName(m: int)
    requires 1 <= m <= 12
    ensures MonthOf(ShortMonthNames[m - 1]) == Some(m)
  {
    var name := ShortMonthNames[m - 1];
    var k := 1;
    while k < m
      invariant 1 <= k <= m
      invariant MonthFrom(name, k) == MonthFrom(name, 1)
    {
      assert ShortMonthNames[k - 1] != name;
      k := k + 1;
    }
  }

  lemma TwoDigitsValue(n: int)
    requires 0 <= n < 100
    ensures var d := TwoDigits(n); IsDigit(d[0]) && IsDigit(d[1]) && Number2(d[0], d[1]) == n
  {
  }

  lemma FourDigitsValue(n: int)
    requires 0 <= n < 10000
    ensures var d := FourDigits(n);
      IsDigit(d[0]) && IsDigit(d[1]) && IsDigit(d[2]) && IsDigit(d[3]) && Number4(d[0], d[1], d[2], d[3]) == n
  {
    var a, b := n / 100, n % 100;
    FourDigitsSplit(n);
    TwoDigitsValue(a);
    TwoDigitsValue(b);
    var d, da, db := FourDigits(n), TwoDigits(a), TwoDigits(b);
    assert d[0] == da[0] && d[1] == da[1] && d[2] == db[0] && d[3] == db[1];
    assert n == a * 100 + b;
  }

  lemma FourDigitsSplit(n: int)
    requires 0 <= n < 10000
    ensures FourDigits(n) == TwoDigits(n / 100) + TwoDigits(n % 100)
  {
    var a, b := n / 100, n % 100;
    assert n / 1000 == a / 10 && n / 100 % 10 == a % 10;
    assert n / 10 % 10 == b / 10 && n % 10 == b % 10;
  }

  /**
   Parsing undoes formatting: the `Date` header determines the time, to the
   second, for every year from 0 through 9999.
   */
  lemma ParseFormatDate(t: DateTime)
    requires t.Valid() && 0 <= t.year < 10000
    ensures ParseDate(FormatDate(t)) == Some(t)
  {
    FormatDateChars(t);
    ParseRendered(t, FormatDate(t));
  }

  lemma ParseRendered(t: DateTime, s: string)
    requires t.Valid() && 0 <= t.year < 10000
    requires var w, m := ShortDayNames[Weekday(t)], ShortMonthNames[t.month - 1];
      var d, y, h, mi, se := TwoDigits(t.day), FourDigits(t.year), TwoDigits(t.hour), TwoDigits(t.minute),
        TwoDigits(t.second);
      s == [w[0], w[1], w[2], ',', ' ', d[0], d[1], ' ', m[0], m[1], m[2], ' ', y[0], y[1], y[2], y[3], ' ',
            h[0], h[1], ':', mi[0], mi[1], ':', se[0], se[1], ' ', '+', '0', '0', '0', '0']
    ensures ParseDate(s) == Some(t)
  {
    var w, m := ShortDayNames[Weekday(t)], ShortMonthNames[t.month - 1];
    var d, y, h, mi, se := TwoDigits(t.day), FourDigits(t.year), TwoDigits(t.hour), TwoDigits(t.minute),
      TwoDigits(t.second);
    assert |w| == 3 && |m| == 3;
    LayoutPositions(s, w, d, m, y, h, mi, se);
    TwoDigitsValue(t.day);
    FourDigitsValue(t.year);
    TwoDigitsValue(t.hour);
    TwoDigitsValue(t.minute);
    TwoDigitsValue(t.second);
    MonthOfName(t.month);
    ParseDateAccepts(s, t);
  }

  /** Where each field sits in a 31-character rendering. */
  lemma LayoutPositions(s: string, w: string, d: string, m: string, y: string, h: string, mi: string,
                        se: string)
    requires |w| == 3 && |d| == 2 && |m| == 3 && |y| == 4 && |h| == 2 && |mi| == 2 && |se| == 2
    requires s == [w[0], w[1], w[2], ',', ' ', d[0], d[1], ' ', m[0], m[1], m[2], ' ', y[0], y[1], y[2], y[3],
                   ' ', h[0], h[1], ':', mi[0], mi[1], ':', se[0], se[1], ' ', '+', '0', '0', '0', '0']
    ensures |s| == 31 && [s[0], s[1], s[2]] == w && [s[8], s[9], s[10]] == m
    ensures s[3] == ',' && s[4] == ' ' && s[7] == ' ' && s[11] == ' ' && s[16] == ' '
            && s[19] == ':' && s[22] == ':' && s[25..] == " +0000"
    ensures s[5] == d[0] && s[6] == d[1] && s[12] == y[0] && s[13] == y[1] && s[14] == y[2] && s[15] == y[3]
    ensures s[17] == h[0] && s[18] == h[1] && s[20] == mi[0] && s[21] == mi[1] && s[23] == se[0]
            && s[24] == se[1]
  {
  }

  /** What `ParseDate` checks, in the order it checks it. */
  lemma ParseDateAccepts(s: string, t: DateTime)
    requires |s| == 31
    requires s[3] == ',' && s[4] == ' ' && s[7] == ' ' && s[11] == ' ' && s[16] == ' '
             && s[19] == ':' && s[22] == ':' && s[25..] == " +0000"
    requires IsDigit(s[5]) && IsDigit(s[6]) && IsDigit(s[12]) && IsDigit(s[13]) && IsDigit(s[14])
             && IsDigit(s[15]) && IsDigit(s[17]) && IsDigit(s[18]) && IsDigit(s[20]) && IsDigit(s[21])
             && IsDigit(s[23]) && IsDigit(s[24])
    requires MonthOf([s[8], s[9], s[10]]) == Some(t.month)
    requires t == DateTime(Number4(s[12], s[13], s[14], s[15]), t.month, Number2(s[5], s[6]),
                           Number2(s[17], s[18]), Number2(s[20], s[21]), Number2(s[23], s[24]))
    requires t.Valid() && [s[0], s[1], s[2]] == ShortDayNames[Weekday(t)]
    ensures ParseDate(s) == Some(t)
  {
  }
}
