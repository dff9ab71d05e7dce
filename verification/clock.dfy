/** Rendering of whole-second UTC timestamps, as chrono does for the
    notification texts: `%Y-%m-%d %H:%M:%S UTC` in the Telegram message and
    the RFC 3339 form `YYYY-MM-DDTHH:MM:SSZ` in the webhook payload. The
    calendar is the proleptic Gregorian one. */
module Clock {
  import Text

  /** A calendar date and time of day. */
  datatype Civil = Civil(year: int, month: int, day: int, hour: int, minute: int, second: int)

  predicate IsLeap(y: int) {
    y % 4 == 0 && (y % 100 != 0 || y % 400 == 0)
  }

  function DaysInYear(y: int): int {
    if IsLeap(y) then 366 else 365
  }

  function DaysInMonth(y: int, m: int): int
    requires 1 <= m <= 12
  {
    if m == 2 then (if IsLeap(y) then 29 else 28)
    else if m == 4 || m == 6 || m == 9 || m == 11 then 30
    else 31
  }

  predicate ValidDate(y: int, m: int, d: int) {
    1 <= m <= 12 && 1 <= d <= DaysInMonth(y, m)
  }

  /** Days in the months of year `y` before month `m`; month 13 stands for
      the end of the year. */
  function DaysBeforeMonth(y: int, m: int): (n: nat)
    requires 1 <= m <= 13
    ensures m == 13 ==> n == DaysInYear(y)
  {
    var leap := if IsLeap(y) then 1 else 0;
    if m == 1 then 0
    else if m == 2 then 31
    else [59, 90, 120, 151, 181, 212, 243, 273, 304, 334, 365][m - 3] + leap
  }

  /** Days from 1970-01-01 to the first of January of year `y`. */
  function DaysBeforeYear(y: int): int
    decreases if y >= 1970 then y - 1970 else 1970 - y
  {
    if y == 1970 then 0
    else if y > 1970 then DaysBeforeYear(y - 1) + DaysInYear(y - 1)
    else DaysBeforeYear(y + 1) - DaysInYear(y)
  }

  lemma {:induction false} DaysBeforeYearStep(y: int)
    ensures DaysBeforeYear(y + 1) == DaysBeforeYear(y) + DaysInYear(y)
    decreases if y >= 1970 then y - 1970 else 1970 - y
  {
  }

  /** Later years start later. */
  lemma {:induction false} DaysBeforeYearIncreasing(a: int, b: int)
    requires a < b
    ensures DaysBeforeYear(a) + DaysInYear(a) <= DaysBeforeYear(b)
    decreases b - a
  {
    DaysBeforeYearStep(a);
    if a + 1 < b {
      DaysBeforeYearIncreasing(a + 1, b);
    }
  }

  /** The number of days from 1970-01-01 to a date. */
  function DaysFromCivil(y: int, m: int, d: int): int
    requires ValidDate(y, m, d)
  {
    DaysBeforeYear(y) + DaysBeforeMonth(y, m) + d - 1
  }

  /** The year that day `z` falls in, searching outward from year `y`. */
  function YearContaining(z: int, y: int): (r: int)
    ensures DaysBeforeYear(r) <= z < DaysBeforeYear(r) + DaysInYear(r)
    decreases if z < DaysBeforeYear(y) then DaysBeforeYear(y) - z else 0,
              if z >= DaysBeforeYear(y) + DaysInYear(y) then z - DaysBeforeYear(y) else 0
  {
    DaysBeforeYearStep(y);
    DaysBeforeYearStep(y - 1);
    if z < DaysBeforeYear(y) then YearContaining(z, y - 1)
    else if z >= DaysBeforeYear(y) + DaysInYear(y) then YearContaining(z, y + 1)
    else y
  }

  /** The month of year `y` that its day `doy` (counted from 0) falls in,
      searching from month `m`. */
  function MonthContaining(y: int, doy: int, m: int): (r: int)
    requires 1 <= m <= 12 && DaysBeforeMonth(y, m) <= doy < DaysInYear(y)
    ensures m <= r <= 12 && DaysBeforeMonth(y, r) <= doy < DaysBeforeMonth(y, r) + DaysInMonth(y, r)
    decreases 12 - m
  {
    if doy < DaysBeforeMonth(y, m) + DaysInMonth(y, m) then m
    else MonthContaining(y, doy, m + 1)
  }

  /** The date `z` days after 1970-01-01. */
  function CivilFromDays(z: int): (r: (int, int, int))
    ensures ValidDate(r.0, r.1, r.2)
    ensures DaysFromCivil(r.0, r.1, r.2) == z
  {
    var y := YearContaining(z, 1970);
    var doy := z - DaysBeforeYear(y);
    var m := MonthContaining(y, doy, 1);
    (y, m, doy - DaysBeforeMonth(y, m) + 1)
  }

  /** Every valid date is the reading of its own day number: the two
      directions are inverse. */
  lemma CivilRoundTrip(y: int, m: int, d: int)
    requires ValidDate(y, m, d)
    ensures CivilFromDays(DaysFromCivil(y, m, d)) == (y, m, d)
  {
    var z := DaysFromCivil(y, m, d);
    var r := CivilFromDays(z);
    DayWithinYear(y, m, d);
    DayWithinYear(r.0, r.1, r.2);
    YearUnique(z, y, r.0);
    MonthUnique(y, z - DaysBeforeYear(y), m, r.1);
  }

  lemma DayWithinYear(y: int, m: int, d: int)
    requires ValidDate(y, m, d)
    ensures DaysBeforeMonth(y, m) + DaysInMonth(y, m) == DaysBeforeMonth(y, m + 1)
    ensures 0 <= DaysBeforeMonth(y, m) + d - 1 < DaysInYear(y)
  {
    MonthsIncreasing(y, m + 1, 13);
  }

  /** A day falls in one year only. */
  lemma YearUnique(z: int, a: int, b: int)
    requires DaysBeforeYear(a) <= z < DaysBeforeYear(a) + DaysInYear(a)
    requires DaysBeforeYear(b) <= z < DaysBeforeYear(b) + DaysInYear(b)
    ensures a == b
  {
    if a < b {
      DaysBeforeYearIncreasing(a, b);
    } else if b < a {
      DaysBeforeYearIncreasing(b, a);
    }
  }

  /** A day of the year falls in one month only. */
  lemma MonthUnique(y: int, doy: int, a: int, b: int)
    requires 1 <= a <= 12 && 1 <= b <= 12
    requires DaysBeforeMonth(y, a) <= doy < DaysBeforeMonth(y, a) + DaysInMonth(y, a)
    requires DaysBeforeMonth(y, b) <= doy < DaysBeforeMonth(y, b) + DaysInMonth(y, b)
    ensures a == b
  {
    if a < b {
      MonthsIncreasing(y, a + 1, b);
    } else if b < a {
      MonthsIncreasing(y, b + 1, a);
    }
  }

  /** Later months start later. */
  lemma {:induction false} MonthsIncreasing(y: int, a: int, b: int)
    requires 1 <= a <= b <= 13
    ensures DaysBeforeMonth(y, a) <= DaysBeforeMonth(y, b)
    decreases b - a
  {
    if a < b {
      MonthsIncreasing(y, a + 1, b);
    }
  }

  /** The calendar reading of a timestamp, with floor division so that
      instants before 1970 fall on the day they belong to. */
  function ToCivil(t: int): (c: Civil)
    ensures 0 <= c.hour < 24 && 0 <= c.minute < 60 && 0 <= c.second < 60
    ensures ValidDate(c.year, c.month, c.day)
    ensures DaysFromCivil(c.year, c.month, c.day) * 86400 + c.hour * 3600 + c.minute * 60 + c.second == t
  {
    var (y, m, d) := CivilFromDays(t / 86400);
    var secs := t % 86400;
    Civil(y, m, d, secs / 3600, secs % 3600 / 60, secs % 60)
  }

  /** `n` as exactly two digits. */
  function Pad2(n: int): (s: string)
    requires 0 <= n < 100
    ensures |s| == 2 && Text.IsDecimal(s) && Text.DecimalValue(s) == n
  {
    var s := [Text.DigitChar(n / 10), Text.DigitChar(n % 10)];
    assert s[..1] == [s[0]];
    assert Text.DecimalValue([s[0]]) == n / 10 by {
      assert [s[0]][..0] == [];
    }
    s
  }

  /** `n` with leading zeros up to four digits. */
  function Pad4(n: nat): (s: string)
    ensures |s| >= 4 && Text.IsDecimal(s) && Text.DecimalValue(s) == n
  {
    var digits := Text.NatToDecimal(n);
    if |digits| >= 4 then digits else ZeroPad(digits, 4 - |digits|)
  }

  function ZeroPad(s: string, k: nat): (r: string)
    requires Text.IsDecimal(s)
    ensures |r| == |s| + k && Text.IsDecimal(r) && Text.DecimalValue(r) == Text.DecimalValue(s)
  {
    if k == 0 then s
    else
      var r := ZeroPad(s, k - 1);
      LeadingZero(r);
      ['0'] + r
  }

  lemma {:induction false} LeadingZero(s: string)
    requires Text.IsDecimal(s)
    ensures Text.IsDecimal(['0'] + s) && Text.DecimalValue(['0'] + s) == Text.DecimalValue(s)
  {
    var t := ['0'] + s;
    if |s| == 1 {
      assert t[..1] == ['0'];
    } else {
      assert t[..|t| - 1] == ['0'] + s[..|s| - 1];
      LeadingZero(s[..|s| - 1]);
    }
  }

  /** chrono's `%Y`: four digits for years 0 to 9999, otherwise a sign and
      at least four digits. */
  function YearText(y: int): (s: string)
    ensures 0 <= y <= 9999 ==> |s| == 4 && Text.IsDecimal(s) && Text.DecimalValue(s) == y
  {
    if 0 <= y <= 9999 then
      assert |Text.NatToDecimal(y)| <= 4 by { SmallHasFewDigits(y); }
      Pad4(y)
    else if y < 0 then "-" + Pad4(-y)
    else "+" + Pad4(y)
  }

  lemma SmallHasFewDigits(n: nat)
    requires n <= 9999
    ensures |Text.NatToDecimal(n)| <= 4
  {
    if n >= 10 {
      SmallHasFewDigits(n / 10);
      if |Text.NatToDecimal(n / 10)| == 4 {
        LongHasManyDigits(n / 10);
      }
    }
  }

  lemma {:induction false} LongHasManyDigits(n: nat)
    ensures |Text.NatToDecimal(n)| >= 2 ==> n >= 10
    ensures |Text.NatToDecimal(n)| >= 3 ==> n >= 100
    ensures |Text.NatToDecimal(n)| >= 4 ==> n >= 1000
  {
    if n >= 10 {
      LongHasManyDigits(n / 10);
      assert |Text.NatToDecimal(n)| == |Text.NatToDecimal(n / 10)| + 1;
    }
  }

  function DateText(c: Civil): string
    requires ValidDate(c.year, c.month, c.day)
  {
    YearText(c.year) + "-" + Pad2(c.month) + "-" + Pad2(c.day)
  }

  function TimeText(c: Civil): string
    requires 0 <= c.hour < 24 && 0 <= c.minute < 60 && 0 <= c.second < 60
  {
    Pad2(c.hour) + ":" + Pad2(c.minute) + ":" + Pad2(c.second)
  }

  /** `format("%Y-%m-%d %H:%M:%S UTC")`. For years 0 to 9999 the text is 23
      characters long and each field reads back as the number it renders. */
  function FormatUtc(t: int): (s: string)
    ensures var c := ToCivil(t);
            0 <= c.year <= 9999 ==> |s| == 23 && ReadsBack(s, c) && s[19..] == " UTC"
  {
    var c := ToCivil(t);
    var s := DateText(c) + " " + TimeText(c) + " UTC";
    if 0 <= c.year <= 9999 then FieldsReadBack(c, ' ', " UTC"); s else s
  }

  /** The fields of a rendered timestamp, read back from their positions. */
  predicate ReadsBack(s: string, c: Civil)
    requires |s| >= 19
  {
    && (forall i :: 0 <= i < 4 ==> Text.IsDigit(s[i])) && Text.DecimalValue(s[..4]) == c.year
    && s[4] == '-' && Text.IsDecimal(s[5..7]) && Text.DecimalValue(s[5..7]) == c.month
    && s[7] == '-' && Text.IsDecimal(s[8..10]) && Text.DecimalValue(s[8..10]) == c.day
    && Text.IsDecimal(s[11..13]) && Text.DecimalValue(s[11..13]) == c.hour
    && s[13] == ':' && Text.IsDecimal(s[14..16]) && Text.DecimalValue(s[14..16]) == c.minute
    && s[16] == ':' && Text.IsDecimal(s[17..19]) && Text.DecimalValue(s[17..19]) == c.second
  }

  /** Two instants in years 0 to 9999 that render alike are the same
      instant: the rendering loses nothing. */
  lemma FormatUtcInjective(a: int, b: int)
    requires 0 <= ToCivil(a).year <= 9999 && 0 <= ToCivil(b).year <= 9999
    ensures FormatUtc(a) == FormatUtc(b) ==> a == b
  {
    if FormatUtc(a) == FormatUtc(b) {
      assert ToCivil(a) == ToCivil(b);
    }
  }

  /** chrono's RFC 3339 rendering of a whole-second UTC instant, as serde
      writes a `DateTime<Utc>`: the same fields with 'T' between date and
      time and a closing 'Z'. */
  function Rfc3339(t: int): (s: string)
    ensures var c := ToCivil(t);
            0 <= c.year <= 9999 ==> |s| == 20 && ReadsBack(s, c) && s[10] == 'T' && s[19] == 'Z'
  {
    var c := ToCivil(t);
    var s := DateText(c) + "T" + TimeText(c) + "Z";
    if 0 <= c.year <= 9999 then FieldsReadBack(c, 'T', "Z"); s else s
  }

  lemma FieldsReadBack(c: Civil, sep: char, tail: string)
    requires ValidDate(c.year, c.month, c.day) && 0 <= c.year <= 9999
    requires 0 <= c.hour < 24 && 0 <= c.minute < 60 && 0 <= c.second < 60
    ensures var s := DateText(c) + [sep] + TimeText(c) + tail;
            |s| == 19 + |tail| && ReadsBack(s, c) && s[10] == sep && s[19..] == tail
  {
    var s := DateText(c) + [sep] + TimeText(c) + tail;
    var y := YearText(c.year);
    assert s == y + "-" + Pad2(c.month) + "-" + Pad2(c.day) + [sep]
                + Pad2(c.hour) + ":" + Pad2(c.minute) + ":" + Pad2(c.second) + tail;
    assert s[..4] == y;
    assert s[5..7] == Pad2(c.month);
    assert s[8..10] == Pad2(c.day);
    assert s[11..13] == Pad2(c.hour);
    assert s[14..16] == Pad2(c.minute);
    assert s[17..19] == Pad2(c.second);
  }
}
