/** The two date formats of the search form and the search query
    (app.py lines 140-142): `datetime.strptime(s, "%B %d, %Y")` reads a date
    such as "March 07, 2024", and `strftime('%Y-%m-%d')` writes "2024-03-07". */
module Dates {
  import opened Results
  import opened Digits

  datatype Date = Date(year: nat, month: nat, day: nat)

  /** The C-locale full month names `%B` matches. */
  const MonthNames: seq<string> := [
    "January", "February", "March", "April", "May", "June",
    "July", "August", "September", "October", "November", "December"
  ]

  predicate IsLeapYear(y: int) {
    y % 4 == 0 && (y % 100 != 0 || y % 400 == 0)
  }

  function DaysInMonth(y: int, m: int): int
    requires 1 <= m <= 12
  {
    if m == 2 then (if IsLeapYear(y) then 29 else 28)
    else if m == 4 || m == 6 || m == 9 || m == 11 then 30
    else 31
  }

  /** A date `datetime` accepts: years 1 to 9999 of the proleptic Gregorian
      calendar and a day that exists in its month. */
  predicate Valid(d: Date) {
    && 1 <= d.year <= 9999
    && 1 <= d.month <= 12
    && 1 <= d.day <= DaysInMonth(d.year, d.month)
  }

  /** `s` starts with the name of month `m` and a space. */
  predicate StartsWithMonth(s: string, m: nat)
    requires 1 <= m <= 12
  {
    MonthNames[m - 1] + " " <= s
  }

  /** The number of the first month, from `m` on, whose name followed by a
      space starts `s`. */
  function MonthFrom(s: string, m: nat): (r: Option<nat>)
    requires 1 <= m <= 13
    ensures r.Some? ==> m <= r.value <= 12 && StartsWithMonth(s, r.value)
    ensures r.None? ==> forall k :: m <= k <= 12 ==> !StartsWithMonth(s, k)
    decreases 13 - m
  {
    if m == 13 then None
    else if StartsWithMonth(s, m) then Some(m)
    else MonthFrom(s, m + 1)
  }

  /** No two month names share their first three letters. */
  lemma MonthNamesDistinctAbbrev(a: nat, b: nat)
    requires 1 <= a <= 12 && 1 <= b <= 12
    requires MonthNames[a - 1][..3] == MonthNames[b - 1][..3]
    ensures a == b
  {
    var A := MonthNames[a - 1];
    var B := MonthNames[b - 1];
    assert A[0] == B[0] && A[1] == B[1] && A[2] == B[2] by {
      assert A[..3][0] == A[0] && A[..3][1] == A[1] && A[..3][2] == A[2];
      assert B[..3][0] == B[0] && B[..3][1] == B[1] && B[..3][2] == B[2];
    }
  }

  /** `datetime.strptime(s, "%B %d, %Y")`: a month name, one space, a day of
      one or two digits (01-31 or 1-9), a comma and a space, and a four-digit
      year; the whole string must match and the date must exist. */
  function ParseLongDate(s: string): (r: Option<Date>)
    ensures r.Some? ==> Valid(r.value)
  {
    match MonthFrom(s, 1)
    case None => None
    case Some(m) => ParseDayYear(m, s[|MonthNames[m - 1]| + 1..])
  }

  /** The part of `strptime` after the month name: `rest` must be the day,
      ", " and the year, and together with month `m` name a valid date. */
  function ParseDayYear(m: nat, rest: string): (r: Option<Date>)
    ensures r.Some? ==> Valid(r.value) && r.value.month == m
  {
    if |rest| < 7 || |rest| > 8 then None
    else
      var dayText := rest[..|rest| - 6];
      var yearText := rest[|rest| - 4..];
      if rest[|rest| - 6..|rest| - 4] != ", " || !AllDigits(dayText) || !AllDigits(yearText) then None
      else
        var d := Date(Value(yearText), m, Value(dayText));
        if Valid(d) then Some(d) else None
  }

  /** The canonical spelling of a date in the search form's format. */
  function LongDate(d: Date): string
    requires 1 <= d.month <= 12
  {
    MonthNames[d.month - 1] + " " + Pad(2, d.day) + ", " + Pad(4, d.year)
  }

  /** The same with a one-digit day, which `%d` also accepts. */
  function LongDateShortDay(d: Date): string
    requires 1 <= d.month <= 12 && d.day < 10
  {
    MonthNames[d.month - 1] + " " + [DigitChar(d.day)] + ", " + Pad(4, d.year)
  }

  /** `strftime('%Y-%m-%d')`. */
  function IsoDate(d: Date): (r: string)
    ensures |r| == 10 && r[4] == '-' && r[7] == '-'
    ensures AllDigits(r[..4]) && AllDigits(r[5..7]) && AllDigits(r[8..])
  {
    var r := Pad(4, d.year) + "-" + Pad(2, d.month) + "-" + Pad(2, d.day);
    assert r[..4] == Pad(4, d.year) && r[5..7] == Pad(2, d.month) && r[8..] == Pad(2, d.day);
    r
  }

  /** Reads a `YYYY-MM-DD` string back. */
  function ParseIsoDate(s: string): Option<Date> {
    if |s| == 10 && s[4] == '-' && s[7] == '-'
       && AllDigits(s[..4]) && AllDigits(s[5..7]) && AllDigits(s[8..])
    then Some(Date(Value(s[..4]), Value(s[5..7]), Value(s[8..])))
    else None
  }

  /** The `YYYY-MM-DD` rendering of a valid date reads back as that date. */
  lemma IsoDateRoundTrip(d: Date)
    requires Valid(d)
    ensures ParseIsoDate(IsoDate(d)) == Some(d)
  {
    var r := IsoDate(d);
    assert r[..4] == Pad(4, d.year) && r[5..7] == Pad(2, d.month) && r[8..] == Pad(2, d.day);
    ValuePad(4, d.year);
    ValuePad(2, d.month);
    ValuePad(2, d.day);
  }

  /** Every `YYYY-MM-DD` string is the rendering of the date it reads as. */
  lemma IsoDateOfParse(s: string)
    requires ParseIsoDate(s).Some?
    ensures IsoDate(ParseIsoDate(s).value) == s
  {
    var d := ParseIsoDate(s).value;
    assert Pad(4, d.year) == s[..4] by { PadValue(s[..4]); }
    assert Pad(2, d.month) == s[5..7] by { PadValue(s[5..7]); }
    assert Pad(2, d.day) == s[8..] by { PadValue(s[8..]); }
    IsoShape(s);
  }

  /** A ten-character string with dashes at 4 and 7 is its three fields
      joined by dashes. */
  lemma IsoShape(s: string)
    requires |s| == 10 && s[4] == '-' && s[7] == '-'
    ensures s == s[..4] + "-" + s[5..7] + "-" + s[8..]
  {
    var t := s[..4] + "-" + s[5..7] + "-" + s[8..];
    assert |t| == 10;
    forall i | 0 <= i < 10 ensures t[i] == s[i] {
    }
  }

  /** The parser reads back every valid date written in the canonical form. */
  lemma LongDateRoundTrip(d: Date)
    requires Valid(d)
    ensures ParseLongDate(LongDate(d)) == Some(d)
  {
    var s := LongDate(d);
    var name := MonthNames[d.month - 1];
    var rest := Pad(2, d.day) + ", " + Pad(4, d.year);
    assert s == name + " " + rest;
    assert StartsWithMonth(s, d.month);
    var m := MonthFrom(s, 1);
    MonthPrefixUnique(s, m.value, d.month);
    assert s[|name| + 1..] == rest;
    DayYearRoundTrip(d);
  }

  lemma DayYearRoundTrip(d: Date)
    requires Valid(d)
    ensures ParseDayYear(d.month, Pad(2, d.day) + ", " + Pad(4, d.year)) == Some(d)
  {
    var rest := Pad(2, d.day) + ", " + Pad(4, d.year);
    assert rest[..|rest| - 6] == Pad(2, d.day);
    assert rest[|rest| - 4..] == Pad(4, d.year);
    assert rest[|rest| - 6..|rest| - 4] == ", ";
    ValuePad(2, d.day);
    ValuePad(4, d.year);
  }

  /** Two month names that both start `s` are the same month. */
  lemma MonthPrefixUnique(s: string, a: nat, b: nat)
    requires 1 <= a <= 12 && 1 <= b <= 12
    requires MonthNames[a - 1] + " " <= s && MonthNames[b - 1] + " " <= s
    ensures a == b
  {
    var A := MonthNames[a - 1];
    var B := MonthNames[b - 1];
    assert |A| >= 3 && |B| >= 3;
    assert A[..3] == s[..3] by { assert (A + " ")[..3] == A[..3]; }
    assert B[..3] == s[..3] by { assert (B + " ")[..3] == B[..3]; }
    MonthNamesDistinctAbbrev(a, b);
  }

  /** Conversely, every string the parser accepts is the canonical spelling of
      the date it yields, or the one-digit-day spelling of it. */
  lemma ParseLongDateSpelling(s: string)
    requires ParseLongDate(s).Some?
    ensures var d := ParseLongDate(s).value;
      s == LongDate(d) || (d.day < 10 && s == LongDateShortDay(d))
  {
    var d := ParseLongDate(s).value;
    var m := MonthFrom(s, 1).value;
    var name := MonthNames[m - 1];
    assert StartsWithMonth(s, m);
    var rest := s[|name| + 1..];
    assert s == name + " " + rest;
    DayYearSpelling(m, rest);
  }

  lemma DayYearSpelling(m: nat, rest: string)
    requires ParseDayYear(m, rest).Some?
    ensures var d := ParseDayYear(m, rest).value;
      rest == Pad(2, d.day) + ", " + Pad(4, d.year)
      || (d.day < 10 && rest == [DigitChar(d.day)] + ", " + Pad(4, d.year))
  {
    var d := ParseDayYear(m, rest).value;
    var dayText := rest[..|rest| - 6];
    var yearText := rest[|rest| - 4..];
    assert d.day == Value(dayText) && d.year == Value(yearText);
    PadValue(dayText);
    PadValue(yearText);
    assert rest == dayText + ", " + yearText by {
      assert rest[|rest| - 6..|rest| - 4] == ", ";
      assert rest == rest[..|rest| - 6] + rest[|rest| - 6..|rest| - 4] + rest[|rest| - 4..];
    }
    if |dayText| == 1 {
      assert Pow10(1) == 10;
      assert Pad(1, d.day) == Pad(0, d.day / 10) + [DigitChar(d.day % 10)];
    }
  }
}
