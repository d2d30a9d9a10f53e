/**
 * The text keys of the statistics results: ISO 8601 calendar dates in
 * extended format ("YYYY-MM-DD", what Ruby's `Date#to_s` prints), reduced
 * precision month keys ("YYYY-MM", `strftime("%Y-%m")`) and decade labels
 * ("1990s"). The aggregators key their results by `Date`, `YearMonth` and
 * decade number; these functions give the text form, and the round-trip
 * lemmas show that no two keys share a text.
 */
module IsoFormat {
  import opened Wrappers
  import opened Calendar
  import opened Text

  /** `%Y`: at least four digits, with a leading minus sign before year 0. */
  function YearText(y: int): (s: string)
    ensures |s| >= 4
  {
    if y < 0 then "-" + PadDecimal(-y, 4) else PadDecimal(y, 4)
  }

  function TwoDigits(n: nat): (s: string)
    requires n < 100
    ensures |s| == 2 && AllDigits(s) && DecimalValue(s) == n
  {
    PadDecimalValue(n, 2);
    ShortNumeral(n);
    PadDecimal(n, 2)
  }

  /** `Date#to_s`: the year, then the month and the day as two digits each, joined by dashes. */
  function FormatIsoDate(d: Date): (s: string)
    requires ValidDate(d)
    ensures |s| >= 10 && s[|s| - 3] == '-' && s[|s| - 6] == '-'
  {
    YearText(d.year) + "-" + TwoDigits(d.month) + "-" + TwoDigits(d.day)
  }

  /** `strftime("%Y-%m")`: the year, a dash and the month as two digits. */
  function FormatYearMonth(ym: YearMonth): (s: string)
    requires 1 <= ym.month <= 12
    ensures |s| >= 7 && s[|s| - 3] == '-'
  {
    YearText(ym.year) + "-" + TwoDigits(ym.month)
  }

  /** The two-digit fields of a day's key read back as its month and day of month. */
  lemma IsoDateFields(d: Date)
    requires ValidDate(d)
    ensures var s := FormatIsoDate(d);
      AllDigits(s[|s| - 5..|s| - 3]) && DecimalValue(s[|s| - 5..|s| - 3]) == d.month &&
      AllDigits(s[|s| - 2..]) && DecimalValue(s[|s| - 2..]) == d.day
  {
    JoinedFields(YearText(d.year), TwoDigits(d.month), TwoDigits(d.day));
  }

  /** The two-digit field of a month's key reads back as the month. */
  lemma YearMonthField(ym: YearMonth)
    requires 1 <= ym.month <= 12
    ensures var s := FormatYearMonth(ym);
      AllDigits(s[|s| - 2..]) && DecimalValue(s[|s| - 2..]) == ym.month
  {
    var s := YearText(ym.year) + "-" + TwoDigits(ym.month);
    assert s[|s| - 2..] == TwoDigits(ym.month);
  }

  /** In `y + "-" + m + "-" + dd` with two-character fields, the fields sit at fixed offsets from the end. */
  lemma JoinedFields(y: string, m: string, dd: string)
    requires |m| == 2 && |dd| == 2
    ensures var s := y + "-" + m + "-" + dd; s[|s| - 5..|s| - 3] == m && s[|s| - 2..] == dd
  {
    var s := y + "-" + m + "-" + dd;
    assert s[|s| - 5..|s| - 3] == m;
    assert s[|s| - 2..] == dd;
  }

  /** `"#{decade}s"` */
  function DecadeLabel(decade: int): (s: string)
    ensures |s| >= 2 && s[|s| - 1] == 's'
  {
    IntToDecimal(decade) + "s"
  }

  function ParseYearText(t: string): Option<int> {
    if t != [] && t[0] == '-' && AllDigits(t[1..]) then Some(-(DecimalValue(t[1..]) as int))
    else if AllDigits(t) then Some(DecimalValue(t))
    else None
  }

  function ParseIsoDate(s: string): (r: Option<Date>)
    ensures r.Some? ==> |s| >= 6
  {
    if |s| < 6 || s[|s| - 3] != '-' || s[|s| - 6] != '-' then None
    else
      var year := ParseYearText(s[..|s| - 6]);
      var month := s[|s| - 5..|s| - 3];
      var day := s[|s| - 2..];
      if year.Some? && AllDigits(month) && AllDigits(day)
      then Some(Date(year.value, DecimalValue(month), DecimalValue(day)))
      else None
  }

  function ParseYearMonth(s: string): Option<YearMonth> {
    if |s| < 3 || s[|s| - 3] != '-' then None
    else
      var year := ParseYearText(s[..|s| - 3]);
      var month := s[|s| - 2..];
      if year.Some? && AllDigits(month) then Some(YearMonth(year.value, DecimalValue(month))) else None
  }

  lemma ParseYearTextOfYearText(y: int)
    ensures ParseYearText(YearText(y)) == Some(y)
  {
    var t := YearText(y);
    if y < 0 {
      var digits := PadDecimal(-y, 4);
      PadDecimalValue(-y, 4);
      assert t[1..] == digits;
      assert t[0] == '-';
      var v := DecimalValue(t[1..]);
      assert v == -y;
    } else {
      PadDecimalValue(y, 4);
      assert t[0] != '-';
    }
  }

  /** Reading a heatmap key back gives the date it was made from. */
  lemma ParseIsoDateOfFormat(d: Date)
    requires ValidDate(d)
    ensures ParseIsoDate(FormatIsoDate(d)) == Some(d)
  {
    var y, m, dd := YearText(d.year), TwoDigits(d.month), TwoDigits(d.day);
    ParseYearTextOfYearText(d.year);
    ParseJoinedDate(y, m, dd, d.year);
  }

  /** A year text, a dash, two month digits, a dash and two day digits read back as those three numbers. */
  lemma ParseJoinedDate(y: string, m: string, dd: string, year: int)
    requires ParseYearText(y) == Some(year)
    requires |m| == 2 && |dd| == 2 && AllDigits(m) && AllDigits(dd)
    ensures ParseIsoDate(y + "-" + m + "-" + dd) == Some(Date(year, DecimalValue(m), DecimalValue(dd)))
  {
    var s := y + "-" + m + "-" + dd;
    assert s[|s| - 3] == '-' && s[|s| - 6] == '-';
    assert s[..|s| - 6] == y;
    assert s[|s| - 5..|s| - 3] == m;
    assert s[|s| - 2..] == dd;
  }

  lemma ParseYearMonthOfFormat(ym: YearMonth)
    requires 1 <= ym.month <= 12
    ensures ParseYearMonth(FormatYearMonth(ym)) == Some(ym)
  {
    ParseYearTextOfYearText(ym.year);
    ParseJoinedYearMonth(YearText(ym.year), TwoDigits(ym.month), ym.year);
  }

  lemma ParseJoinedYearMonth(y: string, m: string, year: int)
    requires ParseYearText(y) == Some(year)
    requires |m| == 2 && AllDigits(m)
    ensures ParseYearMonth(y + "-" + m) == Some(YearMonth(year, DecimalValue(m)))
  {
    var s := y + "-" + m;
    assert s[|s| - 3] == '-';
    assert s[..|s| - 3] == y;
    assert s[|s| - 2..] == m;
  }

  /** Distinct dates have distinct heatmap keys, so a map keyed by date is a map keyed by its text. */
  lemma FormatIsoDateInjective(a: Date, b: Date)
    requires ValidDate(a) && ValidDate(b)
    ensures FormatIsoDate(a) == FormatIsoDate(b) <==> a == b
  {
    ParseIsoDateOfFormat(a);
    ParseIsoDateOfFormat(b);
  }

  lemma FormatYearMonthInjective(a: YearMonth, b: YearMonth)
    requires 1 <= a.month <= 12 && 1 <= b.month <= 12
    ensures FormatYearMonth(a) == FormatYearMonth(b) <==> a == b
  {
    ParseYearMonthOfFormat(a);
    ParseYearMonthOfFormat(b);
  }

  /** Distinct decades get distinct labels, so counting by label is counting by decade. */
  lemma DecadeLabelInjective(a: int, b: int)
    ensures DecadeLabel(a) == DecadeLabel(b) <==> a == b
  {
    if DecadeLabel(a) == DecadeLabel(b) {
      var la, lb := DecadeLabel(a), DecadeLabel(b);
      assert la[..|la| - 1] == IntToDecimal(a);
      assert lb[..|lb| - 1] == IntToDecimal(b);
      RubyToIOfIntToDecimal(a);
      RubyToIOfIntToDecimal(b);
    }
  }
}
