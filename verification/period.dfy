/**
  The document period that `extract_date_from_filename` derives from a file
  name: the leftmost three ASCII letters followed by two digits, read as a
  Portuguese month abbreviation and a two-digit year, printed as "YYYY-MM".
*/
module Period {
  import opened Wrappers
  import opened Text

  /** The fixed month table of the source, keyed by lower-case abbreviation. */
  const MonthTable: map<string, string> := map[
    "jan" := "01", "fev" := "02", "mar" := "03", "abr" := "04",
    "mai" := "05", "jun" := "06", "jul" := "07", "ago" := "08",
    "set" := "09", "out" := "10", "nov" := "11", "dez" := "12"
  ]

  /** The same abbreviations in calendar order, as an independent reference. */
  const MonthNames: seq<string> :=
    ["jan", "fev", "mar", "abr", "mai", "jun", "jul", "ago", "set", "out", "nov", "dez"]

  /** A calendar year and month, as a `datetime` holds them. */
  datatype YearMonth = YearMonth(year: nat, month: nat)

  /** The pattern `[a-zA-Z]{3}\d{2}` matches at position `i` of `s`. */
  predicate MatchAt(s: string, i: int)
  {
    && 0 <= i && i + 5 <= |s|
    && IsAsciiLetter(s[i]) && IsAsciiLetter(s[i + 1]) && IsAsciiLetter(s[i + 2])
    && IsDigit(s[i + 3]) && IsDigit(s[i + 4])
  }

  /** `i` is where `re.search` reports its match: the leftmost one. */
  ghost predicate IsLeftmostMatch(s: string, i: int)
  {
    MatchAt(s, i) && forall j :: 0 <= j < i ==> !MatchAt(s, j)
  }

  /** `re.search` of the pattern in `s`, scanning from position `from`. */
  function Search(s: string, from: nat): (r: Option<nat>)
    ensures r.Some? ==> from <= r.value && MatchAt(s, r.value)
    ensures r.Some? ==> forall j :: from <= j < r.value ==> !MatchAt(s, j)
    ensures r.None? ==> forall j :: from <= j ==> !MatchAt(s, j)
    decreases |s| - from
  {
    if |s| < from + 5 then None
    else if MatchAt(s, from) then Some(from)
    else Search(s, from + 1)
  }

  /** `re.search` reports the leftmost match whenever there is one. */
  lemma SearchFindsLeftmost(s: string, i: nat)
    requires IsLeftmostMatch(s, i)
    ensures Search(s, 0) == Some(i)
  {
  }

  /** Lower-casing neither creates nor destroys a match. */
  lemma MatchIgnoresCase(s: string, i: int)
    ensures MatchAt(LowerStr(s), i) == MatchAt(s, i)
  {
  }

  /**
    The `%y` directive of `strptime`: the year in the window 1969..2068 whose
    last two digits are `yy` (00-68 become 20yy, 69-99 become 19yy).
  */
  function CenturyYear(yy: nat): (year: nat)
    requires yy < 100
    ensures year % 100 == yy
    ensures 1969 <= year <= 2068
  {
    if yy <= 68 then 2000 + yy else 1900 + yy
  }

  /** `datetime.strptime(yy + "-" + mm, "%y-%m")` on two two-digit numerals. */
  function ParseShortYearMonth(yy: string, mm: string): (r: Option<YearMonth>)
    requires |yy| == 2 && AllDigits(yy)
    requires |mm| == 2 && AllDigits(mm)
    ensures r.Some? <==> 1 <= TwoDigitValue(mm) <= 12
    ensures r.Some? ==> r.value.year % 100 == TwoDigitValue(yy) && 1969 <= r.value.year <= 2068
    ensures r.Some? ==> r.value.month == TwoDigitValue(mm)
  {
    var month := TwoDigitValue(mm);
    if 1 <= month <= 12 then Some(YearMonth(CenturyYear(TwoDigitValue(yy)), month)) else None
  }

  /** `strftime("%Y-%m")` for a four-digit year. */
  function FormatYearMonth(d: YearMonth): (r: string)
    requires d.year < 10000 && 1 <= d.month <= 12
    ensures |r| == 7 && r[4] == '-'
    ensures AllDigits(r[..2]) && AllDigits(r[2..4]) && AllDigits(r[5..])
    ensures 100 * TwoDigitValue(r[..2]) + TwoDigitValue(r[2..4]) == d.year
    ensures TwoDigitValue(r[5..]) == d.month
  {
    TwoDigits(d.year / 100) + TwoDigits(d.year % 100) + "-" + TwoDigits(d.month)
  }

  /** Reading a stored "YYYY-MM" period back; the partner of FormatYearMonth. */
  function ParsePeriod(s: string): (r: Option<YearMonth>)
    ensures r.Some? ==> r.value.year < 10000 && 1 <= r.value.month <= 12
  {
    if |s| == 7 && AllDigits(s[..4]) && s[4] == '-' && AllDigits(s[5..]) then
      var month := TwoDigitValue(s[5..]);
      if 1 <= month <= 12 then
        Some(YearMonth(100 * TwoDigitValue(s[..2]) + TwoDigitValue(s[2..4]), month))
      else None
    else None
  }

  /** Printing a period and reading it back gives the same year and month. */
  lemma FormatThenParse(d: YearMonth)
    requires d.year < 10000 && 1 <= d.month <= 12
    ensures |FormatYearMonth(d)| == 7
    ensures ParsePeriod(FormatYearMonth(d)) == Some(d)
  {
  }

  /** Every string that reads as a period is exactly the printing of what it reads as. */
  lemma ParseThenFormat(s: string)
    requires ParsePeriod(s).Some?
    ensures FormatYearMonth(ParsePeriod(s).value) == s
  {
    var d := ParsePeriod(s).value;
    var hi, lo := TwoDigitValue(s[..2]), TwoDigitValue(s[2..4]);
    assert AllDigits(s[..2]) && AllDigits(s[2..4]) by {
      assert forall i :: 0 <= i < 2 ==> s[..2][i] == s[..4][i] && s[2..4][i] == s[..4][i + 2];
    }
    TwoDigitsOfValue(s[..2]);
    TwoDigitsOfValue(s[2..4]);
    TwoDigitsOfValue(s[5..]);
    assert d.year / 100 == hi && d.year % 100 == lo;
    assert s == s[..2] + s[2..4] + "-" + s[5..];
  }

  /** The month number that the table's two-digit string names. */
  function MonthNumber(key: string): (m: nat)
    requires key in MonthTable
    ensures 1 <= m <= 12
    ensures MonthNames[m - 1] == key
  {
    var mm := MonthTable[key];
    assert |mm| == 2 && AllDigits(mm);
    TwoDigitValue(mm)
  }

  /** The table holds exactly the twelve abbreviations, numbered in calendar order. */
  lemma MonthTableInOrder()
    ensures forall key :: key in MonthTable <==> key in MonthNames
    ensures forall k :: 0 <= k < 12 ==> MonthNumber(MonthNames[k]) == k + 1
  {
  }

  /**
    `extract_date_from_filename`: the period named by the leftmost match of
    `[a-zA-Z]{3}\d{2}` in the lower-cased file name, or None.
  */
  function ExtractDate(filename: string): (r: Option<string>)
    ensures r.Some? ==> ParsePeriod(r.value).Some?
    ensures r.Some? ==> 1969 <= ParsePeriod(r.value).value.year <= 2068
  {
    var s := LowerStr(filename);
    match Search(s, 0)
    case None => None
    case Some(i) =>
      var monthStr, yearStr := s[i..i + 3], s[i + 3..i + 5];
      if monthStr in MonthTable then
        var mm := MonthTable[monthStr];
        assert |mm| == 2 && AllDigits(mm);
        match ParseShortYearMonth(yearStr, mm)
        case Some(d) => FormatThenParse(d); Some(FormatYearMonth(d))
        case None => None
      else None
  }

  /** The two-digit year at a match position. */
  function YearDigits(s: string, i: nat): (yy: nat)
    requires MatchAt(s, i)
    ensures yy < 100
  {
    TwoDigitValue(s[i + 3..i + 5])
  }

  /** `re.search` on the lower-cased name finds the leftmost match of the name itself. */
  lemma LoweredSearch(filename: string, i: nat)
    requires IsLeftmostMatch(filename, i)
    ensures Search(LowerStr(filename), 0) == Some(i)
    ensures LowerStr(filename)[i..i + 3] == LowerStr(filename[i..i + 3])
    ensures LowerStr(filename)[i + 3..i + 5] == filename[i + 3..i + 5]
  {
    var s := LowerStr(filename);
    forall j | 0 <= j <= i ensures MatchAt(s, j) == MatchAt(filename, j) {
      MatchIgnoresCase(filename, j);
    }
    SearchFindsLeftmost(s, i);
  }

  /** Only the leftmost match counts: if its letters are no month, there is no period, whatever follows. */
  lemma ExtractDateLeftmostNotMonth(filename: string, i: nat)
    requires IsLeftmostMatch(filename, i)
    requires LowerStr(filename[i..i + 3]) !in MonthTable
    ensures ExtractDate(filename) == None
  {
    LoweredSearch(filename, i);
  }

  /** If the leftmost match names a month, the period is that month of the %y year. */
  lemma ExtractDateLeftmostMonth(filename: string, i: nat)
    requires IsLeftmostMatch(filename, i)
    requires LowerStr(filename[i..i + 3]) in MonthTable
    ensures ExtractDate(filename) ==
      Some(FormatYearMonth(YearMonth(CenturyYear(YearDigits(filename, i)), MonthNumber(LowerStr(filename[i..i + 3])))))
  {
    LoweredSearch(filename, i);
  }

  /** A name without any three-letters-two-digits run has no period. */
  lemma ExtractDateNoMatch(filename: string)
    requires forall i :: !MatchAt(filename, i)
    ensures ExtractDate(filename) == None
  {
    var s := LowerStr(filename);
    if Search(s, 0).Some? {
      MatchIgnoresCase(filename, Search(s, 0).value);
    }
  }

  /** The result depends on the name only up to letter case. */
  lemma ExtractDateIgnoresCase(a: string, b: string)
    requires |a| == |b|
    requires forall i :: 0 <= i < |a| ==> Lower(a[i]) == Lower(b[i])
    ensures ExtractDate(a) == ExtractDate(b)
  {
    assert LowerStr(a) == LowerStr(b);
  }

  /** The `except ValueError` branch never runs: every table month parses. */
  lemma ParseNeverFails(key: string, yy: string)
    requires key in MonthTable
    requires |yy| == 2 && AllDigits(yy)
    ensures |MonthTable[key]| == 2 && AllDigits(MonthTable[key])
    ensures ParseShortYearMonth(yy, MonthTable[key]).Some?
  {
  }

  /** The printed forms used by the examples below. */
  lemma FormattedExamples()
    ensures FormatYearMonth(YearMonth(2024, 1)) == "2024-01"
    ensures FormatYearMonth(YearMonth(1999, 12)) == "1999-12"
  {
  }

  /** An upper-case month abbreviation is read like a lower-case one; 24 is 2024. */
  lemma ExampleUpperCase()
    ensures ExtractDate("REL_JAN24") == Some("2024-01")
  {
    var name := "REL_JAN24";
    assert !MatchAt(name, 0) && !MatchAt(name, 1) && !MatchAt(name, 2) && !MatchAt(name, 3);
    assert MatchAt(name, 4);
    assert name[4..7] == "JAN" && LowerStr("JAN") == "jan";
    assert name[7..9] == "24" && YearDigits(name, 4) == 24;
    assert MonthNumber("jan") == 1;
    ExtractDateLeftmostMonth(name, 4);
    FormattedExamples();
  }

  /** The same name in lower case gives the same period. */
  lemma ExampleLowerCase()
    ensures ExtractDate("rel_jan24") == Some("2024-01")
  {
    var upper, lower := "REL_JAN24", "rel_jan24";
    assert forall i :: 0 <= i < |upper| ==> Lower(upper[i]) == Lower(lower[i]);
    ExtractDateIgnoresCase(upper, lower);
    ExampleUpperCase();
  }

  /** Years 69-99 fall in the twentieth century. */
  lemma ExampleLastCentury()
    ensures ExtractDate("dez99") == Some("1999-12")
  {
    var name := "dez99";
    assert MatchAt(name, 0);
    assert name[0..3] == "dez" && LowerStr("dez") == "dez";
    assert name[3..5] == "99" && YearDigits(name, 0) == 99;
    assert MonthNumber("dez") == 12;
    ExtractDateLeftmostMonth(name, 0);
    FormattedExamples();
  }

  /** A first match that is not a month hides a later valid one. */
  lemma ExampleFirstMatchOnly()
    ensures ExtractDate("abc12_jan24") == None
  {
    var name := "abc12_jan24";
    assert MatchAt(name, 0);
    assert name[0..3] == "abc" && LowerStr("abc") == "abc";
    ExtractDateLeftmostNotMonth(name, 0);
  }
}
