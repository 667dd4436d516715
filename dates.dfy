/** `convert_date` (backend/app/data_ingestion.py, lines 33-44): a value read
    as `DD-MM-YYYY` becomes ISO `YYYY-MM-DD`; a bare four-digit year `Y`
    becomes `Y-01-01`; anything else is passed through as its `str()`.

    `datetime.strptime(s, "%d-%m-%Y")` is modelled on the regular expression
    CPython builds for that format: the day is `3[01]|[12]\d|0[1-9]|[1-9]| [1-9]`,
    the month `1[0-2]|0[1-9]|[1-9]`, the year four digits, separated by `-` and
    covering the whole string; the date must then exist in the proleptic
    Gregorian calendar with a year of at least 1. */
module Dates {
  import opened Wrappers
  import opened Strings
  import opened FieldStandardization

  datatype Date = Date(year: nat, month: nat, day: nat)

  /** What `%d` accepts: one digit 1-9, a space and one digit 1-9, or two
      digits from 01 to 31. */
  predicate DayToken(t: string)
  {
    || (|t| == 1 && '1' <= t[0] <= '9')
    || (|t| == 2 && t[0] == ' ' && '1' <= t[1] <= '9')
    || (|t| == 2 && IsDigits(t) && 1 <= ParseNat(t) <= 31)
  }

  function DayValue(t: string): (d: nat)
    requires DayToken(t)
    ensures 1 <= d <= 31
  {
    if t[0] == ' ' then DigitValue(t[1])
    else if |t| == 1 then
      assert t[..0] == [];
      assert ParseNat(t) == DigitValue(t[0]);
      ParseNat(t)
    else ParseNat(t)
  }

  /** What `%m` accepts: one digit 1-9 or two digits from 01 to 12. */
  predicate MonthToken(t: string)
  {
    || (|t| == 1 && '1' <= t[0] <= '9')
    || (|t| == 2 && IsDigits(t) && 1 <= ParseNat(t) <= 12)
  }

  /** What `%Y` accepts: exactly four digits. */
  predicate YearToken(t: string)
  {
    |t| == 4 && IsDigits(t)
  }

  /** The `%d-%m-%Y` pattern matched against the whole string. None of the
      three fields can hold a `-`, so the separators are the first two. */
  function MatchDayMonthYear(s: string): (r: Option<Date>)
    ensures r.Some? ==> 1 <= r.value.day <= 31 && 1 <= r.value.month <= 12 && r.value.year < 10000
    ensures r.Some? ==> |s| >= 8
  {
    match IndexOf(s, '-')
    case None => None
    case Some(i) =>
      var rest := s[i + 1..];
      match IndexOf(rest, '-')
      case None => None
      case Some(j) =>
        var day, month, year := s[..i], rest[..j], rest[j + 1..];
        if DayToken(day) && MonthToken(month) && YearToken(year) then
          ParseNatBound(year);
          ParseNatBound(month);
          assert Pow10(1) == 10 && Pow10(4) == 10000;
          Some(Date(ParseNat(year), ParseNat(month), DayValue(day)))
        else None
  }

  predicate IsLeap(y: nat)
  {
    y % 4 == 0 && (y % 100 != 0 || y % 400 == 0)
  }

  function DaysInMonth(y: nat, m: nat): (n: nat)
    requires 1 <= m <= 12
    ensures 28 <= n <= 31
  {
    if m == 2 then (if IsLeap(y) then 29 else 28)
    else if m == 4 || m == 6 || m == 9 || m == 11 then 30
    else 31
  }

  /** A date `datetime` accepts. */
  predicate ValidDate(d: Date)
  {
    1 <= d.year && 1 <= d.month <= 12 && 1 <= d.day <= DaysInMonth(d.year, d.month)
  }

  /** `datetime.strptime(s, "%d-%m-%Y")`, `None` where it raises. */
  function Strptime(s: string): (r: Option<Date>)
    ensures r.Some? ==> ValidDate(r.value) && r.value.year < 10000
    ensures r.Some? <==> MatchDayMonthYear(s).Some? && ValidDate(MatchDayMonthYear(s).value)
    ensures r.Some? ==> r == MatchDayMonthYear(s)
  {
    match MatchDayMonthYear(s)
    case Some(d) => if ValidDate(d) then Some(d) else None
    case None => None
  }

  /** `strftime("%Y-%m-%d")`. */
  function Iso(d: Date): (r: string)
    requires d.year < 10000 && d.month < 100 && d.day < 100
    ensures |r| == 10 && r[4] == '-' && r[7] == '-'
  {
    Pad4(d.year) + "-" + Pad2(d.month) + "-" + Pad2(d.day)
  }

  /** `convert_date` on the text of a value. */
  function ConvertDate(s: string): (r: string)
    ensures Strptime(s).None? && !(|s| == 4 && IsDigits(s)) ==> r == s
  {
    match Strptime(s)
    case Some(d) => Iso(d)
    case None => if |s| == 4 && IsDigits(s) then s + "-01-01" else s
  }

  /** `convert_date` on a cell: its `str()` is what is parsed. */
  function ConvertCell(c: Cell): string
  {
    ConvertDate(Str(c))
  }

  // ---------------------------------------------------------------------------
  // Properties

  /** The ISO text holds the same year, month and day, zero-padded. */
  lemma IsoFields(d: Date)
    requires ValidDate(d) && d.year < 10000
    ensures Iso(d)[..4] == Pad4(d.year) && Iso(d)[5..7] == Pad2(d.month) && Iso(d)[8..] == Pad2(d.day)
    ensures ParseNat(Iso(d)[..4]) == d.year
    ensures ParseNat(Iso(d)[5..7]) == d.month
    ensures ParseNat(Iso(d)[8..]) == d.day
  {
    var r, y, m, dd := Iso(d), Pad4(d.year), Pad2(d.month), Pad2(d.day);
    assert r == y + "-" + m + "-" + dd;
    assert r[..4] == y by {
      forall k | 0 <= k < 4 ensures r[k] == y[k] {}
    }
    assert r[5..7] == m by {
      assert r[5] == m[0] && r[6] == m[1];
    }
    assert r[8..] == dd by {
      assert r[8] == dd[0] && r[9] == dd[1];
    }
    ParsePad4(d.year);
    ParsePad2(d.month);
    ParsePad2(d.day);
  }

  /** A valid `DD-MM-YYYY` date is rewritten as `YYYY-MM-DD` of the same
      date. */
  lemma ConvertDayMonthYear(d: Date)
    requires ValidDate(d) && d.year < 10000
    ensures ConvertDate(Pad2(d.day) + "-" + Pad2(d.month) + "-" + Pad4(d.year)) == Iso(d)
  {
    var dd, mm, yyyy := Pad2(d.day), Pad2(d.month), Pad4(d.year);
    var s := dd + "-" + mm + "-" + yyyy;
    assert s[..2] == dd && s[3..5] == mm && s[6..] == yyyy;
    assert s[0] == dd[0] && s[1] == dd[1] && s[2] == '-';
    assert IndexOf(s, '-') == Some(2);
    var rest := s[3..];
    assert rest[0] == mm[0] && rest[1] == mm[1] && rest[2] == '-';
    assert IndexOf(rest, '-') == Some(2);
    assert rest[..2] == mm && rest[3..] == yyyy;
    ParsePad2(d.day);
    ParsePad2(d.month);
    ParsePad4(d.year);
    assert dd[0] != ' ';
    assert MatchDayMonthYear(s) == Some(d);
  }

  /** The three tokens of `%d-%m-%Y`, written with their dashes, are read as
      the day, the month and the year they spell. */
  lemma MatchFields(day: string, month: string, year: string)
    requires DayToken(day) && MonthToken(month) && YearToken(year)
    ensures MatchDayMonthYear(day + "-" + month + "-" + year) == Some(Date(ParseNat(year), ParseNat(month), DayValue(day)))
  {
    var s := day + "-" + month + "-" + year;
    var rest := month + "-" + year;
    assert s == day + "-" + rest;
    assert forall k :: 0 <= k < |day| ==> s[k] == day[k] && day[k] != '-';
    assert s[|day|] == '-';
    assert IndexOf(s, '-') == Some(|day|);
    assert s[|day| + 1..] == rest && s[..|day|] == day;
    assert forall k :: 0 <= k < |month| ==> rest[k] == month[k] && month[k] != '-';
    assert rest[|month|] == '-';
    assert IndexOf(rest, '-') == Some(|month|);
    assert rest[..|month|] == month && rest[|month| + 1..] == year;
  }

  /** Any spelling `%d-%m-%Y` accepts (unpadded `5-3-2020`, space-padded
      ` 5-03-2020`) of an existing date is rewritten as `YYYY-MM-DD` of that
      date. */
  lemma ConvertDayMonthYearText(day: string, month: string, year: string, d: Date)
    requires DayToken(day) && MonthToken(month) && YearToken(year)
    requires d == Date(ParseNat(year), ParseNat(month), DayValue(day))
    requires ValidDate(d) && d.year < 10000
    ensures ConvertDate(day + "-" + month + "-" + year) == Iso(d)
  {
    MatchFields(day, month, year);
  }

  /** A bare four-digit year `Y` becomes `Y-01-01`. */
  lemma ConvertYear(s: string)
    requires |s| == 4 && IsDigits(s)
    ensures ConvertDate(s) == s + "-01-01"
  {
    assert IndexOf(s, '-').None?;
  }

  /** A text in the date shape naming a day that does not exist (31 April,
      29 February of a common year, year 0) is passed through. */
  lemma ConvertNonexistentDate(s: string)
    requires MatchDayMonthYear(s).Some? && !ValidDate(MatchDayMonthYear(s).value)
    ensures ConvertDate(s) == s
  {
  }

  /** A text whose first `-` sits at position 4 and that is not itself four
      characters long is passed through; every output has this form. */
  lemma ConvertYearFirst(r: string)
    requires |r| > 4 && IndexOf(r, '-') == Some(4)
    ensures ConvertDate(r) == r
  {
    assert !DayToken(r[..4]);
  }

  /** Converting an already converted value changes nothing. */
  lemma ConvertIdempotent(s: string)
    ensures ConvertDate(ConvertDate(s)) == ConvertDate(s)
  {
    var r := ConvertDate(s);
    match Strptime(s)
    case Some(d) =>
      assert r == Iso(d);
      assert r[..4] == Pad4(d.year);
      assert forall k :: 0 <= k < 4 ==> r[k] == Pad4(d.year)[k];
      assert IndexOf(r, '-') == Some(4);
      ConvertYearFirst(r);
    case None =>
      if |s| == 4 && IsDigits(s) {
        assert r == s + "-01-01";
        assert r[4] == '-';
        assert forall k :: 0 <= k < 4 ==> r[k] == s[k] && IsDigit(r[k]);
        assert IndexOf(r, '-') == Some(4);
        ConvertYearFirst(r);
      }
  }

  /** A missing value is converted to the text "nan", so converted dates are
      never missing. */
  lemma ConvertMissing()
    ensures ConvertCell(Missing) == "nan"
  {
    assert IndexOf("nan", '-').None?;
  }

  /** A text that is neither a date nor a year is returned as it is, not
      replaced by "1970-01-01". */
  lemma GarbagePassesThrough()
    ensures ConvertDate("garbage") == "garbage"
  {
    assert IndexOf("garbage", '-').None?;
  }
}
