/**
 * Date column labels. Both front ends name today's column "D-Mon" (day
 * without a leading zero, English month abbreviation), and the tracking view
 * reads such labels back with `strptime(label, "%d-%b")` to order them by
 * day of the year. The clock is not read: day and month are parameters.
 */
module Dates {
  import opened Text
  import opened Wrappers

  const MonthAbbrevs: seq<string> :=
    ["Jan", "Feb", "Mar", "Apr", "May", "Jun", "Jul", "Aug", "Sep", "Oct", "Nov", "Dec"]

  /** Month lengths of the calendar the clock runs on, leap day included. */
  const MonthLengths: seq<nat> := [31, 29, 31, 30, 31, 30, 31, 31, 30, 31, 30, 31]

  /**
   * Month lengths of 1900, the year `strptime` assumes when the format has
   * no year; 1900 is not a leap year.
   */
  const MonthLengths1900: seq<nat> := [31, 28, 31, 30, 31, 30, 31, 31, 30, 31, 30, 31]

  predicate TableOfMonths(lengths: seq<nat>)
  {
    |lengths| == 12
  }

  /** A day and month the clock can show. */
  predicate ValidDate(day: nat, month: nat)
  {
    1 <= month <= 12 && 1 <= day <= MonthLengths[month - 1]
  }

  function TwoDigits(n: nat): string
    requires n < 100
  {
    [DigitChar(n / 10), DigitChar(n % 10)]
  }

  /**
   * app.py's `today_col_label`: `strftime("%d-%b").lstrip("0")`; it names
   * the column exactly as the scanner does.
   */
  function AppTodayLabel(day: nat, month: nat): (r: string)
    requires ValidDate(day, month)
    ensures r == TodayLabel(day, month)
  {
    AppLabelIsTodayLabel(day, month);
    StripLeadingZeros(TwoDigits(day) + "-" + MonthAbbrevs[month - 1])
  }

  /**
   * attendance_scanner.py's `today_col_label`: `str(int(day))`, "-", the
   * month abbreviation.
   */
  function TodayLabel(day: nat, month: nat): (r: string)
    requires ValidDate(day, month)
    ensures |r| == |Decimal(day)| + 4
    ensures 1 <= |Decimal(day)| <= 2
    ensures AllDigits(r[..|Decimal(day)|]) && DigitsValue(r[..|Decimal(day)|]) == day
    ensures r[0] != '0'
    ensures r[|Decimal(day)|] == '-'
    ensures r[|Decimal(day)| + 1..] == MonthAbbrevs[month - 1]
  {
    var d := Decimal(day);
    var r := d + "-" + MonthAbbrevs[month - 1];
    DecimalOfDay(day);
    assert r[..|d|] == d;
    assert r[|d| + 1..] == MonthAbbrevs[month - 1];
    r
  }

  lemma DecimalOfDay(day: nat)
    requires 1 <= day <= 31
    ensures day < 10 ==> Decimal(day) == [DigitChar(day)]
    ensures day >= 10 ==> Decimal(day) == TwoDigits(day)
  {
    if day >= 10 {
      assert Decimal(day / 10) == [DigitChar(day / 10)];
    }
  }

  /** Stripping the zero `%d` pads with leaves the scanner's spelling. */
  lemma AppLabelIsTodayLabel(day: nat, month: nat)
    requires ValidDate(day, month)
    ensures StripLeadingZeros(TwoDigits(day) + "-" + MonthAbbrevs[month - 1]) == TodayLabel(day, month)
  {
    DecimalOfDay(day);
    var m := MonthAbbrevs[month - 1];
    var s := TwoDigits(day) + "-" + m;
    if day < 10 {
      assert s[0] == '0' && s[1..] == [DigitChar(day)] + "-" + m;
      assert s[1] != '0';
      assert StripLeadingZeros(s) == StripLeadingZeros(s[1..]);
    } else {
      assert s[0] != '0';
    }
  }

  /** Index of the first '-' in `c`, or `|c|` when there is none. */
  function DashIndex(c: string): (k: nat)
    ensures k <= |c|
    ensures k < |c| ==> c[k] == '-'
    ensures forall i :: 0 <= i < k ==> c[i] != '-'
  {
    if c == [] || c[0] == '-' then 0 else 1 + DashIndex(c[1..])
  }

  /**
   * The filter of `get_date_columns`: the name contains "-" and the text
   * before the first "-" is a non-empty run of digits.
   */
  predicate IsDateColumnName(c: string)
    ensures IsDateColumnName(c) <==> exists k :: 0 < k < |c| && c[k] == '-' && NoDash(c[..k]) && AllDigits(c[..k])
  {
    var k := DashIndex(c);
    0 < k < |c| && AllDigits(c[..k])
  }

  predicate NoDash(s: string)
  {
    forall i :: 0 <= i < |s| ==> s[i] != '-'
  }

  /**
   * The day text `%d` accepts when it is all digits: "1" to "9", or two
   * digits from "01" to "31".
   */
  function ParseDay(d: string): (r: Option<nat>)
    ensures r.Some? ==> 1 <= r.value <= 31
  {
    if |d| == 1 && IsDigit(d[0]) && d[0] != '0' then Some(DigitValue(d[0]))
    else if |d| == 2 && AllDigits(d) && 1 <= DigitsValue(d) <= 31 then Some(DigitsValue(d))
    else None
  }

  /** An ASCII capital turned into its small letter; every other character kept. */
  function LowerChar(ch: char): char
  {
    if 'A' <= ch <= 'Z' then (ch as int + 32) as char else ch
  }

  function AsciiLower(s: string): (r: string)
    ensures |r| == |s| && forall i :: 0 <= i < |s| ==> r[i] == LowerChar(s[i])
  {
    seq(|s|, i requires 0 <= i < |s| => LowerChar(s[i]))
  }

  /** The abbreviations in lower case, as `%b` compares them. */
  const LowerAbbrevs: seq<string> :=
    ["jan", "feb", "mar", "apr", "may", "jun", "jul", "aug", "sep", "oct", "nov", "dec"]

  function FindMonth(m: string, i: nat): (r: Option<nat>)
    requires i <= 12
    ensures r.Some? ==> i < r.value <= 12 && m == LowerAbbrevs[r.value - 1]
    ensures r.None? ==> forall j :: i <= j < 12 ==> m != LowerAbbrevs[j]
    decreases 12 - i
  {
    if i == 12 then None
    else if m == LowerAbbrevs[i] then Some(i + 1)
    else FindMonth(m, i + 1)
  }

  /** `%b`: a month abbreviation in any mix of upper and lower case; 1 for January. */
  function ParseMonth(m: string): (r: Option<nat>)
    ensures r.Some? ==> 1 <= r.value <= 12 && AsciiLower(m) == LowerAbbrevs[r.value - 1]
    ensures r.None? ==> forall j :: 0 <= j < 12 ==> AsciiLower(m) != LowerAbbrevs[j]
  {
    FindMonth(AsciiLower(m), 0)
  }

  datatype DayMonth = DayMonth(day: nat, month: nat)

  /**
   * `strptime(c, "%d-%b")` against the month lengths given: the day text,
   * one "-", a month abbreviation and nothing more, with a day the month
   * has; `None` where Python raises ValueError.
   */
  function ParseLabel(c: string, lengths: seq<nat>): (r: Option<DayMonth>)
    requires TableOfMonths(lengths)
    ensures r.Some? ==> 1 <= r.value.month <= 12 && 1 <= r.value.day <= lengths[r.value.month - 1]
  {
    var k := DashIndex(c);
    if k == |c| then None
    else
      var d, m := ParseDay(c[..k]), ParseMonth(c[k + 1..]);
      if d.Some? && m.Some? && d.value <= lengths[m.value - 1] then Some(DayMonth(d.value, m.value)) else None
  }

  /** Days in the months before `month`. */
  function DaysBefore(lengths: seq<nat>, month: nat): nat
    requires TableOfMonths(lengths) && 1 <= month <= 12
  {
    if month == 1 then 0 else DaysBefore(lengths, month - 1) + lengths[month - 2]
  }

  /** `tm_yday`: the day's position in the year, from 1. */
  function Ordinal(dm: DayMonth, lengths: seq<nat>): nat
    requires TableOfMonths(lengths) && 1 <= dm.month <= 12
  {
    DaysBefore(lengths, dm.month) + dm.day
  }

  /** The day of the year `get_date_columns` sorts by, as the source computes it (year 1900). */
  function DayOfYearAsWritten(c: string): (r: Option<nat>)
    ensures r.Some? <==> ParseLabel(c, MonthLengths1900).Some?
    ensures r.Some? ==> 1 <= r.value <= 365
  {
    match ParseLabel(c, MonthLengths1900)
    case Some(dm) => OrdinalWithinYear(dm, MonthLengths1900); Some(Ordinal(dm, MonthLengths1900))
    case None => None
  }

  /** The same key computed on a calendar that has 29 February. */
  function DayOfYear(c: string): (r: Option<nat>)
    ensures r.Some? <==> ParseLabel(c, MonthLengths).Some?
    ensures r.Some? ==> 1 <= r.value <= 366
  {
    match ParseLabel(c, MonthLengths)
    case Some(dm) => OrdinalWithinYear(dm, MonthLengths); Some(Ordinal(dm, MonthLengths))
    case None => None
  }

  /** A day the month has lies between the first and the last day of the year. */
  lemma OrdinalWithinYear(dm: DayMonth, lengths: seq<nat>)
    requires TableOfMonths(lengths)
    requires 1 <= dm.month <= 12 && 1 <= dm.day <= lengths[dm.month - 1]
    ensures 1 <= Ordinal(dm, lengths) <= DaysBefore(lengths, 12) + lengths[11]
  {
    if dm.month < 12 {
      DaysBeforeGrows(lengths, dm.month, 12);
    }
  }

  lemma {:induction false} DaysBeforeGrows(lengths: seq<nat>, m1: nat, m2: nat)
    requires TableOfMonths(lengths) && 1 <= m1 < m2 <= 12
    ensures DaysBefore(lengths, m1) + lengths[m1 - 1] <= DaysBefore(lengths, m2)
    decreases m2 - m1
  {
    if m1 + 1 < m2 {
      DaysBeforeGrows(lengths, m1 + 1, m2);
    }
  }

  /** Ordering by day of the year is ordering by month, then day. */
  lemma OrdinalOrder(a: DayMonth, b: DayMonth, lengths: seq<nat>)
    requires TableOfMonths(lengths)
    requires 1 <= a.month <= 12 && 1 <= a.day <= lengths[a.month - 1]
    requires 1 <= b.month <= 12 && 1 <= b.day <= lengths[b.month - 1]
    ensures Ordinal(a, lengths) <= Ordinal(b, lengths) <==>
      a.month < b.month || (a.month == b.month && a.day <= b.day)
  {
    if a.month < b.month {
      DaysBeforeGrows(lengths, a.month, b.month);
    } else if b.month < a.month {
      DaysBeforeGrows(lengths, b.month, a.month);
    }
  }

  lemma FindMonthOfAbbrev(month: nat)
    requires 1 <= month <= 12
    ensures ParseMonth(MonthAbbrevs[month - 1]) == Some(month)
  {
    LowerOfAbbrev(month);
    FindMonthOfLower(month, 0);
  }

  /** Lower-casing a capitalised abbreviation gives the lower-case one. */
  lemma LowerOfAbbrev(month: nat)
    requires 1 <= month <= 12
    ensures AsciiLower(MonthAbbrevs[month - 1]) == LowerAbbrevs[month - 1]
  {
    var a := MonthAbbrevs[month - 1];
    assert AsciiLower(a) == [AsciiLower(a)[0], AsciiLower(a)[1], AsciiLower(a)[2]];
  }

  /** The search for an abbreviation stops at that abbreviation's month. */
  lemma {:induction false} FindMonthOfLower(month: nat, i: nat)
    requires 1 <= month <= 12 && i < month
    ensures FindMonth(LowerAbbrevs[month - 1], i) == Some(month)
    decreases month - i
  {
    if i + 1 < month {
      AbbrevsDistinct(i, month - 1);
      FindMonthOfLower(month, i + 1);
    }
  }

  /** No two months share an abbreviation; a letter or two tells each pair apart. */
  lemma AbbrevsDistinct(j: nat, l: nat)
    requires j < l < 12
    ensures LowerAbbrevs[j] != LowerAbbrevs[l]
  {
    var a, b := LowerAbbrevs[j], LowerAbbrevs[l];
    if j == 0 || j == 3 { assert a[0] != b[0] || a[1] != b[1]; }
    else if j == 2 || j == 5 { assert a[0] != b[0] || a[2] != b[2]; }
    else { assert a[0] != b[0]; }
  }

  /**
   * Every label the clock can produce reads back as the day and month it was
   * made from, 29 February included.
   */
  lemma TodayLabelParses(day: nat, month: nat)
    requires ValidDate(day, month)
    ensures ParseLabel(TodayLabel(day, month), MonthLengths) == Some(DayMonth(day, month))
    ensures IsDateColumnName(TodayLabel(day, month))
  {
    var c := TodayLabel(day, month);
    var k := |Decimal(day)|;
    DecimalOfDay(day);
    assert forall i :: 0 <= i < k ==> IsDigit(c[i]);
    assert DashIndex(c) == k by {
      DashIndexAt(c, k);
    }
    FindMonthOfAbbrev(month);
    if k == 1 {
      assert DigitsValue(c[..1]) == DigitValue(c[0]) by {
        assert c[..1][..0] == [];
      }
    }
  }

  // ---------- Which texts parse ----------

  /**
   * A text parses as a date label exactly when, ignoring the case of its
   * letters, it is the label of a day the calendar has, or that label with
   * a "0" in front of a one-digit day.
   */
  lemma ParseLabelExactly(c: string, lengths: seq<nat>, dm: DayMonth)
    requires TableOfMonths(lengths) && forall m :: 0 <= m < 12 ==> lengths[m] <= MonthLengths[m]
    ensures ParseLabel(c, lengths) == Some(dm) <==>
      && 1 <= dm.month <= 12 && 1 <= dm.day <= lengths[dm.month - 1]
      && (|| AsciiLower(c) == AsciiLower(TodayLabel(dm.day, dm.month))
          || (dm.day < 10 && AsciiLower(c) == "0" + AsciiLower(TodayLabel(dm.day, dm.month))))
  {
    if ParseLabel(c, lengths) == Some(dm) {
      LabelOfParse(c, lengths);
    }
    if && 1 <= dm.month <= 12 && 1 <= dm.day <= lengths[dm.month - 1]
       && (|| AsciiLower(c) == AsciiLower(TodayLabel(dm.day, dm.month))
           || (dm.day < 10 && AsciiLower(c) == "0" + AsciiLower(TodayLabel(dm.day, dm.month))))
    {
      ParseOfSpelled(c, lengths, dm);
    }
  }

  /** A text spelled, up to case, as the label of a day the calendar has parses as that day. */
  lemma ParseOfSpelled(c: string, lengths: seq<nat>, dm: DayMonth)
    requires TableOfMonths(lengths) && 1 <= dm.month <= 12 && 1 <= dm.day <= lengths[dm.month - 1]
    requires ValidDate(dm.day, dm.month)
    requires || AsciiLower(c) == AsciiLower(TodayLabel(dm.day, dm.month))
             || (dm.day < 10 && AsciiLower(c) == "0" + AsciiLower(TodayLabel(dm.day, dm.month)))
    ensures ParseLabel(c, lengths) == Some(dm)
  {
    if AsciiLower(c) == AsciiLower(TodayLabel(dm.day, dm.month)) {
      ParseOfPlain(c, lengths, dm);
    } else {
      ParseOfPadded(c, lengths, dm);
    }
  }

  lemma ParseOfPlain(c: string, lengths: seq<nat>, dm: DayMonth)
    requires TableOfMonths(lengths) && 1 <= dm.month <= 12 && 1 <= dm.day <= lengths[dm.month - 1]
    requires ValidDate(dm.day, dm.month)
    requires AsciiLower(c) == AsciiLower(TodayLabel(dm.day, dm.month))
    ensures ParseLabel(c, lengths) == Some(dm)
  {
    LowerOfLabel(dm.day, dm.month);
    ParseDayOfText(dm.day);
    ParseOfLowered(c, Decimal(dm.day), dm, lengths);
  }

  lemma ParseOfPadded(c: string, lengths: seq<nat>, dm: DayMonth)
    requires TableOfMonths(lengths) && 1 <= dm.month <= 12 && 1 <= dm.day <= lengths[dm.month - 1]
    requires ValidDate(dm.day, dm.month) && dm.day < 10
    requires AsciiLower(c) == "0" + AsciiLower(TodayLabel(dm.day, dm.month))
    ensures ParseLabel(c, lengths) == Some(dm)
  {
    var d, low := Decimal(dm.day), LowerAbbrevs[dm.month - 1];
    LowerOfLabel(dm.day, dm.month);
    ParseDayOfText(dm.day);
    assert "0" + (d + "-" + low) == ("0" + d) + "-" + low;
    ParseOfLowered(c, "0" + d, dm, lengths);
  }

  /** A text that parses is, ignoring case, the label of what it parses as, perhaps with a leading "0". */
  lemma LabelOfParse(c: string, lengths: seq<nat>)
    requires TableOfMonths(lengths) && forall m :: 0 <= m < 12 ==> lengths[m] <= MonthLengths[m]
    requires ParseLabel(c, lengths).Some?
    ensures var dm := ParseLabel(c, lengths).value;
      ValidDate(dm.day, dm.month)
      && (|| AsciiLower(c) == AsciiLower(TodayLabel(dm.day, dm.month))
          || (dm.day < 10 && AsciiLower(c) == "0" + AsciiLower(TodayLabel(dm.day, dm.month))))
  {
    var dm, k := ParseLabel(c, lengths).value, DashIndex(c);
    ParsedPieces(c, lengths);
    MonthRead(c[k + 1..], dm.month);
    var d, low := c[..k], LowerAbbrevs[dm.month - 1];
    assert lengths[dm.month - 1] <= MonthLengths[dm.month - 1];
    DayTextOfParse(d);
    LowerOfLabel(dm.day, dm.month);
    LowerJoin(c, k);
    if d != Decimal(dm.day) {
      assert AsciiLower(c) == "0" + (Decimal(dm.day) + "-" + low);
    }
  }

  /** What a successful parse read: the day text before the first dash, and a month's abbreviation after it. */
  lemma ParsedPieces(c: string, lengths: seq<nat>)
    requires TableOfMonths(lengths) && ParseLabel(c, lengths).Some?
    ensures DashIndex(c) < |c|
    ensures ParseDay(c[..DashIndex(c)]) == Some(ParseLabel(c, lengths).value.day)
    ensures ParseMonth(c[DashIndex(c) + 1..]) == Some(ParseLabel(c, lengths).value.month)
  {
  }

  /** A month `%b` read is the text's lower-case spelling. */
  lemma MonthRead(m: string, month: nat)
    requires ParseMonth(m) == Some(month)
    ensures AsciiLower(m) == LowerAbbrevs[month - 1]
  {
  }

  lemma LowerJoin(c: string, k: nat)
    requires k < |c| && c[k] == '-' && AllDigits(c[..k])
    ensures AsciiLower(c) == c[..k] + "-" + AsciiLower(c[k + 1..])
  {
    LowerSplit(c, k);
    LowerOfDigits(c[..k]);
  }

  /** A text that lowers to a day text, a dash and a month's abbreviation parses as that day and month. */
  lemma ParseOfLowered(c: string, p: string, dm: DayMonth, lengths: seq<nat>)
    requires TableOfMonths(lengths) && 1 <= dm.month <= 12 && 1 <= dm.day <= lengths[dm.month - 1]
    requires AllDigits(p) && ParseDay(p) == Some(dm.day)
    requires AsciiLower(c) == p + "-" + LowerAbbrevs[dm.month - 1]
    ensures ParseLabel(c, lengths) == Some(dm)
  {
    LoweredShape(c, p, LowerAbbrevs[dm.month - 1]);
    FindMonthOfLower(dm.month, 0);
  }

  /** Lower-casing changes no digit and no dash, so they stand where they stood. */
  lemma LoweredShape(c: string, p: string, low: string)
    requires AllDigits(p) && AsciiLower(c) == p + "-" + low
    ensures |p| < |c| && DashIndex(c) == |p| && c[..|p|] == p && AsciiLower(c[|p| + 1..]) == low
  {
    var k, l := |p|, AsciiLower(c);
    assert k < |c| && l[..k] == p && l[k] == '-' && l[k + 1..] == low;
    assert c[..k] == p by {
      DigitsKept(c, p);
    }
    assert c[k] == '-' by {
      LowerKeepsNonLetter(c[k]);
    }
    assert forall i :: 0 <= i < k ==> c[i] != '-' by {
      assert forall i :: 0 <= i < k ==> c[i] == p[i];
    }
    DashIndexAt(c, k);
    LowerSuffix(c, k + 1);
  }

  lemma DigitsKept(c: string, p: string)
    requires AllDigits(p) && |p| <= |c| && AsciiLower(c)[..|p|] == p
    ensures c[..|p|] == p
  {
    forall i | 0 <= i < |p| ensures c[i] == p[i] {
      assert AsciiLower(c)[i] == p[i];
      LowerKeepsNonLetter(c[i]);
    }
  }

  lemma LowerKeepsNonLetter(ch: char)
    ensures !('a' <= LowerChar(ch) <= 'z') ==> LowerChar(ch) == ch
  {
  }

  lemma LowerSuffix(c: string, k: nat)
    requires k <= |c|
    ensures AsciiLower(c[k..]) == AsciiLower(c)[k..]
  {
  }

  /** The day texts `%d` accepts: the decimal day, or a one-digit day with a leading "0". */
  lemma DayTextOfParse(d: string)
    requires ParseDay(d).Some?
    ensures AllDigits(d)
    ensures d == Decimal(ParseDay(d).value) || (ParseDay(d).value < 10 && d == "0" + Decimal(ParseDay(d).value))
  {
    var v := ParseDay(d).value;
    DecimalOfDay(v);
    if |d| == 2 {
      assert DigitsValue(d) == 10 * DigitValue(d[0]) + DigitValue(d[1]) by {
        assert d[..1][..0] == [];
      }
      if d[0] == '0' {
        assert d == "0" + [DigitChar(v)];
      } else {
        assert v / 10 == DigitValue(d[0]) && v % 10 == DigitValue(d[1]);
      }
    }
  }

  /** Both day texts of a day parse as that day. */
  lemma ParseDayOfText(day: nat)
    requires 1 <= day <= 31
    ensures ParseDay(Decimal(day)) == Some(day)
    ensures day < 10 ==> AllDigits("0" + Decimal(day)) && ParseDay("0" + Decimal(day)) == Some(day)
  {
    DecimalOfDay(day);
    if day < 10 {
      var z := "0" + Decimal(day);
      assert z[..1] == "0" && z[..1][..0] == [];
      assert DigitsValue(z) == day;
    }
  }

  /** Lower-casing a label lower-cases only its month abbreviation. */
  lemma LowerOfLabel(day: nat, month: nat)
    requires ValidDate(day, month)
    ensures AsciiLower(TodayLabel(day, month)) == Decimal(day) + "-" + LowerAbbrevs[month - 1]
  {
    var c := TodayLabel(day, month);
    var k := |Decimal(day)|;
    LowerSplit(c, k);
    LowerOfDigits(c[..k]);
    LowerOfAbbrev(month);
    assert c[..k] == Decimal(day) by {
      DecimalOfDay(day);
    }
  }

  lemma LowerSplit(c: string, k: nat)
    requires k < |c|
    ensures AsciiLower(c) == AsciiLower(c[..k]) + [LowerChar(c[k])] + AsciiLower(c[k + 1..])
  {
  }

  lemma LowerOfDigits(s: string)
    requires AllDigits(s)
    ensures AsciiLower(s) == s
  {
  }

  /** Every label the clock can produce passes the date-column test. */
  lemma TodayLabelIsDateName(day: nat, month: nat)
    requires ValidDate(day, month)
    ensures IsDateColumnName(TodayLabel(day, month))
  {
    var c := TodayLabel(day, month);
    var k := |Decimal(day)|;
    assert AllDigits(c[..k]);
    DashIndexAt(c, k);
  }

  /** A name that does not start with a digit is not a date column. */
  lemma NotDateNameByHead(c: string)
    requires c != [] && !IsDigit(c[0])
    ensures !IsDateColumnName(c)
  {
    var k := DashIndex(c);
    if 0 < k < |c| {
      assert c[..k][0] == c[0];
    }
  }

  lemma DashIndexAt(c: string, k: nat)
    requires k < |c| && c[k] == '-' && forall i :: 0 <= i < k ==> c[i] != '-'
    ensures DashIndex(c) == k
  {
    if k > 0 {
      DashIndexAt(c[1..], k - 1);
    }
  }

  /** As written, the leap day's own label does not parse: `strptime` raises ValueError. */
  lemma LeapDayRejectedAsWritten()
    ensures ValidDate(29, 2)
    ensures IsDateColumnName(TodayLabel(29, 2))
    ensures DayOfYearAsWritten(TodayLabel(29, 2)).None?
  {
    TodayLabelParses(29, 2);
  }

  /**
   * Where the source's key is defined, the corrected key is defined too and
   * orders labels the same way.
   */
  lemma DayOfYearAgreesWithSource(a: string, b: string)
    requires DayOfYearAsWritten(a).Some? && DayOfYearAsWritten(b).Some?
    ensures DayOfYear(a).Some? && DayOfYear(b).Some?
    ensures DayOfYearAsWritten(a).value <= DayOfYearAsWritten(b).value <==> DayOfYear(a).value <= DayOfYear(b).value
  {
    LeapCalendarAccepts(a);
    LeapCalendarAccepts(b);
    var x, y := ParseLabel(a, MonthLengths1900).value, ParseLabel(b, MonthLengths1900).value;
    OrdinalOrder(x, y, MonthLengths1900);
    OrdinalOrder(x, y, MonthLengths);
  }

  /** Every label the 1900 calendar accepts is read the same way on the leap calendar. */
  lemma LeapCalendarAccepts(c: string)
    requires ParseLabel(c, MonthLengths1900).Some?
    ensures ParseLabel(c, MonthLengths) == ParseLabel(c, MonthLengths1900)
  {
    var m := ParseLabel(c, MonthLengths1900).value.month;
    assert MonthLengths1900[m - 1] <= MonthLengths[m - 1];
  }
}
