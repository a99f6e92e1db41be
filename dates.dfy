/**
 * Calendar dates as the licence makers read them: Python's
 * `datetime.strptime(s, "%Y-%m-%d")`, the comparison of the parsed values,
 * and `strftime("%Y-%m-%dT%H:%M:%SZ")` for the issue time.
 */
module Dates {
  import opened Wrappers
  import opened Text

  datatype Date = Date(year: nat, month: nat, day: nat)

  /** A UTC wall-clock reading, as `datetime.utcnow()` returns it (sub-second part dropped). */
  datatype DateTime = DateTime(date: Date, hour: nat, minute: nat, second: nat)

  /** Gregorian leap years. */
  predicate IsLeapYear(y: nat) {
    y % 4 == 0 && (y % 100 != 0 || y % 400 == 0)
  }

  function DaysInMonth(y: nat, m: nat): (n: nat)
    requires 1 <= m <= 12
    ensures 28 <= n <= 31
  {
    if m == 2 then (if IsLeapYear(y) then 29 else 28)
    else if m == 4 || m == 6 || m == 9 || m == 11 then 30
    else 31
  }

  /** A date that `datetime.date` accepts: years 1 to 9999 and a day that exists in its month. */
  predicate IsValid(d: Date) {
    1 <= d.year <= 9999 && 1 <= d.month <= 12 && 1 <= d.day <= DaysInMonth(d.year, d.month)
  }

  predicate IsValidDateTime(t: DateTime) {
    IsValid(t.date) && t.hour < 24 && t.minute < 60 && t.second < 60
  }

  // ---------------------------------------------------------------------------------------------
  // strptime(s, "%Y-%m-%d")
  // ---------------------------------------------------------------------------------------------

  /**
   * The `%m` directive (regular expression `1[0-2]|0[1-9]|[1-9]`) at position `i`,
   * together with the literal '-' that follows it in the format. The regular
   * expression engine tries the alternatives in order and backtracks into the next
   * one when the '-' does not follow, so this is the first alternative that is
   * followed by a '-'. Yields the month and the position after the '-'.
   */
  function MatchMonthDash(s: string, i: nat): (r: Option<(nat, nat)>)
    ensures r.Some? ==> i < r.value.1 <= |s|
  {
    if i + 2 < |s| && s[i] == '1' && '0' <= s[i + 1] <= '2' && s[i + 2] == '-' then
      Some((10 + DigitValue(s[i + 1]), i + 3))
    else if i + 2 < |s| && s[i] == '0' && '1' <= s[i + 1] <= '9' && s[i + 2] == '-' then
      Some((DigitValue(s[i + 1]), i + 3))
    else if i + 1 < |s| && '1' <= s[i] <= '9' && s[i + 1] == '-' then
      Some((DigitValue(s[i]), i + 2))
    else None
  }

  /**
   * The `%d` directive (regular expression `3[01]|[12]\d|0[1-9]|[1-9]`) at position `j`:
   * the first alternative that matches there, since nothing follows it in the
   * format. Yields the day and the position after it.
   */
  function MatchDay(s: string, j: nat): (r: Option<(nat, nat)>)
    ensures r.Some? ==> j < r.value.1 <= |s|
  {
    if j + 1 < |s| && s[j] == '3' && '0' <= s[j + 1] <= '1' then
      Some((30 + DigitValue(s[j + 1]), j + 2))
    else if j + 1 < |s| && '1' <= s[j] <= '2' && IsDigit(s[j + 1]) then
      Some((10 * DigitValue(s[j]) + DigitValue(s[j + 1]), j + 2))
    else if j + 1 < |s| && s[j] == '0' && '1' <= s[j + 1] <= '9' then
      Some((DigitValue(s[j + 1]), j + 2))
    else if j < |s| && '1' <= s[j] <= '9' then
      Some((DigitValue(s[j]), j + 1))
    else None
  }

  /**
   * `datetime.strptime(s, "%Y-%m-%d")`: four digits for the year (`%Y`), a '-',
   * the month, a '-', the day; characters left over after the match are an error
   * ("unconverted data remains"), and so is a date the calendar does not have
   * (year 0, 30 February, 29 February outside a leap year). None is the
   * `ValueError`.
   */
  function ParseDate(s: string): (r: Option<Date>)
    ensures r.Some? ==> IsValid(r.value)
  {
    if |s| < 5 || !AllDigits(s[..4]) || s[4] != '-' then None
    else match MatchMonthDash(s, 5)
      case None => None
      case Some((month, j)) =>
        match MatchDay(s, j)
        case None => None
        case Some((day, k)) =>
          if k != |s| then None
          else
            var d := Date(DecimalValue(s[..4]), month, day);
            if IsValid(d) then Some(d) else None
  }

  /** The canonical spelling `YYYY-MM-DD`, the `full-date` of section 5.6 of RFC 3339. */
  function Format(d: Date): (s: string)
    requires IsValid(d)
    ensures |s| == 10
  {
    Padded(d.year, 4) + "-" + Padded(d.month, 2) + "-" + Padded(d.day, 2)
  }

  /**
   * The spellings `strptime` accepts for a date: four year digits, and the month
   * and the day each either zero-padded to two digits or without leading zero.
   */
  ghost predicate Spells(s: string, d: Date)
    requires IsValid(d)
  {
    exists m, dd ::
      (m == Padded(d.month, 2) || m == Short(d.month))
      && (dd == Padded(d.day, 2) || dd == Short(d.day))
      && s == Padded(d.year, 4) + "-" + m + "-" + dd
  }

  /** A string of two digits is the zero-padded spelling of its value. */
  lemma PaddedTwo(n: nat)
    requires n < 100
    ensures Padded(n, 2) == [DigitChar(n / 10), DigitChar(n % 10)]
  {
    assert Padded(n / 10, 1) == Padded(n / 10 / 10, 0) + [DigitChar(n / 10 % 10)];
  }

  /** Decimal spellings of a fixed width are unique. */
  lemma {:induction false} PaddedUnique(t: string)
    requires AllDigits(t)
    ensures DecimalValue(t) < Pow10(|t|)
    ensures Padded(DecimalValue(t), |t|) == t
  {
    if t != [] {
      var init, last := t[..|t| - 1], t[|t| - 1];
      SplitLast(t);
      PaddedUnique(init);
      PaddedStep(init, last);
    }
  }

  lemma SplitLast(t: string)
    requires AllDigits(t) && t != []
    ensures AllDigits(t[..|t| - 1]) && IsDigit(t[|t| - 1]) && t[..|t| - 1] + [t[|t| - 1]] == t
  {
    assert AllDigits(t[..|t| - 1]);
  }

  /** Appending a digit to a zero-padded spelling gives the zero-padded spelling one digit wider. */
  lemma PaddedStep(init: string, last: char)
    requires AllDigits(init) && IsDigit(last)
    requires DecimalValue(init) < Pow10(|init|) && Padded(DecimalValue(init), |init|) == init
    ensures AllDigits(init + [last])
    ensures DecimalValue(init + [last]) < Pow10(|init| + 1)
    ensures Padded(DecimalValue(init + [last]), |init| + 1) == init + [last]
  {
    var t := init + [last];
    var q, r := DecimalValue(init), DigitValue(last);
    DecimalStep(init, last);
    var n := DecimalValue(t);
    DivMod10(q, r);
    BoundStep(q, r, Pow10(|init|));
    assert n == q * 10 + r;
    assert n / 10 == q && n % 10 == r;
    PaddedUnfold(n, |t|);
    assert Padded(n / 10, |init|) == init && [DigitChar(n % 10)] == [last];
  }

  /** Appending a digit multiplies the value by ten and adds the digit. */
  lemma DecimalStep(init: string, last: char)
    requires AllDigits(init) && IsDigit(last)
    ensures AllDigits(init + [last])
    ensures DecimalValue(init + [last]) == DecimalValue(init) * 10 + DigitValue(last)
  {
    var t := init + [last];
    assert t[..|t| - 1] == init && t[|t| - 1] == last;
  }

  lemma PaddedUnfold(n: nat, w: nat)
    requires 1 <= w && n < Pow10(w)
    ensures Padded(n, w) == Padded(n / 10, w - 1) + [DigitChar(n % 10)]
  {
  }

  lemma BoundStep(q: nat, r: nat, p: nat)
    requires q < p && r < 10
    ensures q * 10 + r < 10 * p
  {
  }

  /** Which spellings `ParseDate` accepts, both directions: exactly the valid dates, each in its four spellings. */
  lemma ParseDateSpec(s: string, d: Date)
    ensures ParseDate(s) == Some(d) <==> IsValid(d) && Spells(s, d)
  {
    if ParseDate(s) == Some(d) {
      ParseDateSpells(s, d);
    }
    if IsValid(d) && Spells(s, d) {
      var m, dd :| (m == Padded(d.month, 2) || m == Short(d.month))
        && (dd == Padded(d.day, 2) || dd == Short(d.day))
        && s == Padded(d.year, 4) + "-" + m + "-" + dd;
      SpellingParses(d, m, dd);
    }
  }

  lemma ParseDateSpells(s: string, d: Date)
    requires ParseDate(s) == Some(d)
    ensures IsValid(d) && Spells(s, d)
  {
    var (month, j) := MatchMonthDash(s, 5).value;
    var (day, k) := MatchDay(s, j).value;
    assert d == Date(DecimalValue(s[..4]), month, day) && k == |s|;
    PaddedUnique(s[..4]);
    MonthSpelled(s, 5, month, j);
    DaySpelled(s, j, day);
    DateParts(s, j);
  }

  /** What `%m-` matched is the month's padded or short spelling, and a '-'. */
  lemma MonthSpelled(s: string, i: nat, month: nat, j: nat)
    requires MatchMonthDash(s, i) == Some((month, j)) && 1 <= month <= 12
    ensures s[i..j - 1] == Padded(month, 2) || s[i..j - 1] == Short(month)
    ensures s[j - 1] == '-'
  {
    if j == i + 3 {
      assert month == DigitValue(s[i]) * 10 + DigitValue(s[i + 1]);
      TwoDigits(s[i], s[i + 1]);
      assert s[i..j - 1] == [s[i], s[i + 1]];
      assert s[i..j - 1] == Padded(month, 2);
    } else {
      OneDigit(s[i]);
      assert s[i..j - 1] == [s[i]];
    }
  }

  /** What `%d` matched up to the end is the day's padded or short spelling. */
  lemma DaySpelled(s: string, j: nat, day: nat)
    requires MatchDay(s, j) == Some((day, |s|)) && 1 <= day <= 31
    ensures s[j..] == Padded(day, 2) || s[j..] == Short(day)
  {
    if |s| == j + 2 {
      assert day == DigitValue(s[j]) * 10 + DigitValue(s[j + 1]);
      TwoDigits(s[j], s[j + 1]);
      assert s[j..] == [s[j], s[j + 1]];
      assert s[j..] == Padded(day, 2);
    } else {
      OneDigit(s[j]);
      assert s[j..] == [s[j]];
    }
  }

  /** Two digits are the zero-padded spelling of their value. */
  lemma TwoDigits(hi: char, lo: char)
    requires IsDigit(hi) && IsDigit(lo)
    ensures Padded(DigitValue(hi) * 10 + DigitValue(lo), 2) == [hi, lo]
  {
    var n := DigitValue(hi) * 10 + DigitValue(lo);
    PaddedTwo(n);
    DivMod10(DigitValue(hi), DigitValue(lo));
    assert DigitChar(DigitValue(hi)) == hi && DigitChar(DigitValue(lo)) == lo;
  }

  /** A non-zero digit is the short spelling of its value. */
  lemma OneDigit(c: char)
    requires '1' <= c <= '9'
    ensures Short(DigitValue(c)) == [c]
  {
    assert DigitChar(DigitValue(c)) == c;
  }

  lemma DivMod10(q: nat, r: nat)
    requires r < 10
    ensures (q * 10 + r) / 10 == q && (q * 10 + r) % 10 == r
  {
  }

  lemma DateParts(s: string, j: nat)
    requires 5 < j <= |s| && s[4] == '-' && s[j - 1] == '-'
    ensures s == s[..4] + "-" + s[5..j - 1] + "-" + s[j..]
  {
  }

  /** A month spelling followed by '-' is matched by `%m-` whatever follows. */
  lemma MonthSpellingMatches(s: string, i: nat, m: string, month: nat)
    requires 1 <= month <= 12
    requires m == Padded(month, 2) || m == Short(month)
    requires i + |m| < |s| && s[i..i + |m|] == m && s[i + |m|] == '-'
    ensures MatchMonthDash(s, i) == Some((month, i + |m| + 1))
  {
    if |m| == 2 {
      SpelledTwo(month, m);
      var w := s[i..i + 2];
      assert s[i] == w[0] && s[i + 1] == w[1];
      MatchTwo(s, i);
    } else {
      SpelledOne(month, m);
      var w := s[i..i + 1];
      assert s[i] == w[0];
    }
  }

  /** A two-character spelling of `n` is its two digits. */
  lemma SpelledTwo(n: nat, m: string)
    requires 1 <= n < 100 && (m == Padded(n, 2) || m == Short(n)) && |m| == 2
    ensures IsDigit(m[0]) && IsDigit(m[1]) && n == DigitValue(m[0]) * 10 + DigitValue(m[1])
    ensures m[0] != '0' || m[1] != '0'
  {
    PaddedTwo(n);
    assert m == [DigitChar(n / 10), DigitChar(n % 10)];
  }

  /** A one-character spelling of `n` is its only digit, not zero. */
  lemma SpelledOne(n: nat, m: string)
    requires 1 <= n < 100 && (m == Padded(n, 2) || m == Short(n)) && |m| == 1
    ensures '1' <= m[0] <= '9' && n == DigitValue(m[0])
  {
    assert m == [DigitChar(n)];
  }

  /** Two digits worth 1 to 12 followed by '-' are matched by `%m-` in full. */
  lemma MatchTwo(s: string, i: nat)
    requires i + 2 < |s| && IsDigit(s[i]) && IsDigit(s[i + 1]) && s[i + 2] == '-'
    requires 1 <= DigitValue(s[i]) * 10 + DigitValue(s[i + 1]) <= 12
    ensures MatchMonthDash(s, i) == Some((DigitValue(s[i]) * 10 + DigitValue(s[i + 1]), i + 3))
  {
  }

  /** A day spelling that ends the string is matched by `%d` up to the end. */
  lemma DaySpellingMatches(s: string, j: nat, dd: string, day: nat)
    requires 1 <= day <= 31
    requires dd == Padded(day, 2) || dd == Short(day)
    requires j <= |s| && s[j..] == dd
    ensures MatchDay(s, j) == Some((day, |s|))
  {
    PaddedTwo(day);
    if |dd| == 2 {
      assert dd == [DigitChar(day / 10), DigitChar(day % 10)];
      assert s[j] == dd[0] && s[j + 1] == dd[1];
    } else {
      assert dd == [DigitChar(day)];
      assert s[j] == dd[0];
    }
  }

  lemma SpellingParses(d: Date, m: string, dd: string)
    requires IsValid(d)
    requires m == Padded(d.month, 2) || m == Short(d.month)
    requires dd == Padded(d.day, 2) || dd == Short(d.day)
    ensures ParseDate(Padded(d.year, 4) + "-" + m + "-" + dd) == Some(d)
  {
    var s := Padded(d.year, 4) + "-" + m + "-" + dd;
    var j := 6 + |m|;
    SpellingParts(Padded(d.year, 4), m, dd);
    MonthSpellingMatches(s, 5, m, d.month);
    DaySpellingMatches(s, j, dd, d.day);
  }

  lemma SpellingParts(y: string, m: string, dd: string)
    requires |y| == 4
    ensures var s := y + "-" + m + "-" + dd;
      && |s| == 6 + |m| + |dd| && s[..4] == y && s[4] == '-'
      && s[5..5 + |m|] == m && s[5 + |m|] == '-' && s[6 + |m|..] == dd
  {
    var s := y + "-" + m + "-" + dd;
    assert s[5..5 + |m|] == m;
  }

  /** The canonical spelling of every valid date parses back to that date. */
  lemma ParseFormat(d: Date)
    requires IsValid(d)
    ensures ParseDate(Format(d)) == Some(d)
  {
    SpellingParses(d, Padded(d.month, 2), Padded(d.day, 2));
  }

  // ---------------------------------------------------------------------------------------------
  // Order
  // ---------------------------------------------------------------------------------------------

  /** `a < b` on the parsed values: `datetime` compares (year, month, day) lexicographically. */
  predicate Before(a: Date, b: Date) {
    a.year < b.year
    || (a.year == b.year && a.month < b.month)
    || (a.year == b.year && a.month == b.month && a.day < b.day)
  }

  function DaysInYear(y: nat): nat {
    if IsLeapYear(y) then 366 else 365
  }

  /** Days in the months of year `y` before month `m`. */
  function DaysBeforeMonth(y: nat, m: nat): nat
    requires 1 <= m <= 13
  {
    if m == 1 then 0 else DaysBeforeMonth(y, m - 1) + DaysInMonth(y, m - 1)
  }

  /** Days in the years 1 .. y - 1. */
  function DaysBeforeYear(y: nat): nat
    requires y >= 1
  {
    if y == 1 then 0 else DaysBeforeYear(y - 1) + DaysInYear(y - 1)
  }

  /** The day number of a date, 0001-01-01 being day 1 (Python's `date.toordinal()`). */
  function Ordinal(d: Date): nat
    requires IsValid(d)
  {
    DaysBeforeYear(d.year) + DaysBeforeMonth(d.year, d.month) + d.day
  }

  lemma {:induction false} DaysBeforeMonthMonotone(y: nat, m: nat, n: nat)
    requires 1 <= m <= n <= 13
    ensures DaysBeforeMonth(y, m) + (if m < n then DaysInMonth(y, m) else 0) <= DaysBeforeMonth(y, n)
  {
    if m < n - 1 {
      DaysBeforeMonthMonotone(y, m, n - 1);
    }
  }

  lemma WholeYear(y: nat)
    ensures DaysBeforeMonth(y, 13) == DaysInYear(y)
  {
    assert DaysBeforeMonth(y, 2) == 31;
    assert DaysBeforeMonth(y, 3) == 31 + DaysInMonth(y, 2);
    assert DaysBeforeMonth(y, 4) == DaysBeforeMonth(y, 3) + 31;
    assert DaysBeforeMonth(y, 5) == DaysBeforeMonth(y, 4) + 30;
    assert DaysBeforeMonth(y, 6) == DaysBeforeMonth(y, 5) + 31;
    assert DaysBeforeMonth(y, 7) == DaysBeforeMonth(y, 6) + 30;
    assert DaysBeforeMonth(y, 8) == DaysBeforeMonth(y, 7) + 31;
    assert DaysBeforeMonth(y, 9) == DaysBeforeMonth(y, 8) + 31;
    assert DaysBeforeMonth(y, 10) == DaysBeforeMonth(y, 9) + 30;
    assert DaysBeforeMonth(y, 11) == DaysBeforeMonth(y, 10) + 31;
    assert DaysBeforeMonth(y, 12) == DaysBeforeMonth(y, 11) + 30;
  }

  lemma {:induction false} DaysBeforeYearMonotone(y: nat, z: nat)
    requires 1 <= y < z
    ensures DaysBeforeYear(y) + DaysInYear(y) <= DaysBeforeYear(z)
  {
    if y < z - 1 {
      DaysBeforeYearMonotone(y, z - 1);
    }
  }

  /** The lexicographic comparison agrees with counting days: `Before` is the order of the calendar. */
  lemma BeforeIffOrdinalLess(a: Date, b: Date)
    requires IsValid(a) && IsValid(b)
    ensures Before(a, b) <==> Ordinal(a) < Ordinal(b)
  {
    if a.year < b.year {
      DaysBeforeMonthMonotone(a.year, a.month, 13);
      WholeYear(a.year);
      DaysBeforeYearMonotone(a.year, b.year);
    } else if b.year < a.year {
      DaysBeforeMonthMonotone(b.year, b.month, 13);
      WholeYear(b.year);
      DaysBeforeYearMonotone(b.year, a.year);
    } else if a.month < b.month {
      DaysBeforeMonthMonotone(a.year, a.month, b.month);
    } else if b.month < a.month {
      DaysBeforeMonthMonotone(b.year, b.month, a.month);
    }
  }

  /** Two valid dates are equal, or one is strictly before the other. */
  lemma BeforeTrichotomy(a: Date, b: Date)
    requires IsValid(a) && IsValid(b)
    ensures a == b || Before(a, b) || Before(b, a)
    ensures !(Before(a, b) && Before(b, a))
  {
    BeforeIffOrdinalLess(a, b);
    BeforeIffOrdinalLess(b, a);
  }

  // ---------------------------------------------------------------------------------------------
  // strftime("%Y-%m-%dT%H:%M:%SZ")
  // ---------------------------------------------------------------------------------------------

  /** The issue time, every field zero-padded: always 20 characters, and its first ten are the date's canonical spelling. */
  function FormatUtc(t: DateTime): (s: string)
    requires IsValidDateTime(t)
    ensures |s| == 20 && s[10] == 'T' && s[13] == ':' && s[16] == ':' && s[19] == 'Z'
    ensures s[..10] == Format(t.date)
    ensures ParseDate(s[..10]) == Some(t.date)
    ensures s[11..13] == Padded(t.hour, 2) && AllDigits(s[11..13]) && DecimalValue(s[11..13]) == t.hour
    ensures s[14..16] == Padded(t.minute, 2) && AllDigits(s[14..16]) && DecimalValue(s[14..16]) == t.minute
    ensures s[17..19] == Padded(t.second, 2) && AllDigits(s[17..19]) && DecimalValue(s[17..19]) == t.second
  {
    ParseFormat(t.date);
    var s := Format(t.date) + "T" + Padded(t.hour, 2) + ":" + Padded(t.minute, 2) + ":" + Padded(t.second, 2) + "Z";
    UtcParts(Format(t.date), Padded(t.hour, 2), Padded(t.minute, 2), Padded(t.second, 2));
    s
  }

  /** Where the parts of the stamp sit in it. */
  lemma UtcParts(date: string, hh: string, mm: string, ss: string)
    requires |date| == 10 && |hh| == 2 && |mm| == 2 && |ss| == 2
    ensures var s := date + "T" + hh + ":" + mm + ":" + ss + "Z";
      && |s| == 20 && s[10] == 'T' && s[13] == ':' && s[16] == ':' && s[19] == 'Z'
      && s[..10] == date && s[11..13] == hh && s[14..16] == mm && s[17..19] == ss
  {
  }

  /**
   * The stamp is read back field by field: two valid times with the same
   * stamp are the same time, so the stamp loses nothing.
   */
  lemma FormatUtcInjective(t: DateTime, u: DateTime)
    requires IsValidDateTime(t) && IsValidDateTime(u)
    requires FormatUtc(t) == FormatUtc(u)
    ensures t == u
  {
    var s := FormatUtc(t);
    assert s[..10] == FormatUtc(u)[..10];
    assert ParseDate(s[..10]) == Some(t.date) && ParseDate(s[..10]) == Some(u.date);
    assert DecimalValue(s[11..13]) == t.hour == u.hour;
    assert DecimalValue(s[14..16]) == t.minute == u.minute;
    assert DecimalValue(s[17..19]) == t.second == u.second;
  }
}
