/**
 * The validation and formatting helpers of the intake records: dates in `MM/DD/YYYY`, nine-digit
 * zip codes and generated provider admission ids. Python's `re`, `datetime.strptime` and
 * `strftime` are written out for the one format the helpers use.
 */
module DataModels {
  import opened Wrappers
  import opened Strings

  datatype Date = Date(year: int, month: int, day: int)

  predicate IsLeapYear(year: int) {
    year % 4 == 0 && (year % 100 != 0 || year % 400 == 0)
  }

  function DaysInMonth(year: int, month: int): int
    requires 1 <= month <= 12
  {
    if month == 2 then (if IsLeapYear(year) then 29 else 28)
    else if month == 4 || month == 6 || month == 9 || month == 11 then 30
    else 31
  }

  /** What `datetime(year, month, day)` accepts: a year in 1..9999 and a day that exists in that month. */
  predicate IsCalendarDate(d: Date)
    ensures IsCalendarDate(d) ==> d.day <= 31
    ensures IsCalendarDate(d) && d.month == 2 ==> d.day <= 29 && (d.day == 29 ==> IsLeapYear(d.year))
  {
    1 <= d.year <= 9999 && 1 <= d.month <= 12 && 1 <= d.day <= DaysInMonth(d.year, d.month)
  }

  // ---------------------------------------------------------------------------------------------
  // DATE_PATTERN = ^([1-9]|0[1-9]|1[0-2])/([0-9]|0[1-9]|[12][0-9]|3[01])/\d{4}$

  /** The month group: `[1-9]`, `0[1-9]` or `1[0-2]` (also what strptime's `%m` takes). */
  predicate PatternMonth(t: string)
    ensures PatternMonth(t) ==> |t| >= 1 && AllDigits(t)
  {
    || (|t| == 1 && '1' <= t[0] <= '9')
    || (|t| == 2 && t[0] == '0' && '1' <= t[1] <= '9')
    || (|t| == 2 && t[0] == '1' && '0' <= t[1] <= '2')
  }

  /** The day group: `[0-9]`, `0[1-9]`, `[12][0-9]` or `3[01]` (a lone "0" included). */
  predicate PatternDay(t: string)
    ensures PatternDay(t) ==> |t| >= 1 && AllDigits(t)
  {
    || (|t| == 1 && IsDigit(t[0]))
    || (|t| == 2 && t[0] == '0' && '1' <= t[1] <= '9')
    || (|t| == 2 && (t[0] == '1' || t[0] == '2') && IsDigit(t[1]))
    || (|t| == 2 && t[0] == '3' && (t[1] == '0' || t[1] == '1'))
  }

  /** `\d{4}` (and strptime's `%Y`). */
  predicate FourDigits(t: string) {
    |t| == 4 && AllDigits(t)
  }

  /** The text `$` anchors against: `$` also matches just before one final newline. */
  function WithoutFinalNewline(s: string): (r: string)
    ensures r == s || s == r + "\n"
  {
    if s != [] && s[|s| - 1] == '\n' then s[..|s| - 1] else s
  }

  /** `re.match(DATE_PATTERN, s)` succeeds. No group can hold a '/', so the match is a three-way split. */
  predicate MatchesDatePattern(s: string)
    ensures MatchesDatePattern(s) ==> var t := WithoutFinalNewline(s);
      8 <= |t| <= 10 && IsDigit(t[0]) && IsDigit(t[|t| - 1])
  {
    var t := WithoutFinalNewline(s);
    var p := SplitOn(t, '/');
    DatePatternShape(t);
    |p| == 3 && PatternMonth(p[0]) && PatternDay(p[1]) && FourDigits(p[2])
  }

  /** `map(int, s.split('/'))` on a matching string, as (year, month, day). */
  function PatternDate(s: string): (d: Date)
    requires MatchesDatePattern(s)
    ensures 1 <= d.month <= 12 && 0 <= d.day <= 31 && 0 <= d.year <= 9999
  {
    var p := SplitOn(WithoutFinalNewline(s), '/');
    PatternFieldValues(p[0], p[1], p[2]);
    Date(DigitsValue(p[2]), DigitsValue(p[0]), DigitsValue(p[1]))
  }

  /**
   * `validate_date`: a blank string is valid; anything else must match DATE_PATTERN as written
   * (unstripped) and name a real calendar date.
   */
  predicate ValidateDate(s: string)
    ensures ValidateDate(s) && !IsBlank(s) ==> 8 <= |s| <= 11 && IsDigit(s[0])
  {
    Strip(s) == "" || (MatchesDatePattern(s) && IsCalendarDate(PatternDate(s)))
  }

  // ---------------------------------------------------------------------------------------------
  // datetime.strptime(s, "%m/%d/%Y") and strftime

  /** strptime's `%d`: `3[01]`, `[12]\d`, `0[1-9]`, `[1-9]` or a space-padded ` [1-9]`. */
  predicate StrptimeDay(t: string) {
    || (|t| == 1 && '1' <= t[0] <= '9')
    || (|t| == 2 && (t[0] == '0' || t[0] == ' ') && '1' <= t[1] <= '9')
    || (|t| == 2 && (t[0] == '1' || t[0] == '2') && IsDigit(t[1]))
    || (|t| == 2 && t[0] == '3' && (t[1] == '0' || t[1] == '1'))
  }

  function StrptimeDayValue(t: string): nat
    requires StrptimeDay(t)
  {
    if t[0] == ' ' then DigitValue(t[1]) else DigitsValue(t)
  }

  /** `datetime.strptime(s, "%m/%d/%Y")`: the whole of `s` must be consumed; None is a ValueError. */
  function ParseMonthDayYear(s: string): (r: Option<Date>)
    ensures r.Some? ==> IsCalendarDate(r.value)
  {
    var p := SplitOn(s, '/');
    if |p| == 3 && PatternMonth(p[0]) && StrptimeDay(p[1]) && FourDigits(p[2]) then
      var d := Date(DigitsValue(p[2]), DigitsValue(p[0]), StrptimeDayValue(p[1]));
      if IsCalendarDate(d) then Some(d) else None
    else None
  }

  /** `strftime("%m/%d/%Y")`: two-digit month and day, four-digit year. */
  function Canonical(d: Date): (r: string)
    requires IsCalendarDate(d)
    ensures |r| == 10
  {
    FixedDigits(d.month, 2) + "/" + FixedDigits(d.day, 2) + "/" + FixedDigits(d.year, 4)
  }

  /** `strftime("%y%m%d")`. */
  function YearMonthDay6(d: Date): (r: string)
    requires IsCalendarDate(d)
    ensures |r| == 6 && AllDigits(r)
  {
    FixedDigits(d.year % 100, 2) + FixedDigits(d.month, 2) + FixedDigits(d.day, 2)
  }

  /**
   * `format_date`: the stripped text parsed with `%m/%d/%Y` and re-emitted as `MM/DD/YYYY`;
   * "" for the empty string and for anything that does not parse. (The second attempt in the
   * source, with the directive `%-m`, is a bad directive and always fails, so it adds nothing.)
   */
  function FormatDate(s: string): (r: string)
    ensures r == "" || |r| == 10
  {
    if s == "" then ""
    else
      match ParseMonthDayYear(Strip(s))
      case Some(d) => Canonical(d)
      case None => ""
  }

  // ---------------------------------------------------------------------------------------------
  // Date lemmas

  lemma TwoDigits(n: nat)
    requires n < 100
    ensures FixedDigits(n, 2) == [DigitChar(n / 10), DigitChar(n % 10)]
  {
    var hi := n / 10;
    assert hi < 10 && hi / 10 == 0 && hi % 10 == hi;
    assert FixedDigits(hi, 1) == FixedDigits(0, 0) + [DigitChar(hi)];
    assert FixedDigits(n, 2) == FixedDigits(hi, 1) + [DigitChar(n % 10)];
  }

  /** What the three pattern groups matched is 8 to 10 characters that start and end with a digit. */
  lemma DatePatternShape(t: string)
    ensures var p := SplitOn(t, '/');
      |p| == 3 && PatternMonth(p[0]) && PatternDay(p[1]) && FourDigits(p[2]) ==>
      8 <= |t| <= 10 && IsDigit(t[0]) && IsDigit(t[|t| - 1])
  {
    var p := SplitOn(t, '/');
    if |p| == 3 && PatternMonth(p[0]) && PatternDay(p[1]) && FourDigits(p[2]) {
      JoinThree(t);
      assert t[0] == p[0][0];
      assert t[|t| - 1] == p[2][3];
    }
  }

  /** A two-character digit string has the value its tens and units digits give. */
  lemma TwoDigitValue(t: string)
    requires |t| == 2 && AllDigits(t)
    ensures DigitsValue(t) == DigitValue(t[0]) * 10 + DigitValue(t[1])
  {
    var hi := t[..1];
    assert hi[..0] == [] && hi[0] == t[0];
    assert DigitsValue(hi) == DigitValue(t[0]);
  }

  /** The month group is 1..12, the day group 0..31 and the year group at most 9999. */
  lemma PatternFieldValues(m: string, d: string, y: string)
    requires PatternMonth(m) && PatternDay(d) && FourDigits(y)
    ensures 1 <= DigitsValue(m) <= 12 && DigitsValue(d) <= 31 && DigitsValue(y) <= 9999
  {
    if |m| == 2 {
      TwoDigitValue(m);
    } else {
      assert m[..0] == [];
    }
    if |d| == 2 {
      TwoDigitValue(d);
    } else {
      assert d[..0] == [];
    }
    DigitsValueBound(y);
    assert Pow10(4) == 10000;
  }

  /** The strings a two-digit field of `Canonical` can take are accepted by every group they meet. */
  lemma CanonicalFields(d: Date)
    requires IsCalendarDate(d)
    ensures PatternMonth(FixedDigits(d.month, 2)) && DigitsValue(FixedDigits(d.month, 2)) == d.month
    ensures PatternDay(FixedDigits(d.day, 2)) && StrptimeDay(FixedDigits(d.day, 2))
    ensures DigitsValue(FixedDigits(d.day, 2)) == d.day && StrptimeDayValue(FixedDigits(d.day, 2)) == d.day
    ensures FourDigits(FixedDigits(d.year, 4)) && DigitsValue(FixedDigits(d.year, 4)) == d.year
  {
    TwoDigits(d.month);
    TwoDigits(d.day);
    assert Pow10(2) == 100 && Pow10(4) == 10000;
    FixedDigitsValue(d.month, 2);
    FixedDigitsValue(d.day, 2);
    FixedDigitsValue(d.year, 4);
  }

  lemma DigitsHaveNoSlash(t: string)
    requires AllDigits(t)
    ensures '/' !in t
  {
    assert forall k :: 0 <= k < |t| ==> t[k] != '/';
  }

  /** Three slash-free fields written with slashes split back into those fields. */
  lemma SlashedFields(m: string, d: string, y: string)
    requires '/' !in m && '/' !in d && '/' !in y
    ensures SplitOn(m + "/" + d + "/" + y, '/') == [m, d, y]
  {
    var parts := [m, d, y];
    assert parts[1..] == [d, y] && parts[1..][1..] == [y];
    assert JoinWith([y], "/") == y;
    assert JoinWith([d, y], "/") == d + "/" + y;
    assert JoinWith(parts, "/") == m + "/" + (d + "/" + y);
    assert forall i :: 0 <= i < |parts| ==> '/' !in parts[i];
    SplitOnJoin(parts, '/');
    assert m + "/" + d + "/" + y == m + "/" + (d + "/" + y);
  }

  /** `Canonical(d)` splits on '/' into its three fields. */
  lemma CanonicalSplit(d: Date)
    requires IsCalendarDate(d)
    ensures SplitOn(Canonical(d), '/') == [FixedDigits(d.month, 2), FixedDigits(d.day, 2), FixedDigits(d.year, 4)]
    ensures IsTrimmed(Canonical(d)) && WithoutFinalNewline(Canonical(d)) == Canonical(d)
  {
    var m, dd, y := FixedDigits(d.month, 2), FixedDigits(d.day, 2), FixedDigits(d.year, 4);
    DigitsHaveNoSlash(m);
    DigitsHaveNoSlash(dd);
    DigitsHaveNoSlash(y);
    SlashedFields(m, dd, y);
    var c := Canonical(d);
    assert c[0] == m[0] && IsDigit(c[0]);
    assert c[9] == y[3] && IsDigit(c[9]);
  }

  /** The canonical spelling of a real date is read back as that date by strptime and by DATE_PATTERN. */
  lemma CanonicalParses(d: Date)
    requires IsCalendarDate(d)
    ensures ParseMonthDayYear(Canonical(d)) == Some(d)
    ensures MatchesDatePattern(Canonical(d)) && PatternDate(Canonical(d)) == d
    ensures ValidateDate(Canonical(d))
  {
    CanonicalSplit(d);
    CanonicalFields(d);
  }

  /** `format_date` leaves a canonical date as it is. */
  lemma FormatDateCanonical(d: Date)
    requires IsCalendarDate(d)
    ensures FormatDate(Canonical(d)) == Canonical(d)
  {
    var c := Canonical(d);
    CanonicalSplit(d);
    StripTrimmed(c);
    assert Strip(c) == c && c != "";
    CanonicalParses(d);
    assert ParseMonthDayYear(Strip(c)) == Some(d);
  }

  /** A non-empty result of `format_date` is the canonical spelling of a real date. */
  lemma FormatDateIsCanonical(s: string)
    requires FormatDate(s) != ""
    ensures exists d :: IsCalendarDate(d) && FormatDate(s) == Canonical(d)
  {
    var d := ParseMonthDayYear(Strip(s)).value;
    assert FormatDate(s) == Canonical(d);
  }

  /** `format_date` is idempotent. */
  lemma FormatDateIdempotent(s: string)
    ensures FormatDate(FormatDate(s)) == FormatDate(s)
  {
    if FormatDate(s) != "" {
      var d := ParseMonthDayYear(Strip(s)).value;
      FormatDateCanonical(d);
    }
  }

  /** Every non-empty output of `format_date` passes `validate_date`. */
  lemma FormatDateValidates(s: string)
    ensures ValidateDate(FormatDate(s))
  {
    if FormatDate(s) != "" {
      var d := ParseMonthDayYear(Strip(s)).value;
      CanonicalParses(d);
    } else {
      assert Strip("") == "";
    }
  }

  lemma PatternDayIsStrptimeDay(t: string)
    requires PatternDay(t) && DigitsValue(t) >= 1
    ensures StrptimeDay(t) && StrptimeDayValue(t) == DigitsValue(t)
  {
    if |t| == 1 {
      assert DigitsValue(t) == DigitValue(t[0]);
    }
  }

  /** A string with exactly two slashes is its three fields joined by slashes. */
  lemma JoinThree(c: string)
    requires |SplitOn(c, '/')| == 3
    ensures c == SplitOn(c, '/')[0] + "/" + SplitOn(c, '/')[1] + "/" + SplitOn(c, '/')[2]
  {
    var p := SplitOn(c, '/');
    JoinSplitOn(c, '/');
    assert p[1..] == [p[1], p[2]] && p[1..][1..] == [p[2]];
    assert JoinWith(p[1..][1..], "/") == p[2];
    assert JoinWith(p[1..], "/") == p[1] + "/" + p[2];
  }

  /** What DATE_PATTERN matched has no surrounding whitespace once the final newline is dropped. */
  lemma MatchedDateTrimmed(s: string)
    requires MatchesDatePattern(s)
    ensures IsTrimmed(WithoutFinalNewline(s))
  {
    var c := WithoutFinalNewline(s);
    var p := SplitOn(c, '/');
    JoinThree(c);
    assert c[0] == p[0][0];
    assert c[|c| - 1] == p[2][3];
  }

  /**
   * A non-blank string `validate_date` accepts is also read by strptime once its final newline
   * is dropped, as the same date.
   */
  lemma ValidDateParses(s: string)
    requires Strip(s) != "" && ValidateDate(s)
    ensures ParseMonthDayYear(WithoutFinalNewline(s)) == Some(PatternDate(s))
    ensures IsTrimmed(WithoutFinalNewline(s))
  {
    var p := SplitOn(WithoutFinalNewline(s), '/');
    PatternDayIsStrptimeDay(p[1]);
    MatchedDateTrimmed(s);
  }

  /** `strip` of a string whose only surrounding whitespace is a final newline drops just that newline. */
  lemma StripFinalNewline(s: string)
    requires IsTrimmed(WithoutFinalNewline(s))
    ensures Strip(s) == WithoutFinalNewline(s)
  {
    var c := WithoutFinalNewline(s);
    if c == s {
      StripTrimmed(s);
    } else {
      assert IsBlank("") && IsBlank("\n");
      StripExact("", c, "\n");
      assert "" + c + "\n" == s;
    }
  }

  lemma FormatParsed(s: string, d: Date)
    requires s != "" && ParseMonthDayYear(Strip(s)) == Some(d)
    ensures FormatDate(s) == Canonical(d)
  {
  }

  /** A non-blank string that `validate_date` accepts formats to the canonical spelling of its date. */
  lemma ValidDateFormats(s: string)
    requires Strip(s) != "" && ValidateDate(s)
    ensures FormatDate(s) == Canonical(PatternDate(s))
  {
    ValidDateParses(s);
    StripFinalNewline(s);
    FormatParsed(s, PatternDate(s));
  }

  /** `validate_date` on month, day and year fields typed with slashes and no final newline. */
  lemma ValidateSlashed(m: string, d: string, y: string)
    requires '/' !in m && '/' !in d && '/' !in y
    requires y != [] && y[|y| - 1] != '\n'
    ensures Strip(m + "/" + d + "/" + y) != ""
    ensures ValidateDate(m + "/" + d + "/" + y) <==>
      PatternMonth(m) && PatternDay(d) && FourDigits(y) &&
      IsCalendarDate(Date(DigitsValue(y), DigitsValue(m), DigitsValue(d)))
  {
    var s := m + "/" + d + "/" + y;
    SlashedNotBlank(m, d, y);
    SlashedFields(m, d, y);
    assert WithoutFinalNewline(s) == s by { assert s[|s| - 1] == y[|y| - 1]; }
  }

  /** A string with a slash in it is not blank. */
  lemma SlashedNotBlank(m: string, d: string, y: string)
    ensures Strip(m + "/" + d + "/" + y) != ""
  {
    var s := m + "/" + d + "/" + y;
    assert s[|m|] == '/' && !IsSpace(s[|m|]);
  }

  /** The date a slashed string matching the pattern denotes is read from its three fields. */
  lemma SlashedPatternDate(m: string, d: string, y: string)
    requires '/' !in m && '/' !in d && '/' !in y
    requires y != [] && y[|y| - 1] != '\n'
    requires PatternMonth(m) && PatternDay(d) && FourDigits(y)
    ensures MatchesDatePattern(m + "/" + d + "/" + y)
    ensures PatternDate(m + "/" + d + "/" + y) == Date(DigitsValue(y), DigitsValue(m), DigitsValue(d))
  {
    var s := m + "/" + d + "/" + y;
    SlashedFields(m, d, y);
    assert s[|s| - 1] == y[|y| - 1];
    assert WithoutFinalNewline(s) == s;
  }

  lemma OneDigit(n: nat)
    requires 1 <= n <= 9
    ensures PatternMonth([DigitChar(n)]) && PatternDay([DigitChar(n)]) && StrptimeDay([DigitChar(n)])
    ensures DigitsValue([DigitChar(n)]) == n && '/' !in [DigitChar(n)]
  {
    var t := [DigitChar(n)];
    assert t[..0] == [];
  }

  lemma YearField(y: nat)
    requires 1 <= y <= 9999
    ensures FourDigits(FixedDigits(y, 4)) && DigitsValue(FixedDigits(y, 4)) == y
    ensures '/' !in FixedDigits(y, 4) && FixedDigits(y, 4)[3] != '\n'
  {
    assert Pow10(4) == 10000;
    FixedDigitsValue(y, 4);
    DigitsHaveNoSlash(FixedDigits(y, 4));
    assert IsDigit(FixedDigits(y, 4)[3]);
  }

  /** Blank input passes `validate_date`. */
  lemma BlankDateValid(s: string)
    requires IsBlank(s)
    ensures ValidateDate(s)
  {
  }

  /** A month and a day typed as single digits are accepted, with any four-digit year. */
  lemma SingleDigitFieldsValid(m: nat, d: nat, y: nat)
    requires 1 <= m <= 9 && 1 <= d <= 9 && 1 <= y <= 9999
    ensures ValidateDate([DigitChar(m)] + "/" + [DigitChar(d)] + "/" + FixedDigits(y, 4))
    ensures PatternDate([DigitChar(m)] + "/" + [DigitChar(d)] + "/" + FixedDigits(y, 4)) == Date(y, m, d)
  {
    var mt, dt, yt := [DigitChar(m)], [DigitChar(d)], FixedDigits(y, 4);
    OneDigit(m);
    OneDigit(d);
    YearField(y);
    assert IsCalendarDate(Date(y, m, d));
    ValidateSlashed(mt, dt, yt);
    SlashedPatternDate(mt, dt, yt);
  }

  /** `format_date` pads single-digit fields: `1/5/2020` becomes `01/05/2020`. */
  lemma SingleDigitFieldsFormat(m: nat, d: nat, y: nat)
    requires 1 <= m <= 9 && 1 <= d <= 9 && 1 <= y <= 9999
    ensures FormatDate([DigitChar(m)] + "/" + [DigitChar(d)] + "/" + FixedDigits(y, 4)) == Canonical(Date(y, m, d))
  {
    var s := [DigitChar(m)] + "/" + [DigitChar(d)] + "/" + FixedDigits(y, 4);
    SingleDigitFieldsValid(m, d, y);
    ValidDateFormats(s);
  }

  /** February 29 passes `validate_date` exactly in leap years. */
  lemma LeapDayValid(y: nat)
    requires 1 <= y <= 9999
    ensures ValidateDate("2" + "/" + "29" + "/" + FixedDigits(y, 4)) <==> IsLeapYear(y)
  {
    YearField(y);
    var m, t := "2", "29";
    assert t[..1] == m && m[..0] == [];
    assert DigitsValue(t) == 29 && DigitsValue(m) == 2;
    assert PatternMonth(m) && PatternDay(t);
    assert IsCalendarDate(Date(y, 2, 29)) <==> IsLeapYear(y);
    ValidateSlashed(m, t, FixedDigits(y, 4));
  }

  /** Month 13 is refused whatever the day and year. */
  lemma MonthThirteenRefused(d: string, y: string)
    requires '/' !in d && '/' !in y && y != [] && y[|y| - 1] != '\n'
    ensures !ValidateDate("13" + "/" + d + "/" + y)
  {
    var m := "13";
    assert m[0] == '1' && m[1] == '3' && |m| == 2;
    assert !PatternMonth(m);
    ValidateSlashed(m, d, y);
  }

  /** Day 32 is refused whatever the month and year. */
  lemma DayThirtyTwoRefused(m: string, y: string)
    requires '/' !in m && '/' !in y && y != [] && y[|y| - 1] != '\n'
    ensures !ValidateDate(m + "/" + "32" + "/" + y)
  {
    var d := "32";
    assert d[0] == '3' && d[1] == '2' && |d| == 2;
    assert !PatternDay(d);
    ValidateSlashed(m, d, y);
  }

  /** Text with no slash, such as the ISO spelling `2020-01-01`, is refused unless blank. */
  lemma NoSlashRefused(s: string)
    requires '/' !in s && !IsBlank(s)
    ensures !ValidateDate(s)
  {
    var c := WithoutFinalNewline(s);
    assert forall k :: 0 <= k < |c| ==> c[k] == s[k];
    assert '/' !in c;
    SplitOnJoin([c], '/');
  }

  // ---------------------------------------------------------------------------------------------
  // Zip codes

  /**
   * `validate_zip`: keeps the digits; five digits get "0000" appended, nine are kept, any other
   * count gives "".
   */
  function ValidateZip(s: string): (r: string)
    ensures r == "" || (|r| == 9 && AllDigits(r))
    ensures r != "" <==> (|KeepDigits(s)| == 5 || |KeepDigits(s)| == 9)
    ensures r != "" ==> r[..|KeepDigits(s)|] == KeepDigits(s) && r[|KeepDigits(s)|..] == Zeros(9 - |KeepDigits(s)|)
  {
    if s == "" then ""
    else
      var digits := KeepDigits(s);
      if |digits| == 5 then digits + "0000"
      else if |digits| == 9 then digits
      else ""
  }

  /** A zip code already in the nine-digit form is kept as it is. */
  lemma ValidateZipIdempotent(s: string)
    ensures ValidateZip(ValidateZip(s)) == ValidateZip(s)
  {
  }

  /** A ZIP+4 code `12345-6789` loses its hyphen and keeps its nine digits. */
  lemma ValidateZipPlusFour(zip: string, plus: string)
    requires |zip| == 5 && |plus| == 4 && AllDigits(zip) && AllDigits(plus)
    ensures ValidateZip(zip + "-" + plus) == zip + plus
  {
    var s := zip + "-" + plus;
    assert s == zip + ['-'] + plus;
    KeepDigitsDropsSeparator(zip, '-', plus);
    assert s != "";
  }

  /** A five-digit code gets the suffix "0000". */
  lemma ValidateZipFive(zip: string)
    requires |zip| == 5 && AllDigits(zip)
    ensures ValidateZip(zip) == zip + "0000"
  {
    assert zip != "";
  }

  // ---------------------------------------------------------------------------------------------
  // Admission ids

  /** `str(client_id)[-4:]`: the last four characters, or all of a shorter id. */
  function LastFour(s: string): (r: string)
    ensures |r| == if |s| < 4 then |s| else 4
    ensures r == s[|s| - |r|..]
  {
    if |s| <= 4 then s else s[|s| - 4..]
  }

  /** `(first_name[0] + last_name[0]).upper()` when both names are given, else "". */
  function Initials(firstName: string, lastName: string): (r: string)
    ensures r != "" <==> firstName != "" && lastName != ""
    ensures r != "" ==> r == [UpperChar(firstName[0]), UpperChar(lastName[0])]
  {
    if firstName != "" && lastName != "" then Upper([firstName[0], lastName[0]]) else ""
  }

  /**
   * The date part of an admission id: the admission date's `%y%m%d` when it validates and
   * strptime reads it, otherwise the current date's.
   */
  function AdmissionStamp(admissionDate: string, today: Date): (r: string)
    requires IsCalendarDate(today)
    ensures |r| == 6
  {
    if admissionDate != "" && ValidateDate(admissionDate) then
      match ParseMonthDayYear(admissionDate)
      case Some(d) => YearMonthDay6(d)
      case None => YearMonthDay6(today)
    else YearMonthDay6(today)
  }

  /** `s[:n]`. */
  function Truncate(s: string, n: nat): (r: string)
    ensures |r| == if |s| < n then |s| else n
    ensures r == s[..|r|]
  {
    if |s| > n then s[..n] else s
  }

  /**
   * `generate_admission_id`: "ADM", the last four characters of the client id, the initials and
   * the date part, cut to 15 characters. The current date is the parameter `today`; an absent
   * name or date is the empty string.
   */
  function GenerateAdmissionId(clientId: string, firstName: string, lastName: string,
                               admissionDate: string, today: Date): (r: string)
    requires IsCalendarDate(today)
    ensures 3 <= |r| <= 15 && r[..3] == "ADM"
    ensures r == "ADM" + LastFour(clientId) + Initials(firstName, lastName) + AdmissionStamp(admissionDate, today)
  {
    Truncate("ADM" + LastFour(clientId) + Initials(firstName, lastName) + AdmissionStamp(admissionDate, today), 15)
  }

  /** An admission date that validates (without a trailing newline) supplies the date part. */
  lemma AdmissionIdUsesAdmissionDate(clientId: string, firstName: string, lastName: string,
                                     admissionDate: string, today: Date)
    requires IsCalendarDate(today)
    requires Strip(admissionDate) != "" && ValidateDate(admissionDate)
    requires WithoutFinalNewline(admissionDate) == admissionDate
    ensures GenerateAdmissionId(clientId, firstName, lastName, admissionDate, today)
         == "ADM" + LastFour(clientId) + Initials(firstName, lastName) + YearMonthDay6(PatternDate(admissionDate))
  {
    ValidDateParses(admissionDate);
  }

  /** A date DATE_PATTERN matches still matches with a newline after it. */
  lemma NewlineStillValid(date: string)
    requires Strip(date) != "" && ValidateDate(date) && WithoutFinalNewline(date) == date
    ensures ValidateDate(date + "\n")
  {
    var s := date + "\n";
    assert WithoutFinalNewline(s) == date;
    assert !IsBlank(date);
    var k :| 0 <= k < |date| && !IsSpace(date[k]);
    assert s[k] == date[k];
    assert !IsBlank(s);
  }

  /** strptime refuses a date followed by a newline: the year field then holds five characters. */
  lemma NewlineRefusedByStrptime(date: string)
    requires MatchesDatePattern(date) && WithoutFinalNewline(date) == date
    ensures ParseMonthDayYear(date + "\n") == None
  {
    var p := SplitOn(date, '/');
    JoinThree(date);
    SlashedFields(p[0], p[1], p[2] + "\n");
    assert date + "\n" == p[0] + "/" + p[1] + "/" + (p[2] + "\n");
    assert (p[2] + "\n")[4] == '\n';
  }

  /**
   * `validate_date` accepts a date followed by a newline (`$` matches before it), but strptime
   * refuses the newline, so the id falls back to the current date there.
   */
  lemma AdmissionIdNewlineFallback(clientId: string, firstName: string, lastName: string,
                                   date: string, today: Date)
    requires IsCalendarDate(today)
    requires Strip(date) != "" && ValidateDate(date) && WithoutFinalNewline(date) == date
    ensures ValidateDate(date + "\n")
    ensures GenerateAdmissionId(clientId, firstName, lastName, date + "\n", today)
         == "ADM" + LastFour(clientId) + Initials(firstName, lastName) + YearMonthDay6(today)
  {
    NewlineStillValid(date);
    NewlineRefusedByStrptime(date);
  }
}
