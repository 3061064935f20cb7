/** Calendar dates and the three date formats the pipeline reads and the one it writes,
    following CPython's `datetime.strptime` / `strftime`:
    - `%Y-%m-%d`  the reload request date (`2025-02-10`),
    - `%m/%d/%Y`  the commodity exchange's trading date (`02/10/2025`),
    - `%d%b%Y`    the commodity exchange's expiry date (`28FEB2025`),
    - `%Y%m%d`    the compact date put into archive URLs and directory names (`20250210`).

    `strptime` turns each directive into a regular expression, matches it at the start of
    the input and then rejects any unconsumed tail. The directives used here match:
    `%Y` four digits; `%m` one of `1[0-2] | 0[1-9] | [1-9]`; `%d` one of
    `3[01] | [12]\d | 0[1-9] | [1-9] | " "[1-9]`; `%b` a month abbreviation, case-insensitively.
    Because a literal separator or a letter always follows `%m` and `%d` (or the input
    ends), a field is accepted exactly when its whole token is one of the alternatives. */
module Dates {
  import opened Basics

  datatype Date = Date(year: int, month: int, day: int)

  predicate IsLeapYear(y: int)
  {
    y % 4 == 0 && (y % 100 != 0 || y % 400 == 0)
  }

  function DaysInMonth(y: int, m: int): (n: int)
    requires 1 <= m <= 12
    ensures 28 <= n <= 31
  {
    if m == 2 then (if IsLeapYear(y) then 29 else 28)
    else if m == 4 || m == 6 || m == 9 || m == 11 then 30
    else 31
  }

  /** The dates Python's `datetime.date` can represent (years 1 to 9999). */
  predicate Valid(d: Date)
  {
    1 <= d.year <= 9999 && 1 <= d.month <= 12 && 1 <= d.day <= DaysInMonth(d.year, d.month)
  }

  /** `datetime(y, m, d)`: the date, or the `ValueError` it raises for a day the month lacks. */
  function Make(y: int, m: int, d: int): (r: Option<Date>)
    ensures r.Some? <==> Valid(Date(y, m, d))
    ensures r.Some? ==> r.value == Date(y, m, d)
  {
    if Valid(Date(y, m, d)) then Some(Date(y, m, d)) else None
  }

  predicate IsDigit(c: char)
  {
    '0' <= c <= '9'
  }

  function DigitValue(c: char): (n: nat)
    requires IsDigit(c)
    ensures n < 10
  {
    (c as int) - ('0' as int)
  }

  function Digit(n: nat): (c: char)
    requires n < 10
    ensures IsDigit(c) && DigitValue(c) == n
  {
    (('0' as int) + n) as char
  }

  predicate AllDigits(t: string)
  {
    forall i :: 0 <= i < |t| ==> IsDigit(t[i])
  }

  /** Position of the first `c` in `s`. */
  function IndexOf(s: string, c: char): (r: Option<nat>)
    ensures r.Some? ==> r.value < |s| && s[r.value] == c && c !in s[..r.value]
    ensures r.None? ==> c !in s
  {
    if |s| == 0 then None
    else if s[0] == c then Some(0)
    else match IndexOf(s[1..], c)
      case None => None
      case Some(k) =>
        assert s[..k + 1] == [s[0]] + s[1..][..k];
        Some(k + 1)
  }

  lemma IndexOfSplit(a: string, c: char, b: string)
    requires c !in a
    ensures IndexOf(a + [c] + b, c) == Some(|a|)
  {
    var s := a + [c] + b;
    assert s[|a|] == c;
    assert s[..|a|] == a;
  }

  /** `%Y`: exactly four ASCII digits. */
  function ParseYear(t: string): (r: Option<int>)
    ensures r.Some? ==> 0 <= r.value <= 9999
  {
    if |t| == 4 && AllDigits(t)
    then Some(1000 * DigitValue(t[0]) + 100 * DigitValue(t[1]) + 10 * DigitValue(t[2]) + DigitValue(t[3]))
    else None
  }

  /** `%m`: a token `1`..`9`, `01`..`09` or `10`..`12`. */
  function ParseMonthToken(t: string): (r: Option<int>)
    ensures r.Some? ==> 1 <= r.value <= 12
  {
    if |t| == 1 && '1' <= t[0] <= '9' then Some(DigitValue(t[0]))
    else if |t| == 2 && t[0] == '0' && '1' <= t[1] <= '9' then Some(DigitValue(t[1]))
    else if |t| == 2 && t[0] == '1' && '0' <= t[1] <= '2' then Some(10 + DigitValue(t[1]))
    else None
  }

  /** `%d`: a token `1`..`9`, ` 1`..` 9`, `01`..`09`, `10`..`29`, `30` or `31`. */
  function ParseDayToken(t: string): (r: Option<int>)
    ensures r.Some? ==> 1 <= r.value <= 31
  {
    if |t| == 1 && '1' <= t[0] <= '9' then Some(DigitValue(t[0]))
    else if |t| == 2 && (t[0] == ' ' || t[0] == '0') && '1' <= t[1] <= '9' then Some(DigitValue(t[1]))
    else if |t| == 2 && (t[0] == '1' || t[0] == '2') && IsDigit(t[1]) then Some(10 * DigitValue(t[0]) + DigitValue(t[1]))
    else if |t| == 2 && t[0] == '3' && (t[1] == '0' || t[1] == '1') then Some(30 + DigitValue(t[1]))
    else None
  }

  function Combine(y: Option<int>, m: Option<int>, d: Option<int>): (r: Option<Date>)
    ensures r.Some? ==> Valid(r.value)
  {
    if y.Some? && m.Some? && d.Some? then Make(y.value, m.value, d.value) else None
  }

  /** `datetime.strptime(s, '%Y-%m-%d')`; `None` stands for the `ValueError`. */
  function ParseIso(s: string): (r: Option<Date>)
    ensures r.Some? ==> Valid(r.value)
  {
    if |s| < 5 || s[4] != '-' then None
    else
      var rest := s[5..];
      match IndexOf(rest, '-')
      case None => None
      case Some(k) => Combine(ParseYear(s[..4]), ParseMonthToken(rest[..k]), ParseDayToken(rest[k + 1..]))
  }

  /** `datetime.strptime(s, '%m/%d/%Y')`. */
  function ParseMonthDayYear(s: string): (r: Option<Date>)
    ensures r.Some? ==> Valid(r.value)
  {
    match IndexOf(s, '/')
    case None => None
    case Some(k1) =>
      var rest := s[k1 + 1..];
      match IndexOf(rest, '/')
      case None => None
      case Some(k2) => Combine(ParseYear(rest[k2 + 1..]), ParseMonthToken(s[..k1]), ParseDayToken(rest[..k2]))
  }

  /** Month abbreviations of the C locale, as `%b` matches them (compared in lower case). */
  const MonthAbbreviations: seq<string> :=
    ["jan", "feb", "mar", "apr", "may", "jun", "jul", "aug", "sep", "oct", "nov", "dec"]

  function LowerAscii(c: char): char
  {
    if 'A' <= c <= 'Z' then (c as int + 32) as char else c
  }

  function UpperAscii(c: char): char
  {
    if 'a' <= c <= 'z' then (c as int - 32) as char else c
  }

  function Lower(t: string): (r: string)
    ensures |r| == |t|
  {
    seq(|t|, i requires 0 <= i < |t| => LowerAscii(t[i]))
  }

  function Upper(t: string): (r: string)
    ensures |r| == |t|
  {
    seq(|t|, i requires 0 <= i < |t| => UpperAscii(t[i]))
  }

  /** `%b`: the month whose abbreviation equals `t` ignoring case. */
  function ParseMonthName(t: string): (r: Option<int>)
    ensures r.Some? ==> 1 <= r.value <= 12 && Lower(t) == MonthAbbreviations[r.value - 1]
    ensures r.None? ==> forall i :: 0 <= i < 12 ==> Lower(t) != MonthAbbreviations[i]
  {
    FindMonth(Lower(t), 0)
  }

  function FindMonth(lt: string, i: nat): (r: Option<int>)
    requires i <= 12
    ensures r.Some? ==> i < r.value <= 12 && lt == MonthAbbreviations[r.value - 1]
    ensures r.None? ==> forall j :: i <= j < 12 ==> lt != MonthAbbreviations[j]
    decreases 12 - i
  {
    if i == 12 then None
    else if lt == MonthAbbreviations[i] then Some(i + 1)
    else FindMonth(lt, i + 1)
  }

  /** Length of the longest prefix of `s` made of digits and spaces: the `%d` token when
      `%b` follows, since a month abbreviation starts with a letter. */
  function DayPrefixLength(s: string): (n: nat)
    ensures n <= |s|
    ensures forall i :: 0 <= i < n ==> IsDigit(s[i]) || s[i] == ' '
    ensures n < |s| ==> !IsDigit(s[n]) && s[n] != ' '
  {
    if |s| > 0 && (IsDigit(s[0]) || s[0] == ' ') then 1 + DayPrefixLength(s[1..]) else 0
  }

  /** `datetime.strptime(s, '%d%b%Y')`. */
  function ParseDayMonthNameYear(s: string): (r: Option<Date>)
    ensures r.Some? ==> Valid(r.value)
  {
    var k := DayPrefixLength(s);
    if |s| < k + 3 then None
    else Combine(ParseYear(s[k + 3..]), ParseMonthName(s[k..k + 3]), ParseDayToken(s[..k]))
  }

  /** Zero-padded decimal renderings, as `%Y` (four digits) and `%m`/`%d` (two digits) print. */
  function Pad2(n: int): (t: string)
    requires 0 <= n <= 99
    ensures |t| == 2 && AllDigits(t)
  {
    [Digit(n / 10), Digit(n % 10)]
  }

  function Pad4(n: int): (t: string)
    requires 0 <= n <= 9999
    ensures |t| == 4 && AllDigits(t)
  {
    [Digit(n / 10 / 10 / 10), Digit(n / 10 / 10 % 10), Digit(n / 10 % 10), Digit(n % 10)]
  }

  /** `d.strftime('%Y%m%d')`. */
  function FormatCompact(d: Date): (t: string)
    requires Valid(d)
    ensures |t| == 8 && AllDigits(t)
  {
    Pad4(d.year) + Pad2(d.month) + Pad2(d.day)
  }

  /** `d.strftime('%Y-%m-%d')`, the canonical request form. */
  function FormatIso(d: Date): (t: string)
    requires Valid(d)
    ensures |t| == 10
  {
    Pad4(d.year) + "-" + Pad2(d.month) + "-" + Pad2(d.day)
  }

  /** The canonical request shape: `DDDD-DD-DD` with ASCII digits. */
  predicate IsCanonicalIso(s: string)
  {
    |s| == 10 && s[4] == '-' && s[7] == '-' && AllDigits(s[..4]) && AllDigits(s[5..7]) && AllDigits(s[8..])
  }

  lemma Pad2Value(n: int)
    requires 0 <= n <= 99
    ensures 10 * DigitValue(Pad2(n)[0]) + DigitValue(Pad2(n)[1]) == n
  {
  }

  lemma Pad4Value(n: int)
    requires 0 <= n <= 9999
    ensures ParseYear(Pad4(n)) == Some(n)
  {
    var t := Pad4(n);
    var q1 := n / 10;
    var q2 := q1 / 10;
    var q3 := q2 / 10;
    assert n == 10 * q1 + n % 10;
    assert q1 == 10 * q2 + q1 % 10;
    assert q2 == 10 * q3 + q2 % 10;
    assert DigitValue(t[0]) == q3 && DigitValue(t[1]) == q2 % 10;
    assert DigitValue(t[2]) == q1 % 10 && DigitValue(t[3]) == n % 10;
  }

  lemma Pad2Month(m: int)
    requires 1 <= m <= 12
    ensures ParseMonthToken(Pad2(m)) == Some(m)
  {
    Pad2Value(m);
  }

  lemma Pad2Day(d: int)
    requires 1 <= d <= 31
    ensures ParseDayToken(Pad2(d)) == Some(d)
  {
    Pad2Value(d);
  }

  /** Formatting a date in the request format and parsing it back gives the same date. */
  lemma IsoRoundTrip(d: Date)
    requires Valid(d)
    ensures ParseIso(FormatIso(d)) == Some(d)
  {
    var s := FormatIso(d);
    var rest := s[5..];
    assert rest == Pad2(d.month) + ['-'] + Pad2(d.day);
    IndexOfSplit(Pad2(d.month), '-', Pad2(d.day));
    assert s[..4] == Pad4(d.year);
    Pad4Value(d.year);
    Pad2Month(d.month);
    Pad2Day(d.day);
  }

  /** Four digits are the `%Y` rendering of the year they denote. */
  lemma Pad4OfDigits(t: string)
    requires |t| == 4 && AllDigits(t)
    ensures ParseYear(t).Some? && Pad4(ParseYear(t).value) == t
  {
    var v := ParseYear(t).value;
    var a, b, c, e := DigitValue(t[0]), DigitValue(t[1]), DigitValue(t[2]), DigitValue(t[3]);
    var x := 100 * a + 10 * b + c;
    var z := 10 * a + b;
    assert v == 10 * x + e;
    assert v / 10 == x && v % 10 == e;
    assert x == 10 * z + c;
    assert x / 10 == z && x % 10 == c;
    assert z / 10 == a && z % 10 == b;
    assert Digit(a) == t[0] && Digit(b) == t[1] && Digit(c) == t[2] && Digit(e) == t[3];
  }

  /** Two digits are the zero-padded rendering of the number they denote. */
  lemma Pad2OfDigits(t: string)
    requires |t| == 2 && AllDigits(t)
    ensures var v := 10 * DigitValue(t[0]) + DigitValue(t[1]); Pad2(v) == t
  {
    var a, b := DigitValue(t[0]), DigitValue(t[1]);
    assert (10 * a + b) / 10 == a && (10 * a + b) % 10 == b;
    assert Digit(a) == t[0] && Digit(b) == t[1];
  }

  lemma CanonicalIsoPrintsBack(s: string, d: Date)
    requires IsCanonicalIso(s) && ParseIso(s) == Some(d)
    ensures FormatIso(d) == s
  {
    var y, mt, dt := s[..4], s[5..7], s[8..];
    assert s[5..] == mt + ['-'] + dt;
    IndexOfSplit(mt, '-', dt);
    assert ParseYear(y) == Some(d.year);
    assert ParseMonthToken(mt) == Some(d.month);
    assert ParseDayToken(dt) == Some(d.day);
    Pad4OfDigits(y);
    Pad2OfDigits(mt);
    Pad2OfDigits(dt);
    assert s == y + [s[4]] + mt + [s[7]] + dt;
  }

  /** A request date that parses is printed back unchanged exactly when it was written in
      the canonical `YYYY-MM-DD` shape; other accepted spellings (`2025-2-5`, `2025-02- 5`)
      are normalised. */
  lemma IsoCanonical(s: string, d: Date)
    requires ParseIso(s) == Some(d)
    ensures FormatIso(d) == s <==> IsCanonicalIso(s)
  {
    if IsCanonicalIso(s) {
      CanonicalIsoPrintsBack(s, d);
    }
    if FormatIso(d) == s {
      assert s[..4] == Pad4(d.year) && s[5..7] == Pad2(d.month) && s[8..] == Pad2(d.day);
    }
  }

  /** The compact form is the canonical request form with its two dashes removed. */
  lemma CompactIsIsoWithoutDashes(d: Date)
    requires Valid(d)
    ensures var iso := FormatIso(d); FormatCompact(d) == iso[..4] + iso[5..7] + iso[8..]
  {
  }

  /** Distinct dates have distinct compact forms, so a per-date name built from it never
      collides with another date's. */
  lemma CompactInjective(a: Date, b: Date)
    requires Valid(a) && Valid(b) && FormatCompact(a) == FormatCompact(b)
    ensures a == b
  {
    var t := FormatCompact(a);
    assert t[..4] == Pad4(a.year) == Pad4(b.year);
    Pad4Value(a.year);
    Pad4Value(b.year);
    assert t[4..6] == Pad2(a.month) == Pad2(b.month);
    Pad2Value(a.month);
    Pad2Value(b.month);
    assert t[6..] == Pad2(a.day) == Pad2(b.day);
    Pad2Value(a.day);
    Pad2Value(b.day);
  }

  /** The commodity exchange's `MM/DD/YYYY` trading date parses back to the date. */
  lemma MonthDayYearRoundTrip(d: Date)
    requires Valid(d)
    ensures ParseMonthDayYear(Pad2(d.month) + "/" + Pad2(d.day) + "/" + Pad4(d.year)) == Some(d)
  {
    var s := Pad2(d.month) + "/" + Pad2(d.day) + "/" + Pad4(d.year);
    assert s == Pad2(d.month) + ['/'] + (Pad2(d.day) + "/" + Pad4(d.year));
    IndexOfSplit(Pad2(d.month), '/', Pad2(d.day) + "/" + Pad4(d.year));
    var rest := s[3..];
    assert rest == Pad2(d.day) + ['/'] + Pad4(d.year);
    IndexOfSplit(Pad2(d.day), '/', Pad4(d.year));
    assert s[..2] == Pad2(d.month);
    assert rest[..2] == Pad2(d.day) && rest[3..] == Pad4(d.year);
    Pad4Value(d.year);
    Pad2Month(d.month);
    Pad2Day(d.day);
  }

  predicate AllLowerLetters(t: string)
  {
    forall i :: 0 <= i < |t| ==> 'a' <= t[i] <= 'z'
  }

  lemma LowerUpper(t: string)
    requires AllLowerLetters(t)
    ensures Lower(Upper(t)) == t
  {
  }

  lemma AbbreviationsDistinct(i: int, j: int)
    requires 0 <= i < 12 && 0 <= j < 12 && MonthAbbreviations[i] == MonthAbbreviations[j]
    ensures i == j
  {
    var a := MonthAbbreviations;
    assert a[i][0] == a[j][0] && a[i][1] == a[j][1] && a[i][2] == a[j][2];
  }

  /** `%b` reads the upper-case abbreviation of every month as that month. */
  lemma MonthNameRoundTrip(m: int)
    requires 1 <= m <= 12
    ensures ParseMonthName(Upper(MonthAbbreviations[m - 1])) == Some(m)
  {
    var abbr := MonthAbbreviations[m - 1];
    assert AllLowerLetters(abbr);
    LowerUpper(abbr);
    var r := ParseMonthName(Upper(abbr));
    if r.Some? {
      AbbreviationsDistinct(r.value - 1, m - 1);
    }
  }

  /** The commodity exchange's `DDMONYYYY` expiry date (upper-case month) parses back. */
  lemma DayMonthNameYearRoundTrip(d: Date)
    requires Valid(d)
    ensures ParseDayMonthNameYear(Pad2(d.day) + Upper(MonthAbbreviations[d.month - 1]) + Pad4(d.year)) == Some(d)
  {
    var abbr := MonthAbbreviations[d.month - 1];
    var name := Upper(abbr);
    var s := Pad2(d.day) + name + Pad4(d.year);
    assert s[..2] == Pad2(d.day);
    assert s[2..5] == name;
    assert s[5..] == Pad4(d.year);
    assert !IsDigit(s[2]) && s[2] != ' ' by {
      assert s[2] == name[0] == UpperAscii(abbr[0]);
      assert 'a' <= abbr[0] <= 'z';
    }
    assert DayPrefixLength(s) == 2 by {
      assert DayPrefixLength(s) == 1 + DayPrefixLength(s[1..]);
      assert s[1..][0] == s[1];
      assert DayPrefixLength(s[1..]) == 1 + DayPrefixLength(s[1..][1..]);
      assert s[1..][1..][0] == s[2];
    }
    MonthNameRoundTrip(d.month);
    Pad4Value(d.year);
    Pad2Day(d.day);
  }
}
