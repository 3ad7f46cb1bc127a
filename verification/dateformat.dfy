/**
 * The birthday text format `%d.%m.%Y` as Python's `datetime.strptime`
 * reads it: the pattern is matched as a whole, the day and month fields
 * accept one or two digits (the day also a blank followed by one digit),
 * the year field exactly four digits, and the resulting date must exist.
 */
module DateFormat {
  import opened Wrappers
  import opened Calendar

  /** Decimal digits; Unicode digits beyond ASCII are not modelled. */
  predicate IsDigit(c: char) {
    '0' <= c <= '9'
  }

  function DigitValue(c: char): (v: int)
    requires IsDigit(c)
    ensures 0 <= v <= 9
  {
    c as int - '0' as int
  }

  /** The strings the `%d` field matches: `3[01]`, `[12]\d`, `0[1-9]`, `[1-9]` or a blank and `[1-9]`. */
  predicate DayToken(t: string) {
    || (|t| == 1 && '1' <= t[0] <= '9')
    || (|t| == 2 && t[0] == ' ' && '1' <= t[1] <= '9')
    || (|t| == 2 && t[0] == '0' && '1' <= t[1] <= '9')
    || (|t| == 2 && (t[0] == '1' || t[0] == '2') && IsDigit(t[1]))
    || (|t| == 2 && t[0] == '3' && (t[1] == '0' || t[1] == '1'))
  }

  /** The strings the `%m` field matches: `1[0-2]`, `0[1-9]` or `[1-9]`. */
  predicate MonthToken(t: string) {
    || (|t| == 1 && '1' <= t[0] <= '9')
    || (|t| == 2 && t[0] == '0' && '1' <= t[1] <= '9')
    || (|t| == 2 && t[0] == '1' && '0' <= t[1] <= '2')
  }

  /** The strings the `%Y` field matches: exactly four digits. */
  predicate YearToken(t: string) {
    |t| == 4 && IsDigit(t[0]) && IsDigit(t[1]) && IsDigit(t[2]) && IsDigit(t[3])
  }

  /** Python's `int` of a one- or two-character day or month field; a leading blank is ignored. */
  function SmallValue(t: string): (v: int)
    requires DayToken(t) || MonthToken(t)
    ensures 1 <= v <= 31
    ensures MonthToken(t) ==> v <= 12
  {
    if |t| == 1 then DigitValue(t[0])
    else if t[0] == ' ' then DigitValue(t[1])
    else 10 * DigitValue(t[0]) + DigitValue(t[1])
  }

  function YearValue(t: string): (v: int)
    requires YearToken(t)
    ensures 0 <= v <= MaxYear
  {
    1000 * DigitValue(t[0]) + 100 * DigitValue(t[1]) + 10 * DigitValue(t[2]) + DigitValue(t[3])
  }

  /** Position of the first `c` in `s`, or `|s|` when there is none. */
  function IndexOf(s: string, c: char): (i: nat)
    ensures i <= |s|
    ensures i < |s| ==> s[i] == c
    ensures forall k :: 0 <= k < i ==> s[k] != c
  {
    if |s| == 0 then 0
    else if s[0] == c then 0
    else 1 + IndexOf(s[1..], c)
  }

  /** The three field texts match their fields and denote the existing date `d`. */
  predicate FieldsDenote(dayText: string, monthText: string, yearText: string, d: Date) {
    && DayToken(dayText) && MonthToken(monthText) && YearToken(yearText)
    && d == Date(YearValue(yearText), SmallValue(monthText), SmallValue(dayText))
    && ValidDate(d)
  }

  /** Conversion of the three field texts once the pattern has split them. */
  function ParseFields(dayText: string, monthText: string, yearText: string): (r: Option<Date>)
    ensures r.Some? ==> FieldsDenote(dayText, monthText, yearText, r.value)
  {
    if DayToken(dayText) && MonthToken(monthText) && YearToken(yearText) then
      var d := Date(YearValue(yearText), SmallValue(monthText), SmallValue(dayText));
      if ValidDate(d) then Some(d) else None
    else None
  }

  /**
   * `strptime(s, "%d.%m.%Y")`: the date `s` denotes, or `None` where
   * Python raises `ValueError`. No field can contain a `.`, so the fields
   * are the texts before the first dot, between the first two dots and
   * after the second.
   */
  function Parse(s: string): (r: Option<Date>)
    ensures r.Some? ==> ValidDate(r.value)
  {
    var i := IndexOf(s, '.');
    if i == |s| then None
    else
      var rest := s[i + 1..];
      var j := IndexOf(rest, '.');
      if j == |rest| then None
      else ParseFields(s[..i], rest[..j], rest[j + 1..])
  }

  predicate SplitsAt(s: string, i: int, j: int) {
    0 <= i < j < |s| && s[i] == '.' && s[j] == '.'
  }

  /** `s` is a day field, a dot, a month field, a dot and a year field denoting `d`. */
  ghost predicate Matches(s: string, d: Date) {
    exists i, j :: SplitsAt(s, i, j) && FieldsDenote(s[..i], s[i + 1..j], s[j + 1..], d)
  }

  /** When the first two dots of `s` sit at `i` and `j`, parsing converts the three texts around them. */
  lemma ParseSplit(s: string, i: int, j: int)
    requires SplitsAt(s, i, j)
    requires forall k :: 0 <= k < j && k != i ==> s[k] != '.'
    ensures Parse(s) == ParseFields(s[..i], s[i + 1..j], s[j + 1..])
  {
    assert IndexOf(s, '.') == i;
    var rest := s[i + 1..];
    assert rest[j - i - 1] == '.';
    assert IndexOf(rest, '.') == j - i - 1;
    assert rest[..j - i - 1] == s[i + 1..j];
    assert rest[j - i..] == s[j + 1..];
  }

  /** A successful parse means `s` matches the pattern and denotes `d`. */
  lemma ParseSound(s: string, d: Date)
    requires Parse(s) == Some(d)
    ensures Matches(s, d)
  {
    var i := IndexOf(s, '.');
    var rest := s[i + 1..];
    var j := IndexOf(rest, '.');
    assert rest[..j] == s[i + 1..i + 1 + j];
    assert rest[j + 1..] == s[i + 1 + j + 1..];
    assert SplitsAt(s, i, i + 1 + j);
  }

  /** A string that matches the pattern and denotes an existing date parses to that date. */
  lemma ParseComplete(s: string, d: Date)
    requires Matches(s, d)
    ensures Parse(s) == Some(d)
  {
    var i, j :| SplitsAt(s, i, j) && FieldsDenote(s[..i], s[i + 1..j], s[j + 1..], d);
    assert forall k :: 0 <= k < i ==> s[k] == s[..i][k];
    assert forall k :: i < k < j ==> s[k] == s[i + 1..j][k - i - 1];
    ParseSplit(s, i, j);
  }

  /** Parsing succeeds with `d` exactly when `s` matches the pattern and denotes the existing date `d`. */
  lemma ParseMatches(s: string, d: Date)
    ensures Parse(s) == Some(d) <==> Matches(s, d)
  {
    if Parse(s) == Some(d) {
      ParseSound(s, d);
    }
    if Matches(s, d) {
      ParseComplete(s, d);
    }
  }

  // ---------------------------------------------------------------------------
  // Rendering a date back in its canonical zero-padded form
  // ---------------------------------------------------------------------------

  function Digit(n: int): (c: char)
    requires 0 <= n <= 9
    ensures IsDigit(c) && DigitValue(c) == n
  {
    ('0' as int + n) as char
  }

  /** `n` as exactly `width` decimal digits, zero-padded on the left. */
  function Padded(n: nat, width: nat): (s: string)
    ensures |s| == width
    ensures forall k :: 0 <= k < |s| ==> IsDigit(s[k])
    decreases width
  {
    if width == 0 then [] else Padded(n / 10, width - 1) + [Digit(n % 10)]
  }

  /** The zero-padded `DD.MM.YYYY` text of a date. */
  function Render(d: Date): string
    requires ValidDate(d)
  {
    Padded(d.day, 2) + "." + Padded(d.month, 2) + "." + Padded(d.year, 4)
  }

  lemma PaddedSmall(n: int)
    requires 1 <= n <= 31
    ensures DayToken(Padded(n, 2)) && SmallValue(Padded(n, 2)) == n
    ensures n <= 12 ==> MonthToken(Padded(n, 2))
  {
    var p := Padded(n, 2);
    assert p == [Digit(n / 10 % 10)] + [Digit(n % 10)];
  }

  lemma PaddedYear(n: int)
    requires 0 <= n <= MaxYear
    ensures YearToken(Padded(n, 4)) && YearValue(Padded(n, 4)) == n
  {
    var p := Padded(n, 4);
    assert p == [Digit(n / 1000 % 10), Digit(n / 100 % 10), Digit(n / 10 % 10), Digit(n % 10)];
  }

  /** Every existing date survives rendering and parsing unchanged. */
  lemma RenderParses(d: Date)
    requires ValidDate(d)
    ensures Parse(Render(d)) == Some(d)
  {
    var dd, mm, yy := Padded(d.day, 2), Padded(d.month, 2), Padded(d.year, 4);
    var s := Render(d);
    PaddedSmall(d.day);
    PaddedSmall(d.month);
    PaddedYear(d.year);
    assert s[..2] == dd && s[3..5] == mm && s[6..] == yy;
    ParseSplit(s, 2, 5);
  }

  /** 2023 is not a leap year, so 29 February 2023 is rejected. */
  lemma NonLeapDayRejected()
    ensures Parse("29.02.2023") == None
  {
    var a := "29.02.2023";
    ParseSplit(a, 2, 5);
    assert a[..2] == "29" && a[3..5] == "02" && a[6..] == "2023";
    assert SmallValue("29") == 29 && SmallValue("02") == 2;
    assert YearValue("2023") == 2023 && !IsLeap(2023);
  }

  /** 2024 is a leap year, so 29 February 2024 is accepted. */
  lemma LeapDayAccepted()
    ensures Parse("29.02.2024") == Some(Date(2024, 2, 29))
  {
    var b := "29.02.2024";
    ParseSplit(b, 2, 5);
    assert b[..2] == "29" && b[3..5] == "02" && b[6..] == "2024";
    assert SmallValue("29") == 29 && SmallValue("02") == 2;
    assert YearValue("2024") == 2024 && IsLeap(2024);
  }

  /** Day and month fields may drop their leading zero. */
  lemma ShortFieldsAccepted()
    ensures Parse("5.3.1990") == Some(Date(1990, 3, 5))
  {
    var a := "5.3.1990";
    assert a[0] == '5' && a[1] == '.' && a[2] == '3' && a[3] == '.';
    ParseSplit(a, 1, 3);
    assert a[..1] == "5" && a[2..3] == "3" && a[4..] == "1990";
    assert SmallValue("5") == 5 && SmallValue("3") == 3 && YearValue("1990") == 1990;
  }

  /** A day field may also be a blank followed by one digit. */
  lemma BlankDayAccepted()
    ensures Parse(" 5.3.1990") == Some(Date(1990, 3, 5))
  {
    var a := " 5.3.1990";
    assert a[0] == ' ' && a[1] == '5' && a[2] == '.' && a[3] == '3' && a[4] == '.';
    ParseSplit(a, 2, 4);
    assert a[..2] == " 5" && a[3..4] == "3" && a[5..] == "1990";
    assert SmallValue(" 5") == 5 && SmallValue("3") == 3 && YearValue("1990") == 1990;
  }

  /** Year 0 is outside Python's calendar, although its field matches. */
  lemma YearZeroRejected()
    ensures Parse("01.01.0000") == None
  {
    var b := "01.01.0000";
    ParseSplit(b, 2, 5);
    assert b[..2] == "01" && b[3..5] == "01" && b[6..] == "0000";
    assert YearValue("0000") == 0;
  }
}
