/**
 * The text field's date codec for the default pattern "yyyy-MM-dd", as
 * java.time formats and parses it: `yyyy` is the year of the era, zero-padded
 * to four digits and signed with '+' once it needs more; `MM` and `dd` are two
 * digits each. Parsing uses the formatter's default SMART resolver, which
 * accepts any day 1..31 and moves a day past the end of the month back to the
 * month's last day, so it is not strict.
 */
module DateText {
  import opened Calendar

  datatype Option<T> = None | Some(value: T)

  /** The default textFieldDatePattern; the codec below is this pattern's. */
  const TextFieldDatePattern: string := "yyyy-MM-dd"

  /** The largest year a LocalDate can hold. */
  const MaxYear: int := 999_999_999

  /** The most digits `yyyy` reads. */
  const MaxYearDigits: nat := 19

  predicate IsDigit(c: char)
  {
    '0' <= c <= '9'
  }

  predicate AllDigits(s: string)
  {
    forall i :: 0 <= i < |s| ==> IsDigit(s[i])
  }

  function DigitChar(n: int): (c: char)
    requires 0 <= n <= 9
    ensures IsDigit(c)
  {
    ('0' as int + n) as char
  }

  /** Decimal digits of n, most significant first, without leading zeros. */
  function Digits(n: nat): (s: string)
    ensures |s| >= 1 && AllDigits(s)
  {
    if n < 10 then [DigitChar(n)] else Digits(n / 10) + [DigitChar(n % 10)]
  }

  function Zeros(k: nat): (s: string)
    ensures |s| == k && AllDigits(s)
  {
    if k == 0 then [] else Zeros(k - 1) + ['0']
  }

  /** Digits of n, left-padded with zeros to at least `width` characters. */
  function Padded(n: nat, width: nat): (s: string)
    ensures AllDigits(s)
  {
    var d := Digits(n);
    if |d| < width then Zeros(width - |d|) + d else d
  }

  /** The number a string of digits spells. */
  function Value(s: string): nat
    requires AllDigits(s)
  {
    if s == [] then 0 else Value(s[..|s| - 1]) * 10 + (s[|s| - 1] as int - '0' as int)
  }

  function Pow10(k: nat): nat
  {
    if k == 0 then 1 else 10 * Pow10(k - 1)
  }

  function Min(a: int, b: int): int
  {
    if a < b then a else b
  }

  // ---------------------------------------------------------------------------
  // LocalDate.toDateString("yyyy-MM-dd", locale). No field of this pattern is
  // locale-sensitive and the formatter keeps the standard decimal digits, so
  // the locale does not enter.

  /** The year of the era: years 0, -1, .. are 1 BC, 2 BC, .. */
  function YearOfEra(year: int): (y: nat)
    ensures y >= 1
  {
    if year >= 1 then year else 1 - year
  }

  /** The year field: four digits, or '+' and all the digits once there are more. */
  function FormatYear(year: int): (s: string)
    ensures |s| >= 4
    ensures s[0] == '+' <==> YearOfEra(year) > 9999
    ensures |s| == 4 <==> YearOfEra(year) <= 9999
  {
    var y := YearOfEra(year);
    DigitsLength(y, 4);
    assert Pow10(4) == 10000;
    PaddedDigits(y, 4);
    if y > 9999 then "+" + Digits(y) else Padded(y, 4)
  }

  /** The text of the fields year, month and day, as the pattern prints them. */
  function FieldsText(year: int, month: nat, day: nat): string
  {
    FormatYear(year) + MonthDayText(month, day)
  }

  function MonthDayText(month: nat, day: nat): string
  {
    "-" + Padded(month, 2) + "-" + Padded(day, 2)
  }

  /**
   * toDateString with the text-field pattern. The text is as long as the
   * pattern exactly when the year of the era has at most four digits, and it
   * ends in '-', the two month digits, '-' and the two day digits.
   */
  function Format(d: Date): (s: string)
    requires ValidDate(d)
    ensures |s| >= |TextFieldDatePattern|
    ensures |s| == |TextFieldDatePattern| <==> YearOfEra(d.year) <= 9999
    ensures var t := s[|s| - 6..];
            MonthDayShape(t) && Value(t[1..3]) == d.month && Value(t[4..6]) == d.day
  {
    MonthDayTextShape(d.month, d.day);
    var s := FieldsText(d.year, d.month, d.day);
    assert s[|s| - 6..] == MonthDayText(d.month, d.day);
    s
  }

  // ---------------------------------------------------------------------------
  // LocalDate.parse(text, DateTimeFormatter.ofPattern("yyyy-MM-dd")), with
  // DateTimeParseException as None.

  /** The number of leading digits of s, at most `max`. */
  function DigitRun(s: string, max: nat): (n: nat)
    ensures n <= |s| && n <= max && AllDigits(s[..n])
    ensures n < |s| && n < max ==> !IsDigit(s[n])
  {
    if s == [] || max == 0 || !IsDigit(s[0]) then 0
    else
      var n := 1 + DigitRun(s[1..], max - 1);
      assert s[..n] == [s[0]] + s[1..][..n - 1];
      n
  }

  /**
   * The SMART resolver: a year in 1..MaxYear, a month in 1..12 and a day in
   * 1..31, the day reduced to the month's length.
   */
  function Resolve(year: int, month: int, day: int): (r: Option<Date>)
    ensures r.Some? ==> ValidDate(r.value) && 1 <= r.value.year <= MaxYear
    ensures r.Some? <==> 1 <= year <= MaxYear && 1 <= month <= 12 && 1 <= day <= 31
    ensures r.Some? && day <= MonthLength(year, month) ==> r.value == Date(year, month, day)
  {
    if year < 1 || year > MaxYear || month < 1 || month > 12 || day < 1 || day > 31 then None
    else Some(Date(year, month, Min(day, MonthLength(year, month))))
  }

  /** What follows the year digits: '-', two month digits, '-', two day digits, and nothing else. */
  predicate MonthDayShape(rest: string)
  {
    |rest| == 6 && rest[0] == '-' && rest[3] == '-' && AllDigits(rest[1..3]) && AllDigits(rest[4..6])
  }

  /**
   * Parse: exactly four year digits without a sign, or five to nineteen after
   * a '+', then the month and the day, resolved by Resolve. The year field is
   * parsed strictly: more than four digits need the sign, and the sign needs
   * more than four digits.
   */
  function Parse(text: string): (r: Option<Date>)
    ensures r.Some? ==> ValidDate(r.value) && 1 <= r.value.year <= MaxYear
  {
    if |text| > 0 && text[0] == '+' then ParseBody(true, text[1..]) else ParseBody(false, text)
  }

  /** The text after the optional '+': the year digits, then the month and the day. */
  function ParseBody(signed: bool, body: string): (r: Option<Date>)
    ensures r.Some? ==> ValidDate(r.value) && 1 <= r.value.year <= MaxYear
  {
    var n := DigitRun(body, MaxYearDigits);
    if (if signed then n <= 4 else n != 4) || !MonthDayShape(body[n..]) then None
    else Resolve(Value(body[..n]), Value(body[n..][1..3]), Value(body[n..][4..6]))
  }

  // ---------------------------------------------------------------------------
  // Digit lemmas.

  lemma {:induction false} ValueOfDigits(n: nat)
    ensures Value(Digits(n)) == n
  {
    if n >= 10 {
      ValueOfDigits(n / 10);
      var s := Digits(n);
      assert s[..|s| - 1] == Digits(n / 10);
    }
  }

  lemma {:induction false} ValueOfZerosPrefix(k: nat, s: string)
    requires AllDigits(s)
    ensures AllDigits(Zeros(k) + s) && Value(Zeros(k) + s) == Value(s)
  {
    if s == [] {
      assert Zeros(k) + s == Zeros(k);
      ValueOfZeros(k);
    } else {
      var t := Zeros(k) + s;
      assert t[..|t| - 1] == Zeros(k) + s[..|s| - 1];
      ValueOfZerosPrefix(k, s[..|s| - 1]);
    }
  }

  lemma {:induction false} ValueOfZeros(k: nat)
    ensures Value(Zeros(k)) == 0
  {
    if k > 0 {
      ValueOfZeros(k - 1);
      assert Zeros(k)[..k - 1] == Zeros(k - 1);
    }
  }

  /** The number of digits of n is at most k exactly when n < 10^k. */
  lemma {:induction false} DigitsLength(n: nat, k: nat)
    requires k >= 1
    ensures |Digits(n)| <= k <==> n < Pow10(k)
  {
    if n >= 10 {
      if k == 1 {
        assert Pow10(1) == 10;
      } else {
        DigitsLength(n / 10, k - 1);
      }
    } else {
      PowAtLeast10(k);
    }
  }

  lemma {:induction false} PowAtLeast10(k: nat)
    requires k >= 1
    ensures Pow10(k) >= 10
  {
    if k > 1 {
      PowAtLeast10(k - 1);
    }
  }

  lemma PaddedDigits(n: nat, width: nat)
    ensures Value(Padded(n, width)) == n
    ensures |Padded(n, width)| == if |Digits(n)| < width then width else |Digits(n)|
  {
    var d := Digits(n);
    ValueOfDigits(n);
    if |d| < width {
      assert Padded(n, width) == Zeros(width - |d|) + d;
      ValueOfZerosPrefix(width - |d|, d);
    } else {
      assert Padded(n, width) == d;
    }
  }

  lemma {:induction false} DigitRunOf(s: string, t: string, max: nat)
    requires AllDigits(s) && |s| <= max
    requires t == [] || !IsDigit(t[0])
    ensures DigitRun(s + t, max) == |s|
  {
    if s != [] {
      assert (s + t)[1..] == s[1..] + t;
      DigitRunOf(s[1..], t, max - 1);
    }
  }

  // ---------------------------------------------------------------------------
  // The codec's laws.

  /** Month and day printed by the pattern: '-', two month digits, '-', two day digits. */
  lemma MonthDayTextShape(month: nat, day: nat)
    requires month <= 99 && day <= 99
    ensures var t := MonthDayText(month, day);
            MonthDayShape(t) && Value(t[1..3]) == month && Value(t[4..6]) == day
  {
    PaddedTwo(month);
    PaddedTwo(day);
    var t := "-" + Padded(month, 2) + "-" + Padded(day, 2);
    assert t[1..3] == Padded(month, 2);
    assert t[4..6] == Padded(day, 2);
  }

  /** A number below 100 is printed as two digits that spell it. */
  lemma PaddedTwo(n: nat)
    requires n <= 99
    ensures |Padded(n, 2)| == 2 && Value(Padded(n, 2)) == n
  {
    PaddedDigits(n, 2);
    DigitsLength(n, 2);
    assert Pow10(2) == 100;
  }

  /** Parse reads an optional leading '+' as the sign of the year. */
  lemma ParseSigned(digits: string, t: string)
    ensures Parse("+" + digits + t) == ParseBody(true, digits + t)
  {
    var text := "+" + digits + t;
    assert text[0] == '+' && text[1..] == digits + t;
  }

  lemma ParseUnsigned(body: string)
    requires body == [] || body[0] != '+'
    ensures Parse(body) == ParseBody(false, body)
  {
  }

  /** Parse of year digits followed by a well-shaped month and day, after the sign. */
  lemma ParseBodyShaped(signed: bool, digits: string, t: string)
    requires AllDigits(digits) && |digits| <= MaxYearDigits && (if signed then |digits| > 4 else |digits| == 4)
    requires MonthDayShape(t)
    ensures ParseBody(signed, digits + t) == Resolve(Value(digits), Value(t[1..3]), Value(t[4..6]))
  {
    var body := digits + t;
    DigitRunOf(digits, t, MaxYearDigits);
    assert body[..|digits|] == digits;
    assert body[|digits|..] == t;
  }


  /** A year past 9999 prints as '+' and its digits, at most nineteen of them. */
  lemma LongYearText(year: int)
    requires 9999 < year <= MaxYear
    ensures 4 < |Digits(year)| <= MaxYearDigits && Value(Digits(year)) == year
    ensures FormatYear(year) == "+" + Digits(year)
  {
    DigitsLength(year, 4);
    DigitsLength(year, 9);
    assert Pow10(4) == 10000;
    assert Pow10(9) == 1_000_000_000;
    ValueOfDigits(year);
  }

  /** A year of 1..9999 prints as its digits, zero-padded to four. */
  lemma ShortYearText(year: int)
    requires 1 <= year <= 9999
    ensures |Padded(year, 4)| == 4 && Value(Padded(year, 4)) == year
    ensures FormatYear(year) == Padded(year, 4)
  {
    DigitsLength(year, 4);
    assert Pow10(4) == 10000;
    PaddedDigits(year, 4);
  }


  /**
   * Parsing the printed fields of a year in 1..MaxYear and a two-digit month
   * and day hands them to the resolver unchanged.
   */
  lemma ParseFieldsText(year: int, month: nat, day: nat)
    requires 1 <= year <= MaxYear && month <= 99 && day <= 99
    ensures Parse(FieldsText(year, month, day)) == Resolve(year, month, day)
  {
    var t := MonthDayText(month, day);
    MonthDayTextShape(month, day);
    if year > 9999 {
      ParseLongYear(year, t);
      assert FieldsText(year, month, day) == "+" + Digits(year) + t;
    } else {
      ParseShortYear(year, t);
      assert FieldsText(year, month, day) == Padded(year, 4) + t;
    }
  }

  /** A year past 9999 is read back after its '+'. */
  lemma ParseLongYear(year: int, t: string)
    requires 9999 < year <= MaxYear && MonthDayShape(t)
    ensures FormatYear(year) == "+" + Digits(year)
    ensures Parse("+" + Digits(year) + t) == Resolve(year, Value(t[1..3]), Value(t[4..6]))
  {
    LongYearText(year);
    var digits := Digits(year);
    ParseBodyShaped(true, digits, t);
    ParseSigned(digits, t);
  }

  /** A year of four digits is read back from its zero-padded digits. */
  lemma ParseShortYear(year: int, t: string)
    requires 1 <= year <= 9999 && MonthDayShape(t)
    ensures FormatYear(year) == Padded(year, 4)
    ensures Parse(Padded(year, 4) + t) == Resolve(year, Value(t[1..3]), Value(t[4..6]))
  {
    ShortYearText(year);
    var digits := Padded(year, 4);
    ParseBodyShaped(false, digits, t);
    assert (digits + t)[0] == digits[0];
    ParseUnsigned(digits + t);
  }

  /** Parsing a formatted date gives the date back, for every year from 1 to MaxYear. */
  lemma ParseFormat(d: Date)
    requires ValidDate(d) && 1 <= d.year <= MaxYear
    ensures Parse(Format(d)) == Some(d)
  {
    ParseFieldsText(d.year, d.month, d.day);
  }

  /**
   * The resolver is not strict: a day from the month's length up to 31 is
   * accepted and becomes the month's last day; day 0, day 32 and on, and
   * months outside 1..12 are refused.
   */
  lemma ParseResolvesDays(year: int, month: nat, day: nat)
    requires 1 <= year <= MaxYear && month <= 99 && day <= 99
    ensures 1 <= month <= 12 && MonthLength(year, month) < day <= 31 ==>
              Parse(FieldsText(year, month, day)) == Some(Date(year, month, MonthLength(year, month)))
    ensures (month < 1 || month > 12 || day < 1 || day > 31) ==> Parse(FieldsText(year, month, day)) == None
  {
    ParseFieldsText(year, month, day);
  }

  /** Years before year 1 format as their year of the era, so the era is lost. */
  lemma FormatLosesEra()
    ensures Format(Date(0, 1, 1)) == Format(Date(1, 1, 1))
    ensures Parse(Format(Date(0, 1, 1))) == Some(Date(1, 1, 1))
  {
    ParseFormat(Date(1, 1, 1));
  }

  lemma FormatExample()
    ensures Format(Date(2023, 7, 4)) == "2023-07-04"
    ensures Parse("2023-07-04") == Some(Date(2023, 7, 4))
  {
    TextOfJuly4();
    ParseFormat(Date(2023, 7, 4));
  }

  lemma ParseRejectsMonth13()
    ensures FieldsText(2023, 13, 1) == "2023-13-01"
    ensures Parse("2023-13-01") == None
  {
    TextOfMonth13();
    ParseResolvesDays(2023, 13, 1);
  }

  /** Text that is not a date at all, or a partly typed one, is refused. */
  lemma ParseRejectsMalformed()
    ensures Parse("not-a-date") == None
    ensures Parse("2023-1-0") == None
  {
    assert DigitRun("not-a-date", MaxYearDigits) == 0;
    var s := "2023-1-0";
    DigitRunOf("2023", "-1-0", MaxYearDigits);
    assert s == "2023" + "-1-0";
  }

  /** The number of leading digits is at least the length of a digit prefix, up to `max`. */
  lemma {:induction false} DigitRunPrefix(s: string, k: nat, max: nat)
    requires k <= |s| && AllDigits(s[..k])
    ensures DigitRun(s, max) >= Min(k, max)
  {
    if k > 0 && max > 0 {
      assert IsDigit(s[..k][0]);
      assert s[1..][..k - 1] == s[..k][1..];
      DigitRunPrefix(s[1..], k - 1, max - 1);
    }
  }

  /** A text that starts with five digits is refused: a year past four digits needs its '+'. */
  lemma ParseRefusesUnsignedLongYear(text: string)
    requires |text| >= 5 && AllDigits(text[..5])
    ensures Parse(text) == None
  {
    assert IsDigit(text[..5][0]);
    ParseUnsigned(text);
    DigitRunPrefix(text, 5, MaxYearDigits);
  }

  /** A '+' before a year of four digits or fewer is refused. */
  lemma ParseRefusesSignedShortYear(digits: string, t: string)
    requires AllDigits(digits) && |digits| <= 4 && MonthDayShape(t)
    ensures Parse("+" + digits + t) == None
  {
    ParseSigned(digits, t);
    DigitRunOf(digits, t, MaxYearDigits);
  }

  /** A zero-padded four-digit year is refused. */
  lemma ParseRefusesPaddedYear()
    ensures Parse("02023-01-01") == None
  {
    var text := "02023-01-01";
    assert text[..5] == "02023";
    ParseRefusesUnsignedLongYear(text);
  }

  /** A five-digit year without its '+' is refused. */
  lemma ParseRefusesUnsignedFiveDigitYear()
    ensures Parse("12345-01-01") == None
  {
    var text := "12345-01-01";
    assert text[..5] == "12345";
    ParseRefusesUnsignedLongYear(text);
  }

  lemma ParseClampsDay()
    ensures FieldsText(2023, 2, 30) == "2023-02-30"
    ensures Parse("2023-02-30") == Some(Date(2023, 2, 28))
  {
    TextOfFebruary30();
    ParseResolvesDays(2023, 2, 30);
  }

  // The printed texts of the example dates.

  lemma TextOfJuly4()
    ensures FieldsText(2023, 7, 4) == "2023-07-04"
  {
  }

  lemma TextOfMonth13()
    ensures FieldsText(2023, 13, 1) == "2023-13-01"
  {
  }

  lemma TextOfFebruary30()
    ensures FieldsText(2023, 2, 30) == "2023-02-30"
  {
  }
}
