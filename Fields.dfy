/**
 * The validated field values of a contact: Name, Phone and Birthday
 * (main.py, classes Field, Name, Phone and Birthday). Each is a value type;
 * constructing one either yields the value or the ValueError the Python
 * constructor raises.
 */
module Fields {
  import opened Results
  import opened Calendar

  const NAME_EMPTY := "Name cannot be empty"
  const INVALID_PHONE := "Invalid phone number"
  const INVALID_DATE := "Invalid date format. Use DD.MM.YYYY"

  /** A contact's name; never empty once constructed. */
  datatype Name = Name(value: string)

  /**
   * A phone number. Python's `Phone.__eq__` compares the stored strings,
   * which is exactly this datatype's structural equality.
   */
  datatype Phone = Phone(value: string)

  // ---------------------------------------------------------------- Name

  /** `Name(value)`: raises ValueError exactly on the empty string. */
  function NewName(s: string): (r: Result<Name>)
    ensures r.Ok? <==> |s| != 0
    ensures r.Ok? ==> r.value.value == s
    ensures r.Err? ==> r.error == ValueError(NAME_EMPTY)
  {
    if |s| != 0 then Ok(Name(s)) else Err(ValueError(NAME_EMPTY))
  }

  // ---------------------------------------------------------------- digits

  predicate IsDigit(c: char) {
    '0' <= c <= '9'
  }

  predicate AllDigits(s: string) {
    forall i :: 0 <= i < |s| ==> IsDigit(s[i])
  }

  function DigitValue(c: char): int
    requires IsDigit(c)
  {
    (c - '0') as int
  }

  function DigitChar(n: int): char
    requires 0 <= n < 10
  {
    ('0' as int + n) as char
  }

  /** The decimal number a string of digits spells, as `int()` reads it. */
  function DigitsValue(s: string): nat
    requires AllDigits(s)
  {
    if s == [] then 0 else DigitsValue(s[..|s| - 1]) * 10 + DigitValue(s[|s| - 1])
  }

  // ---------------------------------------------------------------- Phone

  /** A phone number is exactly ten ASCII digits. */
  predicate IsPhoneNumber(s: string) {
    |s| == 10 && AllDigits(s)
  }

  /**
   * `re.match(r"^\d+$", s)`: a run of at least one digit from the start,
   * after which `$` matches either at the end of the string or just before
   * a newline that ends it.
   */
  predicate MatchesDigitsToEnd(s: string) {
    exists k :: 1 <= k <= |s| && DigitRun(s, k) && (k == |s| || (k == |s| - 1 && s[k] == '\n'))
  }

  /** `\d+` consumes the first `k` characters of `s`. */
  predicate DigitRun(s: string, k: int)
    requires 0 <= k <= |s|
  {
    AllDigits(s[..k])
  }

  /** `Phone.validate_number` as written: `len(number) == 10 and re.match(r"^\d+$", number)`. */
  predicate ValidateNumberAsWritten(s: string) {
    |s| == 10 && MatchesDigitsToEnd(s)
  }

  /** The check as written accepts a string that is not ten digits. */
  lemma TrailingNewlineAccepted()
    ensures ValidateNumberAsWritten("012345678\n")
    ensures !IsPhoneNumber("012345678\n")
  {
    var s := "012345678\n";
    assert !IsDigit(s[9]);
    assert forall i :: 0 <= i < 9 ==> IsDigit(s[..9][i]);
    assert DigitRun(s, 9) && s[9] == '\n';
  }

  /**
   * What `re.match(r"^\d+$", s)` accepts, for strings of any length: a
   * non-empty run of digits, optionally followed by one final newline.
   */
  lemma {:induction false} DigitsToEndForms(s: string)
    ensures MatchesDigitsToEnd(s) <==>
      (|s| >= 1 && AllDigits(s)) || (|s| >= 2 && AllDigits(s[..|s| - 1]) && s[|s| - 1] == '\n')
  {
    if MatchesDigitsToEnd(s) {
      var k :| 1 <= k <= |s| && DigitRun(s, k) && (k == |s| || (k == |s| - 1 && s[k] == '\n'));
      if k == |s| {
        assert s[..k] == s;
      }
    }
    if |s| >= 1 && AllDigits(s) {
      assert s[..|s|] == s;
      assert DigitRun(s, |s|);
    }
    if |s| >= 2 && AllDigits(s[..|s| - 1]) && s[|s| - 1] == '\n' {
      assert DigitRun(s, |s| - 1);
    }
  }

  /** Apart from that trailing newline, the check as written is the intended one. */
  lemma ValidateNumberAsWrittenDiffers(s: string)
    ensures ValidateNumberAsWritten(s) <==> IsPhoneNumber(s) || (|s| == 10 && AllDigits(s[..9]) && s[9] == '\n')
  {
    DigitsToEndForms(s);
  }

  /** `Phone(number)`: succeeds exactly on ten ASCII digits, else raises ValueError. */
  function NewPhone(s: string): (r: Result<Phone>)
    ensures r.Ok? <==> |s| == 10 && forall i :: 0 <= i < |s| ==> '0' <= s[i] <= '9'
    ensures r.Ok? ==> r.value == Phone(s)
    ensures r.Err? ==> r.error == ValueError(INVALID_PHONE)
  {
    if IsPhoneNumber(s) then Ok(Phone(s)) else Err(ValueError(INVALID_PHONE))
  }

  // ---------------------------------------------------------------- Birthday

  /** The three fields of a date string, before they are read as numbers. */
  datatype DateText = DateText(day: string, month: string, year: string)

  /**
   * Lines `s` up with the pattern `%d.%m.%Y`: one or two characters, a dot,
   * one or two characters, a dot, and four characters to the end.
   */
  function SplitDate(s: string): (r: Option<DateText>)
    ensures r.Some? ==> s == r.value.day + "." + r.value.month + "." + r.value.year
    ensures r.Some? ==> 1 <= |r.value.day| <= 2 && 1 <= |r.value.month| <= 2 && |r.value.year| == 4
  {
    var dayLen := if |s| >= 2 && s[1] == '.' then 1 else 2;
    if |s| < dayLen + 1 || s[dayLen] != '.' then None
    else
      var rest := s[dayLen + 1..];
      var monthLen := if |rest| >= 2 && rest[1] == '.' then 1 else 2;
      if |rest| != monthLen + 5 || rest[monthLen] != '.' then None
      else
        assert rest == rest[..monthLen] + [rest[monthLen]] + rest[monthLen + 1..];
        assert s == s[..dayLen] + [s[dayLen]] + rest;
        Some(DateText(s[..dayLen], rest[..monthLen], rest[monthLen + 1..]))
  }

  /**
   * `datetime.strptime(value, '%d.%m.%Y').date()`: a day of one or two
   * digits, a dot, a month of one or two digits, a dot and a year of
   * exactly four digits, naming a valid calendar date. Any failure becomes
   * the ValueError that `Birthday.__init__` raises.
   */
  function ParseBirthday(s: string): (r: Result<Date>)
    ensures r.Ok? ==> IsValid(r.value)
    ensures r.Err? ==> r.error == ValueError(INVALID_DATE)
  {
    match SplitDate(s)
    case None => Err(ValueError(INVALID_DATE))
    case Some(t) =>
      if !(AllDigits(t.day) && AllDigits(t.month) && AllDigits(t.year)) then Err(ValueError(INVALID_DATE))
      else
        var d := Date(DigitsValue(t.year), DigitsValue(t.month), DigitsValue(t.day));
        if IsValid(d) then Ok(d) else Err(ValueError(INVALID_DATE))
  }

  /** Two digits with leading zero, as `%d` and `%m` print. */
  function Pad2(n: int): (s: string)
    requires 0 <= n < 100
  {
    [DigitChar(n / 10), DigitChar(n % 10)]
  }

  /** Four digits with leading zeros. */
  function Pad4(n: int): (s: string)
    requires 0 <= n < 10000
  {
    [DigitChar(n / 1000), DigitChar(n / 100 % 10), DigitChar(n / 10 % 10), DigitChar(n % 10)]
  }

  /** A day or month written with two digits, or with one when it is below 10 and not padded. */
  function DateField(n: int, padded: bool): string
    requires 1 <= n < 100
  {
    if padded || n >= 10 then Pad2(n) else [DigitChar(n)]
  }

  /** A date written in one of the shapes `%d.%m.%Y` reads. */
  function Render(d: Date, paddedDay: bool, paddedMonth: bool): string
    requires IsValid(d)
  {
    DateField(d.day, paddedDay) + "." + DateField(d.month, paddedMonth) + "." + Pad4(d.year)
  }

  /** DD.MM.YYYY, fully zero-padded. */
  function FormatDate(d: Date): string
    requires IsValid(d)
  {
    Render(d, true, true)
  }

  lemma OneDigit(c: char)
    requires IsDigit(c)
    ensures AllDigits([c]) && DigitsValue([c]) == DigitValue(c)
    ensures DigitChar(DigitValue(c)) == c
  {
    assert [c][..0] == [];
  }

  lemma {:induction false} Pad2Value(n: int)
    requires 0 <= n < 100
    ensures AllDigits(Pad2(n)) && DigitsValue(Pad2(n)) == n
  {
    var s := Pad2(n);
    assert s[..1] == [DigitChar(n / 10)];
    OneDigit(DigitChar(n / 10));
  }

  lemma {:induction false} Pad2Inverse(s: string)
    requires |s| == 2 && AllDigits(s)
    ensures DigitsValue(s) < 100 && Pad2(DigitsValue(s)) == s
  {
    assert s[..1] == [s[0]];
    OneDigit(s[0]);
    OneDigit(s[1]);
  }

  /** The value of a four-digit string, digit by digit. */
  lemma {:induction false} FourDigits(s: string)
    requires |s| == 4 && AllDigits(s)
    ensures DigitsValue(s) == ((DigitValue(s[0]) * 10 + DigitValue(s[1])) * 10 + DigitValue(s[2])) * 10 + DigitValue(s[3])
  {
    var p1, p2, p3 := s[..1], s[..2], s[..3];
    assert s[..|s| - 1] == p3 && p3[..2] == p2 && p2[..1] == p1 && p1 == [s[0]];
    OneDigit(s[0]);
    assert DigitsValue(p2) == DigitValue(s[0]) * 10 + DigitValue(s[1]);
    assert DigitsValue(p3) == DigitsValue(p2) * 10 + DigitValue(s[2]);
  }

  lemma DigitRoundTrip(n: int)
    requires 0 <= n < 10
    ensures IsDigit(DigitChar(n)) && DigitValue(DigitChar(n)) == n
  {
  }

  lemma DivideByTenTwice(n: int)
    requires n >= 0
    ensures n / 100 == n / 10 / 10 && n / 1000 == n / 100 / 10
  {
  }

  lemma FourDigitArithmetic(a: int, b: int, c: int, d: int)
    requires 0 <= a < 10 && 0 <= b < 10 && 0 <= c < 10 && 0 <= d < 10
    ensures var n := ((a * 10 + b) * 10 + c) * 10 + d;
      n < 10000 && n / 1000 == a && n / 100 % 10 == b && n / 10 % 10 == c && n % 10 == d
  {
  }

  lemma {:induction false} Pad4Value(n: int)
    requires 0 <= n < 10000
    ensures AllDigits(Pad4(n)) && DigitsValue(Pad4(n)) == n
  {
    var s := Pad4(n);
    DigitRoundTrip(n / 1000);
    DigitRoundTrip(n / 100 % 10);
    DigitRoundTrip(n / 10 % 10);
    DigitRoundTrip(n % 10);
    FourDigits(s);
    DivideByTenTwice(n);
    var x1, x2, x3 := n / 10, n / 100, n / 1000;
    assert x2 == x3 * 10 + x2 % 10;
    assert x1 == x2 * 10 + x1 % 10;
    assert n == x1 * 10 + n % 10;
  }

  lemma {:induction false} Pad4Inverse(s: string)
    requires |s| == 4 && AllDigits(s)
    ensures DigitsValue(s) < 10000 && Pad4(DigitsValue(s)) == s
  {
    FourDigits(s);
    FourDigitArithmetic(DigitValue(s[0]), DigitValue(s[1]), DigitValue(s[2]), DigitValue(s[3]));
    OneDigit(s[0]);
    OneDigit(s[1]);
    OneDigit(s[2]);
    OneDigit(s[3]);
  }

  lemma {:induction false} DateFieldValue(n: int, padded: bool)
    requires 1 <= n < 100
    ensures AllDigits(DateField(n, padded)) && DigitsValue(DateField(n, padded)) == n
    ensures 1 <= |DateField(n, padded)| <= 2
    ensures |DateField(n, padded)| == 2 <==> padded || n >= 10
  {
    if padded || n >= 10 {
      Pad2Value(n);
    } else {
      OneDigit(DigitChar(n));
    }
  }

  /** Digit fields of the right lengths joined by dots split back into those fields. */
  lemma SplitJoined(dd: string, mm: string, yyyy: string)
    requires 1 <= |dd| <= 2 && 1 <= |mm| <= 2 && |yyyy| == 4
    requires AllDigits(dd) && AllDigits(mm)
    ensures SplitDate(dd + "." + mm + "." + yyyy) == Some(DateText(dd, mm, yyyy))
  {
    var s := dd + "." + mm + "." + yyyy;
    var dayLen := |dd|;
    assert s[dayLen] == '.' && (s[1] == '.' <==> dayLen == 1);
    var rest := s[dayLen + 1..];
    assert rest == mm + "." + yyyy;
    assert rest[|mm|] == '.' && (rest[1] == '.' <==> |mm| == 1);
    assert s[..dayLen] == dd;
    assert rest[..|mm|] == mm;
    assert rest[|mm| + 1..] == yyyy;
  }

  /** Every written form of a valid date parses back to that date. */
  lemma {:induction false} ParseRendered(d: Date, paddedDay: bool, paddedMonth: bool)
    requires IsValid(d)
    ensures ParseBirthday(Render(d, paddedDay, paddedMonth)) == Ok(d)
  {
    var dd, mm, yyyy := DateField(d.day, paddedDay), DateField(d.month, paddedMonth), Pad4(d.year);
    DateFieldValue(d.day, paddedDay);
    DateFieldValue(d.month, paddedMonth);
    Pad4Value(d.year);
    SplitJoined(dd, mm, yyyy);
  }

  /** Conversely, whatever parses is one of the written forms of the date it yields. */
  lemma {:induction false} ParsedIsRendered(s: string)
    requires ParseBirthday(s).Ok?
    ensures exists paddedDay, paddedMonth :: s == Render(ParseBirthday(s).value, paddedDay, paddedMonth)
  {
    var d := ParseBirthday(s).value;
    var t := SplitDate(s).value;
    FieldInverse(t.day);
    FieldInverse(t.month);
    Pad4Inverse(t.year);
    assert s == Render(d, |t.day| == 2, |t.month| == 2);
  }

  lemma {:induction false} FieldInverse(s: string)
    requires 1 <= |s| <= 2 && AllDigits(s) && DigitsValue(s) >= 1
    ensures DigitsValue(s) < 100 && DateField(DigitsValue(s), |s| == 2) == s
  {
    if |s| == 2 {
      Pad2Inverse(s);
    } else {
      OneDigit(s[0]);
      assert s == [s[0]];
    }
  }

  /** A zero-padded DD.MM.YYYY string that parses is given back by formatting its date. */
  lemma FormatRoundTrip(s: string)
    requires |s| == 10 && ParseBirthday(s).Ok?
    ensures FormatDate(ParseBirthday(s).value) == s
  {
    var d := ParseBirthday(s).value;
    ParsedIsRendered(s);
    var pd, pm :| s == Render(d, pd, pm);
    DateFieldValue(d.day, pd);
    DateFieldValue(d.month, pm);
  }
}
