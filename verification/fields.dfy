/** The three validated field types of a contact: Name (non-empty text),
    Phone (exactly ten digits, kept verbatim) and Birthday (a date read with
    the pattern `%d.%m.%Y`). Each is built by a function that returns the
    value or the ValueError message the constructor raises. */
module Fields {
  import opened Wrappers
  import opened Calendar

  datatype Name = Name(value: string)

  datatype Phone = Phone(value: string)

  datatype Birthday = Birthday(value: Date)

  const NameError: string := "Name cannot be empty"
  const PhoneError: string := "Phone number must contain 10 digits"
  const BirthdayError: string := "Invalid date format. Use DD.MM.YYYY"

  /** An ASCII decimal digit (str.isdigit on ASCII text). */
  predicate IsDigit(c: char) {
    '0' <= c <= '9'
  }

  predicate IsNonZeroDigit(c: char) {
    '1' <= c <= '9'
  }

  predicate AllDigits(s: string) {
    forall i :: 0 <= i < |s| ==> IsDigit(s[i])
  }

  /** What Phone accepts: ten characters, all of them digits. */
  predicate ValidPhone(s: string) {
    |s| == 10 && AllDigits(s)
  }

  /** Name(s): the text must be non-empty and is kept as given. */
  function MakeName(s: string): (r: Result<Name>)
    ensures r.Ok? <==> s != []
    ensures r.Ok? ==> r.value.value == s
    ensures r.Err? ==> r.error == NameError
  {
    if s != [] then Ok(Name(s)) else Err(NameError)
  }

  /** Phone(s): succeeds exactly on ten digits and keeps the text verbatim. */
  function MakePhone(s: string): (r: Result<Phone>)
    ensures r.Ok? <==> |s| == 10 && forall i :: 0 <= i < |s| ==> '0' <= s[i] <= '9'
    ensures r.Ok? ==> r.value.value == s
    ensures r.Err? ==> r.error == PhoneError
  {
    if !AllDigits(s) || |s| != 10 then Err(PhoneError) else Ok(Phone(s))
  }

  // ---------------------------------------------------------------------
  // strptime(s, '%d.%m.%Y'): the format becomes the pattern
  //   (3[01]|[12]\d|0[1-9]|[1-9]| [1-9]) \. (1[0-2]|0[1-9]|[1-9]) \. (\d\d\d\d)
  // which must match the whole text; the three numbers must then form a
  // date that datetime.date accepts.
  // ---------------------------------------------------------------------

  /** The `%d` alternatives. */
  predicate DayToken(t: string) {
    (|t| == 2 && t[0] == '3' && (t[1] == '0' || t[1] == '1'))
    || (|t| == 2 && (t[0] == '1' || t[0] == '2') && IsDigit(t[1]))
    || (|t| == 2 && t[0] == '0' && IsNonZeroDigit(t[1]))
    || (|t| == 1 && IsNonZeroDigit(t[0]))
    || (|t| == 2 && t[0] == ' ' && IsNonZeroDigit(t[1]))
  }

  /** The `%m` alternatives. */
  predicate MonthToken(t: string) {
    (|t| == 2 && t[0] == '1' && '0' <= t[1] <= '2')
    || (|t| == 2 && t[0] == '0' && IsNonZeroDigit(t[1]))
    || (|t| == 1 && IsNonZeroDigit(t[0]))
  }

  /** The `%Y` pattern: four digits. */
  predicate YearToken(t: string) {
    |t| == 4 && AllDigits(t)
  }

  /** The value of a run of digits. */
  function DigitsValue(t: string): nat
    requires AllDigits(t)
  {
    if t == [] then 0 else DigitsValue(t[..|t| - 1]) * 10 + (t[|t| - 1] as int - '0' as int)
  }

  /** int(t) for a matched token; a day may carry one leading space. */
  function TokenValue(t: string): nat
    requires AllDigits(t) || (|t| > 0 && t[0] == ' ' && AllDigits(t[1..]))
  {
    if |t| > 0 && t[0] == ' ' then DigitsValue(t[1..]) else DigitsValue(t)
  }

  /** Position of the first '.', or |s| when there is none. */
  function DotIndex(s: string): (i: nat)
    ensures i <= |s|
    ensures i < |s| ==> s[i] == '.'
    ensures forall k :: 0 <= k < i ==> s[k] != '.'
  {
    if s == [] then 0 else if s[0] == '.' then 0 else 1 + DotIndex(s[1..])
  }

  /** Birthday(s): the date the text denotes, or the one error message the
      constructor raises for every failure. */
  function ParseBirthday(s: string): (r: Result<Birthday>)
    ensures r.Ok? ==> ValidDate(r.value.value)
    ensures r.Err? ==> r.error == BirthdayError
  {
    var i := DotIndex(s);
    if i == |s| then Err(BirthdayError)
    else
      var rest := s[i + 1..];
      var j := DotIndex(rest);
      if j == |rest| then Err(BirthdayError)
      else
        var dt, mt, yt := s[..i], rest[..j], rest[j + 1..];
        if DayToken(dt) && MonthToken(mt) && YearToken(yt) then
          var d := Date(TokenValue(yt), TokenValue(mt), TokenValue(dt));
          if ValidDate(d) then Ok(Birthday(d)) else Err(BirthdayError)
        else Err(BirthdayError)
  }

  // ---------------------------------------------------------------------
  // A declarative reading of the same pattern: the text splits at two
  // dots i < j into a day, a month and a year token.
  // ---------------------------------------------------------------------

  predicate Shaped(s: string, i: int, j: int) {
    0 <= i < j < |s| && s[i] == '.' && s[j] == '.'
    && DayToken(s[..i]) && MonthToken(s[i + 1..j]) && YearToken(s[j + 1..])
  }

  function DateAt(s: string, i: int, j: int): Date
    requires Shaped(s, i, j)
  {
    Date(TokenValue(s[j + 1..]), TokenValue(s[i + 1..j]), TokenValue(s[..i]))
  }

  lemma TokensHaveNoDot(t: string)
    ensures DayToken(t) || MonthToken(t) ==> forall k :: 0 <= k < |t| ==> t[k] != '.'
  {
  }

  /** Once the text has the shape at dots i and j, those are the dots the
      parser splits at, so the outcome depends only on the date they denote. */
  lemma ShapedParse(s: string, i: int, j: int)
    requires Shaped(s, i, j)
    ensures ParseBirthday(s) ==
      if ValidDate(DateAt(s, i, j)) then Ok(Birthday(DateAt(s, i, j))) else Err(BirthdayError)
  {
    ShapedDots(s, i, j);
  }

  /** In a shaped text the parser's two dots are i and j. */
  lemma ShapedDots(s: string, i: int, j: int)
    requires Shaped(s, i, j)
    ensures DotIndex(s) == i
    ensures DotIndex(s[i + 1..]) == j - i - 1
    ensures s[i + 1..][..j - i - 1] == s[i + 1..j]
    ensures s[i + 1..][j - i..] == s[j + 1..]
  {
    TokensHaveNoDot(s[..i]);
    TokensHaveNoDot(s[i + 1..j]);
    assert forall q :: 0 <= q < i ==> s[q] == s[..i][q];
    FirstDot(s, i);
    var rest := s[i + 1..];
    assert forall q :: 0 <= q < j - i - 1 ==> rest[q] == s[i + 1..j][q];
    FirstDot(rest, j - i - 1);
  }

  lemma FirstDot(s: string, i: int)
    requires 0 <= i < |s| && s[i] == '.'
    requires forall k :: 0 <= k < i ==> s[k] != '.'
    ensures DotIndex(s) == i
  {
  }

  /** Birthday(s) succeeds exactly when s is day.month.year in the pattern's
      sense and the numbers form a real date, which is then the stored value. */
  lemma ParseBirthdayIff(s: string)
    ensures ParseBirthday(s).Ok? <==> exists i, j :: Shaped(s, i, j) && ValidDate(DateAt(s, i, j))
    ensures forall i, j :: Shaped(s, i, j) ==>
      ParseBirthday(s) == if ValidDate(DateAt(s, i, j)) then Ok(Birthday(DateAt(s, i, j))) else Err(BirthdayError)
  {
    forall i, j | Shaped(s, i, j)
      ensures ParseBirthday(s) ==
        if ValidDate(DateAt(s, i, j)) then Ok(Birthday(DateAt(s, i, j))) else Err(BirthdayError)
    {
      ShapedParse(s, i, j);
    }
    if ParseBirthday(s).Ok? {
      var i := DotIndex(s);
      var j := DotIndex(s[i + 1..]);
      assert s[i + 1..][..j] == s[i + 1..i + 1 + j];
      assert s[i + 1..][j + 1..] == s[i + 1 + j + 1..];
      assert Shaped(s, i, i + 1 + j);
    }
  }

  lemma DigitsValuePad2(n: int)
    requires 0 <= n < 100
    ensures AllDigits(Pad2(n)) && DigitsValue(Pad2(n)) == n
  {
    var t := Pad2(n);
    assert t[..1] == [t[0]];
    assert t[..1][..0] == [];
    assert DigitsValue(t[..1]) == n / 10;
    assert DigitsValue(t) == DigitsValue(t[..1]) * 10 + n % 10;
  }

  lemma DigitsValuePad4(n: int)
    requires 0 <= n < 10000
    ensures AllDigits(Pad4(n)) && DigitsValue(Pad4(n)) == n
  {
    var t := Pad4(n);
    assert t[..3][..2][..1][..0] == [];
    assert t[..3][..2] == t[..2] && t[..2][..1] == t[..1];
    var a, b, c, d := n / 1000, n / 100 % 10, n / 10 % 10, n % 10;
    FourDigits(n);
    assert DigitsValue(t[..1]) == a;
    assert DigitsValue(t[..2]) == a * 10 + b;
    assert DigitsValue(t[..3]) == (a * 10 + b) * 10 + c;
    assert DigitsValue(t) == ((a * 10 + b) * 10 + c) * 10 + d;
  }

  lemma FourDigits(n: int)
    requires 0 <= n < 10000
    ensures ((n / 1000 * 10 + n / 100 % 10) * 10 + n / 10 % 10) * 10 + n % 10 == n
  {
    var q1, q2 := n / 10, n / 100;
    assert q2 == q1 / 10;
    assert n / 1000 == q2 / 10;
  }

  /** Day, month and year written as `%d.%m.%Y` with zero padding are read
      back as the same numbers; the result is then decided by whether they
      form a real date. */
  lemma {:induction false} PaddedParse(day: int, month: int, year: int)
    requires 1 <= day <= 31 && 1 <= month <= 12 && 0 <= year <= 9999
    ensures ParseBirthday(Pad2(day) + "." + Pad2(month) + "." + Pad4(year)) ==
      if ValidDate(Date(year, month, day)) then Ok(Birthday(Date(year, month, day))) else Err(BirthdayError)
  {
    var s := Pad2(day) + "." + Pad2(month) + "." + Pad4(year);
    PaddedTokens(day, month, year);
    assert s[..2] == Pad2(day);
    assert s[3..5] == Pad2(month);
    assert s[6..] == Pad4(year);
    assert Shaped(s, 2, 5);
    assert DateAt(s, 2, 5) == Date(year, month, day);
    ShapedParse(s, 2, 5);
  }

  lemma PaddedTokens(day: int, month: int, year: int)
    requires 1 <= day <= 31 && 1 <= month <= 12 && 0 <= year <= 9999
    ensures DayToken(Pad2(day)) && TokenValue(Pad2(day)) == day
    ensures MonthToken(Pad2(month)) && TokenValue(Pad2(month)) == month
    ensures YearToken(Pad4(year)) && TokenValue(Pad4(year)) == year
  {
    DigitsValuePad2(day);
    DigitsValuePad2(month);
    DigitsValuePad4(year);
  }

  /** The text show_bd prints (strftime('%d.%m.%Y')) reads back as the same
      birthday. */
  lemma {:induction false} BirthdayTextRoundTrip(d: Date)
    requires ValidDate(d)
    ensures ParseBirthday(DayMonthYearText(d)) == Ok(Birthday(d))
  {
    PaddedParse(d.day, d.month, d.year);
  }

  /** 29 February exists in 2024 ... */
  lemma LeapDayAccepted()
    ensures ParseBirthday("29.02.2024") == Ok(Birthday(Date(2024, 2, 29)))
  {
    PaddedExample(29, 2, 2024, "29.02.2024");
  }

  /** ... but not in 2023 ... */
  lemma LeapDayRejected()
    ensures ParseBirthday("29.02.2023").Err?
  {
    PaddedExample(29, 2, 2023, "29.02.2023");
  }

  /** ... and April has no 31st. */
  lemma AprilThirtyFirstRejected()
    ensures ParseBirthday("31.04.2020").Err?
  {
    PaddedExample(31, 4, 2020, "31.04.2020");
  }

  lemma PaddedExample(day: int, month: int, year: int, s: string)
    requires 10 <= day <= 31 && 1 <= month <= 9 && 1000 <= year <= 9999
    requires |s| == 10 && s[2] == '.' && s[5] == '.' && s[3] == '0'
    requires s[0] as int - '0' as int == day / 10 && s[1] as int - '0' as int == day % 10
    requires s[4] as int - '0' as int == month
    requires s[6] as int - '0' as int == year / 1000 && s[7] as int - '0' as int == year / 100 % 10
    requires s[8] as int - '0' as int == year / 10 % 10 && s[9] as int - '0' as int == year % 10
    ensures ParseBirthday(s) ==
      if ValidDate(Date(year, month, day)) then Ok(Birthday(Date(year, month, day))) else Err(BirthdayError)
  {
    assert s == Pad2(day) + "." + Pad2(month) + "." + Pad4(year);
    PaddedParse(day, month, year);
  }
}
