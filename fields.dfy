/** The validated fields of a contact: `Phone` (task.py:18-26) and
    `Birthday` (task.py:28-37). */
module Fields {
  import opened Wrappers
  import opened Text
  import opened Errors
  import opened Calendar

  // ---------------------------------------------------------------- Phone

  predicate IsPhoneNumber(s: string) {
    |s| == 10 && AllDigits(s)
  }

  /** A phone number as `Phone` stores it: ten digits, kept as given. */
  type Phone = s: string | IsPhoneNumber(s) witness "0000000000"

  const PhoneFormatError := "Phone must contain exactly 10 digits"

  /** `str.isdigit()` on ASCII text: false for the empty string. */
  predicate IsDigitString(s: string) {
    |s| > 0 && AllDigits(s)
  }

  /** `Phone(value)`: `_validate` raises unless the value is digits and has
      length 10; otherwise the value is kept unchanged. */
  function ValidatePhone(value: string): (r: Result<Phone, Exception>)
    ensures r.Success? <==> |value| == 10 && forall i :: 0 <= i < |value| ==> '0' <= value[i] <= '9'
    ensures r.Success? ==> r.value == value
    ensures r.Failure? ==> r.error == ValueError(PhoneFormatError)
  {
    if !IsDigitString(value) || |value| != 10 then Failure(ValueError(PhoneFormatError))
    else Success(value)
  }

  // ------------------------------------------------------------- Birthday

  const DateFormatError := "Invalid date format. Use DD.MM.YYYY"

  /** Position of the first '.' in `s`, if any. */
  function IndexOfDot(s: string): (r: Option<nat>)
    ensures r.Some? ==> r.value < |s| && s[r.value] == '.' && '.' !in s[..r.value]
    ensures r.None? ==> '.' !in s
  {
    if s == [] then None
    else if s[0] == '.' then Some(0)
    else match IndexOfDot(s[1..])
      case None => None
      case Some(i) =>
        assert s[..i + 1] == [s[0]] + s[1..][..i];
        Some(i + 1)
  }

  /** What `%d` matches: `3[01]|[12]\d|0[1-9]|[1-9]| [1-9]`, that is two
      digits from 01 to 31, one digit from 1 to 9, or a space and such a digit. */
  function DayField(t: string): Option<int> {
    if |t| == 2 && AllDigits(t) && 1 <= DecimalValue(t) <= 31 then Some(DecimalValue(t))
    else if |t| == 1 && AllDigits(t) && t[0] != '0' then Some(DigitValue(t[0]))
    else if |t| == 2 && t[0] == ' ' && IsAsciiDigit(t[1]) && t[1] != '0' then Some(DigitValue(t[1]))
    else None
  }

  /** What `%m` matches: `1[0-2]|0[1-9]|[1-9]`. */
  function MonthField(t: string): Option<int> {
    if |t| == 2 && AllDigits(t) && 1 <= DecimalValue(t) <= 12 then Some(DecimalValue(t))
    else if |t| == 1 && AllDigits(t) && t[0] != '0' then Some(DigitValue(t[0]))
    else None
  }

  /** What `%Y` matches: exactly four digits. */
  function YearField(t: string): Option<int> {
    if |t| == 4 && AllDigits(t) then Some(DecimalValue(t)) else None
  }

  /** `datetime.strptime(value, "%d.%m.%Y").date()`: the day field runs up to
      the first dot, the month field up to the second, the year field to the
      end; then the three numbers must form a real date. */
  function ParseDate(value: string): (r: Option<CalendarDate>)
    ensures r.Some? ==> 8 <= |value| <= 10
  {
    match IndexOfDot(value)
    case None => None
    case Some(i) =>
      var rest := value[i + 1..];
      match IndexOfDot(rest)
      case None => None
      case Some(j) =>
        match (DayField(value[..i]), MonthField(rest[..j]), YearField(rest[j + 1..]))
        case (Some(day), Some(month), Some(year)) =>
          if IsValid(Date(year, month, day)) then Some(Date(year, month, day)) else None
        case _ => None
  }

  /** `Birthday(value)`: any parse failure becomes the one ValueError below. */
  function ParseBirthday(value: string): (r: Result<CalendarDate, Exception>)
    ensures r.Success? <==> ParseDate(value).Some?
    ensures r.Success? ==> ParseDate(value) == Some(r.value)
    ensures r.Failure? ==> r.error == ValueError(DateFormatError)
  {
    match ParseDate(value)
    case Some(d) => Success(d)
    case None => Failure(ValueError(DateFormatError))
  }

  /** `Birthday.__str__`: `strftime("%d.%m.%Y")`, zero-padded. */
  function RenderDate(d: CalendarDate): (s: string)
    ensures IsCanonical(s)
  {
    ZeroPadded(d.day, 2) + "." + ZeroPadded(d.month, 2) + "." + ZeroPadded(d.year, 4)
  }

  /** The canonical DD.MM.YYYY shape: two digits, a dot, two digits, a dot,
      four digits. */
  predicate IsCanonical(s: string) {
    |s| == 10 && s[2] == '.' && s[5] == '.'
    && AllDigits(s[..2]) && AllDigits(s[3..5]) && AllDigits(s[6..])
  }

  /** The date a canonical string names, whether or not it exists. */
  function CanonicalFields(s: string): Date
    requires IsCanonical(s)
  {
    Date(DecimalValue(s[6..]), DecimalValue(s[3..5]), DecimalValue(s[..2]))
  }

  lemma CanonicalSplit(s: string)
    requires IsCanonical(s)
    ensures IndexOfDot(s) == Some(2)
    ensures IndexOfDot(s[3..]) == Some(2)
    ensures s[3..][..2] == s[3..5] && s[3..][3..] == s[6..]
  {
    assert '.' !in s[..2] by {
      assert forall k :: 0 <= k < 2 ==> IsAsciiDigit(s[..2][k]);
    }
    assert '.' !in s[3..][..2] by {
      assert s[3..][..2] == s[3..5];
      assert forall k :: 0 <= k < 2 ==> IsAsciiDigit(s[3..5][k]);
    }
    FirstDot(s, 2);
    FirstDot(s[3..], 2);
  }

  lemma {:induction false} FirstDot(s: string, k: nat)
    requires k < |s| && s[k] == '.' && '.' !in s[..k]
    ensures IndexOfDot(s) == Some(k)
  {
    if k > 0 {
      assert s[0] == s[..k][0];
      assert s[1..][..k - 1] == s[..k][1..];
      FirstDot(s[1..], k - 1);
    }
  }

  /** A canonical string is accepted exactly when it names a real date, and
      then the date is the one its digits spell. */
  lemma {:induction false} ParseCanonical(s: string)
    requires IsCanonical(s)
    ensures ParseBirthday(s).Success? <==> IsValid(CanonicalFields(s))
    ensures ParseBirthday(s).Success? ==> ParseBirthday(s).value == CanonicalFields(s)
  {
    CanonicalSplit(s);
    var f := CanonicalFields(s);
    DecimalValueBound(s[6..]);
    assert IsValid(f) ==> DayField(s[..2]) == Some(f.day) && MonthField(s[3..5]) == Some(f.month);
    assert YearField(s[6..]) == Some(f.year);
  }

  /** Every form `%d` and `%m` match is accepted: two digits, one digit, or
      (for the day) a space and a digit, as in "1.12.2024", " 1.12.2024" and
      "01.2.2024". Text built from such fields and four year digits parses
      exactly when the three numbers name a real date, and gives that date. */
  lemma FieldFormsParse(day: string, month: string, year: string)
    requires DayField(day).Some? && MonthField(month).Some?
    requires |year| == 4 && AllDigits(year)
    ensures var d := Date(DecimalValue(year), MonthField(month).value, DayField(day).value);
            var r := ParseBirthday(day + "." + month + "." + year);
            && (r.Success? <==> IsValid(d))
            && (r.Success? ==> r.value == d)
  {
    var s := day + "." + month + "." + year;
    var rest := month + "." + year;
    FieldHasNoDot(day, |day| == 2 && day[0] == ' ');
    FieldHasNoDot(month, false);
    SplitAtDot(day, rest);
    SplitAtDot(month, year);
    assert s == day + "." + rest;
    assert YearField(year) == Some(DecimalValue(year));
  }

  /** A day or month field holds digits and at most a leading space. */
  lemma FieldHasNoDot(t: string, spaced: bool)
    requires |t| <= 2
    requires spaced ==> |t| == 2 && t[0] == ' ' && IsAsciiDigit(t[1])
    requires !spaced ==> AllDigits(t)
    ensures '.' !in t
  {
    if spaced {
      assert t == [t[0], t[1]];
    } else {
      assert forall k :: 0 <= k < |t| ==> IsAsciiDigit(t[k]);
    }
  }

  /** A dot after a dot-free prefix is the first dot. */
  lemma SplitAtDot(head: string, tail: string)
    requires '.' !in head
    ensures IndexOfDot(head + "." + tail) == Some(|head|)
    ensures (head + "." + tail)[..|head|] == head
    ensures (head + "." + tail)[|head| + 1..] == tail
  {
    var s := head + "." + tail;
    assert s[..|head|] == head && s[|head|] == '.';
    FirstDot(s, |head|);
    assert s[|head| + 1..] == tail;
  }

  /** Rendering then parsing gives back the date. */
  lemma ParseRender(d: CalendarDate)
    ensures ParseBirthday(RenderDate(d)) == Success(d)
  {
    var s := RenderDate(d);
    assert s[..2] == ZeroPadded(d.day, 2);
    assert s[3..5] == ZeroPadded(d.month, 2);
    assert s[6..] == ZeroPadded(d.year, 4);
    ParseCanonical(s);
  }

  /** Parsing then rendering is the identity on canonical strings of real
      dates. */
  lemma RenderParse(s: string)
    requires IsCanonical(s) && ParseBirthday(s).Success?
    ensures RenderDate(ParseBirthday(s).value) == s
  {
    ParseCanonical(s);
    var d := ParseBirthday(s).value;
    var r := RenderDate(d);
    assert r[..2] == ZeroPadded(d.day, 2);
    assert r[3..5] == ZeroPadded(d.month, 2);
    assert r[6..] == ZeroPadded(d.year, 4);
    SameValueSameDigits(r[..2], s[..2]);
    SameValueSameDigits(r[3..5], s[3..5]);
    SameValueSameDigits(r[6..], s[6..]);
    assert r == r[..2] + "." + r[3..5] + "." + r[6..];
    assert s == s[..2] + "." + s[3..5] + "." + s[6..];
  }

  /** Distinct dates render differently, so grouping by the rendered text is
      grouping by date. */
  lemma RenderInjective(a: CalendarDate, b: CalendarDate)
    requires RenderDate(a) == RenderDate(b)
    ensures a == b
  {
    ParseRender(a);
    ParseRender(b);
  }
}
