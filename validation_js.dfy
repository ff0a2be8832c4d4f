/**
 * The form validators of frontend/mobile/js/utils/validation.js. Each
 * returns `{ valid: true }` or `{ valid: false, message }`; the first
 * failing check decides the message.
 */
module Validation {
  import opened Base
  import opened Text
  import opened Calendar
  import JsDates
  import Calculation
  import Security

  /** The result object. */
  datatype Verdict = Pass | Fail(message: string)

  const DefaultMinLength := 6
  const EmptyPassword := "密码不能为空"
  const Mismatch := "两次输入的密码不一致"
  const SameAsOld := "新密码不能与原密码相同"
  const MissingDates := "请选择开始和结束日期"
  const EndDateEarly := "结束日期不能早于开始日期"
  const MissingTimes := "请选择开始和结束时间"
  const EndTimeEarly := "结束时间不能早于开始时间"

  /** `密码长度至少为${minLength}位`. */
  function TooShort(minLength: int): string
  {
    "密码长度至少为" + IntToString(minLength) + "位"
  }

  /** `validatePassword(password, minLength = 6)`; an omitted `minLength` is `None`. */
  function ValidatePassword(password: string, minLength: Option<int>): (r: Verdict)
    ensures r.Pass? <==> password != [] && |password| >= minLength.GetOr(DefaultMinLength)
    ensures password == [] ==> r == Fail(EmptyPassword)
    ensures password != [] && |password| < minLength.GetOr(DefaultMinLength) ==> r == Fail(TooShort(minLength.GetOr(DefaultMinLength)))
  {
    var n := minLength.GetOr(DefaultMinLength);
    if password == [] then Fail(EmptyPassword)
    else if |password| < n then Fail(TooShort(n))
    else Pass
  }

  /** `validatePasswordMatch`. */
  function ValidatePasswordMatch(password: string, confirmPassword: string): (r: Verdict)
    ensures r.Pass? <==> password == confirmPassword
    ensures r.Fail? ==> r.message == Mismatch
  {
    if password != confirmPassword then Fail(Mismatch) else Pass
  }

  /** `validatePasswordNotSame`. */
  function ValidatePasswordNotSame(oldPassword: string, newPassword: string): (r: Verdict)
    ensures r.Pass? <==> oldPassword != newPassword
    ensures r.Fail? ==> r.message == SameAsOld
  {
    if oldPassword == newPassword then Fail(SameAsOld) else Pass
  }

  /** For any two passwords exactly one of the two comparisons passes, and both are symmetric. */
  lemma MatchAndNotSameComplement(a: string, b: string)
    ensures ValidatePasswordMatch(a, b).Pass? != ValidatePasswordNotSame(a, b).Pass?
    ensures ValidatePasswordMatch(a, b) == ValidatePasswordMatch(b, a)
    ensures ValidatePasswordNotSame(a, b) == ValidatePasswordNotSame(b, a)
  {
  }

  /** `new Date(s)` of a date string as a day number; `None` is an invalid date. */
  function DateValue(s: string): (r: Option<int>)
    ensures r.Some? <==> JsDates.ParseIsoDate(s).Some?
  {
    match JsDates.ParseIsoDate(s)
    case Some(d) => Some(Ordinal(d))
    case None => None
  }

  /** `new Date(a) < new Date(b)`: false whenever either side is an invalid date. */
  predicate DateBefore(a: string, b: string)
  {
    DateValue(a).Some? && DateValue(b).Some? && DateValue(a).value < DateValue(b).value
  }

  /** `validateDateRange`. */
  function ValidateDateRange(startDate: string, endDate: string): (r: Verdict)
    ensures r.Pass? <==> startDate != [] && endDate != [] && !DateBefore(endDate, startDate)
    ensures startDate == [] || endDate == [] ==> r == Fail(MissingDates)
    ensures startDate != [] && endDate != [] && DateBefore(endDate, startDate) ==> r == Fail(EndDateEarly)
  {
    if startDate == [] || endDate == [] then Fail(MissingDates)
    else if DateBefore(endDate, startDate) then Fail(EndDateEarly)
    else Pass
  }

  /**
   * On the dates the date picker produces, the range is accepted exactly
   * when the end is not before the start, field by field; a date equal to
   * the start is accepted.
   */
  lemma DateRangeOfIsoDates(start: Date, end: Date)
    requires Valid(start) && Valid(end)
    ensures ValidateDateRange(IsoFormat(start), IsoFormat(end)).Pass? <==> Lexicographic(start, end)
    ensures ValidateDateRange(IsoFormat(start), IsoFormat(start)).Pass?
  {
    var s, e := IsoFormat(start), IsoFormat(end);
    IsoDateValue(start);
    IsoDateValue(end);
    OrdinalOrder(start, end);
    assert DateBefore(e, s) <==> Ordinal(end) < Ordinal(start);
  }

  /** `new Date` reads back the day a formatted date names. */
  lemma IsoDateValue(d: Date)
    requires Valid(d)
    ensures DateValue(IsoFormat(d)) == Some(Ordinal(d))
    ensures IsoFormat(d) != []
  {
    JsDates.ParseOfIsoFormat(d);
  }

  /** A string that is no date is read as an invalid date, and no comparison with it fails the check. */
  lemma UnreadableDatesPass(startDate: string, endDate: string)
    requires startDate != [] && endDate != []
    requires JsDates.ParseIsoDate(startDate).None? || JsDates.ParseIsoDate(endDate).None?
    ensures ValidateDateRange(startDate, endDate) == Pass
  {
  }

  /** JavaScript `a < b` on strings: code unit by code unit, a proper prefix first. */
  predicate LexLess(a: string, b: string)
  {
    if a == [] then b != []
    else if b == [] then false
    else if a[0] != b[0] then a[0] < b[0]
    else LexLess(a[1..], b[1..])
  }

  /** `validateTimeRange`. */
  function ValidateTimeRange(startTime: string, endTime: string): (r: Verdict)
    ensures r.Pass? <==> startTime != [] && endTime != [] && !LexLess(endTime, startTime)
    ensures startTime == [] || endTime == [] ==> r == Fail(MissingTimes)
    ensures startTime != [] && endTime != [] && LexLess(endTime, startTime) ==> r == Fail(EndTimeEarly)
  {
    if startTime == [] || endTime == [] then Fail(MissingTimes)
    else if LexLess(endTime, startTime) then Fail(EndTimeEarly)
    else Pass
  }

  /** A time of day as the time picker gives it: `HH:MM`, minutes below 60. */
  predicate PickerTime(hs: string, ms: string)
  {
    |hs| == 2 && |ms| == 2 && AllDigits(hs) && AllDigits(ms) && DigitsValue(ms) < 60
  }

  /** Comparing two strings that start with pieces of one length: the pieces decide unless they are equal. */
  lemma {:induction false} LexLessAfter(a: string, b: string, x: string, y: string)
    requires |a| == |b|
    ensures a == b ==> (LexLess(a + x, b + y) <==> LexLess(x, y))
    ensures a != b ==> (LexLess(a + x, b + y) <==> LexLess(a, b))
  {
    if a != [] {
      assert (a + x)[0] == a[0] && (b + y)[0] == b[0];
      assert (a + x)[1..] == a[1..] + x && (b + y)[1..] == b[1..] + y;
      if a[0] == b[0] {
        LexLessAfter(a[1..], b[1..], x, y);
        assert a == [a[0]] + a[1..] && b == [b[0]] + b[1..];
      }
    } else {
      assert a + x == x && b + y == y;
    }
  }

  /** On two-digit fields, string order is numeric order. */
  lemma TwoDigitOrder(a: string, b: string)
    requires |a| == 2 && |b| == 2 && AllDigits(a) && AllDigits(b)
    ensures LexLess(a, b) <==> DigitsValue(a) < DigitsValue(b)
  {
    TwoDigitsValue(a);
    TwoDigitsValue(b);
    var a', b' := a[1..], b[1..];
    assert a'[0] == a[1] && b'[0] == b[1] && a'[1..] == [] && b'[1..] == [];
    assert LexLess(a', b') <==> a[1] < b[1];
    assert LexLess(a, b) <==> a[0] < b[0] || (a[0] == b[0] && a[1] < b[1]);
  }

  /** Of two strings of one length, exactly one is smaller unless they are equal. */
  lemma {:induction false} LexTrichotomy(a: string, b: string)
    requires |a| == |b|
    ensures a == b <==> !LexLess(a, b) && !LexLess(b, a)
  {
    if a != [] {
      LexTrichotomy(a[1..], b[1..]);
      if a[0] == b[0] && a[1..] == b[1..] {
        assert a == [a[0]] + a[1..] && b == [b[0]] + b[1..];
      }
    }
  }

  /**
   * For times as the picker writes them, comparing the strings compares
   * the minutes since midnight that calculation.js reads from them, so a
   * range is rejected exactly when it ends earlier in the day.
   */
  lemma TimeRangeIsMinuteOrder(h1: string, m1: string, h2: string, m2: string)
    requires PickerTime(h1, m1) && PickerTime(h2, m2)
    ensures var start, end := h1 + ":" + m1, h2 + ":" + m2;
            var a, b := Calculation.TimeToMinutes(start), Calculation.TimeToMinutes(end);
            a.Some? && b.Some? && (ValidateTimeRange(start, end).Pass? <==> a.value <= b.value)
  {
    Calculation.ClockMinutes(h1, m1);
    Calculation.ClockMinutes(h2, m2);
    ClockStringOrder(h1, m1, h2, m2, DigitsValue(h1), DigitsValue(m1), DigitsValue(h2), DigitsValue(m2));
  }

  /** Two picker times compare as strings the way their minutes since midnight compare. */
  lemma ClockStringOrder(h1: string, m1: string, h2: string, m2: string, a1: int, b1: int, a2: int, b2: int)
    requires PickerTime(h1, m1) && PickerTime(h2, m2)
    requires a1 == DigitsValue(h1) && b1 == DigitsValue(m1) && a2 == DigitsValue(h2) && b2 == DigitsValue(m2)
    ensures LexLess(h2 + ":" + m2, h1 + ":" + m1) <==> a2 * 60 + b2 < a1 * 60 + b1
  {
    ClockLexOrder(h1, m1, h2, m2);
    TwoDigitOrder(h2, h1);
    TwoDigitOrder(h1, h2);
    TwoDigitOrder(m2, m1);
    MinuteOrder(LexLess(h2, h1), LexLess(h1, h2), LexLess(m2, m1), a1, b1, a2, b2);
  }

  /** `H:M` strings with hours of one length compare by hours, then by minutes. */
  lemma ClockLexOrder(h1: string, m1: string, h2: string, m2: string)
    requires |h1| == |h2|
    ensures LexLess(h2 + ":" + m2, h1 + ":" + m1) <==> LexLess(h2, h1) || (!LexLess(h1, h2) && LexLess(m2, m1))
  {
    LexTrichotomy(h2, h1);
    var start, end := h1 + ":" + m1, h2 + ":" + m2;
    assert start == h1 + (":" + m1) && end == h2 + (":" + m2);
    LexLessAfter(h2, h1, ":" + m2, ":" + m1);
    LexLessAfter(":", ":", m2, m1);
  }

  /** Hours then minutes below 60 order like the minute counts. */
  lemma MinuteOrder(hoursLess: bool, hoursMore: bool, minutesLess: bool, a1: int, b1: int, a2: int, b2: int)
    requires 0 <= b1 < 60 && 0 <= b2 < 60
    requires (hoursLess <==> a2 < a1) && (hoursMore <==> a1 < a2) && (minutesLess <==> b2 < b1)
    ensures hoursLess || (!hoursMore && minutesLess) <==> a2 * 60 + b2 < a1 * 60 + b1
  {
  }

  /** A JavaScript value as `validateRequired` sees it. */
  datatype JsValue =
    | Undefined
    | Null
    | Boolean(b: bool)
    | Number(n: int)
    | NotANumber
    | Text(s: string)
    | Object   // arrays and objects, always truthy

  /** `!!value`. */
  predicate Truthy(v: JsValue)
  {
    match v
    case Undefined => false
    case Null => false
    case Boolean(b) => b
    case Number(n) => n != 0
    case NotANumber => false
    case Text(s) => s != []
    case Object => true
  }

  /** `${fieldName}不能为空`. */
  function Required(fieldName: string): string
  {
    fieldName + "不能为空"
  }

  /** `validateRequired`: a falsy value or a string of white space only is missing. */
  function ValidateRequired(value: JsValue, fieldName: string): (r: Verdict)
    ensures r.Pass? <==> Truthy(value) && !(value.Text? && AllSpace(JavaScript, value.s))
    ensures r.Fail? ==> r.message == Required(fieldName)
  {
    assert value.Text? ==> (Strip(JavaScript, value.s) == [] <==> AllSpace(JavaScript, value.s)) by {
      if value.Text? {
        StripEmpty(JavaScript, value.s);
      }
    }
    if !Truthy(value) || (value.Text? && Strip(JavaScript, value.s) == []) then Fail(Required(fieldName))
    else Pass
  }

  /**
   * The server's strength rule implies the form's length rule: a password
   * the server accepts passes `validatePassword` with the default minimum.
   * The converse fails: six lower-case letters pass the form and are
   * refused by the server.
   */
  lemma ServerRuleImpliesFormRule(p: string)
    ensures Security.Strong(p) ==> ValidatePassword(p, None) == Pass
    ensures ValidatePassword("abcdef", None) == Pass && !Security.Strong("abcdef")
  {
  }
}
