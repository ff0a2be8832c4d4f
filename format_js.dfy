/**
 * The date-range formatters of frontend/mobile/js/utils/format.js. A
 * start and an end string are normalised to a local date-time, cut into
 * year, month, day, hours and minutes with `split` and `parseInt`, and
 * shown as `MM月DD日 HH:MM-HH:MM` when they fall on the same day and as
 * two `MM月DD日 HH:MM` lines otherwise. The leave and overtime variants
 * are copies of one another and are modelled once.
 *
 * Arguments are strings, with the empty string standing for every falsy
 * value (`undefined`, `null`, `''`). A number read with `parseInt` is a
 * `Num`, `NaN` included.
 */
module DateFormat {
  import opened Base
  import opened Text
  import opened Calendar

  // ---------------------------------------------------------------------
  // parseInt and String
  // ---------------------------------------------------------------------

  /** A JavaScript number as `parseInt` produces it: an integer or `NaN`. */
  datatype Num = NaN | Int(value: int)

  /** The value of a character as a digit in the radices up to 36; 36 for a character that is no digit. */
  function CharValue(c: char): (v: nat)
    ensures v <= 36
    ensures IsDigit(c) ==> v == DigitValue(c)
  {
    if '0' <= c <= '9' then c as int - '0' as int
    else if 'a' <= c <= 'z' then c as int - 'a' as int + 10
    else if 'A' <= c <= 'Z' then c as int - 'A' as int + 10
    else 36
  }

  /** The length of the longest prefix of `s` made of digits in `radix`. */
  function DigitPrefix(s: string, radix: nat): (n: nat)
    ensures n <= |s|
    ensures forall i :: 0 <= i < n ==> CharValue(s[i]) < radix
    ensures n < |s| ==> CharValue(s[n]) >= radix
  {
    if s == [] || CharValue(s[0]) >= radix then 0 else 1 + DigitPrefix(s[1..], radix)
  }

  /** The value of a string of digits in `radix`. */
  function RadixValue(s: string, radix: nat): nat
  {
    if s == [] then 0 else RadixValue(s[..|s| - 1], radix) * radix + CharValue(s[|s| - 1])
  }

  /**
   * `parseInt(s)` with no radix: leading white space skipped, an optional
   * sign, `0x` or `0X` switching to hexadecimal, then the longest run of
   * digits, `NaN` when that run is empty.
   */
  function ParseInt(s: string): Num
  {
    ParseSigned(StripStart(JavaScript, s))
  }

  function ParseSigned(t: string): Num
  {
    if t != [] && t[0] == '-' then Negate(ParseUnsigned(t[1..]))
    else if t != [] && t[0] == '+' then ParseUnsigned(t[1..])
    else ParseUnsigned(t)
  }

  function Negate(n: Num): Num
  {
    match n
    case NaN => NaN
    case Int(v) => Int(-v)
  }

  function ParseUnsigned(u: string): Num
  {
    if |u| >= 2 && u[0] == '0' && (u[1] == 'x' || u[1] == 'X') then DigitRun(u[2..], 16) else DigitRun(u, 10)
  }

  /** The longest run of digits in `radix` at the start of `w`, `NaN` when there is none. */
  function DigitRun(w: string, radix: nat): Num
  {
    var n := DigitPrefix(w, radix);
    if n == 0 then NaN else Int(RadixValue(w[..n], radix))
  }

  /** A lone decimal digit string is a run of radix-10 digits with that value. */
  lemma {:induction false} DecimalRun(d: string)
    requires AllDigits(d)
    ensures DigitPrefix(d, 10) == |d|
    ensures RadixValue(d, 10) == DigitsValue(d)
  {
    if d != [] {
      DecimalRun(d[1..]);
      DecimalRun(d[..|d| - 1]);
    }
  }

  /** The run of digits stops at the first character that is no decimal digit. */
  lemma {:induction false} DecimalRunStops(d: string, rest: string)
    requires AllDigits(d)
    requires rest == [] || CharValue(rest[0]) >= 10
    ensures DigitPrefix(d + rest, 10) == |d|
  {
    if d != [] {
      assert (d + rest)[1..] == d[1..] + rest;
      DecimalRunStops(d[1..], rest);
    } else {
      assert d + rest == rest;
    }
  }

  /**
   * `parseInt` of decimal digits followed by anything that does not begin
   * with a digit or a letter is the value of the digits: `parseInt("07")`
   * is 7 and `parseInt("15 09:00")` is 15.
   */
  lemma ParseIntOfDigits(d: string, rest: string)
    requires d != [] && AllDigits(d)
    requires rest == [] || CharValue(rest[0]) == 36
    ensures ParseInt(d + rest) == Int(DigitsValue(d))
  {
    var s := d + rest;
    assert s[0] == d[0];
    assert |s| >= 2 ==> s[1] != 'x' && s[1] != 'X' by {
      if |d| >= 2 {
        assert s[1] == d[1];
      } else if |s| >= 2 {
        assert s[1] == rest[0];
      }
    }
    DecimalRunStops(d, rest);
    assert s[..|d|] == d;
    DecimalRun(d);
    ParseIntDecimal(s);
  }

  /** A string opening with a decimal digit, and not with `0x`, is read in decimal from its first character. */
  lemma ParseIntDecimal(s: string)
    requires s != [] && IsDigit(s[0])
    requires |s| >= 2 ==> s[1] != 'x' && s[1] != 'X'
    ensures ParseInt(s) == DigitRun(s, 10)
  {
    assert !IsJsSpace(s[0]);
    assert StripStart(JavaScript, s) == s;
    assert ParseSigned(s) == ParseUnsigned(s);
  }

  /** `String(n)`. */
  function NumText(n: Num): string
  {
    match n
    case NaN => "NaN"
    case Int(v) => IntToString(v)
  }

  /** `String(n).padStart(2, '0')`. */
  function Pad2(n: Num): string
  {
    PadStart(NumText(n), 2, '0')
  }

  /** A two-digit field read with `parseInt` and padded again gives back the field. */
  lemma Pad2OfTwoDigits(f: string)
    requires |f| == 2 && AllDigits(f)
    ensures Pad2(ParseInt(f)) == f
  {
    var v := DigitsValue(f);
    assert f + [] == f;
    ParseIntOfDigits(f, []);
    assert Pad2(ParseInt(f)) == PadStart(NatToString(v), 2, '0');
    FieldDigits(f);
    PaddedTwoDigits(v);
  }

  /** `String(v).padStart(2, '0')` of a number below 100 is its two decimal digits. */
  lemma PaddedTwoDigits(v: nat)
    requires v < 100
    ensures PadStart(NatToString(v), 2, '0') == [DigitChar(v / 10), DigitChar(v % 10)]
  {
    if v == 0 {
      assert NatToString(0) == [DigitChar(0)];
      assert DigitChar(0) == '0';
    } else {
      TwoDigits(v);
    }
  }

  /** A two-digit field is the two decimal digits of its value. */
  lemma FieldDigits(f: string)
    requires |f| == 2 && AllDigits(f)
    ensures DigitsValue(f) < 100 && f == [DigitChar(DigitsValue(f) / 10), DigitChar(DigitsValue(f) % 10)]
  {
    var a, b := DigitValue(f[0]), DigitValue(f[1]);
    TwoDigitsValue(f);
    assert (10 * a + b) / 10 == a && (10 * a + b) % 10 == b;
    DigitCharOfValue(f[0]);
    DigitCharOfValue(f[1]);
  }

  lemma DigitCharOfValue(c: char)
    requires IsDigit(c)
    ensures DigitChar(DigitValue(c)) == c
  {
  }

  /** Two digit strings of one length with one value are the same string. */
  lemma {:induction false} DigitsValueInjective(a: string, b: string)
    requires |a| == |b| && AllDigits(a) && AllDigits(b)
    requires DigitsValue(a) == DigitsValue(b)
    ensures a == b
  {
    if a != [] {
      var n := |a| - 1;
      assert DigitsValue(a) % 10 == DigitValue(a[n]) && DigitsValue(b) % 10 == DigitValue(b[n]);
      assert DigitsValue(a) / 10 == DigitsValue(a[..n]) && DigitsValue(b) / 10 == DigitsValue(b[..n]);
      DigitsValueInjective(a[..n], b[..n]);
      assert a == a[..n] + [a[n]] && b == b[..n] + [b[n]];
    }
  }

  // ---------------------------------------------------------------------
  // normalizeDateStr and parseDateTime
  // ---------------------------------------------------------------------

  /**
   * `normalizeDateStr`: a string with a `T` loses everything from its
   * first `.` and then from its first `+` or `Z`; any other string gets
   * `T00:00:00` appended.
   */
  function NormalizeDateStr(s: string): (r: string)
    ensures s == [] ==> r == []
    ensures s != [] && 'T' !in s ==> r == s + "T" + Midnight
    ensures 'T' in s ==> StartsWith(s, r) && '.' !in r && '+' !in r && 'Z' !in r
    ensures 'T' in s && '.' !in s && '+' !in s && 'Z' !in s ==> r == s
  {
    if s == [] then []
    else if 'T' in s then
      var n := Before(s, '.');
      if '+' in n || 'Z' in n then
        var m := Before(n, '+');
        var r := Before(m, 'Z');
        assert '.' !in r && '+' !in r by {
          PrefixKeepsOut(n, m, '.');
          PrefixKeepsOut(m, r, '.');
          PrefixKeepsOut(m, r, '+');
        }
        PrefixTransitive(s, n, m);
        PrefixTransitive(s, m, r);
        r
      else n
    else s + "T" + Midnight
  }

  lemma PrefixKeepsOut(s: string, p: string, c: char)
    requires StartsWith(s, p) && c !in s
    ensures c !in p
  {
    assert forall i :: 0 <= i < |p| ==> p[i] == s[i];
  }

  lemma PrefixTransitive(s: string, p: string, q: string)
    requires StartsWith(s, p) && StartsWith(p, q)
    ensures StartsWith(s, q)
  {
    assert s[..|q|] == p[..|q|];
  }

  /** A two-digit field of zeros. */
  const Zeros := "00"

  /** The clock a date without one is given, `00:00:00`. */
  const Midnight := Zeros + ":" + Zeros + ":" + Zeros

  /** `parts[1] || dflt`. */
  function SecondOr(parts: seq<string>, dflt: string): string
  {
    if |parts| >= 2 && parts[1] != [] then parts[1] else dflt
  }

  /** The fields `parseDateTime` reads, each a `parseInt` result. */
  datatype Stamp = Stamp(year: Num, month: Num, day: Num, hours: Num, minutes: Num)

  /** The date and time parts: split at the first `T`, else at the first space, else the whole string at midnight. */
  function DateTimeParts(s: string): (string, string)
  {
    if 'T' in s then (Split(s, 'T')[0], SecondOr(Split(s, 'T'), Midnight))
    else if ' ' in s then (Split(s, ' ')[0], SecondOr(Split(s, ' '), Midnight))
    else (s, Midnight)
  }

  /** The time part with a zone suffix and then fractional seconds cut off. */
  function CleanTime(t: string): (r: string)
    ensures '+' !in r && 'Z' !in r && '.' !in r
    ensures '+' !in t && 'Z' !in t && '.' !in t ==> r == t
  {
    var u := if '+' in t || 'Z' in t then Before(Before(t, '+'), 'Z') else t;
    assert '+' !in u by {
      if '+' in t || 'Z' in t {
        PrefixKeepsOut(Before(t, '+'), u, '+');
      }
    }
    var r := if '.' in u then Before(u, '.') else u;
    assert '+' !in r && 'Z' !in r by {
      if '.' in u {
        PrefixKeepsOut(u, r, '+');
        PrefixKeepsOut(u, r, 'Z');
      }
    }
    r
  }

  /** `x || '0'`. */
  function OrZero(x: string): string
  {
    if x == [] then "0" else x
  }

  /**
   * `parseDateTime`: no result unless the date part has exactly three
   * `-` fields and the time part at least two `:` fields.
   */
  function ParseDateTime(s: string): (r: Option<Stamp>)
    ensures r.Some? <==> s != [] && |Split(DateTimeParts(s).0, '-')| == 3 && |Split(CleanTime(DateTimeParts(s).1), ':')| >= 2
  {
    if s == [] then None
    else
      var (datePart, timePart) := DateTimeParts(s);
      var dateParts := Split(datePart, '-');
      var timeParts := Split(CleanTime(timePart), ':');
      if |dateParts| != 3 then None
      else if |timeParts| < 2 then None
      else Some(Stamp(ParseInt(dateParts[0]), ParseInt(dateParts[1]), ParseInt(dateParts[2]),
                      ParseInt(OrZero(timeParts[0])), ParseInt(OrZero(timeParts[1]))))
  }

  // ---------------------------------------------------------------------
  // The formatters
  // ---------------------------------------------------------------------

  /** `x === y` on numbers: `NaN` equals nothing, itself included. */
  predicate NumEq(x: Num, y: Num)
  {
    x.Int? && y.Int? && x.value == y.value
  }

  /** `isSameDay`. */
  predicate SameDay(a: Stamp, b: Stamp)
  {
    NumEq(a.year, b.year) && NumEq(a.month, b.month) && NumEq(a.day, b.day)
  }

  /** The `{ date, time }` object. */
  datatype DateTimeText = DateTimeText(date: string, time: string)

  function MonthDay(p: Stamp): string
  {
    Pad2(p.month) + "月" + Pad2(p.day) + "日"
  }

  function Clock(p: Stamp): string
  {
    Pad2(p.hours) + ":" + Pad2(p.minutes)
  }

  /** `formatLeaveDateTime` and its copy `formatOvertimeDateTime`. */
  function FormatDateTime(start: string, end: string): (r: DateTimeText)
    ensures start == [] ==> r == DateTimeText([], [])
    ensures r.date == [] <==> r.time == []
    ensures r.date == [] <==> start == [] || ParseDateTime(NormalizeDateStr(start)).None?
                              || ParseDateTime(NormalizeDateStr(if end == [] then start else end)).None?
  {
    if start == [] then DateTimeText([], [])
    else
      var startParts := ParseDateTime(NormalizeDateStr(start));
      var endParts := ParseDateTime(NormalizeDateStr(if end == [] then start else end));
      if startParts.None? || endParts.None? then DateTimeText([], [])
      else
        var a, b := startParts.value, endParts.value;
        assert |MonthDay(a)| > 0 && |Clock(a)| > 0;
        if SameDay(a, b) then DateTimeText(MonthDay(a), Clock(a) + "-" + Clock(b))
        else DateTimeText(MonthDay(a) + " " + Clock(a), MonthDay(b) + " " + Clock(b))
  }

  /** `formatLeaveDate` and its copy `formatOvertimeDate`: both lines on one, or nothing. */
  function FormatDate(start: string, end: string): (r: string)
    ensures r == [] <==> FormatDateTime(start, end).date == []
  {
    var info := FormatDateTime(start, end);
    if info.date != [] then info.date + " " + info.time else []
  }

  /**
   * `String(h / 2)` for a number of half-days: a whole number without a
   * point, or one ending in `.5`; a minus sign exactly for a negative count.
   */
  function HalfDaysText(h: int): (r: string)
    ensures h % 2 == 0 ==> '.' !in r
    ensures h % 2 == 1 ==> EndsWith(r, ".5")
    ensures r != [] && (r[0] == '-' <==> h < 0)
  {
    if h % 2 == 0 then
      assert '.' !in NatToString(if h < 0 then -h / 2 else h / 2);
      IntToString(h / 2)
    else
      var whole := (if h < 0 then "-" else "") + NatToString(if h < 0 then -h / 2 else h / 2);
      var r := whole + ".5";
      assert r[|r| - 2..] == ".5";
      r
  }

  /** The two defaults show as `1` and `0.5`. */
  lemma DefaultDaysText()
    ensures HalfDaysText(2) == "1" && HalfDaysText(1) == "0.5"
  {
  }

  predicate EndsWith(s: string, suffix: string)
  {
    |suffix| <= |s| && s[|s| - |suffix|..] == suffix
  }

  /** `dateInfo ? `${dateInfo} 共${days}天` : `共${days}天``. */
  function RangeText(info: string, daysText: string): (r: string)
    ensures EndsWith(r, "共" + daysText + "天")
    ensures info != [] ==> StartsWith(r, info + " ")
    ensures info == [] ==> r == "共" + daysText + "天"
  {
    var tail := "共" + daysText + "天";
    if info != [] then
      var r := (info + " ") + tail;
      assert r[|r| - |tail|..] == tail && r[..|info + " "|] == info + " ";
      r
    else tail
  }

  /** The shared body of `formatLeaveRange` and `formatOvertimeRange`, with their title and default. */
  function FormatRange(start: string, end: string, days: Option<int>, title: string, defaultHalves: int): (r: string)
    ensures start == [] ==> r == title
    ensures start != [] ==> EndsWith(r, "共" + HalfDaysText(days.GetOr(defaultHalves)) + "天")
    ensures start != [] && FormatDate(start, end) != [] ==> StartsWith(r, FormatDate(start, end) + " ")
    ensures start != [] && FormatDate(start, end) == [] ==> r == "共" + HalfDaysText(days.GetOr(defaultHalves)) + "天"
  {
    if start == [] then title
    else RangeText(FormatDate(start, end), HalfDaysText(days.GetOr(defaultHalves)))
  }

  /** `formatLeaveRange`: `请假` without a start, one day (two halves) when the count is missing. */
  function FormatLeaveRange(start: string, end: string, leaveDays: Option<int>): (r: string)
    ensures start == [] ==> r == "请假"
    ensures start != [] && leaveDays.None? ==> EndsWith(r, "共" + HalfDaysText(2) + "天")
  {
    FormatRange(start, end, leaveDays, "请假", 2)
  }

  /** `formatOvertimeRange`: `加班` without a start, half a day (one half) when the count is missing. */
  function FormatOvertimeRange(start: string, end: string, days: Option<int>): (r: string)
    ensures start == [] ==> r == "加班"
    ensures start != [] && days.None? ==> EndsWith(r, "共" + HalfDaysText(1) + "天")
  {
    FormatRange(start, end, days, "加班", 1)
  }

  // ---------------------------------------------------------------------
  // Properties
  // ---------------------------------------------------------------------

  /**
   * A missing end is the start again, which shows as one day only when
   * the start's year, month and day are numbers: `NaN` is not equal to
   * itself.
   */
  lemma MissingEndIsStart(start: string)
    requires start != []
    ensures FormatDateTime(start, []) == FormatDateTime(start, start)
    ensures var p := ParseDateTime(NormalizeDateStr(start));
            p.Some? ==>
              (SameDay(p.value, p.value) <==> p.value.year.Int? && p.value.month.Int? && p.value.day.Int?)
              && (SameDay(p.value, p.value) ==> FormatDateTime(start, []) == DateTimeText(MonthDay(p.value), Clock(p.value) + "-" + Clock(p.value)))
  {
  }

  /** No decimal digit is one of the characters the parser cuts at. */
  lemma NoSeparator(f: string, c: char)
    requires AllDigits(f) && !IsDigit(c)
    ensures c !in f
  {
  }

  predicate Field(f: string)
  {
    f != [] && AllDigits(f)
  }

  function IsoDate(y: string, mo: string, d: string): string
  {
    y + "-" + mo + "-" + d
  }

  function IsoTime(h: string, mi: string, sec: string): string
  {
    h + ":" + mi + ":" + sec
  }

  /** `YYYY-MM-DDTHH:mm:ss` from its fields, as the server's `isoformat()` sends it. */
  function IsoLocal(y: string, mo: string, d: string, h: string, mi: string, sec: string): string
  {
    IsoDate(y, mo, d) + "T" + IsoTime(h, mi, sec)
  }

  /** Three fields joined by a separator none of them holds split back into those fields. */
  lemma SplitThree(a: string, b: string, c: string, sep: char)
    requires sep !in a && sep !in b && sep !in c
    ensures Split(a + [sep] + b + [sep] + c, sep) == [a, b, c]
  {
    var bc := b + [sep] + c;
    SplitAfter(b, sep, c);
    assert Split(c, sep) == [c];
    assert a + [sep] + b + [sep] + c == a + [sep] + bc;
    SplitAfter(a, sep, bc);
  }

  /** An ISO date's `-` fields. */
  lemma DateFields(y: string, mo: string, d: string)
    requires '-' !in y && '-' !in mo && '-' !in d
    ensures Split(IsoDate(y, mo, d), '-') == [y, mo, d]
  {
    assert IsoDate(y, mo, d) == y + ['-'] + mo + ['-'] + d;
    SplitThree(y, mo, d, '-');
  }

  /** An ISO time has nothing to clean off and splits into its `:` fields. */
  lemma TimeFields(h: string, mi: string, sec: string)
    requires AllDigits(h) && AllDigits(mi) && AllDigits(sec)
    ensures CleanTime(IsoTime(h, mi, sec)) == IsoTime(h, mi, sec)
    ensures Split(IsoTime(h, mi, sec), ':') == [h, mi, sec]
  {
    var t := IsoTime(h, mi, sec);
    NoSeparator(h, ':'); NoSeparator(mi, ':'); NoSeparator(sec, ':');
    NoSeparator(h, '+'); NoSeparator(mi, '+'); NoSeparator(sec, '+');
    NoSeparator(h, 'Z'); NoSeparator(mi, 'Z'); NoSeparator(sec, 'Z');
    NoSeparator(h, '.'); NoSeparator(mi, '.'); NoSeparator(sec, '.');
    assert t == h + [':'] + mi + [':'] + sec;
    assert '+' !in t && 'Z' !in t && '.' !in t;
    SplitThree(h, mi, sec, ':');
  }

  /** The date and time parts of an ISO local date-time are the text on either side of its `T`. */
  lemma IsoLocalParts(y: string, mo: string, d: string, h: string, mi: string, sec: string)
    requires AllDigits(y) && AllDigits(mo) && AllDigits(d) && AllDigits(h) && AllDigits(mi) && AllDigits(sec)
    ensures var s := IsoLocal(y, mo, d, h, mi, sec);
            'T' in s && DateTimeParts(s) == (IsoDate(y, mo, d), IsoTime(h, mi, sec))
  {
    var date, time := IsoDate(y, mo, d), IsoTime(h, mi, sec);
    NoSeparator(y, 'T'); NoSeparator(mo, 'T'); NoSeparator(d, 'T');
    NoSeparator(h, 'T'); NoSeparator(mi, 'T'); NoSeparator(sec, 'T');
    assert 'T' !in date && 'T' !in time;
    assert IsoLocal(y, mo, d, h, mi, sec) == date + ['T'] + time;
    SplitAfter(date, 'T', time);
    assert Split(time, 'T') == [time];
  }

  /** An ISO local date-time is kept whole by `normalizeDateStr`. */
  lemma IsoLocalNormal(y: string, mo: string, d: string, h: string, mi: string, sec: string)
    requires AllDigits(y) && AllDigits(mo) && AllDigits(d) && AllDigits(h) && AllDigits(mi) && AllDigits(sec)
    ensures NormalizeDateStr(IsoLocal(y, mo, d, h, mi, sec)) == IsoLocal(y, mo, d, h, mi, sec)
  {
    var s := IsoLocal(y, mo, d, h, mi, sec);
    NoSeparator(y, '.'); NoSeparator(mo, '.'); NoSeparator(d, '.');
    NoSeparator(h, '.'); NoSeparator(mi, '.'); NoSeparator(sec, '.');
    NoSeparator(y, '+'); NoSeparator(mo, '+'); NoSeparator(d, '+');
    NoSeparator(h, '+'); NoSeparator(mi, '+'); NoSeparator(sec, '+');
    NoSeparator(y, 'Z'); NoSeparator(mo, 'Z'); NoSeparator(d, 'Z');
    NoSeparator(h, 'Z'); NoSeparator(mi, 'Z'); NoSeparator(sec, 'Z');
    assert s == y + "-" + mo + "-" + d + "T" + h + ":" + mi + ":" + sec;
    assert '.' !in s && '+' !in s && 'Z' !in s;
    assert 'T' in s by {
      IsoLocalParts(y, mo, d, h, mi, sec);
    }
  }

  /** `parseInt` of a field, which `|| '0'` leaves alone. */
  lemma FieldRead(f: string)
    requires Field(f)
    ensures ParseInt(f) == Int(DigitsValue(f)) && OrZero(f) == f
  {
    assert f + [] == f;
    ParseIntOfDigits(f, []);
  }

  /** The stamp read from digit fields. */
  function FieldStamp(y: string, mo: string, d: string, h: string, mi: string): Stamp
    requires AllDigits(y) && AllDigits(mo) && AllDigits(d) && AllDigits(h) && AllDigits(mi)
  {
    Stamp(Int(DigitsValue(y)), Int(DigitsValue(mo)), Int(DigitsValue(d)), Int(DigitsValue(h)), Int(DigitsValue(mi)))
  }

  /**
   * An ISO local date-time is left as it is by `normalizeDateStr` and is
   * read field by field: every field is the value of its digits.
   */
  lemma IsoLocalParsed(y: string, mo: string, d: string, h: string, mi: string, sec: string)
    requires Field(y) && Field(mo) && Field(d) && Field(h) && Field(mi) && Field(sec)
    ensures var s := IsoLocal(y, mo, d, h, mi, sec);
            NormalizeDateStr(s) == s && ParseDateTime(s) == Some(FieldStamp(y, mo, d, h, mi))
  {
    IsoLocalNormal(y, mo, d, h, mi, sec);
    IsoLocalParts(y, mo, d, h, mi, sec);
    NoSeparator(y, '-'); NoSeparator(mo, '-'); NoSeparator(d, '-');
    DateFields(y, mo, d);
    TimeFields(h, mi, sec);
    ParsedFrom(IsoLocal(y, mo, d, h, mi, sec), y, mo, d, h, mi, sec);
    FieldRead(y); FieldRead(mo); FieldRead(d); FieldRead(h); FieldRead(mi);
  }

  /** Two-digit fields and a four-digit year. */
  predicate IsoFields(y: string, mo: string, d: string, h: string, mi: string, sec: string)
  {
    |y| == 4 && |mo| == 2 && |d| == 2 && |h| == 2 && |mi| == 2 && |sec| == 2
    && AllDigits(y) && AllDigits(mo) && AllDigits(d) && AllDigits(h) && AllDigits(mi) && AllDigits(sec)
  }

  /**
   * The shown text copies the fields of two ISO local date-times: one
   * date and the two clocks when the date fields agree, two dated clocks
   * when they do not.
   */
  lemma FormatIsoLocal(y1: string, mo1: string, d1: string, h1: string, mi1: string, s1: string,
                       y2: string, mo2: string, d2: string, h2: string, mi2: string, s2: string)
    requires IsoFields(y1, mo1, d1, h1, mi1, s1) && IsoFields(y2, mo2, d2, h2, mi2, s2)
    ensures var r := FormatDateTime(IsoLocal(y1, mo1, d1, h1, mi1, s1), IsoLocal(y2, mo2, d2, h2, mi2, s2));
            if y1 == y2 && mo1 == mo2 && d1 == d2 then
              r == DateTimeText(MonthDayText(mo1, d1), ClockText(h1, mi1) + "-" + ClockText(h2, mi2))
            else
              r == DateTimeText(MonthDayText(mo1, d1) + " " + ClockText(h1, mi1), MonthDayText(mo2, d2) + " " + ClockText(h2, mi2))
  {
    var a := IsoLocal(y1, mo1, d1, h1, mi1, s1);
    var b := IsoLocal(y2, mo2, d2, h2, mi2, s2);
    IsoLocalParsed(y1, mo1, d1, h1, mi1, s1);
    IsoLocalParsed(y2, mo2, d2, h2, mi2, s2);
    var p, q := FieldStamp(y1, mo1, d1, h1, mi1), FieldStamp(y2, mo2, d2, h2, mi2);
    FormatOfStamps(a, b, p, q);
    StampShown(y1, mo1, d1, h1, mi1);
    StampShown(y2, mo2, d2, h2, mi2);
    SameDayIffSameFields(y1, mo1, d1, h1, mi1, y2, mo2, d2, h2, mi2);
    if y1 == y2 && mo1 == mo2 && d1 == d2 {
      assert SameDay(p, q);
    } else {
      assert !SameDay(p, q);
    }
  }

  /** The formatter, for two strings that parse. */
  lemma FormatOfStamps(a: string, b: string, p: Stamp, q: Stamp)
    requires a != [] && b != []
    requires ParseDateTime(NormalizeDateStr(a)) == Some(p) && ParseDateTime(NormalizeDateStr(b)) == Some(q)
    ensures FormatDateTime(a, b) == if SameDay(p, q) then DateTimeText(MonthDay(p), Clock(p) + "-" + Clock(q))
                                    else DateTimeText(MonthDay(p) + " " + Clock(p), MonthDay(q) + " " + Clock(q))
  {
  }

  /** Same-length digit fields are read as the same day exactly when they are the same text. */
  lemma SameDayIffSameFields(y1: string, mo1: string, d1: string, h1: string, mi1: string,
                             y2: string, mo2: string, d2: string, h2: string, mi2: string)
    requires |y1| == |y2| && |mo1| == |mo2| && |d1| == |d2|
    requires AllDigits(y1) && AllDigits(mo1) && AllDigits(d1) && AllDigits(h1) && AllDigits(mi1)
    requires AllDigits(y2) && AllDigits(mo2) && AllDigits(d2) && AllDigits(h2) && AllDigits(mi2)
    ensures SameDay(FieldStamp(y1, mo1, d1, h1, mi1), FieldStamp(y2, mo2, d2, h2, mi2)) <==> y1 == y2 && mo1 == mo2 && d1 == d2
  {
    if DigitsValue(y1) == DigitsValue(y2) && DigitsValue(mo1) == DigitsValue(mo2) && DigitsValue(d1) == DigitsValue(d2) {
      DigitsValueInjective(y1, y2);
      DigitsValueInjective(mo1, mo2);
      DigitsValueInjective(d1, d2);
    }
  }

  /** `MM月DD日` from the two fields. */
  function MonthDayText(mo: string, d: string): string
  {
    mo + "月" + d + "日"
  }

  /** `HH:MM` from the two fields. */
  function ClockText(h: string, mi: string): string
  {
    h + ":" + mi
  }

  /** A stamp read from two-digit fields shows those fields. */
  lemma StampShown(y: string, mo: string, d: string, h: string, mi: string)
    requires |mo| == 2 && |d| == 2 && |h| == 2 && |mi| == 2
    requires AllDigits(y) && AllDigits(mo) && AllDigits(d) && AllDigits(h) && AllDigits(mi)
    ensures MonthDay(FieldStamp(y, mo, d, h, mi)) == MonthDayText(mo, d)
    ensures Clock(FieldStamp(y, mo, d, h, mi)) == ClockText(h, mi)
  {
    FieldRead(mo); FieldRead(d); FieldRead(h); FieldRead(mi);
    Pad2OfTwoDigits(mo); Pad2OfTwoDigits(d); Pad2OfTwoDigits(h); Pad2OfTwoDigits(mi);
  }

  /**
   * A space-separated `YYYY-MM-DD HH:mm` has no `T`, so `normalizeDateStr`
   * appends `T00:00:00` and the clock it carried is lost: the day field
   * reads `DD HH:mm` as DD and the time is midnight. The space branch of
   * `parseDateTime` is never reached from the formatters.
   */
  lemma SpaceSeparatedTimeIsLost(y: string, mo: string, d: string, clock: string)
    requires Field(y) && Field(mo) && Field(d)
    requires 'T' !in clock && '-' !in clock
    ensures var s := NormalizeDateStr(IsoDate(y, mo, d) + " " + clock);
            ParseDateTime(s) == Some(Stamp(Int(DigitsValue(y)), Int(DigitsValue(mo)), Int(DigitsValue(d)), Int(0), Int(0)))
  {
    NoSeparator(y, 'T'); NoSeparator(mo, 'T'); NoSeparator(d, 'T');
    NoSeparator(y, '-'); NoSeparator(mo, '-'); NoSeparator(d, '-');
    var dayField := d + " " + clock;
    var datePart := IsoDate(y, mo, dayField);
    assert IsoDate(y, mo, d) + " " + clock == datePart;
    assert 'T' !in datePart && '-' !in dayField;
    MidnightRead();
    SpaceSeparatedParts(datePart);
    DateFields(y, mo, dayField);
    ParsedFrom(NormalizeDateStr(datePart), y, mo, dayField, Zeros, Zeros, Zeros);
    FieldRead(y); FieldRead(mo);
    DayFieldRead(d, clock);
  }

  /** `parseInt("DD HH:mm")` is DD. */
  lemma DayFieldRead(d: string, clock: string)
    requires Field(d)
    ensures ParseInt(d + " " + clock) == Int(DigitsValue(d))
  {
    assert d + " " + clock == d + (" " + clock);
    ParseIntOfDigits(d, " " + clock);
  }

  /** `parseDateTime` of a string whose parts split into the given fields. */
  lemma ParsedFrom(s: string, y: string, mo: string, d: string, h: string, mi: string, sec: string)
    requires s != []
    requires Split(DateTimeParts(s).0, '-') == [y, mo, d]
    requires Split(CleanTime(DateTimeParts(s).1), ':') == [h, mi, sec]
    ensures ParseDateTime(s) == Some(Stamp(ParseInt(y), ParseInt(mo), ParseInt(d), ParseInt(OrZero(h)), ParseInt(OrZero(mi))))
  {
  }

  /** A date part without a `T` is given the midnight clock. */
  lemma SpaceSeparatedParts(datePart: string)
    requires datePart != [] && 'T' !in datePart
    ensures DateTimeParts(NormalizeDateStr(datePart)) == (datePart, Midnight)
  {
    MidnightRead();
    PartsAtT(NormalizeDateStr(datePart), datePart, Midnight);
  }

  /** A string with exactly one `T` splits around it. */
  lemma PartsAtT(s: string, a: string, b: string)
    requires s == a + ['T'] + b && 'T' !in a && 'T' !in b && b != []
    ensures DateTimeParts(s) == (a, b)
  {
    assert 'T' in s by { assert s[|a|] == 'T'; }
    SplitAfter(a, 'T', b);
    var tail := Split(b, 'T');
    assert tail == [b] by { assert |tail| == 1 && Join(tail, 'T') == tail[0]; }
    assert Split(s, 'T') == [a, b];
  }

  lemma ZerosField()
    ensures |Zeros| == 2 && AllDigits(Zeros) && DigitsValue(Zeros) == 0
  {
    TwoDigitsValue(Zeros);
  }

  /** `00:00:00` has no `T`, no zone and reads as hour 0, minute 0. */
  lemma MidnightRead()
    ensures Midnight == IsoTime(Zeros, Zeros, Zeros)
    ensures 'T' !in Midnight && CleanTime(Midnight) == Midnight
    ensures Split(Midnight, ':') == [Zeros, Zeros, Zeros] && ParseInt(Zeros) == Int(0)
  {
    ZerosField();
    NoSeparator(Zeros, 'T');
    TimeFields(Zeros, Zeros, Zeros);
    FieldRead(Zeros);
  }
}
