/**
 * The proleptic Gregorian calendar as Python's `datetime.date` computes it:
 * day ordinals (0001-01-01 is day 1), `weekday()`, `isoformat()`, adding
 * one day, and `datetime.strptime(s, "%Y-%m-%d")`. Instants are seconds
 * counted from midnight before day 0, so that an instant's day is its
 * ordinal.
 */
module Calendar {
  import opened Base
  import opened Text

  datatype Date = Date(year: int, month: int, day: int)

  predicate IsLeap(y: int)
  {
    y % 4 == 0 && (y % 100 != 0 || y % 400 == 0)
  }

  function DaysInMonth(y: int, m: int): (n: int)
    requires 1 <= m <= 12
    ensures 28 <= n <= 31
    ensures n == 29 <==> m == 2 && IsLeap(y)
  {
    if m == 2 then (if IsLeap(y) then 29 else 28)
    else if m == 4 || m == 6 || m == 9 || m == 11 then 30
    else 31
  }

  /** A date Python can represent (`MINYEAR` 1 to `MAXYEAR` 9999). */
  predicate Valid(d: Date)
  {
    1 <= d.year <= 9999 && 1 <= d.month <= 12 && 1 <= d.day <= DaysInMonth(d.year, d.month)
  }

  const MaxDate := Date(9999, 12, 31)

  /** `_days_before_year`. */
  function DaysBeforeYear(y: int): int
  {
    var y1 := y - 1;
    y1 * 365 + y1 / 4 - y1 / 100 + y1 / 400
  }

  /** `_days_before_month`. */
  function DaysBeforeMonth(y: int, m: int): int
    requires 1 <= m <= 12
  {
    var before :=
      if m == 1 then 0 else if m == 2 then 31 else if m == 3 then 59
      else if m == 4 then 90 else if m == 5 then 120 else if m == 6 then 151
      else if m == 7 then 181 else if m == 8 then 212 else if m == 9 then 243
      else if m == 10 then 273 else if m == 11 then 304 else 334;
    before + (if m > 2 && IsLeap(y) then 1 else 0)
  }

  /** `date.toordinal()`. */
  function Ordinal(d: Date): int
    requires Valid(d)
  {
    DaysBeforeYear(d.year) + DaysBeforeMonth(d.year, d.month) + d.day
  }

  /** `date.weekday()`: 0 is Monday, 6 is Sunday. */
  function Weekday(d: Date): (w: int)
    requires Valid(d)
    ensures 0 <= w < 7
  {
    (Ordinal(d) + 6) % 7
  }

  /** `d + timedelta(days=1)`; past `MaxDate` it leaves the valid range. */
  function NextDay(d: Date): Date
    requires Valid(d)
  {
    if d.day < DaysInMonth(d.year, d.month) then Date(d.year, d.month, d.day + 1)
    else if d.month < 12 then Date(d.year, d.month + 1, 1)
    else Date(d.year + 1, 1, 1)
  }

  lemma YearLength(y: int)
    requires 1 <= y
    ensures DaysBeforeYear(y + 1) == DaysBeforeYear(y) + (if IsLeap(y) then 366 else 365)
  {
    DivStep(y, 4);
    DivStep(y, 100);
    DivStep(y, 400);
    DividesFactor(y, 4, 25);
    DividesFactor(y, 100, 4);
    var n4, n100, n400 := y / 4 - (y - 1) / 4, y / 100 - (y - 1) / 100, y / 400 - (y - 1) / 400;
    assert n4 - n100 + n400 == if IsLeap(y) then 1 else 0;
    assert DaysBeforeYear(y + 1) - DaysBeforeYear(y) == 365 + n4 - n100 + n400;
  }

  /** A multiple of `k * m` is a multiple of `k`. */
  lemma DividesFactor(y: int, k: int, m: int)
    requires k > 0 && m > 0
    ensures y % (k * m) == 0 ==> y % k == 0
  {
    if y % (k * m) == 0 {
      var q := y / (k * m);
      assert y == (k * m) * q;
      assert y == k * (m * q) + 0;
      DivUnique(y, k, m * q, 0);
    }
  }

  /** Going from `y - 1` to `y` adds one to the quotient exactly when `k` divides `y`. */
  lemma DivStep(y: int, k: int)
    requires k > 0
    ensures y / k == (y - 1) / k + (if y % k == 0 then 1 else 0)
  {
    var q, r := (y - 1) / k, (y - 1) % k;
    assert y - 1 == k * q + r && 0 <= r < k;
    if r == k - 1 {
      assert y == k * (q + 1) + 0;
      DivUnique(y, k, q + 1, 0);
    } else {
      assert y == k * q + (r + 1);
      DivUnique(y, k, q, r + 1);
    }
  }

  lemma DivUnique(a: int, k: int, q: int, r: int)
    requires k > 0 && a == k * q + r && 0 <= r < k
    ensures a / k == q && a % k == r
  {
    var q', r' := a / k, a % k;
    assert a == k * q' + r' && 0 <= r' < k;
    if q' > q {
      assert k * q' >= k * (q + 1) by { MulMono(k, q + 1, q'); }
    } else if q' < q {
      assert k * q >= k * (q' + 1) by { MulMono(k, q' + 1, q); }
    }
  }

  lemma MulMono(k: int, a: int, b: int)
    requires k > 0 && a <= b
    ensures k * a <= k * b
  {
    assert k * b - k * a == k * (b - a);
  }

  /** Adding a day advances the ordinal by exactly one and stays valid. */
  lemma {:induction false} NextDayOrdinal(d: Date)
    requires Valid(d) && d != MaxDate
    ensures Valid(NextDay(d))
    ensures Ordinal(NextDay(d)) == Ordinal(d) + 1
  {
    if d.day == DaysInMonth(d.year, d.month) && d.month == 12 {
      YearLength(d.year);
    }
  }

  /** Python orders dates field by field; that is the order of ordinals. */
  predicate Lexicographic(a: Date, b: Date)
  {
    a.year < b.year || (a.year == b.year && (a.month < b.month || (a.month == b.month && a.day <= b.day)))
  }

  lemma {:induction false} YearsOrdered(y: int, z: int)
    requires 1 <= y <= z
    ensures DaysBeforeYear(y) + (z - y) * 365 <= DaysBeforeYear(z)
    decreases z - y
  {
    if y < z {
      YearsOrdered(y, z - 1);
      YearLength(z - 1);
    }
  }

  lemma {:induction false} OrdinalOrder(a: Date, b: Date)
    requires Valid(a) && Valid(b)
    ensures Lexicographic(a, b) <==> Ordinal(a) <= Ordinal(b)
  {
    if a.year < b.year {
      YearsOrdered(a.year + 1, b.year);
      YearLength(a.year);
    } else if b.year < a.year {
      YearsOrdered(b.year + 1, a.year);
      YearLength(b.year);
    }
  }

  /** `isoformat()`: `"%04d-%02d-%02d"`. */
  function IsoFormat(d: Date): string
    requires Valid(d)
  {
    PadStart(NatToString(d.year), 4, '0') + "-" + PadStart(NatToString(d.month), 2, '0')
    + "-" + PadStart(NatToString(d.day), 2, '0')
  }

  function DigitValue(c: char): (v: int)
    ensures IsDigit(c) ==> 0 <= v < 10
  {
    c as int - '0' as int
  }

  /** The value of a string of ASCII decimal digits. */
  function DigitsValue(s: string): nat
    requires forall i :: 0 <= i < |s| ==> IsDigit(s[i])
  {
    if s == [] then 0 else DigitsValue(s[..|s| - 1]) * 10 + DigitValue(s[|s| - 1])
  }

  predicate AllDigits(s: string)
  {
    forall i :: 0 <= i < |s| ==> IsDigit(s[i])
  }

  /** A two-digit field is worth ten times its first digit plus its second. */
  lemma TwoDigitsValue(f: string)
    requires |f| == 2 && AllDigits(f)
    ensures DigitsValue(f) == 10 * DigitValue(f[0]) + DigitValue(f[1])
  {
    var g := f[..1];
    assert g[..0] == [] && g[0] == f[0];
    assert DigitsValue(g) == DigitValue(f[0]);
  }

  /**
   * The `%m` group of `strptime`: `1[0-2]|0[1-9]|[1-9]` at position `i`,
   * giving the month and the position after it.
   */
  function MatchMonth(s: string, i: nat): Option<(int, nat)>
  {
    if i + 1 < |s| && s[i] == '1' && '0' <= s[i + 1] <= '2' then Some((10 + DigitValue(s[i + 1]), i + 2))
    else if i + 1 < |s| && s[i] == '0' && '1' <= s[i + 1] <= '9' then Some((DigitValue(s[i + 1]), i + 2))
    else if i < |s| && '1' <= s[i] <= '9' then Some((DigitValue(s[i]), i + 1))
    else None
  }

  /** The `%d` group: `3[01]|[12]\d|0[1-9]|[1-9]| [1-9]`, first alternative that matches. */
  function MatchDay(s: string, i: nat): Option<(int, nat)>
  {
    if i + 1 < |s| && s[i] == '3' && '0' <= s[i + 1] <= '1' then Some((30 + DigitValue(s[i + 1]), i + 2))
    else if i + 1 < |s| && '1' <= s[i] <= '2' && IsDigit(s[i + 1]) then Some((10 * DigitValue(s[i]) + DigitValue(s[i + 1]), i + 2))
    else if i + 1 < |s| && s[i] == '0' && '1' <= s[i + 1] <= '9' then Some((DigitValue(s[i + 1]), i + 2))
    else if i < |s| && '1' <= s[i] <= '9' then Some((DigitValue(s[i]), i + 1))
    else if i + 1 < |s| && s[i] == ' ' && '1' <= s[i + 1] <= '9' then Some((DigitValue(s[i + 1]), i + 2))
    else None
  }

  /**
   * `datetime.strptime(s, "%Y-%m-%d").date()`, with `None` for the
   * `ValueError` cases: no regex match, unconverted trailing data, or a
   * day that the month does not have (or year 0).
   */
  function ParseYmd(s: string): (r: Option<Date>)
    ensures r.Some? ==> Valid(r.value)
  {
    if |s| < 5 || !AllDigits(s[..4]) || s[4] != '-' then None
    else
      match MatchMonth(s, 5)
      case None => None
      case Some((m, j)) =>
        if j >= |s| || s[j] != '-' then None
        else
          match MatchDay(s, j + 1)
          case None => None
          case Some((d, k)) =>
            if k != |s| then None
            else
              var date := Date(DigitsValue(s[..4]), m, d);
              FourDigitsBound(s[..4]);
              if 1 <= date.year && 1 <= m <= 12 && 1 <= d <= DaysInMonth(date.year, m) then Some(date) else None
  }

  lemma {:induction false} NatToStringValue(n: nat)
    ensures AllDigits(NatToString(n)) && DigitsValue(NatToString(n)) == n
    decreases n
  {
    var r := NatToString(n);
    if n >= 10 {
      NatToStringValue(n / 10);
      assert r[..|r| - 1] == NatToString(n / 10);
    }
  }

  lemma {:induction false} LeadingZeros(z: nat, s: string)
    requires AllDigits(s)
    ensures AllDigits(seq(z, _ => '0') + s)
    ensures DigitsValue(seq(z, _ => '0') + s) == DigitsValue(s)
    decreases |s|
  {
    var t := seq(z, _ => '0') + s;
    if s == [] {
      ZerosValue(z);
      assert t == seq(z, _ => '0');
    } else {
      LeadingZeros(z, s[..|s| - 1]);
      assert t[..|t| - 1] == seq(z, _ => '0') + s[..|s| - 1];
    }
  }

  lemma {:induction false} ZerosValue(z: nat)
    ensures AllDigits(seq(z, _ => '0'))
    ensures DigitsValue(seq(z, _ => '0')) == 0
  {
    if z > 0 {
      ZerosValue(z - 1);
      assert seq(z, _ => '0')[..z - 1] == seq(z - 1, _ => '0');
    }
  }

  /** Zero-padding to a width keeps the decimal value. */
  lemma PaddedValue(n: nat, w: nat)
    ensures AllDigits(PadStart(NatToString(n), w, '0'))
    ensures DigitsValue(PadStart(NatToString(n), w, '0')) == n
  {
    var s := NatToString(n);
    NatToStringValue(n);
    if |s| < w {
      LeadingZeros(w - |s|, s);
    }
  }

  lemma FourDigitsBound(s: string)
    requires |s| == 4 && AllDigits(s)
    ensures DigitsValue(s) <= 9999
  {
    var a, b, c := s[..1], s[..2], s[..3];
    assert a[..0] == [] && b[..1] == a && c[..2] == b;
    assert DigitsValue(a) <= 9;
    assert DigitsValue(b) <= 99;
    assert DigitsValue(c) <= 999;
  }

  lemma DigitCharValue(x: int)
    requires 0 <= x < 10
    ensures IsDigit(DigitChar(x)) && DigitValue(DigitChar(x)) == x
  {
  }

  /** `"%02d"` of a one- or two-digit number. */
  lemma TwoDigits(n: int)
    requires 1 <= n <= 99
    ensures PadStart(NatToString(n), 2, '0') == [DigitChar(n / 10), DigitChar(n % 10)]
  {
    if n < 10 {
      assert NatToString(n) == [DigitChar(n)];
      assert DigitChar(0) == '0';
    } else {
      assert NatToString(n / 10) == [DigitChar(n / 10)];
      assert NatToString(n) == [DigitChar(n / 10), DigitChar(n % 10)];
    }
  }

  /** `"%04d"` of a year is four digits whose value is the year. */
  lemma FourDigitYear(y: int)
    requires 1 <= y <= 9999
    ensures |PadStart(NatToString(y), 4, '0')| == 4
    ensures AllDigits(PadStart(NatToString(y), 4, '0'))
    ensures DigitsValue(PadStart(NatToString(y), 4, '0')) == y
  {
    DigitLength(y, 4);
    PaddedValue(y, 4);
  }

  function Pow10(k: nat): nat
  {
    if k == 0 then 1 else 10 * Pow10(k - 1)
  }

  lemma {:induction false} DigitLength(n: nat, k: nat)
    requires 1 <= k && n < Pow10(k)
    ensures |NatToString(n)| <= k
    decreases k
  {
    if n >= 10 {
      assert k > 1;
      DigitLength(n / 10, k - 1);
    }
  }

  lemma MonthMatches(s: string, m: int)
    requires 1 <= m <= 12 && |s| >= 7
    requires s[5] == DigitChar(m / 10) && s[6] == DigitChar(m % 10)
    ensures MatchMonth(s, 5) == Some((m, 7))
  {
    DigitCharValue(m / 10);
    DigitCharValue(m % 10);
  }

  lemma DayMatches(s: string, d: int)
    requires 1 <= d <= 31 && |s| >= 10
    requires s[8] == DigitChar(d / 10) && s[9] == DigitChar(d % 10)
    ensures MatchDay(s, 8) == Some((d, 10))
  {
    DigitCharValue(d / 10);
    DigitCharValue(d % 10);
  }

  /** `strptime` reads back every date that `isoformat` writes. */
  lemma ParseIsoFormat(d: Date)
    requires Valid(d)
    ensures ParseYmd(IsoFormat(d)) == Some(d)
  {
    var s := IsoFormat(d);
    IsoLayout(d);
    MonthMatches(s, d.month);
    DayMatches(s, d.day);
    ParseOfFields(s, d);
  }

  /** Where `isoformat` puts each field. */
  lemma IsoLayout(d: Date)
    requires Valid(d)
    ensures var s := IsoFormat(d);
            |s| == 10 && AllDigits(s[..4]) && DigitsValue(s[..4]) == d.year && s[4] == '-' && s[7] == '-'
            && s[5] == DigitChar(d.month / 10) && s[6] == DigitChar(d.month % 10)
            && s[8] == DigitChar(d.day / 10) && s[9] == DigitChar(d.day % 10)
  {
    assert d.day <= 31;
    TwoDigits(d.month);
    TwoDigits(d.day);
    FourDigitYear(d.year);
    var y := PadStart(NatToString(d.year), 4, '0');
    var mm := PadStart(NatToString(d.month), 2, '0');
    var dd := PadStart(NatToString(d.day), 2, '0');
    FieldsAt(y, mm, dd);
  }

  /** The layout of `y-mm-dd` for a four-character `y` and two-character `mm`, `dd`. */
  lemma FieldsAt(y: string, mm: string, dd: string)
    requires |y| == 4 && |mm| == 2 && |dd| == 2
    ensures var s := y + "-" + mm + "-" + dd;
            |s| == 10 && s[..4] == y && s[4] == '-' && s[7] == '-'
            && s[5] == mm[0] && s[6] == mm[1] && s[8] == dd[0] && s[9] == dd[1]
  {
  }

  /** `strptime` of ten characters whose fields are the ones of a valid date. */
  lemma ParseOfFields(s: string, d: Date)
    requires Valid(d) && |s| == 10 && AllDigits(s[..4]) && DigitsValue(s[..4]) == d.year
    requires s[4] == '-' && s[7] == '-'
    requires MatchMonth(s, 5) == Some((d.month, 7)) && MatchDay(s, 8) == Some((d.day, 10))
    ensures ParseYmd(s) == Some(d)
  {
  }

  // ---------------------------------------------------------------------
  // Instants.

  const SecondsPerDay := 86400

  /** A `datetime` as whole seconds since the midnight opening day 0. */
  type Instant = int

  function DayOf(t: Instant): int
  {
    t / SecondsPerDay
  }

  /** `dt.time()` as seconds after midnight. */
  function TimeOf(t: Instant): (s: int)
    ensures 0 <= s < SecondsPerDay
  {
    t % SecondsPerDay
  }

  function HourOf(t: Instant): int
  {
    TimeOf(t) / 3600
  }

  function MinuteOf(t: Instant): int
  {
    TimeOf(t) % 3600 / 60
  }

  function At(day: int, secondOfDay: int): Instant
  {
    day * SecondsPerDay + secondOfDay
  }

  lemma AtParts(day: int, s: int)
    requires 0 <= s < SecondsPerDay
    ensures DayOf(At(day, s)) == day && TimeOf(At(day, s)) == s
  {
  }
}
