/**
 * What the browser's `Date` makes of the ISO 8601 strings the clients
 * build: a date-only `YYYY-MM-DD`, read as that day, and a local date-time
 * `YYYY-MM-DDTHH:mm` or `YYYY-MM-DDTHH:mm:ss`, read as whole seconds. The
 * local time zone is taken to have no daylight-saving transitions, so a
 * local day is always 86400 seconds and local and UTC midnights differ by
 * a constant. Any other string is an invalid date (`NaN`), written `None`:
 * every comparison with it is false and every difference `NaN`.
 */
module JsDates {
  import opened Base
  import opened Text
  import opened Calendar

  /** `new Date("YYYY-MM-DD")`: exactly four, two and two digits, naming a day the month has. */
  function ParseIsoDate(s: string): (r: Option<Date>)
    ensures r.Some? ==> Valid(r.value)
  {
    if |s| == 10 && s[4] == '-' && s[7] == '-' && AllDigits(s[..4]) && AllDigits(s[5..7]) && AllDigits(s[8..]) then
      var d := Date(DigitsValue(s[..4]), DigitsValue(s[5..7]), DigitsValue(s[8..]));
      if Valid(d) then Some(d) else None
    else None
  }

  /** The clock of a date-time string: `HH:mm` or `HH:mm:ss`, hours below 24, minutes and seconds below 60. */
  function ParseClock(t: string): (r: Option<int>)
    ensures r.Some? ==> 0 <= r.value < SecondsPerDay
  {
    if (|t| == 5 || (|t| == 8 && t[5] == ':' && AllDigits(t[6..8]))) && t[2] == ':' && AllDigits(t[..2]) && AllDigits(t[3..5]) then
      var h, m := DigitsValue(t[..2]), DigitsValue(t[3..5]);
      var sec := if |t| == 8 then DigitsValue(t[6..8]) else 0;
      if h < 24 && m < 60 && sec < 60 then Some(h * 3600 + m * 60 + sec) else None
    else None
  }

  /** `new Date(s)` for a local date-time string, as seconds from the midnight opening day 0. */
  function ParseDateTime(s: string): (r: Option<int>)
    ensures r.Some? ==> |s| >= 11 && ParseIsoDate(s[..10]).Some? && DayOf(r.value) == Ordinal(ParseIsoDate(s[..10]).value)
  {
    if |s| >= 11 && s[10] == 'T' then
      match (ParseIsoDate(s[..10]), ParseClock(s[11..]))
      case (Some(d), Some(c)) => AtParts(Ordinal(d), c); Some(At(Ordinal(d), c))
      case _ => None
    else None
  }

  /** A date string joined to a clock with `T` is read as that day at that time. */
  lemma DateAtClock(date: string, clock: string)
    requires |date| == 10
    ensures var s := date + "T" + clock;
            && (ParseIsoDate(date).Some? && ParseClock(clock).Some? ==>
                  ParseDateTime(s) == Some(At(Ordinal(ParseIsoDate(date).value), ParseClock(clock).value)))
            && (ParseIsoDate(date).None? || ParseClock(clock).None? ==> ParseDateTime(s).None?)
  {
    var s := date + "T" + clock;
    assert s[..10] == date && s[10] == 'T' && s[11..] == clock;
  }

  /** `isoformat()` of a valid date is read back as that date. */
  lemma ParseOfIsoFormat(d: Date)
    requires Valid(d)
    ensures ParseIsoDate(IsoFormat(d)) == Some(d)
  {
    var y := PadStart(NatToString(d.year), 4, '0');
    var mm := PadStart(NatToString(d.month), 2, '0');
    var dd := PadStart(NatToString(d.day), 2, '0');
    FourDigitYear(d.year);
    DigitLength(d.month, 2);
    DigitLength(d.day, 2);
    PaddedValue(d.month, 2);
    PaddedValue(d.day, 2);
    TwoDigits(d.month);
    TwoDigits(d.day);
    assert IsoFormat(d) == y + "-" + mm + "-" + dd;
    IsoShape(y, mm, dd);
  }

  lemma IsoShape(y: string, mm: string, dd: string)
    requires |y| == 4 && |mm| == 2 && |dd| == 2
    ensures var s := y + "-" + mm + "-" + dd;
            |s| == 10 && s[4] == '-' && s[7] == '-' && s[..4] == y && s[5..7] == mm && s[8..] == dd
  {
  }
}
