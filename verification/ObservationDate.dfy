/**
 * The observation timestamp as the e-mail shows it. `obsDt` is read with the
 * pattern `%Y-%m-%d %H:%M` and written back as `%b %d, %Y at %I:%M %p`; a
 * value the pattern rejects is shown as it came.
 *
 * Only the zero-padded form of the pattern with a single space is accepted,
 * with English month abbreviations and AM/PM on output. The reader does check
 * the calendar: the month must be 1 to 12, the day must exist in that month
 * (leap years by the Gregorian rule), the year must be at least 1, the hour
 * below 24 and the minute below 60.
 */
module ObservationDate {
  import opened Wrappers

  datatype Stamp = Stamp(year: nat, month: nat, day: nat, hour: nat, minute: nat)

  predicate IsLeapYear(year: nat)
  {
    year % 4 == 0 && (year % 100 != 0 || year % 400 == 0)
  }

  function DaysInMonth(year: nat, month: nat): nat
    requires 1 <= month <= 12
  {
    if month == 2 then (if IsLeapYear(year) then 29 else 28)
    else if month in {4, 6, 9, 11} then 30
    else 31
  }

  /** A moment the date-time type can hold, with a four-digit year. */
  predicate ValidStamp(t: Stamp)
  {
    && 1 <= t.year <= 9999
    && 1 <= t.month <= 12
    && 1 <= t.day <= DaysInMonth(t.year, t.month)
    && t.hour < 24
    && t.minute < 60
  }

  predicate IsDigit(c: char)
  {
    '0' <= c <= '9'
  }

  predicate AllDigits(s: string)
  {
    forall i | 0 <= i < |s| :: IsDigit(s[i])
  }

  function Digit(n: nat): (c: char)
    requires n < 10
    ensures IsDigit(c)
  {
    ('0' as int + n) as char
  }

  function DigitValue(c: char): (n: nat)
    requires IsDigit(c)
    ensures n < 10 && Digit(n) == c
  {
    c as int - '0' as int
  }

  function Pow10(width: nat): nat
  {
    if width == 0 then 1 else 10 * Pow10(width - 1)
  }

  /** The decimal value of a string of digits, most significant first. */
  function Number(s: string): (n: nat)
    requires AllDigits(s)
    ensures n < Pow10(|s|)
  {
    if s == [] then 0
    else Number(s[..|s| - 1]) * 10 + DigitValue(s[|s| - 1])
  }

  /** `n` written with exactly `width` digits, zero-padded on the left. */
  function Padded(n: nat, width: nat): (s: string)
    requires n < Pow10(width)
    ensures |s| == width && AllDigits(s)
  {
    if width == 0 then []
    else Padded(n / 10, width - 1) + [Digit(n % 10)]
  }

  /** Reading back a padded number gives the number. */
  lemma {:induction false} NumberOfPadded(n: nat, width: nat)
    requires n < Pow10(width)
    ensures Number(Padded(n, width)) == n
  {
    if width > 0 {
      var s := Padded(n, width);
      assert s[..|s| - 1] == Padded(n / 10, width - 1);
      NumberOfPadded(n / 10, width - 1);
    }
  }

  /** Padding the value of a digit string gives the digit string. */
  lemma {:induction false} PaddedOfNumber(s: string)
    requires AllDigits(s)
    ensures Padded(Number(s), |s|) == s
  {
    if s != [] {
      var init := s[..|s| - 1];
      PaddedOfNumber(init);
      var n := Number(s);
      assert n / 10 == Number(init);
      assert n % 10 == DigitValue(s[|s| - 1]);
      assert s == init + [s[|s| - 1]];
    }
  }

  /** The text `%Y-%m-%d %H:%M` reads. */
  function Format24(t: Stamp): (s: string)
    requires ValidStamp(t)
    ensures |s| == 16
  {
    Padded(t.year, 4) + "-" + Padded(t.month, 2) + "-" + Padded(t.day, 2) + " "
      + Padded(t.hour, 2) + ":" + Padded(t.minute, 2)
  }

  /** `datetime.strptime(s, "%Y-%m-%d %H:%M")`, with `None` where it raises. */
  function ParseStamp(s: string): (r: Option<Stamp>)
    ensures r.Some? ==> ValidStamp(r.value) && Format24(r.value) == s
  {
    if |s| == 16 && s[4] == '-' && s[7] == '-' && s[10] == ' ' && s[13] == ':'
       && AllDigits(s[0..4]) && AllDigits(s[5..7]) && AllDigits(s[8..10])
       && AllDigits(s[11..13]) && AllDigits(s[14..16])
    then
      var t := Stamp(Number(s[0..4]), Number(s[5..7]), Number(s[8..10]), Number(s[11..13]), Number(s[14..16]));
      if ValidStamp(t) then
        PaddedOfNumber(s[0..4]);
        PaddedOfNumber(s[5..7]);
        PaddedOfNumber(s[8..10]);
        PaddedOfNumber(s[11..13]);
        PaddedOfNumber(s[14..16]);
        assert s == s[0..4] + "-" + s[5..7] + "-" + s[8..10] + " " + s[11..13] + ":" + s[14..16];
        Some(t)
      else None
    else None
  }

  /** Every valid moment written in the input pattern is read back as itself. */
  lemma ParseFormat24(t: Stamp)
    requires ValidStamp(t)
    ensures ParseStamp(Format24(t)) == Some(t)
  {
    var s := Format24(t);
    assert s[0..4] == Padded(t.year, 4);
    assert s[5..7] == Padded(t.month, 2);
    assert s[8..10] == Padded(t.day, 2);
    assert s[11..13] == Padded(t.hour, 2);
    assert s[14..16] == Padded(t.minute, 2);
    NumberOfPadded(t.year, 4);
    NumberOfPadded(t.month, 2);
    NumberOfPadded(t.day, 2);
    NumberOfPadded(t.hour, 2);
    NumberOfPadded(t.minute, 2);
  }

  /** `%b` in an English locale. */
  function MonthAbbrev(month: nat): (name: string)
    requires 1 <= month <= 12
    ensures |name| == 3
  {
    ["Jan", "Feb", "Mar", "Apr", "May", "Jun", "Jul", "Aug", "Sep", "Oct", "Nov", "Dec"][month - 1]
  }

  /** `%I`: the hour on a 12-hour clock. */
  function Hour12(hour: nat): (h: nat)
    requires hour < 24
    ensures 1 <= h <= 12
  {
    if hour % 12 == 0 then 12 else hour % 12
  }

  /** `%p` in an English locale. */
  function Meridiem(hour: nat): (p: string)
    ensures |p| == 2
  {
    if hour < 12 then "AM" else "PM"
  }

  /** Reading a 12-hour clock: 12 AM is midnight, 12 PM is noon. */
  function Hour24(hour12: nat, meridiem: string): nat
  {
    (hour12 % 12) + (if meridiem == "PM" then 12 else 0)
  }

  /** The 12-hour reading loses nothing: it gives back the 24-hour hour. */
  lemma Clock12RoundTrip(hour: nat)
    requires hour < 24
    ensures Hour24(Hour12(hour), Meridiem(hour)) == hour
  {
  }

  /** The text `%b %d, %Y at %I:%M %p` reads. */
  function Render(t: Stamp): (s: string)
    requires ValidStamp(t)
    ensures |s| == 24
  {
    MonthAbbrev(t.month) + " " + Padded(t.day, 2) + ", " + Padded(t.year, 4) + " at "
      + Padded(Hour12(t.hour), 2) + ":" + Padded(t.minute, 2) + " " + Meridiem(t.hour)
  }

  /** The date shown for an observation. */
  function ReformatDate(obsDt: string): (shown: string)
    ensures ParseStamp(obsDt).None? ==> shown == obsDt
    ensures ParseStamp(obsDt).Some? ==> |shown| == 24 && shown != obsDt
  {
    match ParseStamp(obsDt)
    case Some(t) => Render(t)
    case None => obsDt
  }

  /** A well-formed timestamp is shown in the 12-hour form. */
  lemma ReformatWellFormed(t: Stamp)
    requires ValidStamp(t)
    ensures ReformatDate(Format24(t)) == Render(t)
  {
    ParseFormat24(t);
  }

  /** Text that is not the 24-hour form of any valid moment is shown unchanged. */
  lemma ReformatFallback(obsDt: string)
    requires forall t | ValidStamp(t) :: Format24(t) != obsDt
    ensures ReformatDate(obsDt) == obsDt
  {
  }

  /** Where each field sits in the 12-hour form. */
  lemma RenderFields(t: Stamp)
    requires ValidStamp(t)
    ensures var r := Render(t);
            && r[0..3] == MonthAbbrev(t.month)
            && r[4..6] == Padded(t.day, 2)
            && r[8..12] == Padded(t.year, 4)
            && r[16..18] == Padded(Hour12(t.hour), 2)
            && r[19..21] == Padded(t.minute, 2)
            && r[22..24] == Meridiem(t.hour)
  {
  }

  /** The month number an English abbreviation stands for. */
  function MonthNumber(name: string): nat
  {
    if name == "Jan" then 1 else if name == "Feb" then 2 else if name == "Mar" then 3
    else if name == "Apr" then 4 else if name == "May" then 5 else if name == "Jun" then 6
    else if name == "Jul" then 7 else if name == "Aug" then 8 else if name == "Sep" then 9
    else if name == "Oct" then 10 else if name == "Nov" then 11 else if name == "Dec" then 12
    else 0
  }

  lemma MonthNumberOfAbbrev(month: nat)
    requires 1 <= month <= 12
    ensures MonthNumber(MonthAbbrev(month)) == month
  {
  }

  /** Two different moments are never shown the same way. */
  lemma RenderInjective(t: Stamp, u: Stamp)
    requires ValidStamp(t) && ValidStamp(u) && Render(t) == Render(u)
    ensures t == u
  {
    RenderFields(t);
    RenderFields(u);
    MonthNumberOfAbbrev(t.month);
    MonthNumberOfAbbrev(u.month);
    NumberOfPadded(t.day, 2);
    NumberOfPadded(u.day, 2);
    NumberOfPadded(t.year, 4);
    NumberOfPadded(u.year, 4);
    NumberOfPadded(Hour12(t.hour), 2);
    NumberOfPadded(Hour12(u.hour), 2);
    NumberOfPadded(t.minute, 2);
    NumberOfPadded(u.minute, 2);
    Clock12RoundTrip(t.hour);
    Clock12RoundTrip(u.hour);
  }
}
