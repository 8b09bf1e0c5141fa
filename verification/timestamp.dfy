/** The SRFT timestamp: DateTime.ToString("yyyyMMddhhmmss"), a fixed-width run of
    zero-padded decimal fields. The call uses the current culture; the model takes
    that culture's calendar to be the Gregorian one. */
module Timestamps {
  import opened Decimal

  /** A local date and time to the second; the clock reading is an input. */
  datatype DateTime = DateTime(year: nat, month: nat, day: nat, hour: nat, minute: nat, second: nat)

  /** The ranges System.DateTime enforces on each field (days are not checked
      against the length of the month; no field's spelling depends on it). */
  predicate Valid(t: DateTime)
  {
    && 1 <= t.year <= 9999 && 1 <= t.month <= 12 && 1 <= t.day <= 31
    && t.hour < 24 && t.minute < 60 && t.second < 60
  }

  /** The "hh" field: the hour on a 12-hour clock, 12 for midnight and noon. */
  function Hour12(hour: nat): (h: nat)
    requires hour < 24
    ensures 1 <= h <= 12
    ensures h % 12 == hour % 12
  {
    if hour % 12 == 0 then 12 else hour % 12
  }

  /** Six zero-padded fields of widths 4, 2, 2, 2, 2, 2. */
  function Stamp(year: nat, month: nat, day: nat, hour: nat, minute: nat, second: nat): (s: string)
    ensures |s| == 14 && AllDigits(s)
  {
    Pad(year, 4) + Pad(month, 2) + Pad(day, 2) + Pad(hour, 2) + Pad(minute, 2) + Pad(second, 2)
  }

  /** The format as the card client writes it, "yyyyMMddhhmmss": the hour field is
      on the 12-hour clock and no AM/PM designator follows. */
  function FormatAsWritten(t: DateTime): (s: string)
    requires Valid(t)
    ensures |s| == 14 && AllDigits(s)
  {
    Stamp(t.year, t.month, t.day, Hour12(t.hour), t.minute, t.second)
  }

  /** The evidently intended format, "yyyyMMddHHmmss": the hour on the 24-hour clock. */
  function Format(t: DateTime): (s: string)
    requires Valid(t)
    ensures |s| == 14 && AllDigits(s)
  {
    Stamp(t.year, t.month, t.day, t.hour, t.minute, t.second)
  }

  /** Reading the six fields back out of a 14-digit stamp. */
  function ReadStamp(s: string): DateTime
    requires |s| == 14 && AllDigits(s)
  {
    DateTime(DigitsValue(s[0..4]), DigitsValue(s[4..6]), DigitsValue(s[6..8]),
             DigitsValue(s[8..10]), DigitsValue(s[10..12]), DigitsValue(s[12..14]))
  }

  /** Each field of a stamp sits at its fixed offset. */
  lemma StampFields(year: nat, month: nat, day: nat, hour: nat, minute: nat, second: nat)
    ensures var s := Stamp(year, month, day, hour, minute, second);
            && s[0..4] == Pad(year, 4) && s[4..6] == Pad(month, 2) && s[6..8] == Pad(day, 2)
            && s[8..10] == Pad(hour, 2) && s[10..12] == Pad(minute, 2) && s[12..14] == Pad(second, 2)
  {
  }

  /** A stamp reads back as the fields it was made from when each fits its width. */
  lemma StampRoundTrip(year: nat, month: nat, day: nat, hour: nat, minute: nat, second: nat)
    requires year < 10000 && month < 100 && day < 100 && hour < 100 && minute < 100 && second < 100
    ensures ReadStamp(Stamp(year, month, day, hour, minute, second))
            == DateTime(year, month, day, hour, minute, second)
  {
    StampFields(year, month, day, hour, minute, second);
    assert Pow10(4) == 10000 && Pow10(2) == 100;
    PadRoundTrip(year, 4);
    PadRoundTrip(month, 2);
    PadRoundTrip(day, 2);
    PadRoundTrip(hour, 2);
    PadRoundTrip(minute, 2);
    PadRoundTrip(second, 2);
  }

  /** The written stamp reads back as the time with its hour on the 12-hour clock:
      every field but the hour is the time's own, and hours 0 and 12 read as 12. */
  lemma FormatAsWrittenReadsBack(t: DateTime)
    requires Valid(t)
    ensures ReadStamp(FormatAsWritten(t)) == t.(hour := Hour12(t.hour))
  {
    StampRoundTrip(t.year, t.month, t.day, Hour12(t.hour), t.minute, t.second);
  }

  /** The 24-hour stamp determines the time: reading it back gives the time. */
  lemma FormatRoundTrip(t: DateTime)
    requires Valid(t)
    ensures ReadStamp(Format(t)) == t
  {
    StampRoundTrip(t.year, t.month, t.day, t.hour, t.minute, t.second);
  }

  /** So distinct times get distinct 24-hour stamps. */
  lemma FormatInjective(a: DateTime, b: DateTime)
    requires Valid(a) && Valid(b) && Format(a) == Format(b)
    ensures a == b
  {
    FormatRoundTrip(a);
    FormatRoundTrip(b);
  }

  /** The 12-hour stamp loses the half of the day: a morning time and the same time
      twelve hours later are stamped alike. */
  lemma FormatAsWrittenCollides(t: DateTime)
    requires Valid(t) && t.hour < 12
    ensures Valid(t.(hour := t.hour + 12))
    ensures FormatAsWritten(t) == FormatAsWritten(t.(hour := t.hour + 12))
    ensures t != t.(hour := t.hour + 12)
  {
    assert (t.hour + 12) % 12 == t.hour % 12;
    assert Hour12(t.hour + 12) == Hour12(t.hour);
  }

  /** The written format and the intended one agree in the morning (hours 1 to 11). */
  lemma FormatsAgreeBeforeNoon(t: DateTime)
    requires Valid(t) && 1 <= t.hour < 12
    ensures FormatAsWritten(t) == Format(t)
  {
    assert t.hour % 12 == t.hour;
    assert Hour12(t.hour) == t.hour;
  }
}
