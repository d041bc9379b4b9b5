/** The `posted_at` timestamp of a tweet, kept to the minute, and its rendering
    `YYYY/MM/DD HH:MM` (UTC) in the home view. */
module Timestamps {
  import opened Base
  import opened Decimal

  datatype Timestamp = Timestamp(year: nat, month: nat, day: nat, hour: nat, minute: nat)
  {
    /** A calendar instant of the Gregorian calendar with a four-digit year. */
    predicate WellFormed() {
      && year <= 9999
      && 1 <= month <= 12
      && 1 <= day <= DaysInMonth(year, month)
      && hour < 24
      && minute < 60
    }
  }

  predicate IsLeapYear(y: nat) {
    (y % 4 == 0 && y % 100 != 0) || y % 400 == 0
  }

  function DaysInMonth(y: nat, m: nat): (d: nat)
    requires 1 <= m <= 12
    ensures 28 <= d <= 31
  {
    if m == 2 then (if IsLeapYear(y) then 29 else 28)
    else if m == 4 || m == 6 || m == 9 || m == 11 then 30
    else 31
  }

  /** `%Y/%m/%d %H:%M`: year padded to four digits, the other fields to two. */
  function Display(t: Timestamp): string {
    PadLeft(t.year, 4) + "/" + PadLeft(t.month, 2) + "/" + PadLeft(t.day, 2)
      + " " + PadLeft(t.hour, 2) + ":" + PadLeft(t.minute, 2)
  }

  /** Reads a rendered timestamp back; the specification partner of Display. */
  ghost function Parse(s: string): Option<Timestamp> {
    if && |s| == 16
       && s[4] == '/' && s[7] == '/' && s[10] == ' ' && s[13] == ':'
       && AllDigits(s[0..4]) && AllDigits(s[5..7]) && AllDigits(s[8..10])
       && AllDigits(s[11..13]) && AllDigits(s[14..16])
    then
      var t := Timestamp(DigitsValue(s[0..4]), DigitsValue(s[5..7]), DigitsValue(s[8..10]),
                         DigitsValue(s[11..13]), DigitsValue(s[14..16]));
      if t.WellFormed() then Some(t) else None
    else None
  }

  /** Where the five fields and four separators of a rendering lie. */
  lemma Layout(y: string, mo: string, d: string, h: string, mi: string)
    requires |y| == 4 && |mo| == 2 && |d| == 2 && |h| == 2 && |mi| == 2
    ensures var s := y + "/" + mo + "/" + d + " " + h + ":" + mi;
      && |s| == 16
      && s[4] == '/' && s[7] == '/' && s[10] == ' ' && s[13] == ':'
      && s[0..4] == y && s[5..7] == mo && s[8..10] == d && s[11..13] == h && s[14..16] == mi
  {
  }

  /** Every well-formed timestamp renders to sixteen characters that read back
      as the same timestamp. */
  lemma DisplayRoundTrip(t: Timestamp)
    requires t.WellFormed()
    ensures |Display(t)| == 16
    ensures Parse(Display(t)) == Some(t)
  {
    PadLeftFaithful(t.year, 4);
    PadLeftFaithful(t.month, 2);
    PadLeftFaithful(t.day, 2);
    PadLeftFaithful(t.hour, 2);
    PadLeftFaithful(t.minute, 2);
    Layout(PadLeft(t.year, 4), PadLeft(t.month, 2), PadLeft(t.day, 2), PadLeft(t.hour, 2), PadLeft(t.minute, 2));
  }

  /** Two well-formed timestamps render alike only if they are equal. */
  lemma DisplayInjective(t: Timestamp, u: Timestamp)
    requires t.WellFormed() && u.WellFormed()
    requires Display(t) == Display(u)
    ensures t == u
  {
    DisplayRoundTrip(t);
    DisplayRoundTrip(u);
  }

  /** The rendering the unit test of `list_tweets` expects. */
  lemma DisplayNewYear2020()
    ensures Display(Timestamp(2020, 1, 1, 0, 0)) == "2020/01/01 00:00"
  {
  }
}
