/**
  Times of day as the entry log writes and reads them: the 24-hour `HH:MM`
  value the time picker exchanges, the 12-hour hour and AM/PM period it shows,
  and the `hh:mm AM` stamp that heads every entry.
*/
module Clock {
  import opened Text

  datatype Period = AM | PM

  /** `${String(h).padStart(2, "0")}:${String(m).padStart(2, "0")}` */
  function HourMinute(h: nat, m: nat): (r: string)
    ensures h < 100 && m < 100 ==> |r| == 5 && r[2] == ':'
  {
    Pad2(h) + ":" + Pad2(m)
  }

  /** Splitting an `HH:MM` value at its colon and reading both halves with `Number` gives the hour and minute back. */
  lemma HourMinuteFields(h: nat, m: nat)
    ensures SplitOn(HourMinute(h, m), ':') == [Pad2(h), Pad2(m)]
    ensures JsNumber(SplitOn(HourMinute(h, m), ':')[0]) == Some(h)
    ensures JsNumber(SplitOn(HourMinute(h, m), ':')[1]) == Some(m)
  {
    var xs := [Pad2(h), Pad2(m)];
    assert ':' !in Pad2(h) by { assert AllDigits(Pad2(h)); }
    assert ':' !in Pad2(m) by { assert AllDigits(Pad2(m)); }
    assert Join(xs, [':']) == HourMinute(h, m) by {
      assert xs[1..] == [Pad2(m)];
    }
    SplitOnOfJoin(xs, ':');
    JsNumberShowNat(h);
    JsNumberShowNat(m);
  }

  /** The 12-hour clock hour of a 24-hour hour: 13..23 become 1..11 and 0 becomes 12. */
  function DisplayHour(h: nat): (r: nat)
    ensures h < 24 ==> 1 <= r <= 12 && r % 12 == h % 12
  {
    if h > 12 then h - 12 else if h == 0 then 12 else h
  }

  /** AM for the first half of the day, PM for the second: the period under which the display hour converts back. */
  function PeriodOf(h: nat): (r: Period)
    ensures h < 24 ==> To24(DisplayHour(h), r) == h
  {
    if h >= 12 then PM else AM
  }

  /** Back to 24 hours: PM adds twelve except to 12, and 12 AM is hour 0. */
  function To24(h: nat, p: Period): (r: nat)
    ensures 1 <= h <= 12 ==> r < 24 && r % 12 == h % 12 && (r >= 12 <==> p == PM)
  {
    match p
    case PM => if h != 12 then h + 12 else h
    case AM => if h == 12 then 0 else h
  }

  /** Every 12-hour reading converts to an hour of the day that is shown as that reading again. */
  lemma To24RoundTrip(h: nat, p: Period)
    requires 1 <= h <= 12
    ensures To24(h, p) < 24
    ensures DisplayHour(To24(h, p)) == h && PeriodOf(To24(h, p)) == p
  {
  }

  function PeriodName(p: Period): string {
    match p
    case AM => "AM"
    case PM => "PM"
  }

  /**
    `toLocaleTimeString("en-US", { hour: "2-digit", minute: "2-digit" })` for the
    time h:m, as in `09:45 PM`; `gap` is the space the locale data puts before the
    period (an ordinary or a narrow no-break space).
  */
  function LocaleStamp(h: nat, m: nat, gap: char): (r: string)
    requires IsSpace(gap)
  {
    Pad2(DisplayHour(h)) + ":" + Pad2(m) + [gap] + PeriodName(PeriodOf(h))
  }

  /** A stamp is eight characters: two hour digits, a colon, two minute digits, the space and the period letters. */
  lemma LocaleStampShape(h: nat, m: nat, gap: char)
    requires h < 24 && m < 60 && IsSpace(gap)
    ensures var r := LocaleStamp(h, m, gap);
            && |r| == 8 && IsDigit(r[0]) && IsDigit(r[1]) && r[2] == ':' && IsDigit(r[3]) && IsDigit(r[4])
            && r[5] == gap && (r[6] == 'A' || r[6] == 'P') && r[7] == 'M'
            && ParseInt(r[..2]) == Some(DisplayHour(h)) && ParseInt(r[3..5]) == Some(m)
            && (r[6] == 'P' <==> h >= 12)
  {
    var r := LocaleStamp(h, m, gap);
    var a := Pad2(DisplayHour(h));
    var b := Pad2(m);
    assert r[..2] == a;
    assert r[3..5] == b;
    ParseIntPad2(DisplayHour(h));
    ParseIntPad2(m);
  }
}
