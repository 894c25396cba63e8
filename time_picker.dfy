/**
  The 12-hour time picker (src/components/time-picker.tsx). It keeps the hour
  and minute fields as typed text and a period, shows a 24-hour `HH:MM` value
  it receives as hour, minute and period, and reports every accepted change as
  a new `HH:MM` value.
*/
module TimePicker {
  import opened Text
  import opened Clock

  // ---------------------------------------------------------------------------
  // Reading the value

  /** `Number(value.split(":")[0])` for a non-empty value; `None` for an empty value or NaN. */
  function ValueHour(value: string): (r: Option<nat>)
    ensures value == "" ==> r.None?
  {
    if value == "" then None else JsNumber(SplitOn(value, ':')[0])
  }

  /** `Number(value.split(":")[1])`; a value without a colon has no minute (NaN). */
  function ValueMinute(value: string): (r: Option<nat>)
    ensures ':' !in value ==> r.None?
  {
    if value == "" then None
    else
      var parts := SplitOn(value, ':');
      if |parts| >= 2 then JsNumber(parts[1]) else None
  }

  /** An `HH:MM` value reads back as its hour and minute. */
  lemma ValueOfHourMinute(h: nat, m: nat)
    ensures ValueHour(HourMinute(h, m)) == Some(h)
    ensures ValueMinute(HourMinute(h, m)) == Some(m)
  {
    HourMinuteFields(h, m);
  }

  /** The hour field shown for a value: its 12-hour hour, or nothing. */
  function InitialHours(value: string): (r: string)
    ensures AllDigits(r)
  {
    match ValueHour(value)
    case Some(h) => ShowNat(DisplayHour(h))
    case None => ""
  }

  /** The minute field shown for a value: the minute without padding, or nothing. */
  function InitialMinutes(value: string): (r: string)
    ensures AllDigits(r)
  {
    match ValueMinute(value)
    case Some(m) => ShowNat(m)
    case None => ""
  }

  /** The period shown for a value, or that of the current hour when the value has no hour. */
  function InitialPeriod(value: string, nowHour: nat): (r: Period)
    ensures ValueHour(value).Some? && ValueHour(value).value < 24 ==>
              To24(DisplayHour(ValueHour(value).value), r) == ValueHour(value).value
    ensures ValueHour(value).None? && nowHour < 24 ==> To24(DisplayHour(nowHour), r) == nowHour
  {
    match ValueHour(value)
    case Some(h) => PeriodOf(h)
    case None => PeriodOf(nowHour)
  }

  // ---------------------------------------------------------------------------
  // Reporting a change

  /**
    `updateTime(h, m, p)`: the value reported for hour text `h`, minute text `m`
    and period `p`, where `statePeriod` is the period the picker holds (used
    instead of `p` when the hour is empty), or `None` when nothing is reported
    because a field does not parse.
  */
  function UpdateTime(h: string, m: string, p: Period, statePeriod: Period,
                      nowHour: nat, nowMinute: nat): (r: Option<string>)
    ensures r.None? <==> (h != "" && ParseInt(h).None?) || (m != "" && ParseInt(m).None?)
    ensures r.Some? && (h != "" || m != "") ==>
              exists hh: nat, mm: nat :: hh < 24 && mm < 60 && r.value == HourMinute(hh, mm)
  {
    var current := if h == "" then statePeriod else p;
    if h == "" && m == "" then Some(HourMinute(nowHour, nowMinute))
    else
      var hourNum := if h == "" then Some(12) else ParseInt(h);
      if hourNum.None? then None
      else
        var hour := To24(if hourNum.value == 0 then 12 else hourNum.value, current);
        var minNum := if m == "" then Some(0) else ParseInt(m);
        if minNum.None? then None
        else
          var hh := if hour > 23 then 23 else hour;
          var mm := if minNum.value > 59 then 59 else minNum.value;
          Some(HourMinute(hh, mm))
  }

  /** With both fields empty the current time is reported. */
  lemma UpdateTimeBothEmpty(p: Period, statePeriod: Period, nowHour: nat, nowMinute: nat)
    ensures UpdateTime("", "", p, statePeriod, nowHour, nowMinute) == Some(HourMinute(nowHour, nowMinute))
  {
  }

  /**
    An empty minute counts as 0; an empty hour counts as 12 in the period the
    picker holds; hour 0 counts as 12.
  */
  lemma UpdateTimeDefaults(h: string, m: string, p: Period, statePeriod: Period, nowHour: nat, nowMinute: nat)
    ensures h != "" ==> UpdateTime(h, "", p, statePeriod, nowHour, nowMinute)
                        == UpdateTime(h, "0", p, statePeriod, nowHour, nowMinute)
    ensures m != "" ==> UpdateTime("", m, p, statePeriod, nowHour, nowMinute)
                        == UpdateTime("12", m, statePeriod, statePeriod, nowHour, nowMinute)
    ensures UpdateTime("0", m, p, statePeriod, nowHour, nowMinute)
            == UpdateTime("12", m, p, statePeriod, nowHour, nowMinute)
  {
    ParseIntShowNat(0);
    ParseIntShowNat(12);
    assert ShowNat(12) == "12";
    if h != "" {
      EmptyMinuteIsZero(h, m, p, statePeriod, nowHour, nowMinute);
    }
    if m != "" {
      EmptyHourIsTwelve(m, p, statePeriod, nowHour, nowMinute);
    }
    ZeroHourIsTwelve(m, p, statePeriod, nowHour, nowMinute);
  }

  lemma EmptyMinuteIsZero(h: string, m: string, p: Period, statePeriod: Period, nowHour: nat, nowMinute: nat)
    requires h != "" && ParseInt("0") == Some(0)
    ensures UpdateTime(h, "", p, statePeriod, nowHour, nowMinute)
            == UpdateTime(h, "0", p, statePeriod, nowHour, nowMinute)
  {
  }

  lemma EmptyHourIsTwelve(m: string, p: Period, statePeriod: Period, nowHour: nat, nowMinute: nat)
    requires m != "" && ParseInt("12") == Some(12)
    ensures UpdateTime("", m, p, statePeriod, nowHour, nowMinute)
            == UpdateTime("12", m, statePeriod, statePeriod, nowHour, nowMinute)
  {
  }

  lemma ZeroHourIsTwelve(m: string, p: Period, statePeriod: Period, nowHour: nat, nowMinute: nat)
    requires ParseInt("0") == Some(0) && ParseInt("12") == Some(12)
    ensures UpdateTime("0", m, p, statePeriod, nowHour, nowMinute)
            == UpdateTime("12", m, p, statePeriod, nowHour, nowMinute)
  {
  }

  /** A 12-hour reading 1..12 with its period reports that hour of the day, and the minute unchanged when below 60. */
  lemma UpdateTimeConverts(h12: nat, m: nat, p: Period, statePeriod: Period, nowHour: nat, nowMinute: nat)
    requires 1 <= h12 <= 12 && m < 60
    ensures UpdateTime(ShowNat(h12), Pad2(m), p, statePeriod, nowHour, nowMinute)
            == Some(HourMinute(To24(h12, p), m))
    ensures UpdateTime(ShowNat(h12), ShowNat(m), p, statePeriod, nowHour, nowMinute)
            == Some(HourMinute(To24(h12, p), m))
  {
    ParseIntShowNat(h12);
    ParseIntShowNat(m);
    ParseIntPad2(m);
    To24RoundTrip(h12, p);
  }

  /** Hours and minutes beyond the day are clamped to 23 and 59. */
  lemma UpdateTimeClamps()
    ensures UpdateTime("13", "75", PM, PM, 0, 0) == Some("23:59")
  {
    assert ShowNat(13) == "13" && ShowNat(75) == "75";
    ParseIntShowNat(13);
    ParseIntShowNat(75);
    assert HourMinute(23, 59) == "23:59";
  }

  /**
    Round trip: a picker opened on an `HH:MM` value shows its 12-hour hour,
    minute and period, and reporting those fields gives the same value back.
  */
  lemma PickerRoundTrip(h: nat, m: nat, nowHour: nat, nowMinute: nat)
    requires h < 24 && m < 60
    ensures var v := HourMinute(h, m);
            && InitialHours(v) == ShowNat(DisplayHour(h))
            && InitialMinutes(v) == ShowNat(m)
            && InitialPeriod(v, nowHour) == PeriodOf(h)
            && UpdateTime(InitialHours(v), InitialMinutes(v), InitialPeriod(v, nowHour),
                          InitialPeriod(v, nowHour), nowHour, nowMinute) == Some(v)
  {
    ValueOfHourMinute(h, m);
    UpdateTimeConverts(DisplayHour(h), m, PeriodOf(h), PeriodOf(h), nowHour, nowMinute);
  }

  /**
    Reporting depends on the hour text only through whether it is empty and the
    number it parses to: two fields that read alike report alike.
  */
  lemma UpdateTimeReadsNumbers(h: string, h': string, m: string, p: Period, statePeriod: Period,
                               nowHour: nat, nowMinute: nat)
    requires ParseInt(h).Some? && ParseInt(h) == ParseInt(h')
    ensures UpdateTime(h, m, p, statePeriod, nowHour, nowMinute)
            == UpdateTime(h', m, p, statePeriod, nowHour, nowMinute)
  {
  }

  function Flip(p: Period): (r: Period)
    ensures r != p
  {
    if p == AM then PM else AM
  }

  // ---------------------------------------------------------------------------
  // The picker's state and its handlers

  class TimePicker {
    var hours: string
    var minutes: string
    var period: Period

    /** The fields only ever hold digits: typed text is stripped of everything else. */
    ghost predicate Valid()
      reads this
    {
      AllDigits(hours) && AllDigits(minutes)
    }

    /** The initial state for the value the picker is opened on. */
    constructor(value: string, nowHour: nat)
      ensures hours == InitialHours(value) && minutes == InitialMinutes(value)
      ensures period == InitialPeriod(value, nowHour)
      ensures Valid()
    {
      hours := InitialHours(value);
      minutes := InitialMinutes(value);
      period := InitialPeriod(value, nowHour);
    }

    /**
      The value received from outside changed: show its hour and period unless
      the hour field already reads as that hour, likewise its minute; an empty
      value clears both fields.
    */
    method Sync(value: string)
      requires Valid()
      modifies this
      ensures Valid()
      ensures value == "" ==> hours == "" && minutes == "" && period == old(period)
      ensures value != "" ==>
                && hours == (match ValueHour(value)
                             case Some(h) =>
                               if old(hours) != "" && ParseInt(old(hours)) == Some(DisplayHour(h)) then old(hours)
                               else ShowNat(DisplayHour(h))
                             case None => old(hours))
                && period == (match ValueHour(value) case Some(h) => PeriodOf(h) case None => old(period))
                && minutes == (match ValueMinute(value)
                               case Some(m) =>
                                 if old(minutes) != "" && ParseInt(old(minutes)) == Some(m) then old(minutes)
                                 else ShowNat(m)
                               case None => old(minutes))
      ensures ValueHour(value).Some? ==>
                ParseInt(hours) == Some(DisplayHour(ValueHour(value).value)) && period == PeriodOf(ValueHour(value).value)
      ensures ValueMinute(value).Some? ==> ParseInt(minutes) == ValueMinute(value)
    {
      if value != "" {
        var h := ValueHour(value);
        if h.Some? {
          var display := DisplayHour(h.value);
          var current := if hours == "" then None else ParseInt(hours);
          if current != Some(display) {
            hours := ShowNat(display);
            ParseIntShowNat(display);
          }
          period := PeriodOf(h.value);
        }
        var m := ValueMinute(value);
        if m.Some? {
          var current := if minutes == "" then None else ParseInt(minutes);
          if current != Some(m.value) {
            minutes := ShowNat(m.value);
            ParseIntShowNat(m.value);
          }
        }
      } else {
        if hours != "" {
          hours := "";
        }
        if minutes != "" {
          minutes := "";
        }
      }
    }

    /** The hour field is typed into: keep the digits, accept at most two, report only an empty hour or one of 1..12. */
    method HoursChange(input: string, nowHour: nat, nowMinute: nat) returns (emitted: Option<string>)
      requires Valid()
      modifies this
      ensures Valid()
      ensures var val := KeepDigits(input);
              && hours == (if |val| <= 2 then val else old(hours))
              && minutes == old(minutes) && period == old(period)
              && emitted == (if |val| <= 2 && (val == "" || 1 <= ParseInt(val).value <= 12)
                             then UpdateTime(val, minutes, period, period, nowHour, nowMinute)
                             else None)
      ensures emitted.Some? ==> hours == "" || (ParseInt(hours).Some? && 1 <= ParseInt(hours).value <= 12)
    {
      var val := KeepDigits(input);
      emitted := None;
      if val == "" || |val| <= 2 {
        hours := val;
        var hourNum := if val == "" then None else ParseInt(val);
        if val == "" || (hourNum.Some? && 1 <= hourNum.value <= 12) {
          emitted := UpdateTime(val, minutes, period, period, nowHour, nowMinute);
        }
      }
    }

    /** The minute field is typed into: keep the digits, accept at most two, report only an empty minute or one of 0..59. */
    method MinutesChange(input: string, nowHour: nat, nowMinute: nat) returns (emitted: Option<string>)
      requires Valid()
      modifies this
      ensures Valid()
      ensures var val := KeepDigits(input);
              && minutes == (if |val| <= 2 then val else old(minutes))
              && hours == old(hours) && period == old(period)
              && emitted == (if |val| <= 2 && (val == "" || ParseInt(val).value <= 59)
                             then UpdateTime(hours, val, period, period, nowHour, nowMinute)
                             else None)
    {
      var val := KeepDigits(input);
      emitted := None;
      if val == "" || |val| <= 2 {
        minutes := val;
        var minNum := if val == "" then None else ParseInt(val);
        if val == "" || (minNum.Some? && 0 <= minNum.value <= 59) {
          emitted := UpdateTime(hours, val, period, period, nowHour, nowMinute);
        }
      }
    }

    /**
      AM and PM are swapped and the time reported in the new period; with an
      empty hour the report still uses the period held before the swap.
    */
    method PeriodToggle(nowHour: nat, nowMinute: nat) returns (emitted: Option<string>)
      requires Valid()
      modifies this
      ensures Valid()
      ensures period == Flip(old(period)) && hours == old(hours) && minutes == old(minutes)
      ensures emitted == UpdateTime(hours, minutes, period, old(period), nowHour, nowMinute)
    {
      var newPeriod := Flip(period);
      emitted := UpdateTime(hours, minutes, newPeriod, period, nowHour, nowMinute);
      period := newPeriod;
    }

    /**
      Leaving the hour field: an hour outside 1..12 is replaced by the current
      hour on the 12-hour clock; a valid one is reported without leading zeros.
    */
    method HoursBlur(nowHour: nat, nowMinute: nat) returns (emitted: Option<string>)
      requires Valid()
      modifies this
      ensures Valid()
      ensures minutes == old(minutes) && period == old(period)
      ensures old(hours) == "" ==> hours == "" && emitted.None?
      ensures old(hours) != "" && !(1 <= ParseInt(old(hours)).value <= 12) ==>
                && hours == ShowNat(DisplayHour(nowHour))
                && emitted == UpdateTime(hours, minutes, period, period, nowHour, nowMinute)
      ensures old(hours) != "" && 1 <= ParseInt(old(hours)).value <= 12 ==>
                && hours == old(hours)
                && emitted == UpdateTime(ShowNat(ParseInt(hours).value), minutes, period, period, nowHour, nowMinute)
    {
      emitted := None;
      if hours != "" {
        var hourNum := ParseInt(hours);
        if hourNum.None? || hourNum.value < 1 || hourNum.value > 12 {
          var display := DisplayHour(nowHour);
          hours := ShowNat(display);
          emitted := UpdateTime(ShowNat(display), minutes, period, period, nowHour, nowMinute);
        } else {
          emitted := UpdateTime(ShowNat(hourNum.value), minutes, period, period, nowHour, nowMinute);
        }
      }
    }

    /**
      Leaving the minute field: an empty or out-of-range minute becomes `00`, a
      valid one is padded to two digits; either way the time is reported.
    */
    method MinutesBlur(nowHour: nat, nowMinute: nat) returns (emitted: Option<string>)
      requires Valid()
      modifies this
      ensures Valid()
      ensures hours == old(hours) && period == old(period)
      ensures old(minutes) == "" || ParseInt(old(minutes)).value > 59 ==> minutes == "00"
      ensures old(minutes) != "" && ParseInt(old(minutes)).value <= 59 ==>
                minutes == Pad2(ParseInt(old(minutes)).value)
      ensures |minutes| == 2 && ParseInt(minutes).Some? && ParseInt(minutes).value < 60
      ensures emitted == UpdateTime(hours, minutes, period, period, nowHour, nowMinute)
    {
      if minutes != "" {
        var minNum := ParseInt(minutes);
        if minNum.None? || minNum.value < 0 || minNum.value > 59 {
          minutes := "00";
          emitted := UpdateTime(hours, "00", period, period, nowHour, nowMinute);
        } else {
          var formatted := Pad2(minNum.value);
          ParseIntPad2(minNum.value);
          minutes := formatted;
          emitted := UpdateTime(hours, formatted, period, period, nowHour, nowMinute);
        }
      } else {
        minutes := "00";
        emitted := UpdateTime(hours, "00", period, period, nowHour, nowMinute);
      }
      ParseIntPad2(0);
      assert Pad2(0) == "00";
    }
  }

  /**
    After the value is received, reporting the fields gives the value back:
    the picker shows exactly the time it was given.
  */
  lemma SyncThenReport(h: nat, m: nat, hours: string, minutes: string, nowHour: nat, nowMinute: nat)
    requires h < 24 && m < 60
    requires ParseInt(hours) == Some(DisplayHour(h)) && ParseInt(minutes) == Some(m)
    ensures UpdateTime(hours, minutes, PeriodOf(h), PeriodOf(h), nowHour, nowMinute) == Some(HourMinute(h, m))
  {
    ParseIntShowNat(DisplayHour(h));
    ParseIntShowNat(m);
    UpdateTimeConverts(DisplayHour(h), m, PeriodOf(h), PeriodOf(h), nowHour, nowMinute);
    UpdateTimeReadsNumbers(hours, ShowNat(DisplayHour(h)), minutes, PeriodOf(h), PeriodOf(h), nowHour, nowMinute);
    assert minutes != "" && ShowNat(m) != "";
  }

  /** Swapping the period twice restores it. */
  lemma FlipTwice(p: Period)
    ensures Flip(Flip(p)) == p
  {
  }
}
