/**
  The time an entry card puts into the time picker when its entry is edited
  (src/components/entry-card.tsx): the entry's stamp, read as a 12-hour clock
  time where one occurs in it, else as `h:m`, else the current time, always
  given back as a 24-hour `HH:MM` value.
*/
module EntryCard {
  import opened Text
  import opened Clock
  import opened EntryFormat

  /** A clock time `h:mm AM` found in a stamp. */
  datatype ClockTime = ClockTime(hour: nat, minute: nat, period: Period)

  /** Where the hour digits of a match starting at `t[0]` end (at the colon): one or two digits, or 0 for none. */
  function HourDigits(t: string): (c: nat)
    ensures c <= 2 && (c > 0 ==> c < |t| && t[c] == ':' && AllDigits(t[..c]))
  {
    if |t| >= 3 && IsDigit(t[0]) && IsDigit(t[1]) && t[2] == ':' then 2
    else if |t| >= 2 && IsDigit(t[0]) && t[1] == ':' then 1
    else 0
  }

  /**
    `/(\d{1,2}):(\d{2})\s*(AM|PM)/i` matched at position `i` of `s`. The hour
    group tries two digits before one; the two alternatives need a digit and a
    colon at `s[i + 1]` respectively, so at most one of them can start a match.
  */
  function ClockAt(s: string, i: nat): (r: Option<ClockTime>)
    requires i <= |s|
    ensures r.Some? ==> exists k :: i < k < |s| && IsMeridiemPair(s[k - 1], s[k])
    ensures r.Some? ==> r.value.hour < 100 && r.value.minute < 100
  {
    var t := s[i..];
    var c := HourDigits(t);
    if c > 0 && c + 3 <= |t| && IsDigit(t[c + 1]) && IsDigit(t[c + 2]) then
      var w := SkipSpace(t, c + 3);
      if w + 2 <= |t| && IsMeridiemPair(t[w], t[w + 1]) then
        assert s[i + w] == t[w] && s[i + w + 1] == t[w + 1];
        DecValueBelow(t[..c]);
        DecValueBelow(t[c + 1..c + 3]);
        Some(ClockTime(DecValue(t[..c]), DecValue(t[c + 1..c + 3]),
                       if t[w] == 'P' || t[w] == 'p' then PM else AM))
      else None
    else None
  }

  /** The leftmost position at or after `i` where a clock time is matched. */
  function FindClock(s: string, i: nat): (r: Option<nat>)
    requires i <= |s|
    ensures r.Some? ==> i <= r.value < |s| && ClockAt(s, r.value).Some?
    ensures r.Some? ==> forall k :: i <= k < r.value ==> ClockAt(s, k).None?
    ensures r.None? ==> forall k :: i <= k <= |s| ==> ClockAt(s, k).None?
    decreases |s| - i
  {
    if i == |s| then ClockAtEnd(s); None
    else if ClockAt(s, i).Some? then Some(i)
    else FindClock(s, i + 1)
  }

  lemma ClockAtEnd(s: string)
    ensures ClockAt(s, |s|).None?
  {
    assert s[|s|..] == [];
  }

  /** A stamp without the letters of AM or PM holds no clock time. */
  lemma {:induction false} NoClockWithoutPeriod(s: string, i: nat)
    requires i <= |s|
    requires forall k :: 0 <= k < |s| ==> s[k] !in "AaPp"
    ensures FindClock(s, i).None?
    decreases |s| - i
  {
    if i < |s| {
      assert forall k :: i < k < |s| ==> !IsMeridiemPair(s[k - 1], s[k]) by {
        forall k | i < k < |s| ensures !IsMeridiemPair(s[k - 1], s[k]) {
          assert s[k - 1] !in "AaPp";
        }
      }
      NoClockWithoutPeriod(s, i + 1);
    }
  }

  /**
    The value given to the time picker for an entry whose header holds `time`
    (`None` when the entry has no header). The current time `nowHour:nowMinute`
    stands in when the time is missing or empty or cannot be read.
  */
  function ParseTimeForEdit(time: Option<string>, nowHour: nat, nowMinute: nat): (r: string)
    ensures exists hh: nat, mm: nat :: r == HourMinute(hh, mm)
  {
    if time.None? || time.value == "" then HourMinute(nowHour, nowMinute)
    else ReadStamp(Trim(time.value), nowHour, nowMinute)
  }

  /** A trimmed, non-empty stamp: the leftmost clock time in it, converted to 24 hours, else its colon-separated reading. */
  function ReadStamp(t: string, nowHour: nat, nowMinute: nat): (r: string)
    ensures exists hh: nat, mm: nat :: r == HourMinute(hh, mm)
  {
    match FindClock(t, 0)
    case Some(i) =>
      var c := ClockAt(t, i).value;
      HourMinute(To24(c.hour, c.period), c.minute)
    case None => ReadColon(t, nowHour, nowMinute)
  }

  /** `const [h, m] = t.split(":").map(Number)`: both numbers when both read, else the current time. */
  function ReadColon(t: string, nowHour: nat, nowMinute: nat): (r: string)
    ensures exists hh: nat, mm: nat :: r == HourMinute(hh, mm)
  {
    var parts := SplitOn(t, ':');
    if |parts| >= 2 && JsNumber(parts[0]).Some? && JsNumber(parts[1]).Some? then
      HourMinute(JsNumber(parts[0]).value, JsNumber(parts[1]).value)
    else HourMinute(nowHour, nowMinute)
  }

  /** Without a time, or with an empty one, the current time is proposed. */
  lemma EditWithoutTime(time: Option<string>, nowHour: nat, nowMinute: nat)
    requires time.None? || time == Some("")
    ensures ParseTimeForEdit(time, nowHour, nowMinute) == HourMinute(nowHour, nowMinute)
  {
  }

  /** A stamp with no white space at either end is read as it stands. */
  lemma ReadTrimmed(s: string, nowHour: nat, nowMinute: nat)
    requires s != [] && !IsSpace(s[0]) && !IsSpace(s[|s| - 1])
    ensures ParseTimeForEdit(Some(s), nowHour, nowMinute) == ReadStamp(s, nowHour, nowMinute)
  {
    TrimOfTrimmed(s);
  }

  /**
    The stamp an entry was written with is read back as the 24-hour time it was
    written for: `09:45 PM` becomes `21:45`, `12:05 AM` becomes `00:05`.
  */
  lemma EditOfLocaleStamp(h: nat, m: nat, gap: char, nowHour: nat, nowMinute: nat)
    requires h < 24 && m < 60 && IsSpace(gap)
    ensures ParseTimeForEdit(Some(LocaleStamp(h, m, gap)), nowHour, nowMinute) == HourMinute(h, m)
  {
    var s := LocaleStamp(h, m, gap);
    LocaleStampShape(h, m, gap);
    ReadTrimmed(s, nowHour, nowMinute);
    ClockOfLocaleStamp(h, m, gap);
    assert FindClock(s, 0) == Some(0);
  }

  /** The clock time matched at the start of a stamp is its 12-hour hour, its minute and its period. */
  lemma ClockOfLocaleStamp(h: nat, m: nat, gap: char)
    requires h < 24 && m < 60 && IsSpace(gap)
    ensures ClockAt(LocaleStamp(h, m, gap), 0) == Some(ClockTime(DisplayHour(h), m, PeriodOf(h)))
  {
    var s := LocaleStamp(h, m, gap);
    LocaleStampShape(h, m, gap);
    assert s[0..] == s;
    assert HourDigits(s) == 2;
    assert SkipSpace(s, 5) == 6 by { assert !IsSpace(s[6]); }
    assert DecValue(s[..2]) == DisplayHour(h) by {
      Pad2RoundTrip(DisplayHour(h));
      assert s[..2] == Pad2(DisplayHour(h));
    }
    assert DecValue(s[3..5]) == m by {
      Pad2RoundTrip(m);
      assert s[3..5] == Pad2(m);
    }
  }

  /**
    A 24-hour value `HH:MM` (or `HH:MM:SS` and so on, whose further groups are
    dropped) is kept as it is: it has no period, so the colon split reads it.
  */
  lemma EditOfHourMinute(h: nat, m: nat, xs: seq<string>, nowHour: nat, nowMinute: nat)
    requires |xs| >= 2 && xs[0] == Pad2(h) && xs[1] == Pad2(m)
    requires forall k :: 0 <= k < |xs| ==> AllDigits(xs[k]) && xs[k] != []
    ensures ParseTimeForEdit(Some(Join(xs, [':'])), nowHour, nowMinute) == HourMinute(h, m)
  {
    var s := Join(xs, [':']);
    ColonGroups(xs);
    ReadTrimmed(s, nowHour, nowMinute);
    NoClockWithoutPeriod(s, 0);
    assert ReadStamp(s, nowHour, nowMinute) == ReadColon(s, nowHour, nowMinute);
    SplitOnOfJoin(xs, ':');
    ColonReading(h, m, xs, nowHour, nowMinute);
  }

  lemma ColonReading(h: nat, m: nat, xs: seq<string>, nowHour: nat, nowMinute: nat)
    requires |xs| >= 2 && xs[0] == Pad2(h) && xs[1] == Pad2(m)
    requires SplitOn(Join(xs, [':']), ':') == xs
    ensures ReadColon(Join(xs, [':']), nowHour, nowMinute) == HourMinute(h, m)
  {
    JsNumberShowNat(h);
    JsNumberShowNat(m);
  }

  /** Two or more digit groups joined by colons form a stamp without white space or period letters. */
  lemma ColonGroups(xs: seq<string>)
    requires |xs| >= 2 && forall k :: 0 <= k < |xs| ==> AllDigits(xs[k]) && xs[k] != []
    ensures var s := Join(xs, [':']);
            && s != [] && !IsSpace(s[0]) && !IsSpace(s[|s| - 1])
            && (forall k :: 0 <= k < |s| ==> s[k] !in "AaPp")
            && forall k :: 0 <= k < |xs| ==> ':' !in xs[k]
  {
    JoinDigitsColons(xs);
    forall k | 0 <= k < |xs| ensures ':' !in xs[k] {
      assert AllDigits(xs[k]);
    }
  }

  /** Digit groups joined by colons: digits and colons only, starting and ending with a digit. */
  lemma {:induction false} JoinDigitsColons(xs: seq<string>)
    requires |xs| >= 1 && forall k :: 0 <= k < |xs| ==> AllDigits(xs[k])
    requires xs[0] != [] && xs[|xs| - 1] != []
    ensures var s := Join(xs, [':']);
            && s != [] && IsDigit(s[0]) && IsDigit(s[|s| - 1])
            && forall k :: 0 <= k < |s| ==> IsDigit(s[k]) || s[k] == ':'
  {
    if |xs| > 1 {
      var rest := Join(xs[1..], [':']);
      if |xs| > 2 {
        assert xs[1..][0] == xs[1];
      }
      JoinDigitsColonsAny(xs[1..]);
      assert xs[1..][|xs[1..]| - 1] == xs[|xs| - 1];
    }
  }

  lemma {:induction false} JoinDigitsColonsAny(xs: seq<string>)
    requires |xs| >= 1 && forall k :: 0 <= k < |xs| ==> AllDigits(xs[k])
    requires xs[|xs| - 1] != []
    ensures var s := Join(xs, [':']);
            && s != [] && IsDigit(s[|s| - 1])
            && forall k :: 0 <= k < |s| ==> IsDigit(s[k]) || s[k] == ':'
  {
    if |xs| > 1 {
      JoinDigitsColonsAny(xs[1..]);
      assert xs[1..][|xs[1..]| - 1] == xs[|xs| - 1];
    }
  }

  /**
    A stamp whose leftmost clock time reads as a 12-hour time `h:mm` with an
    hour 1..12 is given back as the hour of the day shown as that hour and
    period, with the same minute.
  */
  lemma EditOfClock(s: string, nowHour: nat, nowMinute: nat)
    requires s != [] && !IsSpace(s[0]) && !IsSpace(s[|s| - 1])
    requires FindClock(s, 0).Some?
    requires var c := ClockAt(s, FindClock(s, 0).value).value; 1 <= c.hour <= 12
    ensures var c := ClockAt(s, FindClock(s, 0).value).value;
            exists h :: h < 24 && DisplayHour(h) == c.hour && PeriodOf(h) == c.period
                        && ParseTimeForEdit(Some(s), nowHour, nowMinute) == HourMinute(h, c.minute)
  {
    ReadTrimmed(s, nowHour, nowMinute);
    var c := ClockAt(s, FindClock(s, 0).value).value;
    To24RoundTrip(c.hour, c.period);
    var h := To24(c.hour, c.period);
    assert ParseTimeForEdit(Some(s), nowHour, nowMinute) == HourMinute(h, c.minute);
  }

  lemma {:induction false} DecValueBelow(s: string)
    requires AllDigits(s) && |s| <= 2
    ensures DecValue(s) < 100
  {
    if |s| > 0 {
      DecValueBelow(s[..|s| - 1]);
    }
  }

  /** Without a clock time, an `h:m` stamp is taken as it is: the hour and minute are not checked against 23 and 59. */
  lemma EditKeepsOutOfRange()
    ensures ParseTimeForEdit(Some("99:99"), 0, 0) == "99:99"
  {
    NinetyNines();
    EditOfHourMinute(99, 99, ["99", "99"], 0, 0);
  }

  lemma NinetyNines()
    ensures Pad2(99) == "99" && AllDigits("99")
    ensures Join(["99", "99"], [':']) == "99:99"
  {
    assert ["99", "99"][1..] == ["99"];
  }

  /** A stamp that is neither falls back to the current time. */
  lemma EditOfUnreadable(nowHour: nat, nowMinute: nat)
    ensures ParseTimeForEdit(Some("noon"), nowHour, nowMinute) == HourMinute(nowHour, nowMinute)
  {
    var s := "noon";
    NoonLetters();
    ReadTrimmed(s, nowHour, nowMinute);
    NoClockWithoutPeriod(s, 0);
    assert SplitOn(s, ':') == [s];
  }

  lemma NoonLetters()
    ensures !IsSpace("noon"[0]) && !IsSpace("noon"[3])
    ensures forall k :: 0 <= k < |"noon"| ==> "noon"[k] !in "AaPp"
    ensures IndexOf("noon", ':').None?
  {
    var s := "noon";
    assert forall k :: 0 <= k < |s| ==> s[k] == 'n' || s[k] == 'o';
    assert ':' !in s;
  }
}
