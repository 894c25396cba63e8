/**
  The dashboard (src/app/page.tsx): appending a new entry to the selected day,
  reading the day's entries with the page's own splitter, the week grid of the
  activity calendar, the post total and the current streak, the list of years,
  and the selection of entries for copying and deleting.
*/
module Page {
  import opened Text
  import opened Clock
  import opened EntryFormat
  import Posts
  import Utils
  import EntryCard
  import EntriesList

  // ---------------------------------------------------------------------------
  // How the two splitters read a day written by the page

  /**
    The header of an entry the page writes, `[09:45 PM] `, is a header for the
    tolerant splitter of the shared helpers (ten characters long) and none for the
    page's and the backend's two-hour-digit splitter.
  */
  lemma StampHeader(h: nat, m: nat, gap: char, body: string)
    requires h < 24 && m < 60 && IsSpace(gap)
    ensures MeridiemLen(Render(Some(LocaleStamp(h, m, gap)), body)) == 10
    ensures TwoDigitLen(Render(Some(LocaleStamp(h, m, gap)), body)) == 0
  {
    var e := Render(Some(LocaleStamp(h, m, gap)), body);
    StampCharacters(h, m, gap, body);
    MeridiemHeader(e);
  }

  /** The characters of `[hh:mm AM] body` up to its closing bracket. */
  lemma StampCharacters(h: nat, m: nat, gap: char, body: string)
    requires h < 24 && m < 60 && IsSpace(gap)
    ensures var e := Render(Some(LocaleStamp(h, m, gap)), body);
            && |e| >= 10 && e[0] == '[' && IsDigit(e[1]) && IsDigit(e[2]) && e[3] == ':'
            && IsDigit(e[4]) && IsDigit(e[5]) && IsSpace(e[6]) && (e[7] == 'A' || e[7] == 'P')
            && e[8] == 'M' && e[9] == ']'
  {
    var s := LocaleStamp(h, m, gap);
    var e := Render(Some(s), body);
    LocaleStampShape(h, m, gap);
    assert e == "[" + s + "] " + body;
    assert forall j :: 1 <= j < 9 ==> e[j] == s[j - 1];
  }

  /** Text starting `[dd:dd` followed by white space, `AM` or `PM` and `]` has a ten-character tolerant header and no strict one. */
  lemma MeridiemHeader(e: string)
    requires |e| >= 10 && e[0] == '[' && IsDigit(e[1]) && IsDigit(e[2]) && e[3] == ':'
    requires IsDigit(e[4]) && IsDigit(e[5]) && IsSpace(e[6]) && (e[7] == 'A' || e[7] == 'P')
    requires e[8] == 'M' && e[9] == ']'
    ensures MeridiemLen(e) == 10 && TwoDigitLen(e) == 0
  {
    assert HourColon(e) == 3;
    assert SkipSpace(e, 6) == 7 by { assert !IsSpace(e[7]); }
    assert CloseAfter(e, 6) == 10;
  }

  /** An entry whose only `[` is its first character contains no cut for either recogniser. */
  lemma NoCutWithoutBracket(e: string)
    requires forall j :: 1 <= j < |e| ==> e[j] != '['
    ensures !HasCut(e, MeridiemLen) && !HasCut(e, TwoDigitLen)
  {
    forall i | 0 <= i < |e| ensures !IsCutAt(e, MeridiemLen, i) && !IsCutAt(e, TwoDigitLen, i) {
      if i + 2 < |e| {
        assert e[i + 2..][0] == e[i + 2];
      }
    }
  }

  /** An entry as the page writes it, `[stamp] body`, with no `[` in its body. */
  lemma WrittenEntry(h: nat, m: nat, gap: char, body: string)
    requires h < 24 && m < 60 && IsSpace(gap) && '[' !in body
    ensures var e := Render(Some(LocaleStamp(h, m, gap)), body);
            && !HasCut(e, MeridiemLen) && !HasCut(e, TwoDigitLen) && !IsBlank(e)
            && MeridiemLen(e) > 0 && TwoDigitLen(e) == 0
  {
    var s := LocaleStamp(h, m, gap);
    var e := Render(Some(s), body);
    LocaleStampShape(h, m, gap);
    StampHeader(h, m, gap, body);
    BracketsAtStart(h, m, gap, body);
    NoCutWithoutBracket(e);
    assert !IsSpace(e[0]);
  }

  /**
    A day of two entries written by the page is two entries for the tolerant
    splitter but a single entry for the page's (and the backend's) splitter:
    its cut pattern wants `]` right after the minutes, where the stamp has its
    period.
  */
  lemma SplittersDisagree(h1: nat, m1: nat, g1: char, b1: string, h2: nat, m2: nat, g2: char, b2: string)
    requires h1 < 24 && m1 < 60 && IsSpace(g1) && '[' !in b1
    requires h2 < 24 && m2 < 60 && IsSpace(g2) && '[' !in b2
    ensures var e1 := Render(Some(LocaleStamp(h1, m1, g1)), b1);
            var e2 := Render(Some(LocaleStamp(h2, m2, g2)), b2);
            && Utils.SplitEntries(e1 + Separator + e2) == [e1, e2]
            && Posts.SplitEntries(e1 + Separator + e2) == [e1 + Separator + e2]
  {
    var e1 := Render(Some(LocaleStamp(h1, m1, g1)), b1);
    var e2 := Render(Some(LocaleStamp(h2, m2, g2)), b2);
    WrittenEntry(h1, m1, g1, b1);
    WrittenEntry(h2, m2, g2, b2);
    TolerantReadsBoth(e1, e2);
    BracketsAtStart(h1, m1, g1, b1);
    BracketsAtStart(h2, m2, g2, b2);
    StrictReadsOne(e1, e2);
  }

  lemma TolerantReadsBoth(e1: string, e2: string)
    requires !HasCut(e1, MeridiemLen) && !IsBlank(e1)
    requires !HasCut(e2, MeridiemLen) && !IsBlank(e2) && MeridiemLen(e2) > 0
    ensures Utils.SplitEntries(e1 + Separator + e2) == [e1, e2]
  {
    var xs := [e1, e2];
    assert Join(xs, Separator) == e1 + Separator + e2 by {
      assert xs[1..] == [e2];
    }
    Utils.SplitEntriesOfJoin(xs);
  }

  /** An entry the page writes has `[` only as its first character. */
  lemma BracketsAtStart(h: nat, m: nat, gap: char, body: string)
    requires h < 24 && m < 60 && IsSpace(gap) && '[' !in body
    ensures var e := Render(Some(LocaleStamp(h, m, gap)), body);
            |e| > 0 && e[0] == '[' && forall j :: 1 <= j < |e| ==> e[j] != '['
  {
    var s := LocaleStamp(h, m, gap);
    var e := Render(Some(s), body);
    LocaleStampShape(h, m, gap);
    forall j | 1 <= j < |e| ensures e[j] != '[' {
      if j <= 8 {
        assert e[j] == s[j - 1];
      } else if j >= 11 {
        assert e[j] == body[j - 11];
      }
    }
  }

  lemma StrictReadsOne(e1: string, e2: string)
    requires |e1| > 0 && e1[0] == '[' && forall j :: 1 <= j < |e1| ==> e1[j] != '['
    requires forall j :: 1 <= j < |e2| ==> e2[j] != '['
    requires TwoDigitLen(e2) == 0
    ensures Posts.SplitEntries(e1 + Separator + e2) == [e1 + Separator + e2]
  {
    var c := e1 + Separator + e2;
    forall i | 0 <= i < |c| ensures !IsCutAt(c, TwoDigitLen, i) {
      if i + 2 < |c| && c[i + 2] == '[' {
        OnlyCutAtSeparator(e1, e2, i);
        assert c[i + 2..] == e2;
      } else if i + 2 < |c| {
        assert c[i + 2..][0] == c[i + 2];
      }
    }
    FragmentsOfCutFree(c, TwoDigitLen);
    assert !IsBlank(c) by { assert c[0] == e1[0]; }
    assert KeepNonBlank([c]) == [c] by { assert [c][1..] == []; }
  }

  /** In `e1 + "\n\n" + e2`, where each part has `[` only at its start, a `[` after the start begins `e2`. */
  lemma OnlyCutAtSeparator(e1: string, e2: string, i: nat)
    requires forall j :: 1 <= j < |e1| ==> e1[j] != '['
    requires forall j :: 1 <= j < |e2| ==> e2[j] != '['
    requires |e1| > 0
    requires var c := e1 + Separator + e2; i + 2 < |c| && c[i + 2] == '['
    ensures i == |e1|
  {
    var c := e1 + Separator + e2;
    forall k | 0 < k < |c| && k != |e1| + 2 ensures c[k] != '[' {
      if k < |e1| {
        assert c[k] == e1[k];
      } else if k < |e1| + 2 {
        assert c[k] == '\n';
      } else {
        assert c[k] == e2[k - |e1| - 2];
      }
    }
  }

  // ---------------------------------------------------------------------------
  // Appending an entry

  /**
    The time of day the entry is stamped with. An empty entry time (a cleared
    time field) is falsy, so the current time `nowHour:nowMinute` is used.
    Otherwise the entry time `HH:MM` is read: `Date.setHours(h, m)` carries
    minutes into hours and hours into the next day; `None` when a part is not
    a number, which the locale formatting shows as an invalid date.
  */
  function EntryTimeOfDay(entryTime: string, nowHour: nat, nowMinute: nat): (r: Option<(nat, nat)>)
    requires nowHour < 24 && nowMinute < 60
    ensures r.Some? ==> r.value.0 < 24 && r.value.1 < 60
    ensures entryTime == "" ==> r == Some((nowHour, nowMinute))
  {
    if entryTime == "" then Some((nowHour, nowMinute)) else
    var parts := SplitOn(entryTime, ':');
    var h := JsNumber(parts[0]);
    var m := if |parts| >= 2 then JsNumber(parts[1]) else None;
    if h.Some? && m.Some? then Some(TimeOfDay(h.value, m.value)) else None
  }

  /** The hour and minute of the day at `h` hours and `m` minutes after midnight, past days dropped. */
  function TimeOfDay(h: nat, m: nat): (r: (nat, nat))
    ensures r.0 < 24 && r.1 < 60
    ensures r.0 * 60 + r.1 == (h * 60 + m) % (24 * 60)
  {
    var total := (h * 60 + m) % (24 * 60);
    (total / 60, total % 60)
  }

  /** An `HH:MM` value from the time picker is the time of day it names. */
  lemma EntryTimeOfHourMinute(h: nat, m: nat, nowHour: nat, nowMinute: nat)
    requires h < 24 && m < 60 && nowHour < 24 && nowMinute < 60
    ensures EntryTimeOfDay(HourMinute(h, m), nowHour, nowMinute) == Some((h, m))
  {
    HourMinuteFields(h, m);
    TimeOfDayWithinDay(h, m);
  }

  lemma TimeOfDayWithinDay(h: nat, m: nat)
    requires h < 24 && m < 60
    ensures TimeOfDay(h, m) == (h, m)
  {
    var total := h * 60 + m;
    assert total < 24 * 60;
    assert total % (24 * 60) == total;
    DivMod60(h, m);
  }

  lemma DivMod60(h: nat, m: nat)
    requires m < 60
    ensures (h * 60 + m) / 60 == h && (h * 60 + m) % 60 == m
  {
  }

  /** The outcome of pressing submit: nothing, or the content and count to store for the day. */
  datatype Submission = Ignored | Save(content: string, count: int)

  /** The text of a new entry: the stamp in brackets, then the trimmed input or `(image entry)` for an image-only entry. */
  function NewEntry(input: string, stamp: string): (r: string)
    ensures |r| > |stamp| + 2 && r[0] == '['
  {
    var body := Trim(input);
    Render(Some(stamp), if body == "" then "(image entry)" else body)
  }

  /** The header match of a new entry gives back the stamp and the text that was entered. */
  lemma NewEntryReadsBack(input: string, stamp: string)
    requires NoCloseIn(stamp)
    ensures MatchStamp(NewEntry(input, stamp))
            == Some(Stamped(stamp, if Trim(input) == "" then "(image entry)" else Trim(input)))
  {
    Posts.StampedReadsBack(stamp, if Trim(input) == "" then "(image entry)" else Trim(input));
  }

  /**
    `handleSubmit` up to the backend call: with a signed-in user, something to
    save and no upload running, the new entry `[stamp] text` is appended to the
    day's record after a blank line (or starts the day) and the count goes up
    by one. `stamp` is the locale formatting of the entry time.
  */
  function Submit(hasUser: bool, input: string, imageCount: nat, uploading: bool,
                  existing: Option<Posts.Post>, stamp: string): (r: Submission)
    ensures r.Ignored? <==> !hasUser || (IsBlank(input) && imageCount == 0) || uploading
  {
    if !hasUser || (IsBlank(input) && imageCount == 0) then Ignored
    else if uploading then Ignored
    else
      var entry := NewEntry(input, stamp);
      match existing
      case Some(p) => Save(p.content + Separator + entry, p.count + 1)
      case None => Save(entry, 1)
  }

  /** The body of a new entry is never blank: empty input stands as `(image entry)`. */
  lemma NewEntryBody(input: string, stamp: string)
    ensures var body := if IsBlank(input) then "(image entry)" else Trim(input);
            NewEntry(input, stamp) == Render(Some(stamp), body) && !IsBlank(body)
  {
    var b := "(image entry)";
    assert !IsSpace(b[0]);
  }

  /**
    A saved submission, read with the tolerant splitter, is the day's previous
    entries followed by the new one, and its count is one more than before; so
    a count that matched the entries still matches.
  */
  lemma SubmitAppends(hasUser: bool, input: string, imageCount: nat, uploading: bool,
                      existing: Option<Posts.Post>, h: nat, m: nat, gap: char)
    requires h < 24 && m < 60 && IsSpace(gap)
    requires !HasCut(NewEntry(input, LocaleStamp(h, m, gap)), MeridiemLen)
    ensures var r := Submit(hasUser, input, imageCount, uploading, existing, LocaleStamp(h, m, gap));
            var before := if existing.Some? then Utils.SplitEntries(existing.value.content) else [];
            r.Save? ==>
              && Utils.SplitEntries(r.content) == before + [NewEntry(input, LocaleStamp(h, m, gap))]
              && r.count == (if existing.Some? then existing.value.count else 0) + 1
              && (existing.Some? && existing.value.count == |before| ==> r.count == |Utils.SplitEntries(r.content)|)
  {
    var stamp := LocaleStamp(h, m, gap);
    var r := Submit(hasUser, input, imageCount, uploading, existing, stamp);
    if r.Save? {
      var e := NewEntry(input, stamp);
      NewEntryHeader(input, h, m, gap);
      assert r == if existing.Some? then Save(existing.value.content + Separator + e, existing.value.count + 1)
                  else Save(e, 1);
      SavedReads(existing, e, r);
    }
  }

  /** The reading of a saved submission, once its new entry `e` is known to be headed and cut-free. */
  lemma SavedReads(existing: Option<Posts.Post>, e: string, r: Submission)
    requires MeridiemLen(e) > 0 && !IsBlank(e) && !HasCut(e, MeridiemLen)
    requires r == if existing.Some? then Save(existing.value.content + Separator + e, existing.value.count + 1)
                  else Save(e, 1)
    ensures var before := if existing.Some? then Utils.SplitEntries(existing.value.content) else [];
            && Utils.SplitEntries(r.content) == before + [e]
            && r.count == (if existing.Some? then existing.value.count else 0) + 1
            && (existing.Some? && existing.value.count == |before| ==> r.count == |Utils.SplitEntries(r.content)|)
  {
    if existing.Some? {
      AppendReads(existing.value.content, e);
    } else {
      Utils.SplitEntriesOfJoin([e]);
    }
  }

  /**
    The page and the backend read a day with the strict splitter, which does not
    cut before the 12-hour stamps the page writes. Two submissions to an empty day
    leave a count of 2 while those readers see one entry; only the tolerant
    splitter of the shared helpers sees the two.
  */
  lemma SecondSubmitMiscounts(input1: string, input2: string, h1: nat, m1: nat, g1: char,
                              h2: nat, m2: nat, g2: char, p: Posts.Post)
    requires h1 < 24 && m1 < 60 && IsSpace(g1) && !IsBlank(input1) && '[' !in Trim(input1)
    requires h2 < 24 && m2 < 60 && IsSpace(g2) && !IsBlank(input2) && '[' !in Trim(input2)
    requires Submit(true, input1, 0, false, None, LocaleStamp(h1, m1, g1)) == Save(p.content, p.count)
    ensures var r := Submit(true, input2, 0, false, Some(p), LocaleStamp(h2, m2, g2));
            && r.Save? && r.count == 2
            && |Posts.SplitEntries(r.content)| == 1
            && |Utils.SplitEntries(r.content)| == 2
  {
    var s1 := LocaleStamp(h1, m1, g1);
    var s2 := LocaleStamp(h2, m2, g2);
    NewEntryBody(input1, s1);
    NewEntryBody(input2, s2);
    var e1 := Render(Some(s1), Trim(input1));
    var e2 := Render(Some(s2), Trim(input2));
    assert p.content == e1 && p.count == 1;
    assert Submit(true, input2, 0, false, Some(p), s2) == Save(e1 + Separator + e2, 2);
    SplittersDisagree(h1, m1, g1, Trim(input1), h2, m2, g2, Trim(input2));
  }

  /** A new entry starts with a header the tolerant splitter recognises and is not blank. */
  lemma NewEntryHeader(input: string, h: nat, m: nat, gap: char)
    requires h < 24 && m < 60 && IsSpace(gap)
    ensures MeridiemLen(NewEntry(input, LocaleStamp(h, m, gap))) > 0
    ensures !IsBlank(NewEntry(input, LocaleStamp(h, m, gap)))
  {
    var stamp := LocaleStamp(h, m, gap);
    var e := NewEntry(input, stamp);
    NewEntryBody(input, stamp);
    var body := if IsBlank(input) then "(image entry)" else Trim(input);
    StampHeader(h, m, gap, body);
    assert !IsSpace(e[0]);
  }

  lemma AppendReads(content: string, e: string)
    requires MeridiemLen(e) > 0 && !HasCut(e, MeridiemLen)
    ensures Utils.SplitEntries(content + Separator + e) == Utils.SplitEntries(content) + [e]
  {
    RecognisersShaped();
    EntriesAppend(content, e, MeridiemLen);
    Utils.FallbackNeverTaken(content);
    Utils.FallbackNeverTaken(content + Separator + e);
  }

  /**
    Submitting at the picker's time `HH:MM` writes an entry that, shown as a
    card and opened for editing, offers the same text and the same `HH:MM`.
  */
  lemma SubmitThenEdit(input: string, h: nat, m: nat, gap: char, index: nat, count: nat,
                       selected: set<nat>, nowHour: nat, nowMinute: nat)
    requires h < 24 && m < 60 && IsSpace(gap) && nowHour < 24 && nowMinute < 60
    ensures EntryTimeOfDay(HourMinute(h, m), nowHour, nowMinute) == Some((h, m))
    ensures var e := NewEntry(input, LocaleStamp(h, m, gap));
            var body := if IsBlank(input) then "(image entry)" else Trim(input);
            EntriesList.EditStart(EntriesList.CardOf(e, index, count, selected), nowHour, nowMinute)
              == (index, body, HourMinute(h, m))
  {
    EntryTimeOfHourMinute(h, m, nowHour, nowMinute);
    NewEntryBody(input, LocaleStamp(h, m, gap));
    var body := if IsBlank(input) then "(image entry)" else Trim(input);
    EntriesList.EditStartOfWritten(h, m, gap, body, index, count, selected, nowHour, nowMinute);
  }

  // ---------------------------------------------------------------------------
  // The week grid

  /** One day of the calendar: its day key, its weekday (0 is Sunday) and its post count. */
  datatype DayData = DayData(date: string, weekday: nat, count: int)

  type Cell = Option<DayData>

  function Blanks(n: nat): (r: seq<Cell>)
    ensures |r| == n && forall i :: 0 <= i < n ==> r[i].None?
  {
    if n == 0 then [] else Blanks(n - 1) + [None]
  }

  function Filled(days: seq<DayData>): (r: seq<Cell>)
    ensures |r| == |days| && forall i :: 0 <= i < |days| ==> r[i] == Some(days[i])
  {
    seq(|days|, i requires 0 <= i < |days| => Some(days[i]))
  }

  /** The cells of the weeks, week after week. */
  function Flatten(weeks: seq<seq<Cell>>): seq<Cell> {
    if weeks == [] then [] else Flatten(weeks[..|weeks| - 1]) + weeks[|weeks| - 1]
  }

  lemma FlattenPush(weeks: seq<seq<Cell>>, w: seq<Cell>)
    ensures Flatten(weeks + [w]) == Flatten(weeks) + w
  {
    assert (weeks + [w])[..|weeks|] == weeks;
  }

  lemma FilledPush(days: seq<DayData>, j: nat)
    requires j < |days|
    ensures Filled(days[..j + 1]) == Filled(days[..j]) + [Some(days[j])]
  {
  }

  /** The days in the cells, in order, skipping the blanks. */
  function Present(cells: seq<Cell>): (r: seq<DayData>)
    ensures |r| <= |cells|
  {
    if cells == [] then []
    else Present(cells[..|cells| - 1]) + (if cells[|cells| - 1].Some? then [cells[|cells| - 1].value] else [])
  }

  lemma {:induction false} PresentAppend(a: seq<Cell>, b: seq<Cell>)
    ensures Present(a + b) == Present(a) + Present(b)
    decreases |b|
  {
    if b == [] {
      assert a + b == a;
    } else {
      PresentAppend(a, b[..|b| - 1]);
      assert (a + b)[..|a + b| - 1] == a + b[..|b| - 1];
    }
  }

  lemma {:induction false} PresentBlanks(n: nat)
    ensures Present(Blanks(n)) == []
  {
    if n > 0 {
      PresentBlanks(n - 1);
    }
  }

  lemma {:induction false} PresentFilled(days: seq<DayData>)
    ensures Present(Filled(days)) == days
    decreases |days|
  {
    if days != [] {
      var k := |days| - 1;
      PresentFilled(days[..k]);
      assert Filled(days)[..k] == Filled(days[..k]);
    }
  }

  /**
    `weeks`: the calendar laid out in rows of seven, the first row starting
    with as many blanks as the weekday of the first day, the last row filled
    up with blanks.
  */
  method Weeks(calendar: seq<DayData>) returns (weeks: seq<seq<Cell>>)
    requires calendar != [] ==> calendar[0].weekday < 7
    ensures forall w :: 0 <= w < |weeks| ==> |weeks[w]| == 7
    ensures var lead := if calendar == [] then 0 else calendar[0].weekday;
            exists pad: nat :: pad < 7 && Flatten(weeks) == Blanks(lead) + Filled(calendar) + Blanks(pad)
  {
    weeks := [];
    var currentWeek: seq<Cell> := [];
    var lead := 0;
    if calendar != [] {
      lead := calendar[0].weekday;
      var i := 0;
      while i < lead
        invariant 0 <= i <= lead
        invariant currentWeek == Blanks(i)
      {
        currentWeek := currentWeek + [None];
        i := i + 1;
      }
    }
    var j := 0;
    while j < |calendar|
      invariant 0 <= j <= |calendar|
      invariant |currentWeek| < 7
      invariant Laid(weeks, currentWeek, Blanks(lead) + Filled(calendar[..j]))
    {
      PushDay(weeks, currentWeek, lead, calendar, j);
      currentWeek := currentWeek + [Some(calendar[j])];
      if |currentWeek| == 7 {
        weeks := weeks + [currentWeek];
        currentWeek := [];
      }
      j := j + 1;
    }
    assert calendar[..j] == calendar;
    var pad := 0;
    if |currentWeek| > 0 {
      while |currentWeek| < 7
        invariant pad < |currentWeek| <= 7
        invariant Laid(weeks, currentWeek, Blanks(lead) + Filled(calendar) + Blanks(pad))
        decreases 7 - |currentWeek|
      {
        PushBlank(weeks, currentWeek, Blanks(lead) + Filled(calendar), pad);
        currentWeek := currentWeek + [None];
        pad := pad + 1;
      }
      FlattenPush(weeks, currentWeek);
      weeks := weeks + [currentWeek];
    } else {
      assert Blanks(lead) + Filled(calendar) + Blanks(0) == Blanks(lead) + Filled(calendar);
    }
  }

  /** Full weeks of seven cells followed by the week being filled hold `cells`, in order. */
  ghost predicate Laid(weeks: seq<seq<Cell>>, currentWeek: seq<Cell>, cells: seq<Cell>) {
    && (forall w :: 0 <= w < |weeks| ==> |weeks[w]| == 7)
    && Flatten(weeks) + currentWeek == cells
  }

  /** Laying out day `j`: the week being filled takes it, and is closed once it has seven cells. */
  lemma PushDay(weeks: seq<seq<Cell>>, currentWeek: seq<Cell>, lead: nat, calendar: seq<DayData>, j: nat)
    requires j < |calendar| && |currentWeek| < 7
    requires Laid(weeks, currentWeek, Blanks(lead) + Filled(calendar[..j]))
    ensures var w := currentWeek + [Some(calendar[j])];
            && (|w| == 7 ==> Laid(weeks + [w], [], Blanks(lead) + Filled(calendar[..j + 1])))
            && (|w| < 7 ==> Laid(weeks, w, Blanks(lead) + Filled(calendar[..j + 1])))
  {
    var w := currentWeek + [Some(calendar[j])];
    var c := Some(calendar[j]);
    FilledPush(calendar, j);
    assert Flatten(weeks) + w == (Flatten(weeks) + currentWeek) + [c];
    assert (Blanks(lead) + Filled(calendar[..j])) + [c] == Blanks(lead) + (Filled(calendar[..j]) + [c]);
    FlattenPush(weeks, w);
    assert forall v :: 0 <= v < |weeks| ==> (weeks + [w])[v] == weeks[v];
  }

  /** Padding the last week with one more blank. */
  lemma PushBlank(weeks: seq<seq<Cell>>, currentWeek: seq<Cell>, cells: seq<Cell>, pad: nat)
    requires Laid(weeks, currentWeek, cells + Blanks(pad))
    ensures Laid(weeks, currentWeek + [None], cells + Blanks(pad + 1))
  {
    assert Blanks(pad + 1) == Blanks(pad) + [None];
    assert Flatten(weeks) + (currentWeek + [None]) == (Flatten(weeks) + currentWeek) + [None];
    assert (cells + Blanks(pad)) + [None] == cells + (Blanks(pad) + [None]);
  }

  /** The days read off the week grid, skipping blanks, are the calendar in order. */
  lemma WeeksHoldCalendar(calendar: seq<DayData>, lead: nat, pad: nat)
    ensures Present(Blanks(lead) + Filled(calendar) + Blanks(pad)) == calendar
  {
    var a, b, c := Blanks(lead), Filled(calendar), Blanks(pad);
    PresentAppend(a + b, c);
    PresentAppend(a, b);
    PresentBlanks(lead);
    PresentBlanks(pad);
    PresentFilled(calendar);
    assert Present(a + b + c) == [] + calendar + [];
  }

  // ---------------------------------------------------------------------------
  // Total and current streak

  /** Some key of a non-empty record map. */
  ghost function Pick(posts: map<string, Posts.Post>): (k: string)
    requires posts != map[]
    ensures k in posts
  {
    var k :| k in posts; k
  }

  /** The sum of the counts of all records. */
  ghost function SumCounts(posts: map<string, Posts.Post>): int
    decreases |posts|
  {
    if posts == map[] then 0
    else
      var k := Pick(posts);
      posts[k].count + SumCounts(posts - {k})
  }

  /** The sum does not depend on the order the records are visited in: any record can be taken first. */
  lemma {:induction false} SumCountsRemove(posts: map<string, Posts.Post>, k: string)
    requires k in posts
    ensures SumCounts(posts) == posts[k].count + SumCounts(posts - {k})
    decreases |posts|
  {
    var j := Pick(posts);
    if j != k {
      SumCountsRemove(posts - {j}, k);
      SumCountsRemove(posts - {k}, j);
      assert posts - {j} - {k} == posts - {k} - {j};
    }
  }

  /** Saving one more entry to an existing day adds one to the total. */
  lemma SumCountsIncrement(posts: map<string, Posts.Post>, k: string, content: string)
    requires k in posts
    ensures SumCounts(posts[k := posts[k].(content := content, count := posts[k].count + 1)]) == SumCounts(posts) + 1
  {
    var updated := posts[k := posts[k].(content := content, count := posts[k].count + 1)];
    SumCountsRemove(posts, k);
    SumCountsRemove(updated, k);
    assert updated - {k} == posts - {k};
  }

  /** `totalPosts`: the counts of all records added up. */
  method TotalPosts(posts: map<string, Posts.Post>) returns (total: int)
    ensures total == SumCounts(posts)
  {
    total := 0;
    var rest := posts.Keys;
    assert (map k | k in rest :: posts[k]) == posts;
    while rest != {}
      invariant rest <= posts.Keys
      invariant total + SumCounts(map k | k in rest :: posts[k]) == SumCounts(posts)
      decreases |rest|
    {
      var k :| k in rest;
      var remaining := map j | j in rest :: posts[j];
      SumCountsRemove(remaining, k);
      assert remaining - {k} == map j | j in rest - {k} :: posts[j];
      total := total + posts[k].count;
      rest := rest - {k};
    }
    assert (map k | k in rest :: posts[k]) == map[];
  }

  /** A day with posts: its record exists and counts more than zero. */
  predicate Active(posts: map<string, Posts.Post>, key: string) {
    key in posts && posts[key].count > 0
  }

  /**
    `currentStreak`: the number of consecutive active days ending today, or
    ending yesterday when today has no record or a count of zero. Days are
    numbered; `dateKey` is the day key of a day number, different for
    different days.
  */
  method CurrentStreak(posts: map<string, Posts.Post>, dateKey: int -> string, today: int) returns (streak: nat)
    requires DistinctKeys(dateKey)
    ensures var start := if dateKey(today) !in posts || posts[dateKey(today)].count == 0 then today - 1 else today;
            && (forall d :: start - streak < d <= start ==> Active(posts, dateKey(d)))
            && !Active(posts, dateKey(start - streak))
  {
    streak := 0;
    var checkDate := today;
    if dateKey(today) !in posts || posts[dateKey(today)].count == 0 {
      checkDate := checkDate - 1;
    }
    ghost var start := checkDate;
    ghost var seen: set<string> := {};
    assert Counted(posts, dateKey, seen, checkDate, start);
    while Active(posts, dateKey(checkDate))
      invariant checkDate == start - streak
      invariant Counted(posts, dateKey, seen, checkDate, start)
      decreases |posts.Keys - seen|
    {
      CountedGrows(posts, dateKey, seen, checkDate, start);
      seen := seen + {dateKey(checkDate)};
      streak := streak + 1;
      checkDate := checkDate - 1;
    }
    assert ActiveDays(posts, dateKey, start - streak, start);
  }

  /** The streak loop's state: the days after `checkDate` up to `start` are active, and `seen` holds their keys. */
  ghost predicate Counted(posts: map<string, Posts.Post>, dateKey: int -> string, seen: set<string>, checkDate: int, start: int) {
    && ActiveDays(posts, dateKey, checkDate, start)
    && seen <= posts.Keys
    && InStretch(dateKey, seen, checkDate, start)
  }

  /** One more active day extends the stretch by a key not seen before. */
  lemma CountedGrows(posts: map<string, Posts.Post>, dateKey: int -> string, seen: set<string>, checkDate: int, start: int)
    requires DistinctKeys(dateKey) && checkDate <= start
    requires Counted(posts, dateKey, seen, checkDate, start) && Active(posts, dateKey(checkDate))
    ensures Counted(posts, dateKey, seen + {dateKey(checkDate)}, checkDate - 1, start)
    ensures posts.Keys - (seen + {dateKey(checkDate)}) < posts.Keys - seen
  {
    SeenGrows(dateKey, seen, checkDate, start);
    Shrinks(posts.Keys, seen, dateKey(checkDate));
    ActiveDaysGrow(posts, dateKey, checkDate, start);
  }

  /** Every day after `lo` and up to `hi` is active. */
  ghost predicate ActiveDays(posts: map<string, Posts.Post>, dateKey: int -> string, lo: int, hi: int) {
    forall d :: lo < d <= hi ==> Active(posts, dateKey(d))
  }

  lemma ActiveDaysGrow(posts: map<string, Posts.Post>, dateKey: int -> string, lo: int, hi: int)
    requires ActiveDays(posts, dateKey, lo, hi) && Active(posts, dateKey(lo))
    ensures ActiveDays(posts, dateKey, lo - 1, hi)
  {
  }

  /** Different days have different keys. */
  ghost predicate DistinctKeys(dateKey: int -> string) {
    forall a: int, b: int :: a != b ==> dateKey(a) != dateKey(b)
  }

  /** Every key in `seen` is the key of a day after `checkDate` and up to `start`. */
  ghost predicate InStretch(dateKey: int -> string, seen: set<string>, checkDate: int, start: int) {
    forall k :: k in seen ==> exists d :: checkDate < d <= start && dateKey(d) == k
  }

  /** The key of the day before the checked stretch is new, and the stretch grows by that day. */
  lemma SeenGrows(dateKey: int -> string, seen: set<string>, checkDate: int, start: int)
    requires DistinctKeys(dateKey)
    requires checkDate <= start
    requires InStretch(dateKey, seen, checkDate, start)
    ensures dateKey(checkDate) !in seen
    ensures InStretch(dateKey, seen + {dateKey(checkDate)}, checkDate - 1, start)
  {
    forall k | k in seen + {dateKey(checkDate)}
      ensures exists d :: checkDate - 1 < d <= start && dateKey(d) == k
    {
      if k == dateKey(checkDate) {
        assert checkDate - 1 < checkDate <= start && dateKey(checkDate) == k;
      }
    }
  }

  lemma Shrinks(keys: set<string>, seen: set<string>, k: string)
    requires k in keys && k !in seen
    ensures keys - (seen + {k}) < keys - seen
  {
    assert k in keys - seen;
  }

  /** `stats`: no posts loaded yet gives zero and zero; otherwise the total and the current streak. */
  method Stats(posts: Option<map<string, Posts.Post>>, dateKey: int -> string, today: int)
    returns (totalPosts: int, currentStreak: nat)
    requires DistinctKeys(dateKey)
    ensures posts.None? ==> totalPosts == 0 && currentStreak == 0
    ensures posts.Some? ==>
              var p := posts.value;
              var start := if dateKey(today) !in p || p[dateKey(today)].count == 0 then today - 1 else today;
              && totalPosts == SumCounts(p)
              && (forall d :: start - currentStreak < d <= start ==> Active(p, dateKey(d)))
              && !Active(p, dateKey(start - currentStreak))
  {
    if posts.None? {
      return 0, 0;
    }
    totalPosts := TotalPosts(posts.value);
    currentStreak := CurrentStreak(posts.value, dateKey, today);
  }

  // ---------------------------------------------------------------------------
  // Calendar data

  /**
    `calendarData`: the days of the year in order, given by their day keys and
    the weekday of the first, each with the count of its record or 0.
  */
  function CalendarData(dayKeys: seq<string>, firstWeekday: nat, posts: Option<map<string, Posts.Post>>): (r: seq<DayData>)
    requires firstWeekday < 7
    ensures |r| == |dayKeys|
    ensures forall i :: 0 <= i < |r| ==> r[i].date == dayKeys[i] && r[i].weekday == (firstWeekday + i) % 7
    ensures forall i :: 0 <= i < |r| ==>
              r[i].count == (if posts.Some? && dayKeys[i] in posts.value then posts.value[dayKeys[i]].count else 0)
    ensures r != [] ==> r[0].weekday < 7
  {
    seq(|dayKeys|, i requires 0 <= i < |dayKeys| =>
      DayData(dayKeys[i], (firstWeekday + i) % 7,
              if posts.Some? && dayKeys[i] in posts.value then posts.value[dayKeys[i]].count else 0))
  }

  /** The counts of a run of calendar cells added up. */
  function DaySum(days: seq<DayData>): int {
    if days == [] then 0 else DaySum(days[..|days| - 1]) + days[|days| - 1].count
  }

  /** The records of the days among `dayKeys`. */
  ghost function RecordsOf(posts: map<string, Posts.Post>, dayKeys: seq<string>): map<string, Posts.Post> {
    map k | k in posts && k in dayKeys :: posts[k]
  }

  /** No day key is listed twice. */
  ghost predicate DistinctDays(dayKeys: seq<string>) {
    forall i, j :: 0 <= i < j < |dayKeys| ==> dayKeys[i] != dayKeys[j]
  }

  /**
    The calendar loses and invents no posts: over distinct day keys, its counts
    add up to the total of the records kept for those days (0 before loading).
  */
  lemma {:induction false} CalendarTotals(dayKeys: seq<string>, firstWeekday: nat, posts: Option<map<string, Posts.Post>>)
    requires firstWeekday < 7 && DistinctDays(dayKeys)
    ensures DaySum(CalendarData(dayKeys, firstWeekday, posts))
            == if posts.Some? then SumCounts(RecordsOf(posts.value, dayKeys)) else 0
    decreases |dayKeys|
  {
    var r := CalendarData(dayKeys, firstWeekday, posts);
    if dayKeys == [] {
      if posts.Some? {
        assert RecordsOf(posts.value, dayKeys) == map[];
      }
    } else {
      var n := |dayKeys| - 1;
      var front := dayKeys[..n];
      var k := dayKeys[n];
      assert DistinctDays(front);
      assert CalendarData(front, firstWeekday, posts) == r[..n];
      CalendarTotals(front, firstWeekday, posts);
      if posts.Some? {
        LastDayRecords(posts.value, dayKeys);
      }
    }
  }

  /** Adding the last day's record, if it has one, to the records of the days before it. */
  lemma LastDayRecords(p: map<string, Posts.Post>, dayKeys: seq<string>)
    requires dayKeys != [] && DistinctDays(dayKeys)
    ensures var n := |dayKeys| - 1;
            SumCounts(RecordsOf(p, dayKeys))
            == SumCounts(RecordsOf(p, dayKeys[..n])) + (if dayKeys[n] in p then p[dayKeys[n]].count else 0)
  {
    var n := |dayKeys| - 1;
    var front := dayKeys[..n];
    var k := dayKeys[n];
    var all := RecordsOf(p, dayKeys);
    assert dayKeys == front + [k];
    assert k !in front by {
      forall i | 0 <= i < n ensures front[i] != k {
        assert dayKeys[i] != dayKeys[n];
      }
    }
    if k in p {
      SumCountsRemove(all, k);
      assert all - {k} == RecordsOf(p, front);
    } else {
      assert all == RecordsOf(p, front);
    }
  }

  // ---------------------------------------------------------------------------
  // The years to choose from

  const BaseYears: seq<int> := [2024, 2025, 2026]

  /** `parseInt(dateStr.split("-")[0], 10)`: a year exactly when the key starts with a digit. */
  function YearOf(dateKey: string): (r: Option<nat>)
    ensures r.Some? <==> |dateKey| > 0 && IsDigit(dateKey[0])
  {
    ParseInt(Utils.BeforeDash(dateKey))
  }

  /** A year added to a list of distinct years kept from the latest down. */
  function InsertYear(years: seq<int>, y: int): (r: seq<int>)
    requires Posts.StrictlyDescending(years)
    ensures Posts.StrictlyDescending(r)
    ensures forall z :: z in r <==> z in years || z == y
  {
    if years == [] || y > years[0] then [y] + years
    else if y == years[0] then years
    else
      var rest := InsertYear(years[1..], y);
      assert forall z :: z in years[1..] ==> z < years[0];
      assert years == [years[0]] + years[1..];
      forall i | 0 <= i < |rest| ensures rest[i] < years[0] {
        assert rest[i] in rest;
      }
      [years[0]] + rest
  }

  /** The years offered for a set of records: the base years and every record's year, each once, latest first. */
  ghost predicate OffersYears(posts: map<string, Posts.Post>, r: seq<int>) {
    && Posts.StrictlyDescending(r)
    && forall y :: y in r <==> y in BaseYears || RecordYear(posts, y)
  }

  /** Some record's day key has year `y`. */
  ghost predicate RecordYear(posts: map<string, Posts.Post>, y: int) {
    exists k :: k in posts && YearOf(k) == Some(y)
  }

  /** `ys` added, one by one, to the descending list `years`. */
  function AddYears(years: seq<int>, ys: seq<int>): (r: seq<int>)
    requires Posts.StrictlyDescending(years)
    ensures Posts.StrictlyDescending(r)
    ensures forall y :: y in r <==> y in years || y in ys
  {
    if ys == [] then years
    else
      var n := |ys| - 1;
      assert ys == ys[..n] + [ys[n]];
      InsertYear(AddYears(years, ys[..n]), ys[n])
  }

  /** The year of each key, in the order of the keys. */
  function KeyYears(keys: seq<string>): (r: seq<int>)
    requires forall i :: 0 <= i < |keys| ==> YearOf(keys[i]).Some?
    ensures |r| == |keys|
    ensures forall i :: 0 <= i < |keys| ==> Some(r[i]) == YearOf(keys[i])
  {
    seq(|keys|, i requires 0 <= i < |keys| && YearOf(keys[i]).Some? => YearOf(keys[i]).value as int)
  }

  /**
    `availableYears`: before the posts are loaded the three base years as
    listed; afterwards those and the year of every record's day key, each once,
    from the latest down. `keyOrder` is the order in which the record keys are
    enumerated.
  */
  function AvailableYears(posts: Option<map<string, Posts.Post>>, keyOrder: seq<string>): (r: seq<int>)
    requires posts.Some? ==> forall k :: k in keyOrder <==> k in posts.value
    requires forall i :: 0 <= i < |keyOrder| ==> YearOf(keyOrder[i]).Some?
    ensures posts.None? ==> r == BaseYears
    ensures posts.Some? ==> OffersYears(posts.value, r)
  {
    if posts.None? then BaseYears
    else
      var ys := KeyYears(keyOrder);
      KeyYearsOfRecords(posts.value, keyOrder);
      var r := AddYears([2026, 2025, 2024], ys);
      assert forall y :: y in [2026, 2025, 2024] <==> y in BaseYears;
      r
  }

  /** Listing the year of every key gives exactly the records' years. */
  lemma KeyYearsOfRecords(posts: map<string, Posts.Post>, keyOrder: seq<string>)
    requires forall k :: k in keyOrder <==> k in posts
    requires forall i :: 0 <= i < |keyOrder| ==> YearOf(keyOrder[i]).Some?
    ensures forall y :: y in KeyYears(keyOrder) <==> RecordYear(posts, y)
  {
    var ys := KeyYears(keyOrder);
    forall y ensures y in ys <==> RecordYear(posts, y) {
      if y in ys {
        var i :| 0 <= i < |ys| && ys[i] == y;
        assert keyOrder[i] in posts;
      }
      if RecordYear(posts, y) {
        var k :| k in posts && YearOf(k) == Some(y);
        var i :| 0 <= i < |keyOrder| && keyOrder[i] == k;
        assert ys[i] == y;
      }
    }
  }

  /** The year of a day key written by the date formatter is among the years offered. */
  lemma RecordYearOffered(posts: map<string, Posts.Post>, offered: seq<int>, year: nat, monthIndex: nat, day: nat)
    requires Utils.FormatDate(year, monthIndex, day) in posts
    requires OffersYears(posts, offered)
    ensures year in offered
  {
    Utils.YearOfFormatDate(year, monthIndex, day);
    assert YearOf(Utils.FormatDate(year, monthIndex, day)) == Some(year);
    assert RecordYear(posts, year);
  }

  /** The years offered are determined by the records: two lists that both offer them are the same list. */
  lemma {:induction false} OffersYearsUnique(posts: map<string, Posts.Post>, a: seq<int>, b: seq<int>)
    requires OffersYears(posts, a) && OffersYears(posts, b)
    ensures a == b
  {
    DescendingSameMembers(a, b);
  }

  lemma HeadIn(s: seq<int>)
    ensures s == [] || s[0] in s
  {
  }

  lemma {:induction false} DescendingSameMembers(a: seq<int>, b: seq<int>)
    requires Posts.StrictlyDescending(a) && Posts.StrictlyDescending(b)
    requires forall y :: y in a <==> y in b
    ensures a == b
    decreases |a|
  {
    if a == [] || b == [] {
      HeadIn(a);
      HeadIn(b);
    } else {
      SameHead(a, b);
      SameTailMembers(a, b);
      StrictTail(a);
      StrictTail(b);
      DescendingSameMembers(a[1..], b[1..]);
      assert a == [a[0]] + a[1..] && b == [b[0]] + b[1..];
    }
  }

  /** Two strictly descending lists with the same members start with the same (largest) member. */
  lemma SameHead(a: seq<int>, b: seq<int>)
    requires Posts.StrictlyDescending(a) && Posts.StrictlyDescending(b)
    requires forall y :: y in a <==> y in b
    requires a != [] && b != []
    ensures a[0] == b[0]
  {
    assert a[0] in a && b[0] in b;
    assert a[0] in b && b[0] in a;
    var i :| 0 <= i < |b| && b[i] == a[0];
    var j :| 0 <= j < |a| && a[j] == b[0];
    assert a[0] >= a[j] && b[0] >= b[i];
  }

  /** Below a common head, the remaining members agree too. */
  lemma SameTailMembers(a: seq<int>, b: seq<int>)
    requires Posts.StrictlyDescending(a) && Posts.StrictlyDescending(b)
    requires forall y :: y in a <==> y in b
    requires a != [] && b != [] && a[0] == b[0]
    ensures forall y :: y in a[1..] <==> y in b[1..]
  {
    forall y ensures y in a[1..] <==> y in b[1..] {
      if y in a[1..] {
        var i :| 1 <= i < |a| && a[i] == y;
        assert y < a[0] && y in b;
      }
      if y in b[1..] {
        var i :| 1 <= i < |b| && b[i] == y;
        assert y < b[0] && y in a;
      }
    }
  }

  lemma StrictTail(a: seq<int>)
    requires Posts.StrictlyDescending(a) && a != []
    ensures Posts.StrictlyDescending(a[1..])
  {
  }

  // ---------------------------------------------------------------------------
  // Selecting entries

  /** `toggleEntrySelection`: a copy of the selection with `index` added when absent and removed when present. */
  method ToggleEntrySelection(selected: set<int>, index: int) returns (next: set<int>)
    ensures forall i :: i in next <==> (i == index) != (i in selected)
  {
    next := selected;
    if index in next {
      next := next - {index};
    } else {
      next := next + {index};
    }
  }

  function AllIndices(n: nat): (r: set<int>)
    ensures forall i :: i in r <==> 0 <= i < n
    ensures |r| == n
  {
    if n == 0 then {} else
      var r := AllIndices(n - 1) + {n - 1};
      assert n - 1 !in AllIndices(n - 1);
      r
  }

  /** `toggleSelectAll`: clear the selection when it has as many members as there are entries, else select every entry. */
  method ToggleSelectAll(selected: set<int>, count: nat) returns (next: set<int>)
    ensures |selected| == count ==> next == {}
    ensures |selected| != count ==> forall i :: i in next <==> 0 <= i < count
  {
    if |selected| == count {
      next := {};
    } else {
      next := AllIndices(count);
    }
  }

  /** A selection of entry positions has as many members as there are entries exactly when it holds all of them. */
  lemma SelectionFull(selected: set<int>, count: nat)
    requires forall i :: i in selected ==> 0 <= i < count
    ensures |selected| == count <==> selected == AllIndices(count)
  {
    if |selected| == count && selected != AllIndices(count) {
      var missing :| missing in AllIndices(count) && missing !in selected;
      assert selected <= AllIndices(count) - {missing};
      assert |AllIndices(count) - {missing}| == count - 1;
      SubsetCard(selected, AllIndices(count) - {missing});
    }
  }

  lemma SubsetCard(a: set<int>, b: set<int>)
    requires a <= b
    ensures |a| <= |b|
  {
    assert b == a + (b - a);
  }

  // ---------------------------------------------------------------------------
  // Copying the selected entries

  /** The selected entries, in their order in the day. */
  function Selected(entries: seq<string>, selected: set<int>): (r: seq<string>)
    ensures |r| <= |entries|
    ensures forall k :: 0 <= k < |r| ==> r[k] in entries
  {
    if entries == [] then []
    else
      var n := |entries| - 1;
      Selected(entries[..n], selected) + (if n in selected then [entries[n]] else [])
  }

  /** The copied entries are the ones a deletion of every unselected position would leave. */
  lemma {:induction false} SelectedAreSurvivors(entries: seq<string>, selected: set<int>)
    ensures Selected(entries, selected) == Posts.Survivors(entries, AllIndices(|entries|) - selected)
    decreases |entries|
  {
    if entries != [] {
      var n := |entries| - 1;
      SelectedAreSurvivors(entries[..n], selected);
      Posts.SurvivorsLocal(entries[..n], AllIndices(n) - selected, AllIndices(n + 1) - selected);
    }
  }

  /** With every entry selected the copy holds all of them, and with none selected it holds none. */
  lemma SelectAllCopiesAll(entries: seq<string>)
    ensures Selected(entries, AllIndices(|entries|)) == entries
    ensures Selected(entries, {}) == []
  {
    SelectedAreSurvivors(entries, AllIndices(|entries|));
    Posts.SurvivorsLocal(entries, AllIndices(|entries|) - AllIndices(|entries|), {});
    SelectedAreSurvivors(entries, {});
    Posts.SurvivorsLocal(entries, AllIndices(|entries|) - {}, AllIndices(|entries|));
    SurvivorsAll(entries);
  }

  lemma {:induction false} SurvivorsAll(entries: seq<string>)
    ensures Posts.Survivors(entries, AllIndices(|entries|)) == []
    decreases |entries|
  {
    if entries != [] {
      var n := |entries| - 1;
      SurvivorsAll(entries[..n]);
      Posts.SurvivorsLocal(entries[..n], AllIndices(n), AllIndices(n + 1));
    }
  }

  /** `handleBulkCopy`: the selected entries joined by blank lines. */
  function BulkCopy(entries: seq<string>, selected: set<int>): (r: string)
    ensures Posts.WellSplit(entries) ==> Posts.SplitEntries(r) == Selected(entries, selected)
  {
    var copied := Selected(entries, selected);
    assert Posts.WellSplit(entries) ==> Posts.SplitEntries(Join(copied, Separator)) == copied by {
      if Posts.WellSplit(entries) {
        if copied == [] {
          assert Join(copied, Separator) == [];
        } else {
          SelectedWellSplit(entries, selected);
          Posts.SplitOfJoin(copied);
        }
      }
    }
    Join(copied, Separator)
  }

  lemma {:induction false} SelectedWellSplit(entries: seq<string>, selected: set<int>)
    requires Posts.WellSplit(entries)
    ensures Posts.WellSplit(Selected(entries, selected))
    ensures Selected(entries, selected) != [] && Selected(entries, selected)[0] != entries[0] ==>
              TwoDigitLen(Selected(entries, selected)[0]) > 0
    decreases |entries|
  {
    if entries != [] {
      var n := |entries| - 1;
      var prefix := entries[..n];
      assert Posts.WellSplit(prefix);
      SelectedWellSplit(prefix, selected);
      var r := Selected(entries, selected);
      var head := Selected(prefix, selected);
      if n in selected {
        assert r == head + [entries[n]];
        if head == [] {
          assert r == [entries[n]];
        } else {
          assert n > 0;
        }
      }
    }
  }

  /** Copied entries taken from a day's split are read back by the same splitter as exactly the selected entries. */
  lemma BulkCopyReadsBack(content: string, selected: set<int>)
    ensures Posts.SplitEntries(BulkCopy(Posts.SplitEntries(content), selected))
            == Selected(Posts.SplitEntries(content), selected)
  {
    Posts.SplitEntriesWellSplit(content);
  }
}
