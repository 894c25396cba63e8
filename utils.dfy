/**
  The shared helpers of src/lib/utils.ts: the `YYYY-MM-DD` day key, the
  activity-graph intensity classes, month abbreviations, the Arabic-script test
  that switches a text to right-to-left, and the tolerant entry splitter that
  understands both `[09:45 PM]` and `[09:45]` headers.
*/
module Utils {
  import opened Text
  import opened EntryFormat

  // ---------------------------------------------------------------------------
  // Day keys

  /** The day key of a calendar date: year, month index 0..11 and day of month. */
  function FormatDate(year: nat, monthIndex: nat, day: nat): (r: string)
    ensures monthIndex < 12 && day < 100 ==> |r| == |ShowNat(year)| + 6
    ensures r != [] && IsDigit(r[0])
  {
    ShowNat(year) + MonthDay(monthIndex, day)
  }

  /** The `-MM-DD` part of a day key. */
  function MonthDay(monthIndex: nat, day: nat): string {
    "-" + Pad2(monthIndex + 1) + "-" + Pad2(day)
  }

  /** The text before the first `-`: `s.split("-")[0]`. */
  function BeforeDash(s: string): (r: string)
    ensures |r| <= |s| && r == s[..|r|]
    ensures forall i :: 0 <= i < |r| ==> s[i] != '-'
    ensures |r| < |s| ==> s[|r|] == '-'
  {
    if |s| == 0 || s[0] == '-' then "" else [s[0]] + BeforeDash(s[1..])
  }

  /**
    A day key reads back as its fields: the month number (index plus one) and the
    day, each in two digits, after the year and a dash.
  */
  lemma FormatDateFields(year: nat, monthIndex: nat, day: nat)
    requires monthIndex < 12 && day < 100
    ensures var r := FormatDate(year, monthIndex, day);
            var k := |ShowNat(year)|;
            && |r| == k + 6 && r[k] == '-' && r[k + 3] == '-'
            && ParseInt(r[k + 1..k + 3]) == Some(monthIndex + 1)
            && ParseInt(r[k + 4..]) == Some(day)
  {
    var y := ShowNat(year);
    var tail := MonthDay(monthIndex, day);
    DateTail(monthIndex, day);
    AfterPrefix(y, tail, 1, 3);
    AfterPrefix(y, tail, 4, 6);
    AfterPrefix(y, tail, 0, 6);
    assert FormatDate(year, monthIndex, day) == y + tail;
  }

  lemma AfterPrefix(y: string, tail: string, i: nat, j: nat)
    requires i <= j <= |tail|
    ensures |y + tail| == |y| + |tail|
    ensures (y + tail)[|y| + i..|y| + j] == tail[i..j]
    ensures (y + tail)[|y| + i..] == tail[i..]
    ensures forall n :: i <= n < j ==> (y + tail)[|y| + n] == tail[n]
  {
  }

  /** The text before the first dash of a day key is the year, and it parses back to the year. */
  lemma YearOfFormatDate(year: nat, monthIndex: nat, day: nat)
    ensures BeforeDash(FormatDate(year, monthIndex, day)) == ShowNat(year)
    ensures ParseInt(BeforeDash(FormatDate(year, monthIndex, day))) == Some(year)
  {
    BeforeDashOf(ShowNat(year), MonthDay(monthIndex, day));
    ParseIntShowNat(year);
  }

  lemma DateTail(monthIndex: nat, day: nat)
    requires monthIndex < 12 && day < 100
    ensures var tail := MonthDay(monthIndex, day);
            && |tail| == 6 && tail[0] == '-' && tail[3] == '-'
            && ParseInt(tail[1..3]) == Some(monthIndex + 1)
            && ParseInt(tail[4..]) == Some(day)
  {
    var m := Pad2(monthIndex + 1);
    var d := Pad2(day);
    var tail := "-" + m + "-" + d;
    assert tail[1..3] == m by {
      assert forall i | 0 <= i < 2 :: tail[1 + i] == m[i];
    }
    assert tail[4..] == d by {
      assert forall i | 0 <= i < 2 :: tail[4 + i] == d[i];
    }
    ParseIntPad2(monthIndex + 1);
    ParseIntPad2(day);
  }

  lemma {:induction false} BeforeDashOf(s: string, t: string)
    requires AllDigits(s)
    requires t != [] && t[0] == '-'
    ensures BeforeDash(s + t) == s
  {
    if s == [] {
      assert s + t == t;
    } else {
      BeforeDashOf(s[1..], t);
      assert (s + t)[1..] == s[1..] + t;
    }
  }

  /** Distinct dates have distinct day keys. */
  lemma FormatDateInjective(y1: nat, m1: nat, d1: nat, y2: nat, m2: nat, d2: nat)
    requires m1 < 12 && d1 < 100 && m2 < 12 && d2 < 100
    requires FormatDate(y1, m1, d1) == FormatDate(y2, m2, d2)
    ensures y1 == y2 && m1 == m2 && d1 == d2
  {
    YearOfFormatDate(y1, m1, d1);
    YearOfFormatDate(y2, m2, d2);
    FormatDateFields(y1, m1, d1);
    FormatDateFields(y2, m2, d2);
  }

  // ---------------------------------------------------------------------------
  // Intensity classes of the activity graph

  const NoPosts := "bg-slate-800/50 hover:bg-slate-700/80"
  const OnePost := "bg-blue-900/40 hover:bg-blue-800/60" + " border border-blue-800/30"
  const TwoPosts := "bg-blue-600/60 hover:bg-blue-500/70" + " border border-blue-500/30"
  const ManyPosts := "bg-blue-500 hover:bg-blue-400" + " border border-blue-400/50"
                     + " shadow-[0_0_8px_rgba(59,130,246,0.6)]"
  const Fallback := "bg-slate-800/50"

  function IntensityClass(count: int): (r: string)
    ensures r == Fallback <==> count < 0
  {
    assert |Fallback| != |NoPosts| && Fallback[3] != OnePost[3] && Fallback[3] != TwoPosts[3];
    assert Fallback[3] != ManyPosts[3];
    if count == 0 then NoPosts
    else if count == 1 then OnePost
    else if count == 2 then TwoPosts
    else if count >= 3 then ManyPosts
    else Fallback
  }

  /**
    Zero, one and two posts each have their own class, every count from three on
    shares one, and a negative count falls through to the default; the five
    classes are pairwise different.
  */
  lemma IntensityClassLevels(count: int)
    ensures count >= 3 ==> IntensityClass(count) == IntensityClass(3)
    ensures 0 <= count <= 3 ==>
              forall c :: 0 <= c <= 3 && c != count ==> IntensityClass(c) != IntensityClass(count)
  {
    assert NoPosts[3] != OnePost[3] && NoPosts[3] != TwoPosts[3] && NoPosts[3] != ManyPosts[3];
    assert OnePost[8] != TwoPosts[8] && OnePost[8] != ManyPosts[8] && TwoPosts[8] != ManyPosts[8];
  }

  // ---------------------------------------------------------------------------
  // Month names

  const Months: seq<string> := ["Jan", "Feb", "Mar", "Apr", "May", "Jun",
                                "Jul", "Aug", "Sep", "Oct", "Nov", "Dec"]

  /** `months[monthIndex]`; an index outside the list yields `undefined`, here `None`. */
  function MonthName(monthIndex: int): (r: Option<string>)
    ensures r.Some? <==> 0 <= monthIndex < 12
    ensures r.Some? ==> |r.value| == 3
  {
    if 0 <= monthIndex < |Months| then Some(Months[monthIndex]) else None
  }

  /** Different months have different names. */
  lemma MonthNamesDistinct(i: int, j: int)
    requires 0 <= i < 12 && 0 <= j < 12 && i != j
    ensures MonthName(i) != MonthName(j)
  {
    assert forall a, b | 0 <= a < b < 12 :: Months[a] != Months[b];
  }

  // ---------------------------------------------------------------------------
  // Arabic script

  predicate IsArabic(c: char) {
    '\U{0600}' <= c <= '\U{06FF}'
  }

  /** `/[؀-ۿ]/.test(text)` */
  function ContainsArabic(text: string): (r: bool)
    ensures r <==> exists i :: 0 <= i < |text| && IsArabic(text[i])
  {
    if |text| == 0 then false
    else if IsArabic(text[0]) then true
    else
      var rest := ContainsArabic(text[1..]);
      assert forall i :: 0 <= i < |text| - 1 ==> text[1..][i] == text[i + 1];
      rest
  }

  // ---------------------------------------------------------------------------
  // The tolerant splitter

  /**
    Entries of a day as the helper splits them: cut before `[h:mm]`, `[hh:mm]`
    or either with AM/PM, drop blank pieces, and fall back to the whole trimmed
    content when nothing is left although the content is not blank.
  */
  function SplitEntries(content: string): (r: seq<string>)
    ensures forall k :: 0 <= k < |r| ==> !IsBlank(r[k])
  {
    var entries := Entries(content, MeridiemLen);
    if |entries| == 0 && !IsBlank(content) then
      var t := Trim(content);
      assert !IsSpace(t[0]);
      [t]
    else entries
  }

  /** The fallback branch is never taken: the filtered split alone is the result. */
  lemma FallbackNeverTaken(content: string)
    ensures SplitEntries(content) == Entries(content, MeridiemLen)
  {
    EntriesEmpty(content, MeridiemLen);
  }

  /** Non-blank content yields at least one entry; only white space yields none. */
  lemma SplitEntriesEmpty(content: string)
    ensures SplitEntries(content) == [] <==> IsBlank(content)
  {
    EntriesEmpty(content, MeridiemLen);
  }

  /**
    Cuts happen only at a blank line followed by a header: no entry contains
    such a place, and every entry after the first starts with a header.
  */
  lemma SplitEntriesCuts(content: string)
    ensures forall k :: 0 <= k < |SplitEntries(content)| ==> !HasCut(SplitEntries(content)[k], MeridiemLen)
    ensures forall k :: 1 <= k < |SplitEntries(content)| ==> MeridiemLen(SplitEntries(content)[k]) > 0
  {
    FallbackNeverTaken(content);
    RecognisersShaped();
    EntriesShape(content, MeridiemLen);
  }

  /** When no piece was blank, the entries joined by a blank line are the content itself. */
  lemma SplitEntriesJoin(content: string)
    requires |SplitEntries(content)| == |Fragments(content, MeridiemLen)|
    ensures Join(SplitEntries(content), Separator) == content
  {
    FallbackNeverTaken(content);
    EntriesJoin(content, MeridiemLen);
  }

  /** Headed entries written with the separator are read back in order. */
  lemma SplitEntriesOfJoin(xs: seq<string>)
    requires |xs| >= 1
    requires forall k :: 0 <= k < |xs| ==> !HasCut(xs[k], MeridiemLen) && !IsBlank(xs[k])
    requires forall k :: 1 <= k < |xs| ==> MeridiemLen(xs[k]) > 0
    ensures SplitEntries(Join(xs, Separator)) == xs
  {
    RecognisersShaped();
    FallbackNeverTaken(Join(xs, Separator));
    EntriesOfJoin(xs, MeridiemLen);
  }
}
