/**
  The list of a day's entries (src/components/entries-list.tsx): each entry is
  shown as a card with the time from its `[time] ` header and the rest as its
  content; the last card is marked, and starting an edit hands the content and
  the time, converted for the time picker, to the page.
*/
module EntriesList {
  import opened Text
  import opened Clock
  import opened EntryFormat
  import opened EntryCard

  /** What one card shows of its entry. */
  datatype Card = Card(index: nat, time: Option<string>, content: string, isLastEntry: bool, isSelected: bool)

  /**
    The card of the entry at `index` among `count` entries: `/^\[(.*?)\]\s(.*)/s`
    splits a headed entry into time and content; any other entry has no time and
    is its own content.
  */
  function CardOf(entry: string, index: nat, count: nat, selected: set<nat>): (r: Card)
    ensures r.index == index && r.isSelected == (index in selected)
    ensures r.isLastEntry <==> index == count - 1
    ensures r.time.None? <==> MatchStamp(entry).None?
    ensures r.time.None? ==> r.content == entry
    ensures r.time.Some? ==>
              var t := r.time.value;
              && |entry| == |t| + 3 + |r.content|
              && entry == "[" + t + "]" + [entry[|t| + 2]] + r.content
              && IsSpace(entry[|t| + 2]) && NoCloseIn(t)
  {
    match MatchStamp(entry)
    case None => Card(index, None, entry, index == count - 1, index in selected)
    case Some(st) =>
      StampedShape(entry, st.time, st.body);
      Card(index, Some(st.time), st.body, index == count - 1, index in selected)
  }

  /** An entry the stamp pattern matched is its bracketed time, one white-space character and its body. */
  lemma StampedShape(entry: string, t: string, body: string)
    requires |entry| >= |t| + 3 && entry[0] == '['
    requires entry[1..|t| + 1] == t && ClosesAt(entry, |t| + 1) && entry[|t| + 3..] == body
    ensures |entry| == |t| + 3 + |body|
    ensures entry == "[" + t + "]" + [entry[|t| + 2]] + body && IsSpace(entry[|t| + 2])
  {
    var k := |t|;
    assert entry == entry[..1] + entry[1..k + 1] + entry[k + 1..k + 3] + entry[k + 3..];
    assert entry[..1] == "[";
    assert entry[k + 1..k + 3] == [']', entry[k + 2]];
  }

  /** The cards of all entries, in order. */
  function Cards(entries: seq<string>, selected: set<nat>): (r: seq<Card>)
    ensures |r| == |entries|
    ensures forall i :: 0 <= i < |r| ==> r[i] == CardOf(entries[i], i, |entries|, selected)
  {
    seq(|entries|, i requires 0 <= i < |entries| => CardOf(entries[i], i, |entries|, selected))
  }

  /** Exactly one card, the last, is marked as the last entry, and none is when there are no entries. */
  lemma LastEntryUnique(entries: seq<string>, selected: set<nat>)
    ensures var cards := Cards(entries, selected);
            forall i :: 0 <= i < |cards| ==> (cards[i].isLastEntry <==> i == |cards| - 1)
    ensures var cards := Cards(entries, selected);
            |set i | 0 <= i < |cards| && cards[i].isLastEntry| == if entries == [] then 0 else 1
  {
    var cards := Cards(entries, selected);
    var marked := set i | 0 <= i < |cards| && cards[i].isLastEntry;
    if entries == [] {
      assert marked == {};
    } else {
      assert marked == {|cards| - 1};
    }
  }

  /** An entry written as `[time] content` with a time the match cannot end early in shows that time and content. */
  lemma CardRoundTrip(time: string, content: string, index: nat, count: nat, selected: set<nat>)
    requires NoCloseIn(time)
    ensures var card := CardOf(Render(Some(time), content), index, count, selected);
            card.time == Some(time) && card.content == content
  {
    MatchStampRoundTrip(time, ' ', content);
    assert Render(Some(time), content) == "[" + time + "]" + [' '] + content;
  }

  /** Starting an edit of a card: its index, its content and the picker value for its time. */
  function EditStart(card: Card, nowHour: nat, nowMinute: nat): (r: (nat, string, string))
    ensures r.0 == card.index && r.1 == card.content
    ensures exists hh: nat, mm: nat :: r.2 == HourMinute(hh, mm)
    ensures card.time.None? ==> r.2 == HourMinute(nowHour, nowMinute)
  {
    (card.index, card.content, ParseTimeForEdit(card.time, nowHour, nowMinute))
  }

  /**
    Editing an entry that was written with the stamp of h:m (`[09:45 PM] text`)
    starts from its text alone and from the 24-hour time h:m.
  */
  lemma EditStartOfWritten(h: nat, m: nat, gap: char, body: string, index: nat, count: nat,
                           selected: set<nat>, nowHour: nat, nowMinute: nat)
    requires h < 24 && m < 60 && IsSpace(gap)
    ensures var card := CardOf(Render(Some(LocaleStamp(h, m, gap)), body), index, count, selected);
            EditStart(card, nowHour, nowMinute) == (index, body, HourMinute(h, m))
  {
    var stamp := LocaleStamp(h, m, gap);
    LocaleStampShape(h, m, gap);
    assert NoCloseIn(stamp) by {
      forall k | 0 <= k < |stamp| ensures stamp[k] != ']' {
      }
    }
    CardRoundTrip(stamp, body, index, count, selected);
    EditOfLocaleStamp(h, m, gap, nowHour, nowMinute);
  }

  /** An entry without a header starts its edit from the whole entry and the current time. */
  lemma EditStartWithoutHeader(entry: string, index: nat, count: nat, selected: set<nat>,
                               nowHour: nat, nowMinute: nat)
    requires entry == [] || entry[0] != '['
    ensures var card := CardOf(entry, index, count, selected);
            EditStart(card, nowHour, nowMinute) == (index, entry, HourMinute(nowHour, nowMinute))
  {
  }
}
