/**
  The `posts` table of convex/posts.ts: one record per user and day holding the
  day's entry log, its entry count, the time of the last change and the ids of
  the attached images. Each mutation is one atomic step on a store keyed by
  (userId, date); the backend reads a day's entries with the two-hour-digit
  header pattern.
*/
module Posts {
  import opened Text
  import opened EntryFormat

  type StorageId = string

  type Key = (string, string)

  datatype Post = Post(
    id: nat,
    userId: string,
    date: string,
    content: string,
    count: int,
    lastUpdated: int,
    imageIds: Option<seq<StorageId>>)

  /** The backend's reading of a day: cut before `[hh:mm]` or `[hh:mm:ss]`, drop blank pieces. */
  function SplitEntries(content: string): (r: seq<string>)
    ensures r == [] <==> IsBlank(content)
  {
    EntriesEmpty(content, TwoDigitLen);
    Entries(content, TwoDigitLen)
  }

  // ---------------------------------------------------------------------------
  // Image lists

  /** An absent list reads as the empty list (`imageIds || []`). */
  function Images(ids: Option<seq<StorageId>>): seq<StorageId> {
    if ids.Some? then ids.value else []
  }

  /** The stored list after appending `added` to `existing`: absent when empty. */
  function MergeImages(existing: Option<seq<StorageId>>, added: Option<seq<StorageId>>): (r: Option<seq<StorageId>>)
    ensures Images(r) == Images(existing) + Images(added)
    ensures r != Some([])
  {
    var merged := Images(existing) + Images(added);
    if |merged| > 0 then Some(merged) else None
  }

  // ---------------------------------------------------------------------------
  // Sorting the indices to delete, largest first

  predicate Descending(s: seq<int>) {
    forall i, j :: 0 <= i < j < |s| ==> s[i] >= s[j]
  }

  function Insert(x: int, s: seq<int>): (r: seq<int>)
    requires Descending(s)
    ensures Descending(r)
    ensures multiset(r) == multiset(s) + multiset{x}
    ensures |r| == |s| + 1 && (r[0] == x || (s != [] && r[0] == s[0]))
  {
    if s == [] || x >= s[0] then [x] + s
    else
      DescendingTail(s);
      var rest := Insert(x, s[1..]);
      InsertBehindHead(x, s, rest);
      [s[0]] + rest
  }

  /** Putting the head back in front of `x` inserted into the tail. */
  lemma InsertBehindHead(x: int, s: seq<int>, rest: seq<int>)
    requires Descending(s) && s != [] && x < s[0]
    requires Descending(rest) && multiset(rest) == multiset(s[1..]) + multiset{x}
    requires |rest| == |s| && (rest[0] == x || (s[1..] != [] && rest[0] == s[1..][0]))
    ensures Descending([s[0]] + rest)
    ensures multiset([s[0]] + rest) == multiset(s) + multiset{x}
  {
    assert rest[0] <= s[0];
    ConsDescending(s[0], rest);
    assert s == [s[0]] + s[1..];
    assert multiset([s[0]] + rest) == multiset{s[0]} + multiset(rest);
    assert multiset(s) == multiset{s[0]} + multiset(s[1..]);
  }

  /** A value no smaller than the head of a descending list extends it. */
  lemma ConsDescending(x: int, r: seq<int>)
    requires Descending(r) && (r == [] || x >= r[0])
    ensures Descending([x] + r)
  {
    var t := [x] + r;
    forall i, j | 0 <= i < j < |t| ensures t[i] >= t[j] {
      if i > 0 {
        assert t[i] == r[i - 1] && t[j] == r[j - 1];
      } else {
        assert t[j] == r[j - 1] && r[0] >= r[j - 1];
      }
    }
  }

  /** `[...indices].sort((a, b) => b - a)` */
  function SortDesc(s: seq<int>): (r: seq<int>)
    ensures Descending(r)
    ensures multiset(r) == multiset(s)
  {
    if s == [] then []
    else
      assert s == [s[0]] + s[1..];
      Insert(s[0], SortDesc(s[1..]))
  }

  lemma DescendingHeadIsMax(s: seq<int>, x: int)
    requires Descending(s)
    requires x in multiset(s)
    ensures s != [] && x <= s[0]
  {
    var i :| 0 <= i < |s| && s[i] == x;
  }

  /** A descending sequence is determined by its elements. */
  lemma {:induction false} DescendingUnique(a: seq<int>, b: seq<int>)
    requires Descending(a) && Descending(b)
    requires multiset(a) == multiset(b)
    ensures a == b
  {
    if a != [] {
      assert a[0] in multiset(a);
      DescendingHeadIsMax(b, a[0]);
      assert b[0] in multiset(b);
      DescendingHeadIsMax(a, b[0]);
      assert a[0] == b[0];
      DescendingTail(a);
      DescendingTail(b);
      DescendingUnique(a[1..], b[1..]);
      assert a == [a[0]] + a[1..] && b == [b[0]] + b[1..];
    } else {
      assert |b| == |multiset(b)| == |multiset(a)| == |a|;
    }
  }

  lemma DescendingTail(a: seq<int>)
    requires Descending(a) && a != []
    ensures Descending(a[1..]) && multiset(a[1..]) == multiset(a) - multiset{a[0]}
  {
    assert a == [a[0]] + a[1..];
  }

  /** The sorted indices depend only on which indices were given, and how often, not on their order. */
  lemma SortDescOrderFree(a: seq<int>, b: seq<int>)
    requires multiset(a) == multiset(b)
    ensures SortDesc(a) == SortDesc(b)
  {
    DescendingUnique(SortDesc(a), SortDesc(b));
  }

  // ---------------------------------------------------------------------------
  // Removing entries

  /** `entries.splice(idx, 1)` guarded by `idx >= 0 && idx < entries.length`. */
  function RemoveAt<T>(xs: seq<T>, idx: int): (r: seq<T>)
    ensures 0 <= idx < |xs| ==> |r| == |xs| - 1
    ensures !(0 <= idx < |xs|) ==> r == xs
  {
    if 0 <= idx < |xs| then xs[..idx] + xs[idx + 1..] else xs
  }

  /** The splices performed one after the other, in the order of `ids`. */
  function RemoveAll<T>(xs: seq<T>, ids: seq<int>): (r: seq<T>)
    ensures |xs| - |ids| <= |r| <= |xs|
  {
    if ids == [] then xs else RemoveAll(RemoveAt(xs, ids[0]), ids[1..])
  }

  lemma RemoveAllStep<T>(xs: seq<T>, ids: seq<int>, i: nat)
    requires i < |ids|
    ensures RemoveAll(xs, ids[i..]) == RemoveAll(RemoveAt(xs, ids[i]), ids[i + 1..])
  {
    assert ids[i..][0] == ids[i] && ids[i..][1..] == ids[i + 1..];
  }

  /** The splice loop of `deleteEntries`: each index in turn, skipping those outside the current entries. */
  method SpliceAll<T>(xs: seq<T>, ids: seq<int>) returns (rest: seq<T>)
    ensures rest == RemoveAll(xs, ids)
  {
    rest := xs;
    var i := 0;
    while i < |ids|
      invariant 0 <= i <= |ids|
      invariant RemoveAll(rest, ids[i..]) == RemoveAll(xs, ids)
    {
      var idx := ids[i];
      RemoveAllStep(rest, ids, i);
      if 0 <= idx < |rest| {
        rest := rest[..idx] + rest[idx + 1..];
      }
      i := i + 1;
    }
    assert ids[i..] == [];
  }

  /** Reference definition: the elements whose positions are not in `drop`, in their original order. */
  function Survivors<T>(xs: seq<T>, drop: set<int>): (r: seq<T>)
    ensures |r| <= |xs|
    ensures drop == {} ==> r == xs
  {
    if xs == [] then []
    else
      assert xs == xs[..|xs| - 1] + [xs[|xs| - 1]];
      Survivors(xs[..|xs| - 1], drop) + (if |xs| - 1 in drop then [] else [xs[|xs| - 1]])
  }

  /** Only the positions that exist matter. */
  lemma {:induction false} SurvivorsLocal<T>(xs: seq<T>, s: set<int>, t: set<int>)
    requires forall i :: 0 <= i < |xs| ==> (i in s <==> i in t)
    ensures Survivors(xs, s) == Survivors(xs, t)
  {
    if xs != [] {
      SurvivorsLocal(xs[..|xs| - 1], s, t);
    }
  }

  /** Survivors of a prefix of the spliced sequence, in the part after the removed position. */
  lemma {:induction false} SurvivorsSplicePrefix<T>(xs: seq<T>, drop: set<int>, i0: int, j: int)
    requires 0 <= i0 <= j < |xs|
    requires forall i :: i in drop ==> i < i0
    ensures Survivors(RemoveAt(xs, i0)[..j], drop) == Survivors(xs[..j + 1], drop + {i0})
    decreases j - i0
  {
    var ys := RemoveAt(xs, i0);
    if j == i0 {
      assert ys[..j] == xs[..i0];
      assert xs[..j + 1][..j] == xs[..i0];
      SurvivorsLocal(xs[..i0], drop, drop + {i0});
    } else {
      SurvivorsSplicePrefix(xs, drop, i0, j - 1);
      assert ys[..j][..j - 1] == ys[..j - 1];
      assert ys[..j][j - 1] == xs[j];
      assert xs[..j + 1][..j] == xs[..j];
    }
  }

  /** Splicing out the largest dropped position first leaves the other positions where they were. */
  lemma SurvivorsSplice<T>(xs: seq<T>, drop: set<int>, i0: int)
    requires 0 <= i0 < |xs|
    requires forall i :: i in drop ==> i < i0
    ensures Survivors(RemoveAt(xs, i0), drop) == Survivors(xs, drop + {i0})
  {
    var ys := RemoveAt(xs, i0);
    if i0 == |xs| - 1 {
      assert ys == xs[..i0];
      assert xs[..|xs| - 1] == xs[..i0];
      SurvivorsLocal(xs[..i0], drop, drop + {i0});
    } else {
      SurvivorsSplicePrefix(xs, drop, i0, |xs| - 1);
      assert ys[..|xs| - 1] == ys;
      assert xs[..|xs|] == xs;
    }
  }

  predicate StrictlyDescending(s: seq<int>) {
    forall i, j :: 0 <= i < j < |s| ==> s[i] > s[j]
  }

  /** Splicing at strictly decreasing positions removes exactly those positions that exist. */
  lemma {:induction false} RemoveAllSurvivors<T>(xs: seq<T>, ids: seq<int>)
    requires StrictlyDescending(ids)
    ensures RemoveAll(xs, ids) == Survivors(xs, set i | i in ids)
  {
    if ids == [] {
      assert (set i | i in ids) == {};
    } else {
      var i0 := ids[0];
      var rest := ids[1..];
      var restSet := set i | i in rest;
      assert (set i | i in ids) == restSet + {i0} by {
        assert ids == [i0] + rest;
      }
      RemoveAllSurvivors(RemoveAt(xs, i0), rest);
      assert forall i :: i in restSet ==> i < i0 by {
        forall i | i in restSet ensures i < i0 {
          var k :| 0 <= k < |rest| && rest[k] == i;
          assert ids[k + 1] == i;
        }
      }
      if 0 <= i0 < |xs| {
        SurvivorsSplice(xs, restSet, i0);
      } else {
        SurvivorsLocal(xs, restSet, restSet + {i0});
      }
    }
  }

  /** Distinct indices, once sorted, are strictly decreasing. */
  lemma SortDescDistinct(ids: seq<int>)
    requires forall i, j :: 0 <= i < j < |ids| ==> ids[i] != ids[j]
    ensures StrictlyDescending(SortDesc(ids))
    ensures (set i | i in SortDesc(ids)) == (set i | i in ids)
  {
    var r := SortDesc(ids);
    DistinctMultiplicity(ids);
    DescendingStrict(r);
    SameElements(r, ids);
  }

  lemma DescendingStrict(r: seq<int>)
    requires Descending(r)
    requires forall x :: multiset(r)[x] <= 1
    ensures StrictlyDescending(r)
  {
    forall i, j | 0 <= i < j < |r| ensures r[i] > r[j] {
      CountBoth(r, i, j);
    }
  }

  lemma CountBoth(r: seq<int>, i: nat, j: nat)
    requires i < j < |r|
    ensures multiset(r)[r[i]] >= if r[i] == r[j] then 2 else 1
  {
    assert r == r[..j] + r[j..];
    assert multiset(r) == multiset(r[..j]) + multiset(r[j..]);
    assert r[i] == r[..j][i];
    assert r[j] == r[j..][0];
  }

  lemma SameElements(a: seq<int>, b: seq<int>)
    requires multiset(a) == multiset(b)
    ensures (set i | i in a) == (set i | i in b)
  {
    assert forall x :: x in a <==> x in multiset(a);
    assert forall x :: x in b <==> x in multiset(b);
  }

  lemma {:induction false} DistinctMultiplicity(ids: seq<int>)
    requires forall i, j :: 0 <= i < j < |ids| ==> ids[i] != ids[j]
    ensures forall x :: multiset(ids)[x] <= 1
  {
    if ids != [] {
      DistinctMultiplicity(ids[1..]);
      assert ids == [ids[0]] + ids[1..];
      assert ids[0] !in ids[1..];
    }
  }

  /**
    With distinct indices, deleting removes exactly the existing positions
    named, whatever order the indices come in; out-of-range indices are ignored.
  */
  lemma DeleteDistinct<T>(xs: seq<T>, ids: seq<int>)
    requires forall i, j :: 0 <= i < j < |ids| ==> ids[i] != ids[j]
    ensures RemoveAll(xs, SortDesc(ids)) == Survivors(xs, set i | i in ids)
  {
    SortDescDistinct(ids);
    RemoveAllSurvivors(xs, SortDesc(ids));
  }

  /** A repeated index is not collapsed: `[2, 2]` splices twice and so removes the entry after it too. */
  lemma DeleteRepeatedIndex()
    ensures RemoveAll(["a", "b", "c", "d"], SortDesc([2, 2])) == ["a", "b"]
  {
    DescendingUnique(SortDesc([2, 2]), [2, 2]);
    assert RemoveAt(["a", "b", "c", "d"], 2) == ["a", "b", "d"];
    assert RemoveAt(["a", "b", "d"], 2) == ["a", "b"];
  }

  // ---------------------------------------------------------------------------
  // Reading a changed day back

  /** What the backend's split gives and needs: non-blank, cut-free entries, headed after the first. */
  predicate WellSplit(xs: seq<string>) {
    && (forall k :: 0 <= k < |xs| ==> !HasCut(xs[k], TwoDigitLen) && !IsBlank(xs[k]))
    && (forall k :: 1 <= k < |xs| ==> TwoDigitLen(xs[k]) > 0)
  }

  lemma SplitEntriesWellSplit(content: string)
    ensures WellSplit(SplitEntries(content))
  {
    RecognisersShaped();
    EntriesShape(content, TwoDigitLen);
  }

  lemma RemoveAtWellSplit(xs: seq<string>, idx: int)
    requires WellSplit(xs)
    ensures WellSplit(RemoveAt(xs, idx))
  {
    if 0 <= idx < |xs| {
      var r := RemoveAt(xs, idx);
      forall k | 0 <= k < |r| ensures !HasCut(r[k], TwoDigitLen) && !IsBlank(r[k]) {
        RemoveAtIndex(xs, idx, k);
      }
      forall k | 1 <= k < |r| ensures TwoDigitLen(r[k]) > 0 {
        RemoveAtIndex(xs, idx, k);
      }
    }
  }

  lemma RemoveAtIndex<T>(xs: seq<T>, idx: int, k: nat)
    requires 0 <= idx < |xs| && k < |xs| - 1
    ensures RemoveAt(xs, idx)[k] == if k < idx then xs[k] else xs[k + 1]
  {
  }

  lemma {:induction false} RemoveAllWellSplit(xs: seq<string>, ids: seq<int>)
    requires WellSplit(xs)
    ensures WellSplit(RemoveAll(xs, ids))
  {
    if ids != [] {
      RemoveAtWellSplit(xs, ids[0]);
      RemoveAllWellSplit(RemoveAt(xs, ids[0]), ids[1..]);
    }
  }

  /** Well-split entries written with the separator are read back unchanged. */
  lemma SplitOfJoin(xs: seq<string>)
    requires |xs| >= 1 && WellSplit(xs)
    ensures SplitEntries(Join(xs, Separator)) == xs
  {
    RecognisersShaped();
    EntriesOfJoin(xs, TwoDigitLen);
  }

  /** After a delete, the stored content reads back as exactly the surviving entries. */
  lemma DeleteReadsBack(content: string, ids: seq<int>)
    requires |RemoveAll(SplitEntries(content), SortDesc(ids))| > 0
    ensures SplitEntries(Join(RemoveAll(SplitEntries(content), SortDesc(ids)), Separator))
            == RemoveAll(SplitEntries(content), SortDesc(ids))
  {
    SplitEntriesWellSplit(content);
    RemoveAllWellSplit(SplitEntries(content), SortDesc(ids));
    SplitOfJoin(RemoveAll(SplitEntries(content), SortDesc(ids)));
  }

  // ---------------------------------------------------------------------------
  // Editing one entry

  /**
    The time for the edited entry: the display form of `newTime` when one is
    given and not empty, otherwise the time of the original header, if any.
    `display` stands for the locale formatting of a `HH:MM` string.
  */
  function TimeToUse(original: string, newTime: Option<string>, display: string -> string): (r: Option<string>)
    ensures newTime.Some? && newTime.value != "" ==> r == Some(display(newTime.value))
    ensures (newTime.None? || newTime == Some("")) ==>
              (r.Some? <==> |original| > 0 && original[0] == '[' && exists k :: 1 <= k && ClosesAt(original, k))
    ensures (newTime.None? || newTime == Some("")) && r.Some? ==>
              && |original| >= |r.value| + 3 && original[1..|r.value| + 1] == r.value
              && ClosesAt(original, |r.value| + 1) && NoCloseIn(r.value)
  {
    if newTime.Some? && newTime.value != "" then Some(display(newTime.value))
    else
      match MatchStamp(original)
      case Some(st) => Some(st.time)
      case None => None
  }

  /** `[time] content` with the content trimmed, or the trimmed content alone when the time is absent or empty. */
  function EditedEntry(original: string, newContent: string, newTime: Option<string>, display: string -> string): (r: string)
    ensures |r| >= |Trim(newContent)| && r[|r| - |Trim(newContent)|..] == Trim(newContent)
    ensures r == Trim(newContent) || (|r| >= |Trim(newContent)| + 4 && r[0] == '[' && r[|r| - |Trim(newContent)| - 1] == ' ')
  {
    var t := TimeToUse(original, newTime, display);
    if t.Some? && t.value != "" then
      var r := "[" + t.value + "] " + Trim(newContent);
      assert r[|r| - |Trim(newContent)|..] == Trim(newContent);
      r
    else Trim(newContent)
  }

  /** Without a new time, the edited entry carries the original header's time and the trimmed new text. */
  lemma EditKeepsTime(original: string, newContent: string, newTime: Option<string>, display: string -> string)
    requires newTime.None? || newTime == Some("")
    requires MatchStamp(original).Some? && MatchStamp(original).value.time != ""
    ensures MatchStamp(EditedEntry(original, newContent, newTime, display))
            == Some(Stamped(MatchStamp(original).value.time, Trim(newContent)))
  {
    var t := MatchStamp(original).value.time;
    assert TimeToUse(original, newTime, display) == Some(t);
    StampedReadsBack(t, Trim(newContent));
  }

  /** An entry written by an edit, `[t] body`, is read back as that time and body. */
  lemma StampedReadsBack(t: string, body: string)
    requires NoCloseIn(t)
    ensures MatchStamp("[" + t + "] " + body) == Some(Stamped(t, body))
  {
    assert "[" + t + "] " + body == "[" + t + "]" + [' '] + body;
    MatchStampRoundTrip(t, ' ', body);
  }

  /** Without a new time, an entry with no header (or an empty one) becomes the trimmed new text alone. */
  lemma EditWithoutHeader(original: string, newContent: string, newTime: Option<string>, display: string -> string)
    requires newTime.None? || newTime == Some("")
    requires MatchStamp(original).None? || MatchStamp(original).value.time == ""
    ensures EditedEntry(original, newContent, newTime, display) == Trim(newContent)
  {
  }

  /** A given new time replaces the original one, whatever the original entry held. */
  lemma EditNewTime(original: string, newContent: string, time: string, display: string -> string)
    requires time != "" && display(time) != "" && NoCloseIn(display(time))
    ensures MatchStamp(EditedEntry(original, newContent, Some(time), display))
            == Some(Stamped(display(time), Trim(newContent)))
  {
    StampedReadsBack(display(time), Trim(newContent));
  }

  /** When the edited entry is itself a well-formed entry, the day reads back with only that entry replaced. */
  lemma EditReadsBack(content: string, index: nat, updated: string)
    requires index < |SplitEntries(content)|
    requires !HasCut(updated, TwoDigitLen) && !IsBlank(updated)
    requires index > 0 ==> TwoDigitLen(updated) > 0
    ensures SplitEntries(Join(SplitEntries(content)[index := updated], Separator))
            == SplitEntries(content)[index := updated]
  {
    var xs := SplitEntries(content);
    SplitEntriesWellSplit(content);
    var ys := xs[index := updated];
    assert WellSplit(ys);
    SplitOfJoin(ys);
  }

  // ---------------------------------------------------------------------------
  // The store

  /** Records sit under their own (userId, date) key and have distinct ids below `nextId`. */
  ghost predicate Indexed(posts: map<Key, Post>, nextId: nat) {
    && (forall k :: k in posts ==> posts[k].userId == k.0 && posts[k].date == k.1 && posts[k].id < nextId)
    && (forall k1, k2 :: k1 in posts && k2 in posts && k1 != k2 ==> posts[k1].id != posts[k2].id)
  }

  /** Rewriting a record's fields other than its key and id keeps the store indexed. */
  lemma ReplaceKeepsIndexed(posts: map<Key, Post>, nextId: nat, key: Key, p: Post)
    requires Indexed(posts, nextId) && key in posts
    requires p.userId == key.0 && p.date == key.1 && p.id == posts[key].id
    ensures Indexed(posts[key := p], nextId)
  {
  }

  /** Dropping a record keeps the store indexed. */
  lemma RemoveKeepsIndexed(posts: map<Key, Post>, nextId: nat, key: Key)
    requires Indexed(posts, nextId)
    ensures Indexed(posts - {key}, nextId)
  {
  }

  class PostStore {
    var posts: map<Key, Post>
    var nextId: nat

    ghost predicate Valid()
      reads this
    {
      Indexed(posts, nextId)
    }

    constructor()
      ensures Valid() && posts == map[] && nextId == 0
    {
      posts := map[];
      nextId := 0;
    }

    /** The user's records keyed by date. */
    method GetPosts(userId: string) returns (byDate: map<string, Post>)
      requires Valid()
      ensures forall d :: d in byDate <==> (userId, d) in posts
      ensures forall d :: d in byDate ==> byDate[d] == posts[(userId, d)] && byDate[d].date == d
    {
      byDate := map[];
      var rest := posts.Keys;
      while rest != {}
        invariant rest <= posts.Keys
        invariant forall d :: d in byDate <==> (userId, d) in posts && (userId, d) !in rest
        invariant forall d :: d in byDate ==> byDate[d] == posts[(userId, d)]
        decreases |rest|
      {
        var k :| k in rest;
        if k.0 == userId {
          byDate := byDate[k.1 := posts[k]];
        }
        rest := rest - {k};
      }
    }

    /**
      Store a day's content and count as given. An existing record keeps its id
      and appends the new image ids to its own; otherwise a record with a fresh
      id is inserted.
    */
    method AddPost(userId: string, date: string, content: string, count: int,
                   imageIds: Option<seq<StorageId>>, now: int) returns (id: nat)
      requires Valid()
      modifies this
      ensures Valid()
      ensures (userId, date) in old(posts) ==>
                var prior := old(posts)[(userId, date)];
                && id == prior.id && nextId == old(nextId)
                && posts == old(posts)[(userId, date) := prior.(content := content, count := count,
                                         lastUpdated := now, imageIds := MergeImages(prior.imageIds, imageIds))]
      ensures (userId, date) !in old(posts) ==>
                && id == old(nextId) && nextId == old(nextId) + 1
                && (forall k :: k in old(posts) ==> old(posts)[k].id != id)
                && posts == old(posts)[(userId, date) :=
                                         Post(id, userId, date, content, count, now, MergeImages(None, imageIds))]
    {
      var key := (userId, date);
      if key in posts {
        var prior := posts[key];
        posts := posts[key := prior.(content := content, count := count, lastUpdated := now,
                                     imageIds := MergeImages(prior.imageIds, imageIds))];
        id := prior.id;
      } else {
        var stored := if imageIds.Some? && |imageIds.value| > 0 then imageIds else None;
        assert Images(None) + Images(imageIds) == Images(imageIds);
        id := nextId;
        posts := posts[key := Post(id, userId, date, content, count, now, stored)];
        nextId := nextId + 1;
      }
    }

    /**
      Remove the entries at the given indices from a day: split the content,
      splice the indices largest first, and store the rest joined by blank
      lines with the count set to their number, or delete the record when
      nothing is left. A missing day is left alone.
    */
    method DeleteEntries(userId: string, date: string, entryIndices: seq<int>, now: int)
      requires Valid()
      modifies this
      ensures Valid() && nextId == old(nextId)
      ensures (userId, date) !in old(posts) ==> posts == old(posts)
      ensures (userId, date) in old(posts) ==>
                var prior := old(posts)[(userId, date)];
                var rest := RemoveAll(SplitEntries(prior.content), SortDesc(entryIndices));
                && (|rest| == 0 ==> posts == old(posts) - {(userId, date)})
                && (|rest| > 0 ==> posts == old(posts)[(userId, date) :=
                                      prior.(content := Join(rest, Separator), count := |rest|, lastUpdated := now)])
    {
      var key := (userId, date);
      if key !in posts {
        return;
      }
      var prior := posts[key];
      var entries := SpliceAll(SplitEntries(prior.content), SortDesc(entryIndices));
      if |entries| == 0 {
        RemoveKeepsIndexed(posts, nextId, key);
        posts := posts - {key};
      } else {
        var record := prior.(content := Join(entries, Separator), count := |entries|, lastUpdated := now);
        ReplaceKeepsIndexed(posts, nextId, key, record);
        posts := posts[key := record];
      }
    }

    /**
      Replace one entry of a day and store the rejoined content. Nothing
      happens for a missing day or an index outside the day's entries; the
      count is left as it was.
    */
    method EditEntry(userId: string, date: string, entryIndex: int, newContent: string,
                     newTime: Option<string>, display: string -> string, now: int)
      requires Valid()
      modifies this
      ensures Valid() && nextId == old(nextId)
      ensures ((userId, date) !in old(posts)
               || !(0 <= entryIndex < |SplitEntries(old(posts)[(userId, date)].content)|)) ==> posts == old(posts)
      ensures (userId, date) in old(posts) && 0 <= entryIndex < |SplitEntries(old(posts)[(userId, date)].content)| ==>
                var prior := old(posts)[(userId, date)];
                var entries := SplitEntries(prior.content);
                var updated := EditedEntry(entries[entryIndex], newContent, newTime, display);
                posts == old(posts)[(userId, date) :=
                           prior.(content := Join(entries[entryIndex := updated], Separator), lastUpdated := now)]
    {
      var key := (userId, date);
      if key !in posts {
        return;
      }
      var prior := posts[key];
      var entries := SplitEntries(prior.content);
      if entryIndex < 0 || entryIndex >= |entries| {
        return;
      }
      var updated := EditedEntry(entries[entryIndex], newContent, newTime, display);
      entries := entries[entryIndex := updated];
      var record := prior.(content := Join(entries, Separator), lastUpdated := now);
      ReplaceKeepsIndexed(posts, nextId, key, record);
      posts := posts[key := record];
    }
  }
}
