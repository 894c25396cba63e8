/**
  The per-day entry log. A day's content is one string holding its entries,
  each written as `[time] body`, separated by a blank line ("\n\n"). Reading the
  content back cuts it at a blank line only when a bracketed time header follows
  it, so blank lines inside a body survive.

  The repository uses two different header shapes for that lookahead; they are
  kept apart here as two recognisers, `MeridiemLen` and `TwoDigitLen`, and the
  scanner takes the recogniser as a parameter. This module holds the scanner
  that performs the cut (JavaScript's `split` on a lookahead pattern), the
  non-blank filter applied after it, and the header match that separates an
  entry's time from its body.
*/
module EntryFormat {
  import opened Text

  const Separator: string := "\n\n"

  predicate IsMeridiemPair(a: char, b: char) {
    (a == 'A' || a == 'a' || a == 'P' || a == 'p') && (b == 'M' || b == 'm')
  }

  // ---------------------------------------------------------------------------
  // Header recognisers. Each returns the length of the bracketed time header that
  // starts at t[0], or 0 when no header starts there.

  /**
    The header of page.tsx and posts.ts: exactly two hour digits, a colon, two
    minute digits, optionally a colon and two second digits, then `]`; no AM/PM.
  */
  function TwoDigitLen(t: string): (n: nat)
    ensures n == 0 || n == 7 || n == 10
    ensures n > 0 ==> n <= |t| && t[0] == '[' && t[n - 1] == ']'
    ensures forall j :: 0 < j < n ==> t[j] != '[' && t[j] != '\n'
  {
    if |t| >= 7 && t[0] == '[' && IsDigit(t[1]) && IsDigit(t[2]) && t[3] == ':'
       && IsDigit(t[4]) && IsDigit(t[5]) then
      if t[6] == ']' then 7
      else if |t| >= 10 && t[6] == ':' && IsDigit(t[7]) && IsDigit(t[8]) && t[9] == ']' then 10
      else 0
    else 0
  }

  /** Index of the colon after a one- or two-digit hour that starts at t[1], or 0. */
  function HourColon(t: string): (c: nat)
    ensures c == 0 || c == 2 || c == 3
    ensures c > 0 ==> c < |t| && t[c] == ':' && forall j :: 1 <= j < c ==> IsDigit(t[j])
  {
    if |t| >= 3 && IsDigit(t[1]) && t[2] == ':' then 2
    else if |t| >= 4 && IsDigit(t[1]) && IsDigit(t[2]) && t[3] == ':' then 3
    else 0
  }

  /** After the minutes, at t[k]: either `]`, or white space, AM/PM and `]`. Returns the end, or 0. */
  function CloseAfter(t: string, k: nat): (n: nat)
    requires k <= |t|
    ensures n > 0 ==> k < n <= |t| && t[n - 1] == ']'
    ensures forall j :: k <= j < n ==> t[j] != '['
  {
    if k < |t| && t[k] == ']' then k + 1
    else
      var w := SkipSpace(t, k);
      if w + 3 <= |t| && IsMeridiemPair(t[w], t[w + 1]) && t[w + 2] == ']' then w + 3 else 0
  }

  /**
    The header of utils.ts: one or two hour digits, a colon, two minute digits,
    then optionally white space and AM or PM in any letter case, then `]`.
  */
  function MeridiemLen(t: string): (n: nat)
    ensures n > 0 ==> n <= |t| && t[0] == '[' && t[n - 1] == ']'
    ensures forall j :: 0 < j < n ==> t[j] != '['
  {
    if |t| >= 1 && t[0] == '[' then
      var c := HourColon(t);
      if c > 0 && c + 3 <= |t| && IsDigit(t[c + 1]) && IsDigit(t[c + 2]) then CloseAfter(t, c + 3) else 0
    else 0
  }

  /**
    What the scanner relies on about a recogniser: a header is bracketed, has no
    `[` after its first character, and is recognised from its own characters alone.
  */
  ghost predicate Shaped(header: string -> nat) {
    && (forall t :: header(t) > 0 ==> header(t) <= |t| && t[0] == '[' && t[header(t) - 1] == ']')
    && (forall t, j {:trigger t[j], header(t)} :: 0 < j < header(t) ==> t[j] != '[')
    && (forall t, u {:trigger Agrees(header, t, u)} :: Agrees(header, t, u) ==> header(u) == header(t))
  }

  /** `u` starts with the header found at the start of `t`. */
  ghost predicate Agrees(header: string -> nat, t: string, u: string) {
    0 < header(t) <= |t| && header(t) <= |u| && u[..header(t)] == t[..header(t)]
  }

  lemma TwoDigitLocal(t: string, u: string)
    requires 0 < TwoDigitLen(t) <= |u| && u[..TwoDigitLen(t)] == t[..TwoDigitLen(t)]
    ensures TwoDigitLen(u) == TwoDigitLen(t)
  {
    var n := TwoDigitLen(t);
    assert forall j | 0 <= j < n :: u[j] == t[j] by {
      forall j | 0 <= j < n ensures u[j] == t[j] { assert u[..n][j] == t[..n][j]; }
    }
  }

  lemma MeridiemLocal(t: string, u: string)
    requires 0 < MeridiemLen(t) <= |u| && u[..MeridiemLen(t)] == t[..MeridiemLen(t)]
    ensures MeridiemLen(u) == MeridiemLen(t)
  {
    var n := MeridiemLen(t);
    assert forall j | 0 <= j < n :: u[j] == t[j] by {
      forall j | 0 <= j < n ensures u[j] == t[j] { assert u[..n][j] == t[..n][j]; }
    }
    var c := HourColon(t);
    assert HourColon(u) == c;
    var k := c + 3;
    if !(k < |t| && t[k] == ']') {
      SkipSpaceLocal(t, u, k);
    }
  }

  /** Both recognisers of the repository have the shape the scanner needs. */
  lemma RecognisersShaped()
    ensures Shaped(TwoDigitLen) && Shaped(MeridiemLen)
  {
    forall t, u | Agrees(TwoDigitLen, t, u)
      ensures TwoDigitLen(u) == TwoDigitLen(t)
    {
      TwoDigitLocal(t, u);
    }
    forall t, u | Agrees(MeridiemLen, t, u)
      ensures MeridiemLen(u) == MeridiemLen(t)
    {
      MeridiemLocal(t, u);
    }
  }

  // ---------------------------------------------------------------------------
  // Cut points and the scanner

  /** A cut: a blank line at `i` whose next characters form a time header. */
  predicate IsCutAt(s: string, header: string -> nat, i: nat) {
    i + 2 <= |s| && s[i] == '\n' && s[i + 1] == '\n' && header(s[i + 2..]) > 0
  }

  predicate HasCut(s: string, header: string -> nat) {
    exists i :: 0 <= i < |s| && IsCutAt(s, header, i)
  }

  /** The first cut at or after `from`. */
  function FirstCut(s: string, header: string -> nat, from: nat): (r: Option<nat>)
    ensures r.Some? ==> from <= r.value && IsCutAt(s, header, r.value)
    ensures r.Some? ==> forall j :: from <= j < r.value ==> !IsCutAt(s, header, j)
    ensures r.None? ==> forall j :: from <= j ==> !IsCutAt(s, header, j)
    decreases |s| - from
  {
    if from + 2 > |s| then None
    else if IsCutAt(s, header, from) then Some(from)
    else FirstCut(s, header, from + 1)
  }

  /**
    `content.split(lookahead)`: the pieces between the cuts, each cut consuming
    its blank line.
  */
  function Fragments(s: string, header: string -> nat): (r: seq<string>)
    ensures |r| >= 1
    decreases |s|
  {
    match FirstCut(s, header, 0)
    case None => [s]
    case Some(i) => [s[..i]] + Fragments(s[i + 2..], header)
  }

  /** The first cut is the cut before which there is none. */
  lemma FirstCutIs(s: string, header: string -> nat, i: nat)
    requires IsCutAt(s, header, i)
    requires forall j :: 0 <= j < i ==> !IsCutAt(s, header, j)
    ensures FirstCut(s, header, 0) == Some(i)
  {
  }

  lemma FragmentsAt(s: string, header: string -> nat, i: nat)
    requires FirstCut(s, header, 0) == Some(i)
    ensures i + 2 <= |s|
    ensures Fragments(s, header) == [s[..i]] + Fragments(s[i + 2..], header)
  {
  }

  /** Joining the pieces with the blank line gives the content back. */
  lemma {:induction false} FragmentsJoin(s: string, header: string -> nat)
    ensures Join(Fragments(s, header), Separator) == s
    decreases |s|
  {
    match FirstCut(s, header, 0)
    case None =>
    case Some(i) =>
      FragmentsJoin(s[i + 2..], header);
      var rest := Fragments(s[i + 2..], header);
      assert ([s[..i]] + rest)[1..] == rest;
      assert s == s[..i] + Separator + s[i + 2..];
  }

  /** `.filter((entry) => entry.trim().length > 0)` */
  function KeepNonBlank(xs: seq<string>): (r: seq<string>)
    ensures |r| <= |xs|
    ensures forall k :: 0 <= k < |r| ==> !IsBlank(r[k])
  {
    if xs == [] then []
    else if IsBlank(xs[0]) then KeepNonBlank(xs[1..])
    else [xs[0]] + KeepNonBlank(xs[1..])
  }

  /** The filter keeps exactly the non-blank pieces. */
  lemma {:induction false} KeepNonBlankMembers(xs: seq<string>)
    ensures forall x :: x in KeepNonBlank(xs) <==> x in xs && !IsBlank(x)
  {
    if xs != [] {
      KeepNonBlankMembers(xs[1..]);
      assert forall x :: x in xs <==> x == xs[0] || x in xs[1..];
    }
  }

  /** When no piece is blank, the filter changes nothing. */
  lemma {:induction false} KeepNonBlankAll(xs: seq<string>)
    requires forall k :: 0 <= k < |xs| ==> !IsBlank(xs[k])
    ensures KeepNonBlank(xs) == xs
  {
    if xs != [] {
      assert forall k :: 0 <= k < |xs| - 1 ==> xs[1..][k] == xs[k + 1];
      KeepNonBlankAll(xs[1..]);
      assert [xs[0]] + xs[1..] == xs;
    }
  }

  lemma {:induction false} KeepNonBlankAppend(xs: seq<string>, ys: seq<string>)
    ensures KeepNonBlank(xs + ys) == KeepNonBlank(xs) + KeepNonBlank(ys)
  {
    if xs == [] {
      assert xs + ys == ys;
    } else {
      var zs := xs + ys;
      assert zs[0] == xs[0];
      assert zs[1..] == xs[1..] + ys;
      KeepNonBlankAppend(xs[1..], ys);
      if IsBlank(xs[0]) {
        assert KeepNonBlank(zs) == KeepNonBlank(xs[1..] + ys);
      } else {
        assert KeepNonBlank(zs) == [xs[0]] + KeepNonBlank(xs[1..] + ys);
        assert KeepNonBlank(xs) == [xs[0]] + KeepNonBlank(xs[1..]);
      }
    }
  }

  // ---------------------------------------------------------------------------
  // Where cuts can and cannot be

  /** A header cannot contain a cut: the blank line of any cut lies at or after the header's end. */
  lemma HeaderBeforeCut(u: string, header: string -> nat, j: nat)
    requires Shaped(header)
    requires header(u) > 0
    requires IsCutAt(u, header, j)
    ensures header(u) <= j
  {
    assert u[j + 2] == u[j + 2..][0];
  }

  /** A cut in a prefix of `s` is a cut of `s`. */
  lemma CutOfPrefix(s: string, header: string -> nat, n: nat, i: nat)
    requires Shaped(header)
    requires n <= |s|
    requires IsCutAt(s[..n], header, i)
    ensures IsCutAt(s, header, i)
  {
    var t := s[..n][i + 2..];
    assert s[i + 2..][..header(t)] == t[..header(t)];
    assert Agrees(header, t, s[i + 2..]);
  }

  /** No fragment contains a cut. */
  lemma {:induction false} FragmentsHaveNoCut(s: string, header: string -> nat)
    requires Shaped(header)
    ensures forall k :: 0 <= k < |Fragments(s, header)| ==> !HasCut(Fragments(s, header)[k], header)
    decreases |s|
  {
    var r := Fragments(s, header);
    var c := FirstCut(s, header, 0);
    if c.Some? {
      var i := c.value;
      FragmentsHaveNoCut(s[i + 2..], header);
      var rest := Fragments(s[i + 2..], header);
      assert r == [s[..i]] + rest;
      forall j | 0 <= j < i && IsCutAt(s[..i], header, j) ensures false {
        CutOfPrefix(s, header, i, j);
      }
      forall k | 0 <= k < |r| ensures !HasCut(r[k], header) {
        if k > 0 { assert r[k] == rest[k - 1]; }
      }
    }
  }

  /** Content that starts with a header keeps that header in its first fragment. */
  lemma FirstFragmentHasHeader(u: string, header: string -> nat)
    requires Shaped(header)
    requires header(u) > 0
    ensures header(Fragments(u, header)[0]) > 0
  {
    var c := FirstCut(u, header, 0);
    if c.Some? {
      var j := c.value;
      assert Fragments(u, header)[0] == u[..j];
      HeaderBeforeCut(u, header, j);
      assert u[..j][..header(u)] == u[..header(u)];
      assert Agrees(header, u, u[..j]);
    }
  }

  /** Every fragment after the first starts with a time header. */
  lemma {:induction false} FragmentsStartWithHeader(s: string, header: string -> nat)
    requires Shaped(header)
    ensures forall k :: 1 <= k < |Fragments(s, header)| ==> header(Fragments(s, header)[k]) > 0
    decreases |s|
  {
    var r := Fragments(s, header);
    var c := FirstCut(s, header, 0);
    if c.Some? {
      var i := c.value;
      var u := s[i + 2..];
      FragmentsStartWithHeader(u, header);
      var rest := Fragments(u, header);
      FragmentsAt(s, header, i);
      FirstFragmentHasHeader(u, header);
      forall k | 1 <= k < |r| ensures header(r[k]) > 0 {
        assert r[k] == rest[k - 1];
      }
    }
  }

  // ---------------------------------------------------------------------------
  // Joining: the round trip from entries to content and back

  /** In `a + "\n\n" + b` with `b` starting with a header, the cuts before `|a|` are those of `a`. */
  lemma CutsOfJoin(a: string, b: string, header: string -> nat, i: nat)
    requires Shaped(header)
    requires header(b) > 0
    requires i < |a|
    ensures IsCutAt(a + Separator + b, header, i) <==> IsCutAt(a, header, i)
  {
    if IsCutAt(a, header, i) {
      CutOfJoinFromPart(a, b, header, i);
    }
    if IsCutAt(a + Separator + b, header, i) {
      CutOfPartFromJoin(a, b, header, i);
    }
  }

  lemma CutOfJoinFromPart(a: string, b: string, header: string -> nat, i: nat)
    requires Shaped(header)
    requires i < |a| && IsCutAt(a, header, i)
    ensures IsCutAt(a + Separator + b, header, i)
  {
    var s := a + Separator + b;
    var t := a[i + 2..];
    JoinAfter(a, b, i + 2);
    PrefixAgree(t, Separator + b, header(t));
    assert Agrees(header, t, s[i + 2..]);
  }

  lemma CutOfPartFromJoin(a: string, b: string, header: string -> nat, i: nat)
    requires Shaped(header)
    requires header(b) > 0
    requires i < |a| && IsCutAt(a + Separator + b, header, i)
    ensures IsCutAt(a, header, i)
  {
    var s := a + Separator + b;
    JoinAfter(a, b, i);
    var u := s[i + 2..];
    assert u[0] == '[';
    assert i + 2 < |a|;
    var t := a[i + 2..];
    JoinAfter(a, b, i + 2);
    var j := |t|;
    assert u == t + Separator + b;
    JoinAfter(t, b, j);
    assert IsCutAt(u, header, j);
    HeaderBeforeCut(u, header, j);
    PrefixAgree(t, Separator + b, header(u));
    assert Agrees(header, u, t);
  }

  /** The join from position `i` of its first part on, and its characters inside the first part. */
  lemma JoinAfter(a: string, b: string, i: nat)
    requires i <= |a|
    ensures |a + Separator + b| == |a| + 2 + |b|
    ensures (a + Separator + b)[i..] == a[i..] + Separator + b
    ensures forall n :: 0 <= n < |a| ==> (a + Separator + b)[n] == a[n]
    ensures (a + Separator + b)[|a|] == '\n' && (a + Separator + b)[|a| + 1] == '\n'
    ensures (a + Separator + b)[|a| + 2..] == b
  {
  }

  lemma PrefixAgree(t: string, rest: string, h: nat)
    requires h <= |t|
    ensures h <= |t + rest| && (t + rest)[..h] == t[..h]
  {
  }

  /** Cutting `a + "\n\n" + b`, where `b` starts with a header, cuts `a` and `b` apart and each as before. */
  lemma {:induction false} FragmentsConcat(a: string, b: string, header: string -> nat)
    requires Shaped(header)
    requires header(b) > 0
    ensures Fragments(a + Separator + b, header) == Fragments(a, header) + Fragments(b, header)
    decreases |a|
  {
    var c := FirstCut(a, header, 0);
    if c.None? {
      FragmentsConcatLast(a, b, header);
    } else {
      var i := c.value;
      var a' := a[i + 2..];
      FragmentsConcat(a', b, header);
      FragmentsConcatStep(a, b, header, i);
    }
  }

  /** The joining blank line is the only cut when `a` has none. */
  lemma FragmentsConcatLast(a: string, b: string, header: string -> nat)
    requires Shaped(header)
    requires header(b) > 0
    requires FirstCut(a, header, 0).None?
    ensures Fragments(a + Separator + b, header) == Fragments(a, header) + Fragments(b, header)
  {
    var s := a + Separator + b;
    FirstCutOfJoin(a, b, header);
    FragmentsAt(s, header, |a|);
    assert s[..|a|] == a;
    assert s[|a| + 2..] == b;
  }

  /** One step of `FragmentsConcat`: the first cut of `a` is the first cut of the join. */
  lemma FragmentsConcatStep(a: string, b: string, header: string -> nat, i: nat)
    requires Shaped(header)
    requires header(b) > 0
    requires FirstCut(a, header, 0) == Some(i)
    requires Fragments(a[i + 2..] + Separator + b, header) == Fragments(a[i + 2..], header) + Fragments(b, header)
    ensures Fragments(a + Separator + b, header) == Fragments(a, header) + Fragments(b, header)
  {
    FragmentsOfJoinAt(a, b, header, i);
    FragmentsAt(a, header, i);
    ConsAppend(a[..i], Fragments(a[i + 2..], header), Fragments(b, header));
  }

  lemma FragmentsOfJoinAt(a: string, b: string, header: string -> nat, i: nat)
    requires Shaped(header)
    requires header(b) > 0
    requires FirstCut(a, header, 0) == Some(i)
    ensures i + 2 <= |a|
    ensures Fragments(a + Separator + b, header) == [a[..i]] + Fragments(a[i + 2..] + Separator + b, header)
  {
    var s := a + Separator + b;
    FirstCutOfJoin(a, b, header);
    FragmentsAt(s, header, i);
    JoinSlices(a, b, i);
  }

  lemma JoinSlices(a: string, b: string, i: nat)
    requires i + 2 <= |a|
    ensures (a + Separator + b)[..i] == a[..i]
    ensures (a + Separator + b)[i + 2..] == a[i + 2..] + Separator + b
  {
  }

  lemma ConsAppend<T>(x: T, p: seq<T>, q: seq<T>)
    ensures [x] + (p + q) == ([x] + p) + q
  {
  }

  /** The first cut of `a + "\n\n" + b` is the first cut of `a`, or the joining blank line itself. */
  lemma FirstCutOfJoin(a: string, b: string, header: string -> nat)
    requires Shaped(header)
    requires header(b) > 0
    ensures FirstCut(a + Separator + b, header, 0)
            == if FirstCut(a, header, 0).None? then Some(|a|) else FirstCut(a, header, 0)
  {
    var s := a + Separator + b;
    forall j | 0 <= j < |a| ensures IsCutAt(s, header, j) <==> IsCutAt(a, header, j) {
      CutsOfJoin(a, b, header, j);
    }
    var c := FirstCut(a, header, 0);
    if c.None? {
      assert s[|a| + 2..] == b;
      FirstCutIs(s, header, |a|);
    } else {
      FirstCutIs(s, header, c.value);
    }
  }

  lemma FragmentsOfCutFree(s: string, header: string -> nat)
    requires !HasCut(s, header)
    ensures Fragments(s, header) == [s]
  {
    assert FirstCut(s, header, 0).None?;
  }

  /**
    The round trip of the entry log: entries that contain no cut, of which every
    one after the first begins with a header, are recovered exactly by cutting
    their join.
  */
  lemma {:induction false} FragmentsOfJoin(xs: seq<string>, header: string -> nat)
    requires Shaped(header)
    requires Joinable(xs, header)
    ensures Fragments(Join(xs, Separator), header) == xs
  {
    if |xs| == 1 {
      assert !HasCut(xs[0], header);
      FragmentsOfCutFree(xs[0], header);
    } else {
      var rest := xs[1..];
      TailParts(xs, header);
      FragmentsOfJoin(rest, header);
      var j := Join(rest, Separator);
      JoinKeepsHeader(rest, header);
      FragmentsConcat(xs[0], j, header);
      FragmentsOfCutFree(xs[0], header);
      assert Fragments(Join(xs, Separator), header) == [xs[0]] + rest;
      assert [xs[0]] + rest == xs;
    }
  }

  /** At least one part, no part holding a cut, and every part after the first beginning with a header. */
  ghost predicate Joinable(xs: seq<string>, header: string -> nat) {
    && |xs| >= 1
    && (forall k :: 0 <= k < |xs| ==> !HasCut(xs[k], header))
    && (forall k :: 1 <= k < |xs| ==> header(xs[k]) > 0)
  }

  /** The parts after the first keep the conditions on the parts, and the join is the first part, a blank line and their join. */
  lemma TailParts(xs: seq<string>, header: string -> nat)
    requires |xs| >= 2 && Joinable(xs, header)
    ensures Joinable(xs[1..], header)
    ensures header(xs[1..][0]) > 0 && !HasCut(xs[0], header)
    ensures Join(xs, Separator) == xs[0] + Separator + Join(xs[1..], Separator)
  {
    var rest := xs[1..];
    forall k | 0 <= k < |rest| ensures !HasCut(rest[k], header) {
      assert rest[k] == xs[k + 1];
    }
    forall k | 1 <= k < |rest| ensures header(rest[k]) > 0 {
      assert rest[k] == xs[k + 1];
    }
    assert rest[0] == xs[1];
  }

  /** A join starts with the header of its first part. */
  lemma JoinKeepsHeader(xs: seq<string>, header: string -> nat)
    requires Shaped(header)
    requires |xs| >= 1 && header(xs[0]) > 0
    ensures header(Join(xs, Separator)) > 0
  {
    var j := Join(xs, Separator);
    var h := header(xs[0]);
    assert h <= |xs[0]|;
    JoinStartsWithFirst(xs);
    PrefixOfPrefix(j, xs[0], h);
    assert Agrees(header, xs[0], j);
  }

  lemma JoinStartsWithFirst(xs: seq<string>)
    requires |xs| >= 1
    ensures |xs[0]| <= |Join(xs, Separator)| && Join(xs, Separator)[..|xs[0]|] == xs[0]
  {
    if |xs| > 1 {
      assert Join(xs, Separator) == xs[0] + (Separator + Join(xs[1..], Separator));
    }
  }

  lemma PrefixOfPrefix(j: string, t: string, h: nat)
    requires h <= |t| <= |j| && j[..|t|] == t
    ensures j[..h] == t[..h]
  {
    assert j[..h] == j[..|t|][..h];
  }

  // ---------------------------------------------------------------------------
  // Split and filter: the entries of a day

  /** `content.split(lookahead).filter((entry) => entry.trim().length > 0)` */
  function Entries(content: string, header: string -> nat): seq<string> {
    KeepNonBlank(Fragments(content, header))
  }

  lemma {:induction false} KeepNonBlankNone(xs: seq<string>)
    requires KeepNonBlank(xs) == []
    ensures forall k :: 0 <= k < |xs| ==> IsBlank(xs[k])
  {
    KeepNonBlankMembers(xs);
    forall k | 0 <= k < |xs| ensures IsBlank(xs[k]) {
      assert xs[k] in xs;
    }
  }

  /** Only white-space content has no entries. */
  lemma EntriesEmpty(content: string, header: string -> nat)
    ensures Entries(content, header) == [] <==> IsBlank(content)
  {
    var fs := Fragments(content, header);
    FragmentsJoin(content, header);
    JoinBlank(fs, Separator);
    if Entries(content, header) == [] {
      KeepNonBlankNone(fs);
    } else {
      var e := Entries(content, header)[0];
      KeepNonBlankMembers(fs);
      assert e in fs;
    }
  }

  /** Each entry is a piece of the content: it holds no cut, and every one after the first begins with a header. */
  lemma EntriesShape(content: string, header: string -> nat)
    requires Shaped(header)
    ensures forall k :: 0 <= k < |Entries(content, header)| ==>
              !HasCut(Entries(content, header)[k], header) && !IsBlank(Entries(content, header)[k])
    ensures forall k :: 1 <= k < |Entries(content, header)| ==> header(Entries(content, header)[k]) > 0
  {
    var fs := Fragments(content, header);
    FragmentsHaveNoCut(content, header);
    FragmentsStartWithHeader(content, header);
    KeepNonBlankMembers(fs);
    KeepNonBlankMembers(fs[1..]);
    var r := Entries(content, header);
    forall k | 0 <= k < |r| ensures !HasCut(r[k], header) {
      assert r[k] in fs;
    }
    forall k | 1 <= k < |r| ensures header(r[k]) > 0 {
      var tail := KeepNonBlank(fs[1..]);
      if IsBlank(fs[0]) {
        assert r == tail;
      } else {
        assert r == [fs[0]] + tail;
        assert r[k] == tail[k - 1];
      }
      assert r[k] in fs[1..];
    }
  }

  lemma {:induction false} KeepNonBlankKeepsAll(xs: seq<string>)
    requires |KeepNonBlank(xs)| == |xs|
    ensures KeepNonBlank(xs) == xs
  {
    if xs != [] {
      if !IsBlank(xs[0]) {
        KeepNonBlankKeepsAll(xs[1..]);
        assert [xs[0]] + xs[1..] == xs;
      }
    }
  }

  /** When the filter dropped nothing, joining the entries with the blank line gives the content back. */
  lemma EntriesJoin(content: string, header: string -> nat)
    requires |Entries(content, header)| == |Fragments(content, header)|
    ensures Join(Entries(content, header), Separator) == content
  {
    KeepNonBlankKeepsAll(Fragments(content, header));
    FragmentsJoin(content, header);
  }

  /**
    The round trip of a day's log: non-blank entries that hold no cut, of which
    every one after the first begins with a header, are read back exactly from
    their join.
  */
  lemma EntriesOfJoin(xs: seq<string>, header: string -> nat)
    requires Shaped(header)
    requires |xs| >= 1
    requires forall k :: 0 <= k < |xs| ==> !HasCut(xs[k], header) && !IsBlank(xs[k])
    requires forall k :: 1 <= k < |xs| ==> header(xs[k]) > 0
    ensures Entries(Join(xs, Separator), header) == xs
  {
    FragmentsOfJoin(xs, header);
    KeepNonBlankAll(xs);
  }

  /** Appending a headed entry after a blank line adds exactly that entry at the end. */
  lemma EntriesAppend(content: string, e: string, header: string -> nat)
    requires Shaped(header)
    requires header(e) > 0 && !HasCut(e, header)
    ensures Entries(content + Separator + e, header) == Entries(content, header) + [e]
  {
    FragmentsConcat(content, e, header);
    FragmentsOfCutFree(e, header);
    KeepNonBlankAppend(Fragments(content, header), [e]);
    assert !IsBlank(e) by { assert !IsSpace(e[0]); }
    assert KeepNonBlank([e]) == [e] by { assert ([e])[1..] == []; }
  }

  // ---------------------------------------------------------------------------
  // The header match: `[time]`, one white-space character, then the body

  datatype Stamped = Stamped(time: string, body: string)

  /** A time the lazy match can return: no `]` in it is followed by white space. */
  predicate NoCloseIn(time: string) {
    forall k :: 0 <= k < |time| - 1 ==> !(time[k] == ']' && IsSpace(time[k + 1]))
  }

  /** A `]` that is followed by white space: where the lazy time group may end. */
  predicate ClosesAt(e: string, k: nat) {
    k + 1 < |e| && e[k] == ']' && IsSpace(e[k + 1])
  }

  function CloseFrom(e: string, j: nat): (r: Option<nat>)
    ensures r.Some? ==> j <= r.value && ClosesAt(e, r.value)
    ensures r.Some? ==> forall k :: j <= k < r.value ==> !ClosesAt(e, k)
    ensures r.None? ==> forall k :: j <= k ==> !ClosesAt(e, k)
    decreases |e| - j
  {
    if j + 1 >= |e| then None
    else if ClosesAt(e, j) then Some(j)
    else CloseFrom(e, j + 1)
  }

  /**
    Anchored at the start, an open bracket, the shortest time that is followed by
    `]` and a white-space character, and the rest (newlines included) as body.
  */
  function MatchStamp(e: string): (r: Option<Stamped>)
    ensures r.Some? <==> |e| > 0 && e[0] == '[' && exists k :: 1 <= k && ClosesAt(e, k)
    ensures r.Some? ==> |e| >= |r.value.time| + 3
    ensures r.Some? ==> e[1..|r.value.time| + 1] == r.value.time && ClosesAt(e, |r.value.time| + 1)
    ensures r.Some? ==> e[|r.value.time| + 3..] == r.value.body
    ensures r.Some? ==> forall k :: 1 <= k <= |r.value.time| ==> !ClosesAt(e, k)
    ensures r.Some? ==> NoCloseIn(r.value.time)
  {
    if |e| > 0 && e[0] == '[' then
      match CloseFrom(e, 1)
      case None => None
      case Some(k) =>
        NoCloseBefore(e, k);
        Some(Stamped(e[1..k], e[k + 2..]))
    else None
  }

  lemma NoCloseBefore(e: string, k: nat)
    requires 1 <= k <= |e|
    requires forall j :: 1 <= j < k ==> !ClosesAt(e, j)
    ensures NoCloseIn(e[1..k])
  {
    var time := e[1..k];
    forall j | 0 <= j < |time| - 1 ensures !(time[j] == ']' && IsSpace(time[j + 1])) {
      assert time[j] == e[j + 1] && time[j + 1] == e[j + 2];
      assert !ClosesAt(e, j + 1);
    }
  }

  /** A time with no `]` followed by white space, and a body, written as `[time] body`, are read back unchanged. */
  lemma {:induction false} MatchStampRoundTrip(time: string, gap: char, body: string)
    requires NoCloseIn(time)
    requires IsSpace(gap)
    ensures MatchStamp("[" + time + "]" + [gap] + body) == Some(Stamped(time, body))
  {
    var e := "[" + time + "]" + [gap] + body;
    assert ClosesAt(e, |time| + 1);
    forall k | 1 <= k <= |time| ensures !ClosesAt(e, k) {
      assert e[k] == time[k - 1];
      if k < |time| {
        assert e[k + 1] == time[k];
      }
    }
    assert e[1..|time| + 1] == time;
    assert e[|time| + 3..] == body;
  }

  /** `[time] body` for a present time, the body alone otherwise. */
  function Render(time: Option<string>, body: string): string {
    match time
    case Some(t) => "[" + t + "] " + body
    case None => body
  }
}
