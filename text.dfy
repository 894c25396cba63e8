/**
  Character classes, trimming, joining and decimal conversion as JavaScript
  performs them on the strings of the entry log (`String.prototype.trim`,
  `Array.prototype.join`, the `\s` and `\d` regular-expression classes,
  `String(n)`, `padStart(2, "0")`, `parseInt(s, 10)` and `Number(s)`).
*/
module Text {

  datatype Option<+T> = None | Some(value: T)

  /** The `\s` class of JavaScript regular expressions; `trim` removes the same characters. */
  predicate IsSpace(c: char) {
    || c == ' ' || c == '\t' || c == '\n' || c == '\r'
    || c == '\U{000B}' || c == '\U{000C}' || c == '\U{00A0}' || c == '\U{1680}'
    || ('\U{2000}' <= c <= '\U{200A}')
    || c == '\U{2028}' || c == '\U{2029}' || c == '\U{202F}' || c == '\U{205F}'
    || c == '\U{3000}' || c == '\U{FEFF}'
  }

  /** `s.trim().length === 0` */
  predicate IsBlank(s: string) {
    forall i :: 0 <= i < |s| ==> IsSpace(s[i])
  }

  /** The `\d` class: ASCII digits only. */
  predicate IsDigit(c: char) {
    '0' <= c <= '9'
  }

  predicate AllDigits(s: string) {
    forall i :: 0 <= i < |s| ==> IsDigit(s[i])
  }

  function TrimLeft(s: string): (r: string)
    ensures |r| <= |s| && r == s[|s| - |r|..]
    ensures forall i :: 0 <= i < |s| - |r| ==> IsSpace(s[i])
    ensures r == [] || !IsSpace(r[0])
  {
    if |s| > 0 && IsSpace(s[0]) then TrimLeft(s[1..]) else s
  }

  function TrimRight(s: string): (r: string)
    ensures |r| <= |s| && r == s[..|r|]
    ensures forall i :: |r| <= i < |s| ==> IsSpace(s[i])
    ensures r == [] || !IsSpace(r[|r| - 1])
  {
    if |s| > 0 && IsSpace(s[|s| - 1]) then TrimRight(s[..|s| - 1]) else s
  }

  /** `s.trim()`: the slice of `s` between its leading and trailing white space. */
  function Trim(s: string): (r: string)
    ensures |r| <= |s|
    ensures r == [] <==> IsBlank(s)
    ensures r != [] ==> !IsSpace(r[0]) && !IsSpace(r[|r| - 1])
  {
    var l := TrimLeft(s);
    var r := TrimRight(l);
    r
  }

  /** A string that neither starts nor ends with white space is its own trim. */
  lemma {:induction false} TrimOfTrimmed(s: string)
    requires s != [] && !IsSpace(s[0]) && !IsSpace(s[|s| - 1])
    ensures Trim(s) == s
  {
    assert TrimLeft(s) == s;
    assert TrimRight(s) == s;
  }

  /** The index of the first non-white-space character at or after `k` (or `|t|`). */
  function SkipSpace(t: string, k: nat): (w: nat)
    requires k <= |t|
    ensures k <= w <= |t|
    ensures forall j :: k <= j < w ==> IsSpace(t[j])
    ensures w < |t| ==> !IsSpace(t[w])
    decreases |t| - k
  {
    if k < |t| && IsSpace(t[k]) then SkipSpace(t, k + 1) else k
  }

  /** The scan for white space looks no further than the first character that ends it. */
  lemma {:induction false} SkipSpaceLocal(t: string, u: string, k: nat)
    requires k <= |t| && k <= |u|
    requires SkipSpace(t, k) < |t| && SkipSpace(t, k) < |u|
    requires forall j :: k <= j <= SkipSpace(t, k) ==> u[j] == t[j]
    ensures SkipSpace(u, k) == SkipSpace(t, k)
    decreases |t| - k
  {
    if IsSpace(t[k]) {
      SkipSpaceLocal(t, u, k + 1);
    }
  }

  /** `xs.join(sep)` */
  function Join(xs: seq<string>, sep: string): string {
    if |xs| == 0 then ""
    else if |xs| == 1 then xs[0]
    else xs[0] + sep + Join(xs[1..], sep)
  }

  /** Joining with a blank separator is blank exactly when every part is blank. */
  lemma {:induction false} JoinBlank(xs: seq<string>, sep: string)
    requires IsBlank(sep)
    ensures IsBlank(Join(xs, sep)) <==> forall k :: 0 <= k < |xs| ==> IsBlank(xs[k])
  {
    if |xs| > 1 {
      JoinBlank(xs[1..], sep);
      var rest := Join(xs[1..], sep);
      var j := xs[0] + sep + rest;
      assert j[..|xs[0]|] == xs[0];
      assert j[|xs[0]| + |sep|..] == rest;
      assert IsBlank(j) <==> IsBlank(xs[0]) && IsBlank(rest) by {
        assert forall i | 0 <= i < |xs[0]| :: j[i] == xs[0][i];
        assert forall i | 0 <= i < |sep| :: j[|xs[0]| + i] == sep[i];
        assert forall i | 0 <= i < |rest| :: j[|xs[0]| + |sep| + i] == rest[i];
      }
      assert forall k | 0 <= k < |xs| - 1 :: xs[1..][k] == xs[k + 1];
    }
  }

  /** The first position of `c` in `s`, if any. */
  function IndexOf(s: string, c: char): (r: Option<nat>)
    ensures r.Some? ==> r.value < |s| && s[r.value] == c && c !in s[..r.value]
    ensures r.None? ==> c !in s
  {
    if |s| == 0 then None
    else if s[0] == c then Some(0)
    else
      match IndexOf(s[1..], c)
      case None => None
      case Some(i) =>
        assert s[..i + 1] == [s[0]] + s[1..][..i];
        Some(i + 1)
  }

  /** `s.split(c)` for a one-character separator: the pieces between the occurrences of `c`. */
  function SplitOn(s: string, c: char): (r: seq<string>)
    ensures |r| >= 1
    ensures forall k :: 0 <= k < |r| ==> c !in r[k]
    decreases |s|
  {
    match IndexOf(s, c)
    case None => [s]
    case Some(i) => [s[..i]] + SplitOn(s[i + 1..], c)
  }

  /** Joining the pieces with the separator gives the string back. */
  lemma {:induction false} SplitOnJoin(s: string, c: char)
    ensures Join(SplitOn(s, c), [c]) == s
    decreases |s|
  {
    match IndexOf(s, c)
    case None =>
    case Some(i) =>
      SplitOnJoin(s[i + 1..], c);
      var rest := SplitOn(s[i + 1..], c);
      assert ([s[..i]] + rest)[1..] == rest;
      assert s == s[..i] + [c] + s[i + 1..];
  }

  /** Pieces free of the separator are recovered by splitting their join. */
  lemma {:induction false} SplitOnOfJoin(xs: seq<string>, c: char)
    requires |xs| >= 1
    requires forall k :: 0 <= k < |xs| ==> c !in xs[k]
    ensures SplitOn(Join(xs, [c]), c) == xs
  {
    if |xs| == 1 {
      assert IndexOf(xs[0], c).None?;
    } else {
      var j := xs[0] + [c] + Join(xs[1..], [c]);
      assert j[..|xs[0]|] == xs[0];
      assert IndexOf(j, c) == Some(|xs[0]|) by {
        var r := IndexOf(j, c);
        assert j[|xs[0]|] == c;
        assert forall p :: 0 <= p < |xs[0]| ==> j[p] == xs[0][p];
      }
      assert j[|xs[0]| + 1..] == Join(xs[1..], [c]);
      SplitOnOfJoin(xs[1..], c);
      assert [xs[0]] + xs[1..] == xs;
    }
  }

  /** `s.replace(/\D/g, "")`: the digits of `s`, in order. */
  function KeepDigits(s: string): (r: string)
    ensures AllDigits(r) && |r| <= |s|
    ensures AllDigits(s) ==> r == s
  {
    if |s| == 0 then ""
    else if IsDigit(s[0]) then [s[0]] + KeepDigits(s[1..])
    else KeepDigits(s[1..])
  }

  // ---------------------------------------------------------------------------
  // Decimal numbers

  function DigitChar(d: nat): (c: char)
    requires d < 10
    ensures IsDigit(c)
  {
    ['0', '1', '2', '3', '4', '5', '6', '7', '8', '9'][d]
  }

  function DigitValue(c: char): (d: nat)
    requires IsDigit(c)
    ensures d < 10
  {
    (c as int - '0' as int) as nat
  }

  lemma DigitRoundTrip(d: nat)
    requires d < 10
    ensures DigitValue(DigitChar(d)) == d
  {
  }

  /** The value of a string of decimal digits (most significant first). */
  function DecValue(s: string): nat
    requires AllDigits(s)
  {
    if |s| == 0 then 0 else DecValue(s[..|s| - 1]) * 10 + DigitValue(s[|s| - 1])
  }

  /** `String(n)` for a non-negative integer. */
  function ShowNat(n: nat): (r: string)
    ensures r != [] && AllDigits(r)
    ensures n < 10 <==> |r| == 1
    ensures 10 <= n < 100 <==> |r| == 2
    ensures n == 0 <==> r == "0"
    decreases n
  {
    if n < 10 then [DigitChar(n)] else ShowNat(n / 10) + [DigitChar(n % 10)]
  }

  /** Reading back what `String(n)` wrote gives `n`. */
  lemma {:induction false} ShowNatRoundTrip(n: nat)
    ensures DecValue(ShowNat(n)) == n
    decreases n
  {
    var s := ShowNat(n);
    if n < 10 {
      DigitRoundTrip(n);
    } else {
      ShowNatRoundTrip(n / 10);
      assert s[..|s| - 1] == ShowNat(n / 10);
      DigitRoundTrip(n % 10);
    }
  }

  /** `String(n).padStart(2, "0")` */
  function Pad2(n: nat): (r: string)
    ensures AllDigits(r)
    ensures n < 100 ==> |r| == 2
    ensures |r| >= 2
  {
    if n < 10 then "0" + ShowNat(n) else ShowNat(n)
  }

  lemma {:induction false} Pad2RoundTrip(n: nat)
    ensures DecValue(Pad2(n)) == n
  {
    ShowNatRoundTrip(n);
    if n < 10 {
      var s := Pad2(n);
      assert s[..|s| - 1] == "0";
      assert DecValue("0") == 0 by { assert ("0")[..0] == ""; }
    }
  }

  /** Number of leading decimal digits. */
  function LeadingDigits(s: string): (k: nat)
    ensures k <= |s|
    ensures AllDigits(s[..k])
    ensures k < |s| ==> !IsDigit(s[k])
  {
    if |s| > 0 && IsDigit(s[0]) then
      var k := 1 + LeadingDigits(s[1..]);
      assert s[..k] == [s[0]] + s[1..][..k - 1];
      k
    else 0
  }

  /** `parseInt(s, 10)` on strings that start with their digits; `None` stands for NaN. */
  function ParseInt(s: string): (r: Option<nat>)
    ensures r.None? <==> (s == [] || !IsDigit(s[0]))
  {
    var k := LeadingDigits(s);
    if k == 0 then None else Some(DecValue(s[..k]))
  }

  /** parseInt stops at the first non-digit that follows a run of digits. */
  lemma {:induction false} ParseIntPrefix(s: string, t: string)
    requires s != [] && AllDigits(s)
    requires t == [] || !IsDigit(t[0])
    ensures ParseInt(s + t) == Some(DecValue(s))
  {
    LeadingDigitsOf(s, t);
    assert (s + t)[..|s|] == s;
  }

  lemma {:induction false} LeadingDigitsOf(s: string, t: string)
    requires AllDigits(s)
    requires t == [] || !IsDigit(t[0])
    ensures LeadingDigits(s + t) == |s|
  {
    if s == [] {
      assert s + t == t;
    } else {
      LeadingDigitsOf(s[1..], t);
      assert (s + t)[1..] == s[1..] + t;
    }
  }

  lemma ParseIntPad2(n: nat)
    ensures ParseInt(Pad2(n)) == Some(n)
  {
    ParseIntPrefix(Pad2(n), "");
    assert Pad2(n) + "" == Pad2(n);
    Pad2RoundTrip(n);
  }

  lemma ParseIntShowNat(n: nat)
    ensures ParseInt(ShowNat(n)) == Some(n)
  {
    ParseIntPrefix(ShowNat(n), "");
    assert ShowNat(n) + "" == ShowNat(n);
    ShowNatRoundTrip(n);
  }

  /**
    `Number(s)` restricted to the forms the entry log produces: after trimming,
    the empty string is 0, a run of digits is its value, anything else is NaN.
  */
  function JsNumber(s: string): (r: Option<nat>)
    ensures IsBlank(s) ==> r == Some(0)
  {
    var t := Trim(s);
    if t == [] then Some(0) else if AllDigits(t) then Some(DecValue(t)) else None
  }

  lemma {:induction false} JsNumberShowNat(n: nat)
    ensures JsNumber(ShowNat(n)) == Some(n)
    ensures JsNumber(Pad2(n)) == Some(n)
  {
    ShowNatRoundTrip(n);
    JsNumberOfDigits(ShowNat(n));
    Pad2RoundTrip(n);
    JsNumberOfDigits(Pad2(n));
  }

  /** A non-empty run of digits is read as its decimal value. */
  lemma JsNumberOfDigits(s: string)
    requires s != [] && AllDigits(s)
    ensures JsNumber(s) == Some(DecValue(s))
  {
    assert !IsSpace(s[0]) && !IsSpace(s[|s| - 1]) by { assert IsDigit(s[0]) && IsDigit(s[|s| - 1]); }
    TrimOfTrimmed(s);
  }
}
