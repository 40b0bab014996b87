/** Character and string helpers shared by the search engine, the routers and the
    page-range parser: JavaScript whitespace and trimming, ASCII lower-casing,
    substring tests, splitting, and decimal digits. */
module Strings {

  /** JavaScript's `\s` class, which is also the set `String.prototype.trim` removes:
      tab, line feed, vertical tab, form feed, carriage return, space, the Unicode
      space separators, the line/paragraph separators and the byte-order mark. */
  predicate IsJsSpace(c: char) {
    || c == ' '
    || ('\t' <= c <= '\r')
    || c == '\U{A0}' || c == '\U{1680}'
    || ('\U{2000}' <= c <= '\U{200A}')
    || c == '\U{2028}' || c == '\U{2029}' || c == '\U{202F}' || c == '\U{205F}'
    || c == '\U{3000}' || c == '\U{FEFF}'
  }

  predicate IsUpperAscii(c: char) { 'A' <= c <= 'Z' }

  /** `toLowerCase`, restricted to ASCII letters. */
  function LowerChar(c: char): (r: char)
    ensures !IsUpperAscii(r)
    ensures IsJsSpace(r) <==> IsJsSpace(c)
  {
    if IsUpperAscii(c) then (c as int + 32) as char else c
  }

  function Lower(s: string): (r: string)
    ensures |r| == |s|
    ensures forall i :: 0 <= i < |s| ==> r[i] == LowerChar(s[i])
  {
    seq(|s|, i requires 0 <= i < |s| => LowerChar(s[i]))
  }

  predicate IsLowered(s: string) {
    forall i :: 0 <= i < |s| ==> !IsUpperAscii(s[i])
  }

  lemma LowerIsLowered(s: string)
    ensures IsLowered(Lower(s))
  {
  }

  lemma LowerIdempotent(s: string)
    ensures Lower(Lower(s)) == Lower(s)
  {
  }

  predicate IsBlank(s: string) {
    forall i :: 0 <= i < |s| ==> IsJsSpace(s[i])
  }

  /** `String.prototype.trimStart`. */
  function TrimStart(s: string): (r: string)
    ensures |r| <= |s| && r == s[|s| - |r|..]
    ensures r == [] || !IsJsSpace(r[0])
    ensures IsBlank(s[..|s| - |r|])
  {
    if s == [] || !IsJsSpace(s[0]) then s
    else
      var r := TrimStart(s[1..]);
      assert s[1..][..|s[1..]| - |r|] == s[1..|s| - |r|];
      r
  }

  /** `String.prototype.trimEnd`. */
  function TrimEnd(s: string): (r: string)
    ensures |r| <= |s| && r == s[..|r|]
    ensures r == [] || !IsJsSpace(r[|r| - 1])
    ensures IsBlank(s[|r|..])
  {
    if s == [] || !IsJsSpace(s[|s| - 1]) then s
    else
      var r := TrimEnd(s[..|s| - 1]);
      assert s[..|s| - 1][..|r|] == s[..|r|];
      r
  }

  /** `String.prototype.trim`: removes the leading and trailing JavaScript whitespace. */
  function Trim(s: string): string {
    TrimEnd(TrimStart(s))
  }

  /** The trimmed string is a slice of the input with no whitespace at either end,
      and it is empty exactly when the input is blank. */
  lemma TrimSpec(s: string)
    ensures var t := Trim(s);
      && (t == [] || (!IsJsSpace(t[0]) && !IsJsSpace(t[|t| - 1])))
      && Contains(s, t)
      && (t == [] <==> IsBlank(s))
  {
    var a := TrimStart(s);
    var t := TrimEnd(a);
    var i := |s| - |a|;
    assert OccursAt(s, t, i) by { assert s[i..i + |t|] == a[..|t|]; }
    if t == [] {
      assert IsBlank(s[..i]);
      assert s[..i] == s;
    } else {
      assert t[0] == a[0] == s[i];
    }
  }

  predicate StartsWith(s: string, prefix: string) {
    |prefix| <= |s| && s[..|prefix|] == prefix
  }

  predicate EndsWith(s: string, suffix: string) {
    |suffix| <= |s| && s[|s| - |suffix|..] == suffix
  }

  /** `s` holds `q` starting at position `p`. */
  predicate OccursAt(s: string, q: string, p: int) {
    0 <= p && p + |q| <= |s| && s[p..p + |q|] == q
  }

  /** `String.prototype.includes`. */
  predicate Contains(s: string, q: string) {
    exists p | 0 <= p <= |s| - |q| :: OccursAt(s, q, p)
  }

  lemma ContainsLength(s: string, q: string)
    requires Contains(s, q)
    ensures |q| <= |s|
  {
  }

  lemma StartsWithContains(s: string, q: string)
    requires StartsWith(s, q) || EndsWith(s, q)
    ensures Contains(s, q)
  {
    if StartsWith(s, q) {
      assert OccursAt(s, q, 0);
    } else {
      assert OccursAt(s, q, |s| - |q|);
    }
  }

  /** Index of the first character satisfying JavaScript's `\s`, or |s|. */
  function IndexOfSpace(s: string): (i: nat)
    ensures i <= |s|
    ensures i < |s| ==> IsJsSpace(s[i])
    ensures forall k :: 0 <= k < i ==> !IsJsSpace(s[k])
  {
    if s == [] then 0
    else if IsJsSpace(s[0]) then 0
    else 1 + IndexOfSpace(s[1..])
  }

  /** The end of the run of whitespace starting at `i`. */
  function SkipSpaces(s: string, i: nat): (j: nat)
    requires i <= |s|
    ensures i <= j <= |s|
    ensures j < |s| ==> !IsJsSpace(s[j])
    ensures forall k :: i <= k < j ==> IsJsSpace(s[k])
    decreases |s| - i
  {
    if i < |s| && IsJsSpace(s[i]) then SkipSpaces(s, i + 1) else i
  }

  predicate NoSpace(w: string) {
    forall k :: 0 <= k < |w| ==> !IsJsSpace(w[k])
  }

  /** `s.split(/\s+/)`: the pieces between maximal runs of whitespace, including the
      empty piece before leading and after trailing whitespace. */
  function SplitWhitespace(s: string): (words: seq<string>)
    ensures |words| >= 1
    ensures forall w :: w in words ==> NoSpace(w)
    decreases |s|
  {
    var i := IndexOfSpace(s);
    if i == |s| then [s]
    else
      var j := SkipSpaces(s, i);
      [s[..i]] + SplitWhitespace(s[j..])
  }

  /** A string without whitespace splits into itself alone. */
  lemma SplitWhitespaceOfWord(s: string)
    requires NoSpace(s)
    ensures SplitWhitespace(s) == [s]
  {
    assert IndexOfSpace(s) == |s|;
  }

  /** The first piece ends at the first whitespace, and the remaining pieces are the
      split of what follows the whole run of whitespace there. */
  lemma SplitWhitespaceStep(a: string, w: string, b: string)
    requires NoSpace(a)
    requires |w| > 0 && forall k :: 0 <= k < |w| ==> IsJsSpace(w[k])
    requires b == [] || !IsJsSpace(b[0])
    ensures SplitWhitespace(a + w + b) == [a] + SplitWhitespace(b)
  {
    var s := a + w + b;
    assert forall k :: 0 <= k < |a| ==> s[k] == a[k];
    assert forall k :: 0 <= k < |w| ==> s[|a| + k] == w[k];
    assert IsJsSpace(s[|a|]);
    assert IndexOfSpace(s) == |a|;
    assert b != [] ==> s[|a| + |w|] == b[0];
    var j := SkipSpaces(s, |a|);
    assert j == |a| + |w|;
    assert s[..|a|] == a;
    assert s[j..] == b;
  }

  /** Index of the first character of `s` that is in `seps`, or |s|. */
  function IndexOfAny(s: string, seps: set<char>): (i: nat)
    ensures i <= |s|
    ensures i < |s| ==> s[i] in seps
    ensures forall k :: 0 <= k < i ==> s[k] !in seps
  {
    if s == [] then 0
    else if s[0] in seps then 0
    else 1 + IndexOfAny(s[1..], seps)
  }

  /** `split` on a single separator character, or on a character class such as
      JavaScript's `/[,;\/\(\)]/` or Python's `str.split(c)`: every separator
      occurrence separates, so adjacent separators yield empty pieces. */
  function SplitOnAny(s: string, seps: set<char>): (parts: seq<string>)
    ensures |parts| >= 1
    ensures forall p, k :: p in parts && 0 <= k < |p| ==> p[k] !in seps
    decreases |s|
  {
    var i := IndexOfAny(s, seps);
    if i == |s| then [s]
    else [s[..i]] + SplitOnAny(s[i + 1..], seps)
  }

  /** A string without separators is one piece. */
  lemma SplitOnAnyNoSeparator(s: string, seps: set<char>)
    requires forall k :: 0 <= k < |s| ==> s[k] !in seps
    ensures SplitOnAny(s, seps) == [s]
  {
    assert IndexOfAny(s, seps) == |s|;
  }

  /** The first piece is the text before the first separator, and the remaining
      pieces are the split of what follows that separator. */
  lemma SplitOnAnyStep(a: string, c: char, b: string, seps: set<char>)
    requires forall k :: 0 <= k < |a| ==> a[k] !in seps
    requires c in seps
    ensures SplitOnAny(a + [c] + b, seps) == [a] + SplitOnAny(b, seps)
  {
    var s := a + [c] + b;
    assert forall k :: 0 <= k < |a| ==> s[k] == a[k];
    assert s[|a|] == c;
    assert IndexOfAny(s, seps) == |a|;
    assert s[..|a|] == a;
    assert s[|a| + 1..] == b;
  }

  predicate IsDigit(c: char) { '0' <= c <= '9' }

  /** Python's `str.isdigit`, restricted to ASCII digits: non-empty and all digits. */
  predicate IsAllDigits(s: string) {
    |s| > 0 && forall k :: 0 <= k < |s| ==> IsDigit(s[k])
  }

  function DigitValue(c: char): nat
    requires IsDigit(c)
  {
    c as int - '0' as int
  }

  /** `int(s)` for a string of decimal digits (leading zeros allowed). */
  function DecimalValue(s: string): nat
    requires forall k :: 0 <= k < |s| ==> IsDigit(s[k])
  {
    if s == [] then 0
    else DecimalValue(s[..|s| - 1]) * 10 + DigitValue(s[|s| - 1])
  }

  function DigitChar(d: nat): (c: char)
    requires d < 10
    ensures IsDigit(c) && DigitValue(c) == d
  {
    ('0' as int + d) as char
  }

  /** The decimal representation JavaScript and Python print for a non-negative integer. */
  function NatToDecimal(n: nat): (s: string)
    ensures IsAllDigits(s)
  {
    if n < 10 then [DigitChar(n)]
    else NatToDecimal(n / 10) + [DigitChar(n % 10)]
  }

  /** Printing a number and reading it back gives the number. */
  lemma {:induction false} DecimalRoundTrip(n: nat)
    ensures DecimalValue(NatToDecimal(n)) == n
  {
    var s := NatToDecimal(n);
    if n >= 10 {
      DecimalRoundTrip(n / 10);
      assert s[..|s| - 1] == NatToDecimal(n / 10);
    }
  }

  function BoolToString(b: bool): string {
    if b then "true" else "false"
  }
}
