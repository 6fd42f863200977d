/** The string primitives the visualizers rely on: Python's `upper()`,
    `lower()`, `strip()`, the `in` substring test, `", ".join` and the
    code-point ordering `sort()` uses. Only ASCII letters are case-mapped and
    only ASCII whitespace is trimmed. */
module Text {

  /** `str.isspace()` on the ASCII range: space, tab, line feed, vertical tab,
      form feed, carriage return and the four separators 0x1C-0x1F. */
  predicate IsSpace(c: char) {
    c == ' ' || c == '\t' || c == '\n' || c == '\r' || c == '\U{0B}' || c == '\U{0C}'
    || ('\U{1C}' <= c <= '\U{1F}')
  }

  function UpperChar(c: char): char {
    if 'a' <= c <= 'z' then (c as int - 32) as char else c
  }

  function LowerChar(c: char): char {
    if 'A' <= c <= 'Z' then (c as int + 32) as char else c
  }

  /** `s.upper()`: every lower-case ASCII letter mapped to upper case. */
  function Upper(s: string): (r: string)
    ensures |r| == |s|
    ensures forall i :: 0 <= i < |s| ==> r[i] == UpperChar(s[i])
  {
    if |s| == 0 then "" else Upper(s[..|s| - 1]) + [UpperChar(s[|s| - 1])]
  }

  /** `s.lower()`: every upper-case ASCII letter mapped to lower case. */
  function Lower(s: string): (r: string)
    ensures |r| == |s|
    ensures forall i :: 0 <= i < |s| ==> r[i] == LowerChar(s[i])
  {
    if |s| == 0 then "" else Lower(s[..|s| - 1]) + [LowerChar(s[|s| - 1])]
  }

  /** True when every character is whitespace (the empty string included):
      exactly the strings whose `strip()` is falsy. */
  ghost predicate IsBlank(s: string) {
    forall i :: 0 <= i < |s| ==> IsSpace(s[i])
  }

  /** The first position at or after `i` that does not hold whitespace. */
  function SkipSpaces(s: string, i: nat): (k: nat)
    requires i <= |s|
    ensures i <= k <= |s|
    ensures forall m :: i <= m < k ==> IsSpace(s[m])
    ensures k < |s| ==> !IsSpace(s[k])
    decreases |s| - i
  {
    if i < |s| && IsSpace(s[i]) then SkipSpaces(s, i + 1) else i
  }

  /** The end of `s[lo..j]` once trailing whitespace is dropped. */
  function SkipSpacesBack(s: string, lo: nat, j: nat): (k: nat)
    requires lo <= j <= |s|
    ensures lo <= k <= j
    ensures forall m :: k <= m < j ==> IsSpace(s[m])
    ensures k > lo ==> !IsSpace(s[k - 1])
    decreases j
  {
    if j > lo && IsSpace(s[j - 1]) then SkipSpacesBack(s, lo, j - 1) else j
  }

  /** `r` is `s` with only whitespace removed from its two ends, starting
      at position `i` of `s`. */
  ghost predicate TrimmedAt(s: string, r: string, i: int) {
    && 0 <= i <= i + |r| <= |s| && r == s[i..i + |r|]
    && (forall k :: 0 <= k < i ==> IsSpace(s[k]))
    && (forall k :: i + |r| <= k < |s| ==> IsSpace(s[k]))
  }

  /** `s.strip()`: the longest slice of `s` that neither starts nor ends with
      whitespace, obtained by removing only whitespace. It is empty exactly
      when `s` is blank. */
  function Strip(s: string): (r: string)
    ensures exists i :: TrimmedAt(s, r, i)
    ensures r != "" ==> !IsSpace(r[0]) && !IsSpace(r[|r| - 1])
    ensures r == "" <==> IsBlank(s)
  {
    var i := SkipSpaces(s, 0);
    var j := SkipSpacesBack(s, i, |s|);
    assert TrimmedAt(s, s[i..j], i);
    s[i..j]
  }

  /** `needle` sits in `hay` at position `i`. */
  ghost predicate SliceAt(needle: string, hay: string, i: int) {
    0 <= i <= |hay| - |needle| && hay[i..i + |needle|] == needle
  }

  /** `needle` occurs as a contiguous slice of `hay`. */
  ghost predicate Occurs(needle: string, hay: string) {
    exists i :: SliceAt(needle, hay, i)
  }

  /** Python's `needle in hay` on strings; the empty needle occurs everywhere. */
  function Contains(needle: string, hay: string): (r: bool)
    ensures r <==> Occurs(needle, hay)
  {
    if |needle| <= |hay| && hay[..|needle|] == needle then
      assert SliceAt(needle, hay, 0);
      true
    else if |hay| == 0 then
      false
    else
      ContainsShift(needle, hay);
      Contains(needle, hay[1..])
  }

  lemma ContainsShift(needle: string, hay: string)
    requires |hay| > 0 && !(|needle| <= |hay| && hay[..|needle|] == needle)
    ensures Occurs(needle, hay) <==> Occurs(needle, hay[1..])
  {
    if i :| SliceAt(needle, hay, i) {
      assert i != 0;
      assert SliceAt(needle, hay[1..], i - 1);
    }
    if i :| SliceAt(needle, hay[1..], i) {
      assert SliceAt(needle, hay, i + 1);
    }
  }

  /** `sep.join(xs)`. */
  function Join(xs: seq<string>, sep: string): (r: string)
    ensures |xs| == 0 ==> r == ""
    ensures |xs| == 1 ==> r == xs[0]
  {
    if |xs| == 0 then ""
    else if |xs| == 1 then xs[0]
    else Join(xs[..|xs| - 1], sep) + sep + xs[|xs| - 1]
  }

  /** Python's string ordering `a <= b`: lexicographic on code points, a
      proper prefix sorting first. */
  predicate LexLe(a: string, b: string) {
    |a| == 0 || (|b| > 0 && (a[0] < b[0] || (a[0] == b[0] && LexLe(a[1..], b[1..]))))
  }

  lemma {:induction false} LexLeTotal(a: string, b: string)
    ensures LexLe(a, b) || LexLe(b, a)
  {
    if |a| > 0 && |b| > 0 && a[0] == b[0] {
      LexLeTotal(a[1..], b[1..]);
    }
  }

  lemma {:induction false} LexLeTransitive(a: string, b: string, c: string)
    requires LexLe(a, b) && LexLe(b, c)
    ensures LexLe(a, c)
  {
    if |a| > 0 && a[0] == b[0] && b[0] == c[0] {
      LexLeTransitive(a[1..], b[1..], c[1..]);
    }
  }

  lemma {:induction false} LexLeAntisymmetric(a: string, b: string)
    requires LexLe(a, b) && LexLe(b, a)
    ensures a == b
  {
    if |a| > 0 {
      LexLeAntisymmetric(a[1..], b[1..]);
      assert a == [a[0]] + a[1..] && b == [b[0]] + b[1..];
    }
  }
}
