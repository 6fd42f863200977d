/** Python's `list.sort()` and `list.sort(key=...)` on string keys, modelled
    as a stable insertion sort over sequences. */
module Sorting {
  import opened Text

  /** Keys are in non-decreasing order under Python's string ordering. */
  ghost predicate SortedBy<T>(xs: seq<T>, key: T -> string) {
    forall i, j :: 0 <= i < j < |xs| ==> LexLe(key(xs[i]), key(xs[j]))
  }

  /** Insert `x` after every element whose key is not greater than its own. */
  function InsertBy<T>(x: T, xs: seq<T>, key: T -> string): (r: seq<T>)
    requires SortedBy(xs, key)
    ensures multiset(r) == multiset(xs) + multiset{x}
    ensures SortedBy(r, key)
  {
    if |xs| == 0 then [x]
    else if LexLe(key(xs[0]), key(x)) then
      var rest := InsertBy(x, xs[1..], key);
      assert xs == [xs[0]] + xs[1..];
      InsertHeadSorted(xs[0], x, xs[1..], rest, key);
      [xs[0]] + rest
    else
      LexLeTotal(key(x), key(xs[0]));
      PrependSorted(x, xs, key);
      [x] + xs
  }

  lemma PrependSorted<T>(x: T, xs: seq<T>, key: T -> string)
    requires SortedBy(xs, key)
    requires |xs| > 0 ==> LexLe(key(x), key(xs[0]))
    ensures SortedBy([x] + xs, key)
  {
    var r := [x] + xs;
    forall i, j | 0 <= i < j < |r| ensures LexLe(key(r[i]), key(r[j])) {
      if i == 0 && j > 1 {
        LexLeTransitive(key(x), key(xs[0]), key(xs[j - 1]));
      }
    }
  }

  lemma InsertHeadSorted<T>(h: T, x: T, tail: seq<T>, rest: seq<T>, key: T -> string)
    requires SortedBy([h] + tail, key)
    requires LexLe(key(h), key(x))
    requires multiset(rest) == multiset(tail) + multiset{x}
    requires SortedBy(rest, key)
    ensures SortedBy([h] + rest, key)
  {
    var full := [h] + tail;
    forall y | y in rest ensures LexLe(key(h), key(y)) {
      assert y in multiset(rest);
      if y != x {
        assert y in multiset(tail);
        var k :| 0 <= k < |tail| && tail[k] == y;
        assert full[k + 1] == y && full[0] == h;
        assert LexLe(key(full[0]), key(full[k + 1]));
      }
    }
    if |rest| > 0 { assert rest[0] in rest; }
    PrependSorted(h, rest, key);
  }

  /** Stable sort of `xs` by `key`. */
  function SortBy<T>(xs: seq<T>, key: T -> string): (r: seq<T>)
    ensures multiset(r) == multiset(xs)
    ensures SortedBy(r, key)
  {
    if |xs| == 0 then []
    else
      assert xs == xs[..|xs| - 1] + [xs[|xs| - 1]];
      InsertBy(xs[|xs| - 1], SortBy(xs[..|xs| - 1], key), key)
  }

  function Identity(s: string): string { s }

  /** `sorted(xs)` for a list of strings. */
  function SortStrings(xs: seq<string>): (r: seq<string>)
    ensures multiset(r) == multiset(xs)
    ensures SortedBy(r, Identity)
  {
    SortBy(xs, Identity)
  }
}
