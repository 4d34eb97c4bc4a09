/** Splitting and trimming of text, as `str` does it. */
module Texts {
  import opened Options

  /** The first position of a separator, or the length. */
  function Find(s: string, seps: set<char>): (i: nat)
    ensures i <= |s| && (i < |s| ==> s[i] in seps) && forall k :: 0 <= k < i ==> s[k] !in seps
  {
    if s == [] || s[0] in seps then 0 else 1 + Find(s[1..], seps)
  }

  /** `split_once`: what comes before and after the first separator. */
  function SplitOnce(s: string, seps: set<char>): Option<(string, string)> {
    var i := Find(s, seps);
    if i == |s| then None else Some((s[..i], s[i + 1..]))
  }

  /** `split`: the parts between separators. */
  function Split(s: string, sep: char): (parts: seq<string>)
    ensures parts != []
    decreases |s|
  {
    var i := Find(s, {sep});
    if i == |s| then [s] else [s[..i]] + Split(s[i + 1..], sep)
  }

  lemma FindAfter(a: string, c: char, rest: string, seps: set<char>)
    requires c in seps && forall k :: 0 <= k < |a| ==> a[k] !in seps
    ensures Find(a + [c] + rest, seps) == |a|
  {
    var s := a + [c] + rest;
    var i := Find(s, seps);
    assert s[|a|] == c && forall k :: 0 <= k < |a| ==> s[k] == a[k];
  }

  lemma SplitOnceAt(a: string, c: char, rest: string, seps: set<char>)
    requires c in seps && forall k :: 0 <= k < |a| ==> a[k] !in seps
    ensures SplitOnce(a + [c] + rest, seps) == Some((a, rest))
  {
    FindAfter(a, c, rest, seps);
    assert (a + [c] + rest)[..|a|] == a && (a + [c] + rest)[|a| + 1..] == rest;
  }

  lemma SplitAt(a: string, sep: char, rest: string)
    requires sep !in a
    ensures Split(a + [sep] + rest, sep) == [a] + Split(rest, sep)
  {
    FindAfter(a, sep, rest, {sep});
    assert (a + [sep] + rest)[..|a|] == a && (a + [sep] + rest)[|a| + 1..] == rest;
  }

  lemma SplitWhole(a: string, sep: char)
    requires sep !in a
    ensures Split(a, sep) == [a]
  {}

  lemma {:induction false} PartsHoldNoSeparator(s: string, sep: char, k: nat)
    requires k < |Split(s, sep)|
    ensures sep !in Split(s, sep)[k]
    decreases |s|
  {
    var i := Find(s, {sep});
    if i < |s| && k > 0 { PartsHoldNoSeparator(s[i + 1..], sep, k - 1); }
  }

  // ---------------------------------------------------------------------
  // Trimming
  // ---------------------------------------------------------------------

  /** The characters with the Unicode White_Space property. */
  predicate IsWhite(c: char) {
    var n := c as int;
    || 9 <= n <= 13 || n == 0x20 || n == 0x85 || n == 0xA0 || n == 0x1680 || 0x2000 <= n <= 0x200A
    || n == 0x2028 || n == 0x2029 || n == 0x202F || n == 0x205F || n == 0x3000
  }

  function TrimStart(s: string): string { if s != [] && IsWhite(s[0]) then TrimStart(s[1..]) else s }

  function TrimEnd(s: string): string { if s != [] && IsWhite(s[|s| - 1]) then TrimEnd(s[..|s| - 1]) else s }

  function Trim(s: string): string { TrimEnd(TrimStart(s)) }
}
