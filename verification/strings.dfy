/**
 The string primitives the transform relies on: JavaScript's character classes,
 run scanning, `String.prototype.split` with a string separator, and the
 decimal rendering of a number inside a template literal.
 Strings are sequences of Unicode scalar values.
 */
module Strings {
  import opened Wrappers

  /** JavaScript's `\s`: the ECMAScript WhiteSpace and LineTerminator characters. */
  predicate IsSpace(c: char) {
    var n := c as int;
    (0x09 <= n <= 0x0D) || n == 0x20 || n == 0xA0 || n == 0x1680
    || (0x2000 <= n <= 0x200A) || n == 0x2028 || n == 0x2029
    || n == 0x202F || n == 0x205F || n == 0x3000 || n == 0xFEFF
  }

  /**
   Every line terminator is whitespace, and so are the space and the tab; none of
   the characters the edge and decoration patterns spell out is.
   */
  lemma SpaceClass(c: char)
    ensures IsLineTerminator(c) ==> IsSpace(c)
    ensures c == ' ' || c == '\t' ==> IsSpace(c)
    ensures IsSpace(c) ==> c != '|' && c != '-' && c != '>' && c != '(' && c != ')'
  {
  }

  /** The characters a regular-expression `.` does not match (no `s` flag). */
  predicate IsLineTerminator(c: char) {
    c == '\n' || c == '\r' || c as int == 0x2028 || c as int == 0x2029
  }

  /** The character classes the edge and decoration patterns scan over. */
  datatype CharClass =
    | Space       // `\s`
    | NonSpace    // `[^\s]`
    | NotBar      // `[^\|]`
    | AnyButEol   // `.`

  predicate InClass(c: char, k: CharClass) {
    match k
    case Space => IsSpace(c)
    case NonSpace => !IsSpace(c)
    case NotBar => c != '|'
    case AnyButEol => !IsLineTerminator(c)
  }

  /** Every character of `s[lo..hi]` is in class `k`. */
  predicate AllIn(s: string, lo: int, hi: int, k: CharClass)
    requires 0 <= lo && hi <= |s|
  {
    forall i :: lo <= i < hi ==> InClass(s[i], k)
  }

  lemma AllInSlice(s: string, lo: nat, hi: nat, k: CharClass)
    requires lo <= hi <= |s|
    requires AllIn(s, lo, hi, k)
    ensures AllIn(s[lo..hi], 0, hi - lo, k)
  {
    forall i | 0 <= i < hi - lo
      ensures InClass(s[lo..hi][i], k)
    {
      assert s[lo..hi][i] == s[lo + i];
    }
  }

  /** The end of the longest run of class-`k` characters that begins at `i`. */
  function RunEnd(s: string, i: nat, k: CharClass): (j: nat)
    requires i <= |s|
    ensures i <= j <= |s|
    ensures AllIn(s, i, j, k)
    ensures j == |s| || !InClass(s[j], k)
    decreases |s| - i
  {
    if i == |s| || !InClass(s[i], k) then i else RunEnd(s, i + 1, k)
  }

  /** A run of class `k` from `i` that stops at `j` ends exactly where `RunEnd` says. */
  lemma RunEndUnique(s: string, i: nat, j: nat, k: CharClass)
    requires i <= j <= |s|
    requires AllIn(s, i, j, k)
    requires j == |s| || !InClass(s[j], k)
    ensures RunEnd(s, i, k) == j
  {
  }

  predicate StartsWith(s: string, c: char) {
    |s| > 0 && s[0] == c
  }

  /** `sep` occurs in `s` at position `i`. */
  predicate OccursAt(s: string, sep: string, i: int) {
    0 <= i && i + |sep| <= |s| && s[i..i + |sep|] == sep
  }

  predicate Contains(s: string, sep: string) {
    exists j :: 0 <= j <= |s| && OccursAt(s, sep, j)
  }

  /** The first occurrence of `sep` in `s` at or after `i`. */
  function FindFrom(s: string, sep: string, i: nat): (r: Option<nat>)
    requires i <= |s|
    ensures r.Some? ==> i <= r.value && OccursAt(s, sep, r.value)
    ensures r.Some? ==> forall j :: i <= j < r.value ==> !OccursAt(s, sep, j)
    ensures r.None? ==> forall j :: i <= j ==> !OccursAt(s, sep, j)
    decreases |s| - i
  {
    if i + |sep| > |s| then None
    else if s[i..i + |sep|] == sep then Some(i)
    else FindFrom(s, sep, i + 1)
  }

  /** `s.split(sep)` for a non-empty string separator: cut at each leftmost occurrence, scanning left to right. */
  function Split(s: string, sep: string): (parts: seq<string>)
    requires |sep| > 0
    ensures |parts| >= 1
    decreases |s|
  {
    match FindFrom(s, sep, 0)
    case None => [s]
    case Some(i) => [s[..i]] + Split(s[i + |sep|..], sep)
  }

  /** A split leaves the string whole exactly when the separator does not occur in it. */
  lemma SplitWhole(s: string, sep: string)
    requires |sep| > 0
    ensures |Split(s, sep)| == 1 <==> !Contains(s, sep)
  {
    match FindFrom(s, sep, 0)
    case None =>
    case Some(i) =>
      assert |Split(s[i + |sep|..], sep)| >= 1;
  }

  /** `parts.join(sep)`. */
  function Join(parts: seq<string>, sep: string): string
    decreases |parts|
  {
    if |parts| == 0 then ""
    else if |parts| == 1 then parts[0]
    else parts[0] + sep + Join(parts[1..], sep)
  }

  lemma JoinCons(head: string, tail: seq<string>, sep: string)
    requires |tail| >= 1
    ensures Join([head] + tail, sep) == head + sep + Join(tail, sep)
  {
    assert ([head] + tail)[1..] == tail;
  }

  lemma ThreeSlices(s: string, i: nat, n: nat)
    requires i + n <= |s|
    ensures s == s[..i] + s[i..i + n] + s[i + n..]
  {
  }

  /** Joining the pieces of a split with the same separator restores the input. */
  lemma {:induction false} JoinSplit(s: string, sep: string)
    requires |sep| > 0
    ensures Join(Split(s, sep), sep) == s
    decreases |s|
  {
    var found := FindFrom(s, sep, 0);
    if found.Some? {
      var i := found.value;
      var rest := s[i + |sep|..];
      SplitAtFirst(s, sep, i);
      JoinSplit(rest, sep);
      JoinCons(s[..i], Split(rest, sep), sep);
    }
  }

  /** One step of a split: the first piece ends at the first occurrence, the rest is split again. */
  lemma SplitAtFirst(s: string, sep: string, i: nat)
    requires |sep| > 0
    requires FindFrom(s, sep, 0) == Some(i)
    ensures i + |sep| <= |s|
    ensures Split(s, sep) == [s[..i]] + Split(s[i + |sep|..], sep)
    ensures s == s[..i] + sep + s[i + |sep|..]
  {
    assert OccursAt(s, sep, i);
    ThreeSlices(s, i, |sep|);
  }

  /**
   Each piece of a split ends at the FIRST occurrence of the separator after it:
   no earlier occurrence starts inside a piece, and the last piece holds none.
   Together with `JoinSplit` this pins the split down uniquely, even for a
   separator that can overlap itself.
   */
  lemma {:induction false} SplitIsLeftmost(s: string, sep: string)
    requires |sep| > 0
    ensures var parts := Split(s, sep);
      && (forall k, j :: 0 <= k < |parts| - 1 && 0 <= j < |parts[k]| ==> !OccursAt(parts[k] + sep, sep, j))
      && !Contains(parts[|parts| - 1], sep)
    decreases |s|
  {
    var parts := Split(s, sep);
    var found := FindFrom(s, sep, 0);
    if found.None? {
      assert parts == [s];
    } else {
      var i := found.value;
      var rest := s[i + |sep|..];
      SplitIsLeftmost(rest, sep);
      var tail := Split(rest, sep);
      assert parts == [s[..i]] + tail;
      assert s[..i] + sep == s[..i + |sep|];
      forall k, j | 0 <= k < |parts| - 1 && 0 <= j < |parts[k]|
        ensures !OccursAt(parts[k] + sep, sep, j)
      {
        if k == 0 {
          assert parts[k] == s[..i];
          assert (s[..i] + sep)[j..j + |sep|] == s[j..j + |sep|];
          assert !OccursAt(s, sep, j);
        } else {
          assert parts[k] == tail[k - 1];
          assert 0 <= k - 1 < |tail| - 1;
        }
      }
      assert parts[|parts| - 1] == tail[|tail| - 1];
    }
  }

  /** The character for decimal digit `d`. */
  function DigitChar(d: nat): char
    requires d < 10
  {
    (('0' as int) + d) as char
  }

  predicate IsDigit(c: char) {
    '0' <= c <= '9'
  }

  /** The number a string of decimal digits denotes. */
  function DecimalValue(s: string): nat
    requires forall i :: 0 <= i < |s| ==> IsDigit(s[i])
    decreases |s|
  {
    if |s| == 0 then 0
    else
      assert IsDigit(s[|s| - 1]);
      10 * DecimalValue(s[..|s| - 1]) + (s[|s| - 1] as int - '0' as int)
  }

  /** The decimal text JavaScript substitutes for a non-negative integer in a template literal. */
  function NatToString(n: nat): (s: string)
    ensures |s| >= 1
    ensures forall i :: 0 <= i < |s| ==> IsDigit(s[i])
    ensures s[0] == '0' ==> |s| == 1
    ensures DecimalValue(s) == n
    decreases n
  {
    if n < 10 then [DigitChar(n)]
    else
      var init := NatToString(n / 10);
      var s := init + [DigitChar(n % 10)];
      assert s[..|s| - 1] == init;
      s
  }
}
