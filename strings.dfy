/**
 * The parts of Python's `str` that the modelled code uses: `in` on
 * substrings, `split` on a one-character separator, `replace`, `lower` and
 * `capitalize`. Case mapping covers the ASCII letters only.
 */
module Strings {
  import opened Values

  predicate OccursAt(s: string, sub: string, i: nat) {
    i + |sub| <= |s| && s[i..i + |sub|] == sub
  }

  /** Python's `sub in s`. */
  predicate Contains(s: string, sub: string) {
    exists i: nat | i <= |s| :: OccursAt(s, sub, i)
  }

  function LowerChar(c: char): char {
    if 'A' <= c <= 'Z' then (c as int + 32) as char else c
  }

  function UpperChar(c: char): char {
    if 'a' <= c <= 'z' then (c as int - 32) as char else c
  }

  /** Python's `s.lower()`, on ASCII letters. */
  function Lower(s: string): (r: string)
    ensures |r| == |s|
    ensures forall k :: 0 <= k < |s| ==> r[k] == LowerChar(s[k])
  {
    seq(|s|, k requires 0 <= k < |s| => LowerChar(s[k]))
  }

  /** Python's `s.capitalize()`: first character upper case, the rest lower case. */
  function Capitalize(s: string): (r: string)
    ensures |r| == |s|
    ensures |s| > 0 ==> r[0] == UpperChar(s[0]) && r[1..] == Lower(s[1..])
  {
    if s == [] then [] else [UpperChar(s[0])] + Lower(s[1..])
  }

  /** The first position from `k` on where the pattern occurs, scanning to the right. */
  function FirstOccurrence(s: string, pattern: string, k: nat): (r: Option<nat>)
    requires |pattern| > 0
    ensures r.Some? ==> k <= r.value && OccursAt(s, pattern, r.value)
    ensures r.Some? ==> forall j: nat :: k <= j < r.value ==> !OccursAt(s, pattern, j)
    ensures r.None? ==> forall j: nat :: k <= j ==> !OccursAt(s, pattern, j)
    decreases |s| - k
  {
    if k + |pattern| > |s| then None
    else if OccursAt(s, pattern, k) then Some(k)
    else FirstOccurrence(s, pattern, k + 1)
  }

  /**
   * Python's `s.replace(pattern, replacement)`: every non-overlapping
   * occurrence, scanning from the left, is replaced.
   */
  function Replace(s: string, pattern: string, replacement: string): string
    requires |pattern| > 0
    decreases |s|
  {
    var first := FirstOccurrence(s, pattern, 0);
    if first.None? then s
    else s[..first.value] + (replacement + Replace(s[first.value + |pattern|..], pattern, replacement))
  }

  /** A string without the pattern comes back unchanged. */
  lemma ReplaceAbsent(s: string, pattern: string, replacement: string)
    requires |pattern| > 0
    requires !Contains(s, pattern)
    ensures Replace(s, pattern, replacement) == s
  {
  }

  /**
   * The leftmost occurrence of the pattern is replaced and the scan goes on
   * after it: everything before it is kept as it is.
   */
  lemma ReplaceFirst(s: string, pattern: string, replacement: string, i: nat)
    requires |pattern| > 0
    requires OccursAt(s, pattern, i)
    requires forall j: nat :: j < i ==> !OccursAt(s, pattern, j)
    ensures Replace(s, pattern, replacement)
         == s[..i] + replacement + Replace(s[i + |pattern|..], pattern, replacement)
  {
    var f := FirstOccurrence(s, pattern, 0);
    assert f.None? ==> !OccursAt(s, pattern, i);
    assert f.Some? ==> !(f.value < i) && !(i < f.value);
    ReplaceAtFirst(s, pattern, replacement, i);
    ConcatAssoc(s[..i], replacement, Replace(s[i + |pattern|..], pattern, replacement));
  }

  /** `replace` at the first occurrence, grouped as its definition groups it. */
  lemma ReplaceAtFirst(s: string, pattern: string, replacement: string, i: nat)
    requires |pattern| > 0
    requires FirstOccurrence(s, pattern, 0) == Some(i)
    ensures Replace(s, pattern, replacement)
         == s[..i] + (replacement + Replace(s[i + |pattern|..], pattern, replacement))
  {
  }

  lemma ConcatAssoc(a: string, b: string, c: string)
    ensures a + b + c == a + (b + c)
  {
  }

  /** Replacing a one-character pattern by text without it removes that character. */
  lemma {:induction false} ReplaceRemovesChar(s: string, c: char, replacement: string)
    requires c !in replacement
    ensures c !in Replace(s, [c], replacement)
    decreases |s|
  {
    match FirstOccurrence(s, [c], 0)
    case None =>
      forall j | 0 <= j < |s| ensures s[j] != c {
        assert !OccursAt(s, [c], j);
        assert s[j..j + 1][0] == s[j];
      }
    case Some(i) =>
      forall j | 0 <= j < i ensures s[j] != c {
        assert !OccursAt(s, [c], j);
        assert s[j..j + 1][0] == s[j];
      }
      ReplaceRemovesChar(s[i + 1..], c, replacement);
  }

  /** The position of the first `c` in `s`. */
  function IndexOf(s: string, c: char): (r: Option<nat>)
    ensures r.Some? ==> r.value < |s| && s[r.value] == c && c !in s[..r.value]
    ensures r.None? ==> c !in s
    decreases |s|
  {
    if |s| == 0 then None
    else if s[0] == c then Some(0)
    else match IndexOf(s[1..], c)
      case None => None
      case Some(k) =>
        assert s[..k + 1] == [s[0]] + s[1..][..k];
        Some(k + 1)
  }

  lemma IndexOfIsFirst(s: string, c: char, i: nat)
    requires i < |s| && s[i] == c && c !in s[..i]
    ensures IndexOf(s, c) == Some(i)
  {
    assert forall k :: 0 <= k < i ==> s[..i][k] == s[k];
  }

  /** Python's `s.split(c)` for a one-character separator. */
  function Split(s: string, c: char): (parts: seq<string>)
    ensures |parts| >= 1
    ensures forall k :: 0 <= k < |parts| ==> c !in parts[k]
    decreases |s|
  {
    match IndexOf(s, c)
    case None => [s]
    case Some(i) => [s[..i]] + Split(s[i + 1..], c)
  }

  /** Python's `c.join(parts)`. */
  function Join(parts: seq<string>, c: char): string
    requires |parts| >= 1
  {
    if |parts| == 1 then parts[0] else parts[0] + [c] + Join(parts[1..], c)
  }

  /** Joining the parts of a split gives the string back. */
  lemma {:induction false} JoinSplit(s: string, c: char)
    ensures Join(Split(s, c), c) == s
    decreases |s|
  {
    match IndexOf(s, c)
    case None =>
    case Some(i) =>
      var rest := Split(s[i + 1..], c);
      JoinSplit(s[i + 1..], c);
      assert Split(s, c) == [s[..i]] + rest;
      assert |Split(s, c)| > 1;
      assert Split(s, c)[1..] == rest;
      assert Join(Split(s, c), c) == s[..i] + [c] + Join(rest, c);
      assert s == s[..i] + [c] + s[i + 1..];
  }

  /** Splitting joined parts that do not hold the separator gives the parts back. */
  lemma {:induction false} SplitJoin(parts: seq<string>, c: char)
    requires |parts| >= 1
    requires forall k :: 0 <= k < |parts| ==> c !in parts[k]
    ensures Split(Join(parts, c), c) == parts
    decreases |parts|
  {
    if |parts| > 1 {
      var s := Join(parts, c);
      var rest := Join(parts[1..], c);
      assert s == parts[0] + [c] + rest;
      assert s[..|parts[0]|] == parts[0];
      IndexOfIsFirst(s, c, |parts[0]|);
      assert s[|parts[0]| + 1..] == rest;
      SplitJoin(parts[1..], c);
    }
  }

  /** A character absent from the string is absent from every part of its split. */
  lemma {:induction false} SplitPartsWithout(s: string, c: char, d: char)
    requires d !in s
    ensures forall k :: 0 <= k < |Split(s, c)| ==> d !in Split(s, c)[k]
    decreases |s|
  {
    match IndexOf(s, c)
    case None =>
    case Some(i) =>
      assert forall x :: x in s[i + 1..] ==> x in s;
      assert forall x :: x in s[..i] ==> x in s;
      SplitPartsWithout(s[i + 1..], c, d);
      assert Split(s, c)[1..] == Split(s[i + 1..], c);
  }

  lemma JoinTwo(a: string, b: string, c: char)
    ensures Join([a, b], c) == a + [c] + b
  {
    assert [a, b][1..] == [b];
  }

  /** A pattern whose first character does not occur is not contained. */
  lemma AbsentFirstChar(s: string, pattern: string)
    requires |pattern| > 0 && pattern[0] !in s
    ensures !Contains(s, pattern)
  {
    forall i: nat | i <= |s| ensures !OccursAt(s, pattern, i) {
      if i + |pattern| <= |s| && i < |s| {
        assert s[i..i + |pattern|][0] == s[i];
      }
    }
  }

  /** Putting a character other than the pattern's first in front adds no occurrence. */
  lemma ConsAbsent(c: char, s: string, pattern: string)
    requires |pattern| > 0 && c != pattern[0]
    requires !Contains(s, pattern)
    ensures !Contains([c] + s, pattern)
  {
    var t := [c] + s;
    forall i: nat | i <= |t| ensures !OccursAt(t, pattern, i) {
      if i == 0 {
        if |pattern| <= |t| {
          assert t[0..|pattern|][0] == c;
        }
      } else {
        if i + |pattern| <= |t| {
          assert t[i..i + |pattern|] == s[i - 1..i - 1 + |pattern|];
        }
        assert !OccursAt(s, pattern, i - 1);
      }
    }
  }

  /** With one occurrence of a separator character, `replace` swaps exactly that one. */
  lemma ReplaceSeparator(a: string, c: char, b: string, replacement: string)
    requires c !in a && c !in b
    ensures Replace(a + [c] + b, [c], replacement) == a + replacement + b
  {
    var s := a + [c] + b;
    assert s[|a|..|a| + 1] == [c];
    forall j: nat | j < |a| ensures !OccursAt(s, [c], j) {
      assert s[j] == a[j];
      assert a[j] in a;
      assert s[j..j + 1][0] == s[j];
    }
    ReplaceFirst(s, [c], replacement, |a|);
    assert s[..|a|] == a;
    assert s[|a| + 1..] == b;
    AbsentFirstChar(b, [c]);
    ReplaceAbsent(b, [c], replacement);
  }
}
