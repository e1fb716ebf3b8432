/** Text operations with the meaning Python's `str` methods give them. */
module Strings {

  predicate StartsWith(s: string, prefix: string) {
    |prefix| <= |s| && s[..|prefix|] == prefix
  }

  predicate EndsWith(s: string, suffix: string) {
    |suffix| <= |s| && s[|s| - |suffix|..] == suffix
  }

  /** `pattern` occurs in `s` starting at index `i`. */
  predicate OccursAt(s: string, pattern: string, i: int) {
    0 <= i && i + |pattern| <= |s| && s[i..i + |pattern|] == pattern
  }

  /** Python's `pattern in s`. */
  predicate Contains(s: string, pattern: string) {
    exists i | 0 <= i <= |s| :: OccursAt(s, pattern, i)
  }

  /** `s.replace(target, replacement)` for a non-empty `target`: occurrences are found
      from the left and do not overlap. */
  function Replace(s: string, target: string, replacement: string): string
    requires target != []
    decreases |s|
  {
    if |s| < |target| then s
    else if s[..|target|] == target then replacement + Replace(s[|target|..], target, replacement)
    else [s[0]] + Replace(s[1..], target, replacement)
  }

  /** A prefix in which no occurrence of the target starts passes through `Replace` untouched. */
  lemma {:induction false} ReplaceSkipsPrefix(a: string, b: string, target: string, replacement: string)
    requires target != []
    requires forall i :: 0 <= i < |a| ==> !OccursAt(a + b, target, i)
    ensures Replace(a + b, target, replacement) == a + Replace(b, target, replacement)
    decreases |a|
  {
    var s := a + b;
    if a == [] {
      assert s == b;
    } else if |s| < |target| {
      assert Replace(b, target, replacement) == b;
    } else {
      assert !OccursAt(s, target, 0);
      assert s[1..] == a[1..] + b;
      forall i | 0 <= i < |a[1..]|
        ensures !OccursAt(a[1..] + b, target, i)
      {
        if OccursAt(a[1..] + b, target, i) {
          assert s[i + 1..i + 1 + |target|] == (a[1..] + b)[i..i + |target|];
          assert OccursAt(s, target, i + 1);
        }
      }
      ReplaceSkipsPrefix(a[1..], b, target, replacement);
    }
  }

  /** A string without the target is left unchanged. */
  lemma ReplaceAbsent(s: string, target: string, replacement: string)
    requires target != []
    requires !Contains(s, target)
    ensures Replace(s, target, replacement) == s
  {
    assert s + [] == s;
    ReplaceSkipsPrefix(s, [], target, replacement);
  }

  /** An occurrence at the very front is replaced and scanning resumes after it. */
  lemma ReplaceFront(target: string, rest: string, replacement: string)
    requires target != []
    ensures Replace(target + rest, target, replacement) == replacement + Replace(rest, target, replacement)
  {
    var s := target + rest;
    assert s[..|target|] == target;
    assert s[|target|..] == rest;
  }

  /** Replacing a single character acts on each part of a concatenation separately. */
  lemma {:induction false} ReplaceCharSplits(a: string, b: string, c: char, replacement: string)
    ensures Replace(a + b, [c], replacement) == Replace(a, [c], replacement) + Replace(b, [c], replacement)
    decreases |a|
  {
    if a == [] {
      assert a + b == b;
    } else {
      var s := a + b;
      assert s[1..] == a[1..] + b;
      assert s[..1] == [s[0]];
      assert a[..1] == [a[0]];
      ReplaceCharSplits(a[1..], b, c, replacement);
    }
  }

  /** Replacing a character that does not occur changes nothing. */
  lemma {:induction false} ReplaceCharAbsent(s: string, c: char, replacement: string)
    requires c !in s
    ensures Replace(s, [c], replacement) == s
    decreases |s|
  {
    if s != [] {
      assert s[..1] == [s[0]];
      ReplaceCharAbsent(s[1..], c, replacement);
    }
  }

  /** Replacing `c` in `a + [c] + tail` when `tail` has no `c`: the marked text of `a`, then
      the replacement for the separating `c`, then `tail` as it was. */
  lemma ReplaceCharBeforeTail(a: string, c: char, tail: string, replacement: string)
    requires c !in tail
    ensures Replace(a + [c] + tail, [c], replacement) == Replace(a, [c], replacement) + replacement + tail
  {
    assert Replace([c], [c], replacement) == replacement by {
      ReplaceFront([c], [], replacement);
      assert [c] + [] == [c];
    }
    assert Replace([c] + tail, [c], replacement) == replacement + tail by {
      ReplaceCharSplits([c], tail, c, replacement);
      ReplaceCharAbsent(tail, c, replacement);
    }
    assert a + [c] + tail == a + ([c] + tail);
    ReplaceCharSplits(a, [c] + tail, c, replacement);
  }

  /** Every character of a part of a string occurs in the whole. */
  lemma CharsOfPart(a: string, b: string, c: char)
    requires c !in a + b
    ensures c !in a && c !in b
  {
  }

  /** Python's `a <= b` on strings: lexicographic on code points. */
  predicate LessEq(a: string, b: string)
    decreases |a|
  {
    a == [] || (b != [] && (a[0] < b[0] || (a[0] == b[0] && LessEq(a[1..], b[1..]))))
  }

  lemma {:induction false} LessEqReflexive(a: string)
    ensures LessEq(a, a)
    decreases |a|
  {
    if a != [] {
      LessEqReflexive(a[1..]);
    }
  }

  lemma {:induction false} LessEqTotal(a: string, b: string)
    ensures LessEq(a, b) || LessEq(b, a)
    decreases |a|
  {
    if a != [] && b != [] && a[0] == b[0] {
      LessEqTotal(a[1..], b[1..]);
    }
  }

  lemma {:induction false} LessEqTransitive(a: string, b: string, c: string)
    requires LessEq(a, b) && LessEq(b, c)
    ensures LessEq(a, c)
    decreases |a|
  {
    if a != [] && a[0] == b[0] && b[0] == c[0] {
      LessEqTransitive(a[1..], b[1..], c[1..]);
    }
  }

  /** Python's `s.split(sep)`: the pieces between separators, empty ones included. */
  function Split(s: string, sep: char): (parts: seq<string>)
    ensures |parts| >= 1
    decreases |s|
  {
    if s == [] then [[]]
    else
      var init := Split(s[..|s| - 1], sep);
      if s[|s| - 1] == sep then init + [[]]
      else init[..|init| - 1] + [init[|init| - 1] + [s[|s| - 1]]]
  }

  /** The last piece of a split is everything after the last separator. */
  lemma {:induction false} SplitLast(s: string, sep: char)
    ensures var parts := Split(s, sep);
            parts[|parts| - 1] == s[LastIndex(s, sep) + 1..]
    decreases |s|
  {
    if s != [] && s[|s| - 1] != sep {
      SplitLast(s[..|s| - 1], sep);
    }
  }

  /** Index of the last `c` in `s`, or -1 when there is none. */
  function LastIndex(s: string, c: char): (i: int)
    ensures -1 <= i < |s|
    ensures i >= 0 ==> s[i] == c
    ensures forall j :: i < j < |s| ==> s[j] != c
    decreases |s|
  {
    if s == [] then -1
    else if s[|s| - 1] == c then |s| - 1
    else LastIndex(s[..|s| - 1], c)
  }
}
