/** The `java.lang.String` operations that Tinkey's helpers rely on. A string
    is a sequence of Dafny `char`s, which are Unicode scalar values rather than
    Java's UTF-16 code units, so positions count code points. */
module JavaStrings {

  /** `t` occurs in `s` starting at position `i`. */
  predicate OccursAt(s: string, t: string, i: nat) {
    i + |t| <= |s| && s[i..i + |t|] == t
  }

  ghost predicate Contains(s: string, t: string) {
    exists i: nat :: OccursAt(s, t, i)
  }

  /** `s.endsWith(suffix)` */
  predicate EndsWith(s: string, suffix: string) {
    |suffix| <= |s| && s[|s| - |suffix|..] == suffix
  }

  /** A string ends with a suffix exactly when the suffix's chars are its
      last chars, in order. */
  lemma EndsWithCharwise(s: string, suffix: string)
    ensures EndsWith(s, suffix) <==>
              |suffix| <= |s| && forall k :: 0 <= k < |suffix| ==> suffix[k] == s[|s| - |suffix| + k]
  {
  }

  /** `s.lastIndexOf(c)`: the position of the last `c` in `s`, or -1. */
  function LastIndexOf(s: string, c: char): (r: int)
    ensures -1 <= r < |s|
    ensures r >= 0 ==> s[r] == c
    ensures forall j :: r < j < |s| ==> s[j] != c
  {
    if |s| == 0 then -1
    else if s[|s| - 1] == c then |s| - 1
    else LastIndexOf(s[..|s| - 1], c)
  }

  /** `s.indexOf(t, from)` for a non-empty `t`: the first occurrence at or
      after `from`, or -1. */
  function IndexOf(s: string, t: string, from: nat): (r: int)
    requires t != []
    ensures r == -1 || from <= r
    ensures r >= 0 ==> OccursAt(s, t, r)
    decreases |s| - from
  {
    if from + |t| > |s| then -1
    else if OccursAt(s, t, from) then from
    else IndexOf(s, t, from + 1)
  }

  /** indexOf finds the first occurrence: none starts between `from` and the
      result, nor anywhere from `from` on when the result is -1. */
  lemma {:induction false} IndexOfIsFirst(s: string, t: string, from: nat, i: nat)
    requires t != [] && from <= i
    requires IndexOf(s, t, from) == -1 || i < IndexOf(s, t, from)
    ensures !OccursAt(s, t, i)
    decreases |s| - from
  {
    if from + |t| <= |s| && !OccursAt(s, t, from) && from < i {
      IndexOfIsFirst(s, t, from + 1, i);
    }
  }

  /** Character.toLowerCase on the ASCII letters; every other char is kept. */
  function ToLowerChar(c: char): char {
    if 'A' <= c <= 'Z' then (c as int + 32) as char else c
  }

  /** `s.toLowerCase()`, char by char. */
  function ToLowerCase(s: string): (r: string)
    ensures |r| == |s|
    ensures forall i :: 0 <= i < |s| ==> r[i] == ToLowerChar(s[i])
  {
    if s == [] then [] else [ToLowerChar(s[0])] + ToLowerCase(s[1..])
  }

  /** Lower-casing works char by char, so it distributes over concatenation. */
  lemma ToLowerCaseAppend(a: string, b: string)
    ensures ToLowerCase(a + b) == ToLowerCase(a) + ToLowerCase(b)
  {
    assert forall i :: 0 <= i < |a| + |b| ==> (a + b)[i] == if i < |a| then a[i] else b[i - |a|];
  }

  /** `s.replace(target, replacement)`: one left-to-right pass that replaces
      each occurrence of `target` and resumes scanning after it, so
      occurrences never overlap and text produced by a replacement is never
      scanned again. An empty `target` matches before every char and at the
      end. */
  function Replace(s: string, target: string, replacement: string): (r: string)
    ensures target != [] && |replacement| <= |target| ==> |r| <= |s|
    ensures |target| <= |replacement| ==> |s| <= |r|
  {
    if target == [] then InsertEverywhere(s, replacement)
    else ReplaceFrom(s, target, replacement, 0)
  }

  /** The pass of `Replace` from position `i` on. */
  function ReplaceFrom(s: string, target: string, replacement: string, i: nat): (r: string)
    requires target != [] && i <= |s|
    ensures |replacement| <= |target| ==> |r| <= |s| - i
    ensures |target| <= |replacement| ==> |s| - i <= |r|
    decreases |s| - i
  {
    if |s| < i + |target| then s[i..]
    else if OccursAt(s, target, i) then replacement + ReplaceFrom(s, target, replacement, i + |target|)
    else [s[i]] + ReplaceFrom(s, target, replacement, i + 1)
  }

  /** The empty-target case of `replace`: the replacement goes before every
      char and once more at the end. */
  function InsertEverywhere(s: string, replacement: string): (r: string)
    ensures |r| == |s| + (|s| + 1) * |replacement|
    ensures r[..|replacement|] == replacement
    ensures r[|r| - |replacement|..] == replacement
  {
    if s == [] then replacement
    else replacement + [s[0]] + InsertEverywhere(s[1..], replacement)
  }

  /** The same replacement written the way the JDK's loop does it: from
      position 0, search for the next occurrence with indexOf, copy what
      precedes it, emit the replacement and resume after the occurrence;
      when none is left, copy the rest. */
  function ReplaceByIndexOf(s: string, target: string, replacement: string): string
    requires target != []
  {
    ReplaceByIndexOfFrom(s, target, replacement, 0)
  }

  function ReplaceByIndexOfFrom(s: string, target: string, replacement: string, from: nat): string
    requires target != [] && from <= |s|
    decreases |s| - from
  {
    var j := IndexOf(s, target, from);
    if j < 0 then s[from..]
    else s[from..j] + replacement + ReplaceByIndexOfFrom(s, target, replacement, j + |target|)
  }

  /** Lower-casing twice is lower-casing once. */
  lemma ToLowerCaseIdempotent(s: string)
    ensures ToLowerCase(ToLowerCase(s)) == ToLowerCase(s)
  {
    var once := ToLowerCase(s);
    assert forall i :: 0 <= i < |s| ==> ToLowerChar(once[i]) == once[i];
  }

  /** Occurrences in the second part of a concatenation are occurrences in
      the whole, shifted by the length of the first part. */
  lemma OccursInSecond(p: string, q: string, t: string, i: nat)
    ensures OccursAt(p + q, t, |p| + i) == OccursAt(q, t, i)
  {
    if i + |t| <= |q| {
      assert (p + q)[|p| + i..|p| + i + |t|] == q[i..i + |t|];
    }
  }

  /** Where no occurrence starts from `i` on, the pass copies the rest. */
  lemma {:induction false} ReplaceFromWithoutOccurrence(s: string, target: string, replacement: string, i: nat)
    requires target != [] && i <= |s|
    requires forall k: nat :: i <= k ==> !OccursAt(s, target, k)
    ensures ReplaceFrom(s, target, replacement, i) == s[i..]
    decreases |s| - i
  {
    if i + |target| <= |s| {
      ReplaceFromWithoutOccurrence(s, target, replacement, i + 1);
      assert s[i..] == [s[i]] + s[i + 1..];
    }
  }

  /** A string without any occurrence of the target is left unchanged. */
  lemma ReplaceWithoutOccurrence(s: string, target: string, replacement: string)
    requires target != []
    requires forall i: nat :: !OccursAt(s, target, i)
    ensures Replace(s, target, replacement) == s
  {
    ReplaceFromWithoutOccurrence(s, target, replacement, 0);
    assert s[0..] == s;
  }

  /** The pass copies a stretch in which no occurrence starts. */
  lemma {:induction false} ReplaceFromSkips(s: string, target: string, replacement: string, i: nat, k: nat)
    requires target != [] && i <= k <= |s|
    requires forall m: nat :: i <= m < k ==> !OccursAt(s, target, m)
    ensures ReplaceFrom(s, target, replacement, i) == s[i..k] + ReplaceFrom(s, target, replacement, k)
    decreases k - i
  {
    if i < k {
      if |s| < i + |target| {
        assert s[i..] == s[i..k] + s[k..];
      } else {
        var rest := ReplaceFrom(s, target, replacement, k);
        ReplaceFromSkips(s, target, replacement, i + 1, k);
        assert s[i..k] == [s[i]] + s[i + 1..k];
        ConcatAssociative([s[i]], s[i + 1..k], rest);
      }
    }
  }

  lemma ConcatAssociative(a: string, b: string, c: string)
    ensures a + (b + c) == a + b + c
  {
  }

  /** The pass copies up to the first occurrence at or after `i`, emits the
      replacement and resumes right after the occurrence. */
  lemma ReplaceFromAtFirst(s: string, target: string, replacement: string, i: nat, k: nat)
    requires target != [] && i <= k && OccursAt(s, target, k)
    requires forall m: nat :: i <= m < k ==> !OccursAt(s, target, m)
    ensures ReplaceFrom(s, target, replacement, i)
            == s[i..k] + replacement + ReplaceFrom(s, target, replacement, k + |target|)
  {
    ReplaceFromSkips(s, target, replacement, i, k);
    ConcatAssociative(s[i..k], replacement, ReplaceFrom(s, target, replacement, k + |target|));
  }

  /** When the target occurs once, after a stretch in which no occurrence
      starts, the pass replaces that one occurrence and copies the rest. */
  lemma ReplaceSingleOccurrence(prefix: string, target: string, after: string, replacement: string)
    requires target != []
    requires forall i: nat :: i < |prefix| ==> !OccursAt(prefix + target + after, target, i)
    requires forall i: nat :: !OccursAt(after, target, i)
    ensures Replace(prefix + target + after, target, replacement) == prefix + replacement + after
  {
    var s := prefix + target + after;
    var k := |prefix|;
    assert s[k..k + |target|] == target;
    assert s[..k] == prefix && s[k + |target|..] == after;
    NoneInSecond(prefix + target, after, target);
    ReplaceOnlyOccurrence(s, target, replacement, k);
  }

  /** With a single occurrence at `k`, the pass copies what precedes it,
      emits the replacement and copies what follows. */
  lemma ReplaceOnlyOccurrence(s: string, target: string, replacement: string, k: nat)
    requires target != [] && OccursAt(s, target, k)
    requires forall m: nat :: m < k ==> !OccursAt(s, target, m)
    requires forall m: nat :: k + |target| <= m ==> !OccursAt(s, target, m)
    ensures Replace(s, target, replacement) == s[..k] + replacement + s[k + |target|..]
  {
    var resume := k + |target|;
    var rest := ReplaceFrom(s, target, replacement, resume);
    assert ReplaceFrom(s, target, replacement, 0) == s[0..k] + replacement + rest by {
      ReplaceFromAtFirst(s, target, replacement, 0, k);
    }
    assert rest == s[resume..] by {
      ReplaceFromWithoutOccurrence(s, target, replacement, resume);
    }
    assert s[0..k] == s[..k];
  }

  /** A second part without occurrences adds none to a concatenation. */
  lemma NoneInSecond(p: string, q: string, t: string)
    requires forall i: nat :: !OccursAt(q, t, i)
    ensures forall m: nat :: |p| <= m ==> !OccursAt(p + q, t, m)
  {
    forall m: nat | |p| <= m ensures !OccursAt(p + q, t, m) {
      OccursInSecond(p, q, t, m - |p|);
    }
  }

  /** One mismatching char rules out an occurrence. */
  lemma MismatchMeansNoOccurrence(s: string, target: string, i: nat, d: nat)
    requires d < |target| && i + d < |s| && s[i + d] != target[d]
    ensures !OccursAt(s, target, i)
  {
    if i + |target| <= |s| {
      assert s[i..i + |target|][d] == s[i + d];
    }
  }

  /** No occurrence can start where the target's first char is absent. */
  lemma NoOccurrenceWithoutFirstChar(s: string, target: string, k: nat)
    requires target != []
    requires forall i :: 0 <= i < k && i < |s| ==> s[i] != target[0]
    ensures forall i: nat :: i < k ==> !OccursAt(s, target, i)
  {
    forall i: nat | i < k ensures !OccursAt(s, target, i) {
      if i + |target| <= |s| {
        assert s[i..i + |target|][0] == s[i];
      }
    }
  }

  /** The pass and the indexOf loop agree on what follows `from`. */
  lemma {:induction false} ReplaceMatchesIndexOfLoopFrom(s: string, target: string, replacement: string, from: nat)
    requires target != [] && from <= |s|
    ensures ReplaceFrom(s, target, replacement, from) == ReplaceByIndexOfFrom(s, target, replacement, from)
    decreases |s| - from
  {
    var j := IndexOf(s, target, from);
    if j < 0 {
      ReplaceFromWithoutIndexOf(s, target, replacement, from);
    } else {
      var resume := j + |target|;
      calc {
        ReplaceFrom(s, target, replacement, from);
        { ReplaceFromAtIndexOf(s, target, replacement, from); }
        s[from..j] + replacement + ReplaceFrom(s, target, replacement, resume);
        { ReplaceMatchesIndexOfLoopFrom(s, target, replacement, resume); }
        s[from..j] + replacement + ReplaceByIndexOfFrom(s, target, replacement, resume);
        { ReplaceFromAtIndexOf(s, target, replacement, from); }
        ReplaceByIndexOfFrom(s, target, replacement, from);
      }
    }
  }

  /** Where indexOf finds nothing, both the pass and the loop copy the rest. */
  lemma ReplaceFromWithoutIndexOf(s: string, target: string, replacement: string, from: nat)
    requires target != [] && from <= |s| && IndexOf(s, target, from) < 0
    ensures ReplaceFrom(s, target, replacement, from) == s[from..]
    ensures ReplaceByIndexOfFrom(s, target, replacement, from) == s[from..]
  {
    NoneFromIndexOf(s, target, from);
    ReplaceFromWithoutOccurrence(s, target, replacement, from);
  }

  /** Where indexOf finds the target, the pass and the loop both copy what
      precedes it, emit the replacement and resume after it. */
  lemma ReplaceFromAtIndexOf(s: string, target: string, replacement: string, from: nat)
    requires target != [] && from <= |s| && IndexOf(s, target, from) >= 0
    ensures var j := IndexOf(s, target, from);
            ReplaceFrom(s, target, replacement, from)
            == s[from..j] + replacement + ReplaceFrom(s, target, replacement, j + |target|)
    ensures var j := IndexOf(s, target, from);
            ReplaceByIndexOfFrom(s, target, replacement, from)
            == s[from..j] + replacement + ReplaceByIndexOfFrom(s, target, replacement, j + |target|)
  {
    var j := IndexOf(s, target, from);
    NoneBeforeIndexOf(s, target, from, j);
    ReplaceFromAtFirst(s, target, replacement, from, j);
  }

  /** When indexOf finds nothing, no occurrence starts from `from` on. */
  lemma NoneFromIndexOf(s: string, target: string, from: nat)
    requires target != [] && IndexOf(s, target, from) < 0
    ensures forall k: nat :: from <= k ==> !OccursAt(s, target, k)
  {
    forall k: nat | from <= k ensures !OccursAt(s, target, k) {
      IndexOfIsFirst(s, target, from, k);
    }
  }

  /** No occurrence starts between `from` and what indexOf finds. */
  lemma NoneBeforeIndexOf(s: string, target: string, from: nat, j: nat)
    requires target != [] && j == IndexOf(s, target, from)
    ensures forall m: nat :: from <= m < j ==> !OccursAt(s, target, m)
  {
    forall m: nat | from <= m < j ensures !OccursAt(s, target, m) {
      IndexOfIsFirst(s, target, from, m);
    }
  }

  /** The single-pass scan agrees with the indexOf loop on every input. */
  lemma ReplaceMatchesIndexOfLoop(s: string, target: string, replacement: string)
    requires target != []
    ensures Replace(s, target, replacement) == ReplaceByIndexOf(s, target, replacement)
  {
    ReplaceMatchesIndexOfLoopFrom(s, target, replacement, 0);
  }
}
