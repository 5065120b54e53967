/** The string operations of the source: split, partition at the first match, suffix test. */
module Text {

  /** Position of the first `c` at or after `from`, or the length. */
  function Find(s: string, c: char, from: nat := 0): (i: nat)
    requires from <= |s|
    ensures from <= i <= |s|
    ensures i < |s| ==> s[i] == c
    ensures forall k :: from <= k < i ==> s[k] != c
    decreases |s| - from
  {
    if from == |s| || s[from] == c then from else Find(s, c, from + 1)
  }

  /** All the pieces between separators; always at least one. */
  function Split(s: string, separators: set<char>): (parts: seq<string>)
    ensures |parts| > 0
  {
    if s == [] then [[]]
    else
      var rest := Split(s[1..], separators);
      if s[0] in separators then [[]] + rest
      else [[s[0]] + rest[0]] + rest[1..]
  }

  predicate EndsWith(s: string, suffix: string) {
    |suffix| <= |s| && s[|s| - |suffix|..] == suffix
  }

  /** ASCII lower case. */
  function Lower(s: string): string {
    seq(|s|, i requires 0 <= i < |s| => if 'A' <= s[i] <= 'Z' then s[i] - 'A' + 'a' else s[i])
  }

  lemma LowerKeeps(s: string)
    requires forall i :: 0 <= i < |s| ==> !('A' <= s[i] <= 'Z')
    ensures Lower(s) == s
  {
  }

  predicate Avoids(s: string, chars: set<char>) {
    forall i :: 0 <= i < |s| ==> s[i] !in chars
  }

  lemma {:induction false} SplitWhole(s: string, separators: set<char>)
    requires Avoids(s, separators)
    ensures Split(s, separators) == [s]
  {
    if s != [] {
      SplitWhole(s[1..], separators);
      assert s == [s[0]] + s[1..];
    }
  }

  /** Splitting at a separator: the part before it has none, the rest is split on. */
  lemma {:induction false} SplitAt(before: string, c: char, after: string, separators: set<char>)
    requires Avoids(before, separators) && c in separators
    ensures Split(before + [c] + after, separators) == [before] + Split(after, separators)
  {
    var s := before + [c] + after;
    if before == [] {
      assert s[1..] == after;
    } else {
      SplitAt(before[1..], c, after, separators);
      assert s[1..] == before[1..] + [c] + after;
      assert [before[0]] + before[1..] == before;
    }
  }

  /** The first piece runs to the first separator, the others come from what follows it. */
  lemma SplitFirst(s: string, c: char)
    ensures var i := Find(s, c);
      Split(s, {c}) == if i == |s| then [s] else [s[..i]] + Split(s[i + 1..], {c})
  {
    var i := Find(s, c);
    if i == |s| {
      SplitWhole(s, {c});
    } else {
      SplitAt(s[..i], c, s[i + 1..], {c});
      assert s == s[..i] + [c] + s[i + 1..];
    }
  }

  /** Two pieces are what stands before and after a single separator. */
  lemma SplitInTwo(s: string, c: char)
    requires |Split(s, {c})| == 2
    ensures var parts := Split(s, {c});
      s == parts[0] + [c] + parts[1] && c !in parts[0] && c !in parts[1]
  {
    var i := Find(s, c);
    SplitFirst(s, c);
    var rest := s[i + 1..];
    assert Split(s, {c})[1..] == Split(rest, {c});
    SplitFirst(rest, c);
    assert s == s[..i] + [c] + rest;
  }
}
