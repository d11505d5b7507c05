/** The Python `str` operations the build rules of native-build.py rely on:
    `split` on one character, `find(...) != -1`, `lower`, `startswith` and
    one-character `replace`. */
module Strings {

  // ---------------------------------------------------------------------------
  // Searching
  // ---------------------------------------------------------------------------

  /** `sub` occurs in `s` starting at `i`. */
  predicate OccursAt(s: string, sub: string, i: int)
  {
    0 <= i && i + |sub| <= |s| && s[i..i + |sub|] == sub
  }

  /** `sub in s`. */
  predicate Contains(s: string, sub: string)
  {
    exists i :: 0 <= i <= |s| - |sub| && OccursAt(s, sub, i)
  }

  /** `s.find(sub, i)`: the first occurrence at or after `i`, or `-1`. */
  function FindFrom(s: string, sub: string, i: nat): (r: int)
    requires i <= |s|
    ensures r == -1 || (i <= r && OccursAt(s, sub, r))
    ensures r == -1 ==> forall k :: i <= k <= |s| - |sub| ==> !OccursAt(s, sub, k)
    ensures r != -1 ==> forall k :: i <= k < r ==> !OccursAt(s, sub, k)
    decreases |s| - i
  {
    if i + |sub| > |s| then -1
    else if s[i..i + |sub|] == sub then i
    else if i == |s| then -1
    else FindFrom(s, sub, i + 1)
  }

  /** `s.find(sub)`: the index of the first occurrence, `-1` when there is none. */
  function Find(s: string, sub: string): (r: int)
    ensures r == -1 || OccursAt(s, sub, r)
    ensures r != -1 ==> forall k :: 0 <= k < r ==> !OccursAt(s, sub, k)
  {
    FindFrom(s, sub, 0)
  }

  /** `s.find(sub) != -1` is exactly `sub in s`. */
  lemma FindFindsOccurrence(s: string, sub: string)
    ensures Find(s, sub) != -1 <==> Contains(s, sub)
  {
    if Find(s, sub) != -1 {
      assert OccursAt(s, sub, Find(s, sub));
    }
  }

  /** `word` found at `i` in the lower-cased text, character by character. */
  lemma FoundInLower(s: string, word: string, i: nat)
    requires i + |word| <= |s|
    requires forall k :: 0 <= k < |word| ==> LowerChar(s[i + k]) == word[k]
    ensures Find(Lower(s), word) != -1
  {
    assert Lower(s)[i..i + |word|] == word;
    assert OccursAt(Lower(s), word, i);
    FindFindsOccurrence(Lower(s), word);
  }

  /** `word` is not found when one of its characters appears nowhere in the lower-cased text. */
  lemma MissingFromLower(s: string, word: string, k: nat)
    requires k < |word|
    requires forall i :: 0 <= i < |s| ==> LowerChar(s[i]) != word[k]
    ensures Find(Lower(s), word) == -1
  {
    forall i | 0 <= i <= |Lower(s)| - |word| ensures !OccursAt(Lower(s), word, i) {
      assert Lower(s)[i + k] != word[k];
      assert Lower(s)[i..i + |word|][k] == Lower(s)[i + k];
    }
    FindFindsOccurrence(Lower(s), word);
  }

  /** `s.startswith(prefix)`. */
  predicate StartsWith(s: string, prefix: string)
  {
    |prefix| <= |s| && s[..|prefix|] == prefix
  }

  // ---------------------------------------------------------------------------
  // Case and replacement
  // ---------------------------------------------------------------------------

  /** The lower-case form of one character (ASCII letters only). */
  function LowerChar(c: char): (d: char)
    ensures 'A' <= c <= 'Z' ==> 'a' <= d <= 'z'
    ensures 'A' <= c <= 'Z' ==> d as int - 'a' as int == c as int - 'A' as int
    ensures !('A' <= c <= 'Z') ==> d == c
    ensures !('A' <= d <= 'Z')
  {
    if 'A' <= c <= 'Z' then (c as int - 'A' as int + 'a' as int) as char else c
  }

  /** `s.lower()` on ASCII letters. */
  function Lower(s: string): (r: string)
    ensures |r| == |s|
    ensures forall i :: 0 <= i < |s| ==> r[i] == LowerChar(s[i])
  {
    seq(|s|, i requires 0 <= i < |s| => LowerChar(s[i]))
  }

  /** Lower-casing twice changes nothing more, and a lower-case text is its own lower form. */
  lemma LowerIdempotent(s: string)
    ensures Lower(Lower(s)) == Lower(s)
    ensures (forall i :: 0 <= i < |s| ==> !('A' <= s[i] <= 'Z')) ==> Lower(s) == s
  {
  }

  /** `s.replace(a, b)` for one-character `a` and `b`. */
  function ReplaceChar(s: string, a: char, b: char): (r: string)
    ensures |r| == |s|
    ensures forall i :: 0 <= i < |s| ==> r[i] == (if s[i] == a then b else s[i])
  {
    seq(|s|, i requires 0 <= i < |s| => if s[i] == a then b else s[i])
  }

  /** After replacing `a` by a different character, `a` no longer occurs;
      replacing it back restores every position that did not already hold `b`. */
  lemma ReplaceCharRemoves(s: string, a: char, b: char)
    requires a != b
    ensures forall i :: 0 <= i < |s| ==> ReplaceChar(s, a, b)[i] != a
    ensures (forall i :: 0 <= i < |s| ==> s[i] != b) ==> ReplaceChar(ReplaceChar(s, a, b), b, a) == s
  {
  }

  // ---------------------------------------------------------------------------
  // split on one character
  // ---------------------------------------------------------------------------

  /** The index of the first `c` in `s`, or `|s|` when there is none. */
  function IndexOf(s: string, c: char): (i: nat)
    ensures i <= |s|
    ensures i < |s| ==> s[i] == c
    ensures forall k :: 0 <= k < i ==> s[k] != c
  {
    if s == [] then 0
    else if s[0] == c then 0
    else 1 + IndexOf(s[1..], c)
  }

  /** The first `c` is at `i` (or there is none, when `i == |s|`). */
  lemma IndexOfIs(s: string, c: char, i: nat)
    requires i <= |s| && (i < |s| ==> s[i] == c)
    requires forall k :: 0 <= k < i ==> s[k] != c
    ensures IndexOf(s, c) == i
  {
  }

  /** `s.split(sep)` for a one-character separator: the pieces between the
      separators, empty ones included; there is always at least one piece. */
  function Split(s: string, sep: char): (parts: seq<string>)
    ensures |parts| >= 1
    ensures forall i, j :: 0 <= i < |parts| && 0 <= j < |parts[i]| ==> parts[i][j] != sep
    decreases |s|
  {
    var i := IndexOf(s, sep);
    if i == |s| then [s] else [s[..i]] + Split(s[i + 1..], sep)
  }

  /** `sep.join(parts)`. */
  function Join(parts: seq<string>, sep: char): string
  {
    if parts == [] then ""
    else if |parts| == 1 then parts[0]
    else parts[0] + [sep] + Join(parts[1..], sep)
  }

  /** Joining the pieces of a split gives the text back. */
  lemma {:induction false} JoinSplit(s: string, sep: char)
    ensures Join(Split(s, sep), sep) == s
    decreases |s|
  {
    var i := IndexOf(s, sep);
    if i < |s| {
      var rest := s[i + 1..];
      var parts := Split(s, sep);
      assert parts == [s[..i]] + Split(rest, sep);
      assert parts[1..] == Split(rest, sep);
      assert Join(parts, sep) == s[..i] + [sep] + Join(Split(rest, sep), sep);
      JoinSplit(rest, sep);
      assert s == s[..i] + [sep] + rest;
    }
  }

  /** Splitting a join of separator-free pieces gives the pieces back. */
  lemma {:induction false} SplitJoin(parts: seq<string>, sep: char)
    requires |parts| >= 1
    requires forall i, j :: 0 <= i < |parts| && 0 <= j < |parts[i]| ==> parts[i][j] != sep
    ensures Split(Join(parts, sep), sep) == parts
    decreases |parts|
  {
    var s := Join(parts, sep);
    if |parts| == 1 {
      assert IndexOf(s, sep) == |s|;
    } else {
      var head := parts[0];
      assert s == head + [sep] + Join(parts[1..], sep);
      assert s[|head|] == sep;
      assert IndexOf(s, sep) == |head|;
      assert s[..|head|] == head;
      assert s[|head| + 1..] == Join(parts[1..], sep);
      SplitJoin(parts[1..], sep);
      assert parts == [head] + parts[1..];
    }
  }

  /** The second piece of a split is the text between the first separator
      and the next one (or the end). */
  lemma SplitSecond(s: string, sep: char)
    ensures var i := IndexOf(s, sep);
            |Split(s, sep)| > 1 <==> i < |s|
    ensures var i := IndexOf(s, sep);
            i < |s| ==> Split(s, sep)[1] == s[i + 1..][..IndexOf(s[i + 1..], sep)]
  {
    var i := IndexOf(s, sep);
    if i < |s| {
      var rest := s[i + 1..];
      assert Split(s, sep) == [s[..i]] + Split(rest, sep);
      SplitFirst(rest, sep);
    }
  }

  /** The first piece of a split is the text up to the first separator. */
  lemma SplitFirst(s: string, sep: char)
    ensures Split(s, sep)[0] == s[..IndexOf(s, sep)]
  {
    if IndexOf(s, sep) == |s| {
      assert s[..|s|] == s;
    }
  }

  /** The second piece of a split, from where the first two separators are. */
  lemma SplitSecondIs(s: string, sep: char, i: nat, j: nat)
    requires i < |s| && s[i] == sep && forall k :: 0 <= k < i ==> s[k] != sep
    requires i + 1 + j <= |s| && (i + 1 + j < |s| ==> s[i + 1 + j] == sep)
    requires forall k :: i + 1 <= k < i + 1 + j ==> s[k] != sep
    ensures |Split(s, sep)| > 1 && Split(s, sep)[1] == s[i + 1..i + 1 + j]
  {
    IndexOfIs(s, sep, i);
    IndexOfIs(s[i + 1..], sep, j);
    SplitSecond(s, sep);
  }
}
