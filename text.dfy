/**
 * The string operations the solver front end is built from: Python's
 * str.strip / str.split / str.replace / str.join and JavaScript's trim,
 * split and join, over Dafny strings (sequences of characters).
 */
module Text {

  /** The ASCII whitespace characters, the space and the five control
      characters from tab (9) to carriage return (13); both Python's
      str.strip() and JavaScript's String.prototype.trim() remove them. */
  predicate IsSpace(c: char) {
    c == ' ' || '\t' <= c <= '\r'
  }

  predicate AllSpace(s: string) {
    forall i :: 0 <= i < |s| ==> IsSpace(s[i])
  }

  /** Neither starts nor ends with whitespace. */
  predicate IsTrimmed(s: string) {
    s == [] || (!IsSpace(s[0]) && !IsSpace(s[|s| - 1]))
  }

  /** The end of the run of whitespace that starts at index i of s. */
  function SpaceRunEnd(s: string, i: nat): (j: nat)
    requires i <= |s|
    ensures i <= j <= |s|
    ensures forall k :: i <= k < j ==> IsSpace(s[k])
    ensures j < |s| ==> !IsSpace(s[j])
    decreases |s| - i
  {
    if i < |s| && IsSpace(s[i]) then SpaceRunEnd(s, i + 1) else i
  }

  /** The start of the run of whitespace that ends at index j of s, not
      reaching below index lo. */
  function SpaceRunStart(s: string, lo: nat, j: nat): (i: nat)
    requires lo <= j <= |s|
    ensures lo <= i <= j
    ensures forall k :: i <= k < j ==> IsSpace(s[k])
    ensures i > lo ==> !IsSpace(s[i - 1])
    decreases j - lo
  {
    if j > lo && IsSpace(s[j - 1]) then SpaceRunStart(s, lo, j - 1) else j
  }

  /** Where the stripped window of s starts: after its leading whitespace. */
  function StripStart(s: string): nat {
    SpaceRunEnd(s, 0)
  }

  /** Where the stripped window of s ends: before its trailing whitespace,
      and never before the window starts. */
  function StripEnd(s: string): nat {
    SpaceRunStart(s, StripStart(s), |s|)
  }

  /** Python's str.strip() with no argument, JavaScript's trim(): the window
      of s left after removing its leading and trailing whitespace. */
  function Strip(s: string): (r: string)
    ensures IsTrimmed(r)
  {
    s[StripStart(s)..StripEnd(s)]
  }

  /** Stripping is characterised by its window: whenever s is whitespace,
      then a trimmed r, then whitespace, Strip(s) is that r. */
  lemma StripUnique(s: string, w1: string, r: string, w2: string)
    requires s == w1 + r + w2
    requires AllSpace(w1) && AllSpace(w2) && IsTrimmed(r)
    ensures Strip(s) == r
  {
    var lo, hi := StripStart(s), StripEnd(s);
    assert forall k :: 0 <= k < |w1| ==> s[k] == w1[k];
    assert forall k :: |w1| + |r| <= k < |s| ==> s[k] == w2[k - |w1| - |r|];
    if r == [] {
      assert lo == |s|;
    } else {
      assert s[|w1|] == r[0];
      assert lo == |w1|;
      assert s[|w1| + |r| - 1] == r[|r| - 1];
      assert hi == |w1| + |r|;
      assert forall k :: 0 <= k < |r| ==> s[lo..hi][k] == r[k];
    }
  }

  /** Stripping twice strips no more. */
  lemma StripIdempotent(s: string)
    ensures Strip(Strip(s)) == Strip(s)
  {
    var r := Strip(s);
    assert r == [] + r + [];
    StripUnique(r, [], r, []);
  }

  /** Every character of Strip(s) is a character of s. */
  lemma StripChars(s: string, c: char)
    requires c !in s
    ensures c !in Strip(s)
  {
  }

  // ---------------------------------------------------------------------
  // Searching

  /** sep occurs in s at index i. */
  predicate OccursAt(s: string, sep: string, i: nat) {
    i + |sep| <= |s| && s[i..i + |sep|] == sep
  }

  /** s has no occurrence of sep at all. */
  predicate Free(s: string, sep: string) {
    forall i: nat :: i < |s| ==> !OccursAt(s, sep, i)
  }

  /** Index of the first occurrence of sep in s, or |s| when there is none
      (Python's str.find with -1 replaced by the length). */
  function Find(s: string, sep: string): (i: nat)
    requires |sep| > 0
    ensures i <= |s|
    ensures i < |s| ==> OccursAt(s, sep, i)
    ensures forall k: nat :: k < i ==> !OccursAt(s, sep, k)
  {
    if |s| < |sep| then |s|
    else if s[..|sep|] == sep then 0
    else
      var j := Find(s[1..], sep);
      assert forall k: nat :: 0 < k ==> (OccursAt(s, sep, k) <==> OccursAt(s[1..], sep, k - 1));
      1 + j
  }

  /** For a one-character separator, Find is the first index of that character. */
  lemma FindChar(s: string, c: char)
    ensures Find(s, [c]) <= |s|
    ensures c !in s[..Find(s, [c])]
    ensures Find(s, [c]) < |s| ==> s[Find(s, [c])] == c
  {
    var i := Find(s, [c]);
    forall k | 0 <= k < i ensures s[k] != c {
      assert !OccursAt(s, [c], k);
      assert s[k..k + 1] == [s[k]];
    }
    if i < |s| {
      assert OccursAt(s, [c], i);
      assert s[i..i + 1] == [s[i]];
    }
  }

  /** s has no occurrence of a one-character separator exactly when it lacks
      that character. */
  lemma FreeChar(s: string, c: char)
    ensures Free(s, [c]) <==> c !in s
  {
    if c in s {
      var k :| 0 <= k < |s| && s[k] == c;
      assert s[k..k + 1] == [c];
      assert OccursAt(s, [c], k);
    }
    if !Free(s, [c]) {
      var k: nat :| k < |s| && OccursAt(s, [c], k);
      assert s[k..k + 1][0] == s[k];
    }
  }

  // ---------------------------------------------------------------------
  // Split, join, replace

  /** Python's str.split(sep) and JavaScript's String.prototype.split(sep)
      for a non-empty separator: the texts between the non-overlapping
      occurrences of sep, found from left to right. */
  function Split(s: string, sep: string): (parts: seq<string>)
    requires |sep| > 0
    ensures |parts| >= 1
    decreases |s|
  {
    var i := Find(s, sep);
    if i == |s| then [s]
    else [s[..i]] + Split(s[i + |sep|..], sep)
  }

  /** sep.join(parts) in Python, parts.join(sep) in JavaScript. */
  function Join(parts: seq<string>, sep: string): string {
    if |parts| == 0 then ""
    else if |parts| == 1 then parts[0]
    else parts[0] + sep + Join(parts[1..], sep)
  }

  /** Python's str.replace(pat, repl) for a non-empty pat: every
      non-overlapping occurrence, found from left to right, is replaced. */
  function Replace(s: string, pat: string, repl: string): string
    requires |pat| > 0
    decreases |s|
  {
    var i := Find(s, pat);
    if i == |s| then s
    else s[..i] + repl + Replace(s[i + |pat|..], pat, repl)
  }

  /** A text with an occurrence of sep at i is the text before it, sep,
      and the text after it. */
  lemma AroundOccurrence(s: string, sep: string, i: nat)
    requires OccursAt(s, sep, i)
    ensures s == s[..i] + sep + s[i + |sep|..]
  {
    var j := i + |sep|;
    assert s[..j] == s[..i] + s[i..j];
    assert s == s[..j] + s[j..];
  }

  /** Counting a character around an occurrence of sep. */
  lemma CountAround(s: string, sep: string, i: nat, c: char)
    requires OccursAt(s, sep, i)
    ensures multiset(s)[c] == multiset(s[..i])[c] + multiset(sep)[c] + multiset(s[i + |sep|..])[c]
  {
    var pre, post := s[..i], s[i + |sep|..];
    AroundOccurrence(s, sep, i);
    CountThree(pre, sep, post, c);
  }

  /** One step of Replace: the text before the first occurrence of pat,
      the replacement, and the rest replaced. */
  lemma ReplaceUnfold(s: string, pat: string, repl: string)
    requires |pat| > 0 && Find(s, pat) < |s|
    ensures Replace(s, pat, repl) == s[..Find(s, pat)] + repl + Replace(s[Find(s, pat) + |pat|..], pat, repl)
  {
  }

  /** The same, for an index already known to be the first occurrence. */
  lemma ReplaceAt(s: string, pat: string, repl: string, f: nat)
    requires |pat| > 0 && f == Find(s, pat) && f < |s|
    ensures Replace(s, pat, repl) == s[..f] + repl + Replace(s[f + |pat|..], pat, repl)
  {
    ReplaceUnfold(s, pat, repl);
    var rest := s[Find(s, pat) + |pat|..];
    assert s[f + |pat|..] == rest;
    assert Replace(s[f + |pat|..], pat, repl) == Replace(rest, pat, repl);
  }

  /** The same, for the replacement of what follows index k of s, with the
      rest counted in s. */
  lemma ReplaceFrom(s: string, pat: string, repl: string, k: nat, f: nat, j: nat)
    requires k <= |s| && |pat| > 0 && f == Find(s[k..], pat) && f < |s| - k && j == k + f + |pat|
    ensures Replace(s[k..], pat, repl) == s[k..][..f] + repl + Replace(s[j..], pat, repl)
  {
    ReplaceAt(s[k..], pat, repl, f);
    assert s[k..][f + |pat|..] == s[j..];
  }

  /** Counting a character in three concatenated texts. */
  lemma CountThree(a: string, b: string, d: string, c: char)
    ensures multiset(a + b + d)[c] == multiset(a)[c] + multiset(b)[c] + multiset(d)[c]
  {
  }

  /** Concatenation is associative. */
  lemma ConcatAssoc<T>(a: seq<T>, b: seq<T>, c: seq<T>)
    ensures a + (b + c) == (a + b) + c
  {
  }

  /** A character that does not occur is counted zero times. */
  lemma AbsentCount(t: string, c: char)
    requires c !in t
    ensures multiset(t)[c] == 0
  {
  }

  /** Joining a non-empty tail behind a first part puts one separator
      between them. */
  lemma JoinCons(head: string, tail: seq<string>, sep: string)
    requires |tail| >= 1
    ensures Join([head] + tail, sep) == head + sep + Join(tail, sep)
  {
    assert ([head] + tail)[1..] == tail;
  }

  /** Splitting loses nothing: joining the parts with the separator gives
      back the text. */
  lemma {:induction false} JoinSplit(s: string, sep: string)
    requires |sep| > 0
    ensures Join(Split(s, sep), sep) == s
    decreases |s|
  {
    var i := Find(s, sep);
    if i < |s| {
      var rest := s[i + |sep|..];
      JoinSplit(rest, sep);
      JoinCons(s[..i], Split(rest, sep), sep);
      AroundOccurrence(s, sep, i);
    }
  }

  /** No part of a split contains the separator. */
  lemma {:induction false} SplitPartsFree(s: string, sep: string)
    requires |sep| > 0
    ensures forall p :: p in Split(s, sep) ==> Free(p, sep)
    decreases |s|
  {
    var i := Find(s, sep);
    var head := s[..i];
    forall k: nat | k < |head| ensures !OccursAt(head, sep, k) {
      assert !OccursAt(s, sep, k);
      if k + |sep| <= |head| {
        assert head[k..k + |sep|] == s[k..k + |sep|];
      }
    }
    if i < |s| {
      SplitPartsFree(s[i + |sep|..], sep);
    }
  }

  /** A split at a one-character separator has one part more than the text
      has occurrences of that character. */
  lemma {:induction false} SplitCharCount(s: string, c: char)
    ensures |Split(s, [c])| == multiset(s)[c] + 1
    decreases |s|
  {
    var i := Find(s, [c]);
    FindChar(s, c);
    if i == |s| {
      assert s[..i] == s;
    } else {
      var rest := s[i + 1..];
      assert |Split(rest, [c])| == multiset(rest)[c] + 1 by {
        SplitCharCount(rest, c);
      }
      assert multiset(s)[c] == multiset(s[..i])[c] + 1 + multiset(rest)[c] by {
        CountAround(s, [c], i, c);
      }
    }
  }

  /** Python's str.replace agrees with splitting and joining:
      s.replace(pat, repl) == repl.join(s.split(pat)). */
  lemma {:induction false} ReplaceIsJoinSplit(s: string, pat: string, repl: string)
    requires |pat| > 0
    ensures Replace(s, pat, repl) == Join(Split(s, pat), repl)
    decreases |s|
  {
    var i := Find(s, pat);
    if i < |s| {
      ReplaceIsJoinSplit(s[i + |pat|..], pat, repl);
    }
  }

  /** Replacing a text that does not occur changes nothing. */
  lemma ReplaceAbsent(s: string, pat: string, repl: string)
    requires |pat| > 0 && Free(s, pat)
    ensures Replace(s, pat, repl) == s
  {
  }

  /** A character that neither the pat nor the repl text contains is left
      alone by a replacement: it occurs equally often before and after. */
  lemma {:induction false} ReplaceKeepsCount(s: string, pat: string, repl: string, c: char)
    requires |pat| > 0 && c !in pat && c !in repl
    ensures multiset(Replace(s, pat, repl))[c] == multiset(s)[c]
    decreases |s|
  {
    var i := Find(s, pat);
    if i < |s| {
      var rest := s[i + |pat|..];
      var r := Replace(rest, pat, repl);
      assert multiset(r)[c] == multiset(rest)[c] by {
        ReplaceKeepsCount(rest, pat, repl, c);
      }
      assert multiset(s)[c] == multiset(s[..i])[c] + multiset(rest)[c] by {
        CountAround(s, pat, i, c);
        AbsentCount(pat, c);
      }
      ReplaceAt(s, pat, repl, i);
      CountSkipping(s[..i], repl, r, c);
    }
  }

  /** A text without c between two others adds nothing to the count of c. */
  lemma CountSkipping(a: string, repl: string, r: string, c: char)
    requires c !in repl
    ensures multiset(a + repl + r)[c] == multiset(a)[c] + multiset(r)[c]
  {
    CountThree(a, repl, r, c);
    AbsentCount(repl, c);
  }

  /** Replacing a character by two copies of itself doubles its count. */
  lemma {:induction false} ReplaceDoublesChar(s: string, c: char)
    ensures multiset(Replace(s, [c], [c, c]))[c] == 2 * multiset(s)[c]
    decreases |s|
  {
    var i := Find(s, [c]);
    FindChar(s, c);
    if i == |s| {
      assert s[..i] == s;
    } else {
      var rest := s[i + 1..];
      var r := Replace(rest, [c], [c, c]);
      assert multiset(r)[c] == 2 * multiset(rest)[c] by {
        ReplaceDoublesChar(rest, c);
      }
      assert multiset(s)[c] == multiset(s[..i])[c] + 1 + multiset(rest)[c] by {
        CountAround(s, [c], i, c);
      }
      assert multiset(Replace(s, [c], [c, c]))[c] == multiset(s[..i])[c] + 2 + multiset(r)[c] by {
        CountThree(s[..i], [c, c], r, c);
      }
    }
  }

  /** Splitting on a character c gives exactly two parts exactly when c
      occurs once; the two parts are then the texts around it. */
  lemma TwoPartsExactly(s: string, c: char)
    ensures |Split(s, [c])| == 2 <==> multiset(s)[c] == 1
    ensures |Split(s, [c])| == 2 ==>
      var parts := Split(s, [c]);
      s == parts[0] + [c] + parts[1] && c !in parts[0] && c !in parts[1]
  {
    SplitCharCount(s, c);
    var parts := Split(s, [c]);
    if |parts| == 2 {
      JoinSplit(s, [c]);
      assert parts[1..] == [parts[1]];
      SplitPartsFree(s, [c]);
      assert parts[0] in parts && parts[1] in parts;
      FreeChar(parts[0], c);
      FreeChar(parts[1], c);
    }
  }

  /** The first part of a split at c is the text before the first c. */
  lemma SplitCons(s: string, c: char, a: string, b: string)
    requires s == a + [c] + b && c !in a
    ensures Split(s, [c]) == [a] + Split(b, [c])
  {
    FindChar(s, c);
    var i := Find(s, [c]);
    assert forall k :: 0 <= k < |a| ==> s[k] == a[k];
    assert s[|a|] == c;
    assert forall k :: 0 <= k < i ==> s[..i][k] == s[k];
    assert i == |a|;
    assert s[..i] == a && s[i + 1..] == b;
  }

  /** A text without c is one part. */
  lemma SplitAbsent(s: string, c: char)
    requires c !in s
    ensures Split(s, [c]) == [s]
  {
    FindChar(s, c);
  }

  /** A text with a single c splits into the texts around it. */
  lemma SplitAtOnly(s: string, c: char, a: string, b: string)
    requires s == a + [c] + b && c !in a && c !in b
    ensures Split(s, [c]) == [a, b]
  {
    SplitCons(s, c, a, b);
    SplitAbsent(b, c);
  }

  /** A text without an occurrence of sep is one part. */
  lemma SplitFree(s: string, sep: string)
    requires |sep| > 0 && Free(s, sep)
    ensures Split(s, sep) == [s]
  {
  }

  /** A slice of a text without occurrences of p has none either. */
  lemma FreeSlice(s: string, p: string, lo: nat, hi: nat)
    requires Free(s, p) && lo <= hi <= |s|
    ensures Free(s[lo..hi], p)
  {
    var t := s[lo..hi];
    forall k: nat | k < |t| ensures !OccursAt(t, p, k) {
      if OccursAt(t, p, k) {
        assert forall j :: k <= j < k + |p| ==> t[j] == s[lo + j];
        assert s[lo + k..lo + k + |p|] == t[k..k + |p|];
        assert OccursAt(s, p, lo + k);
      }
    }
  }

  /** Splitting a text without occurrences of p gives parts without them. */
  lemma {:induction false} SplitKeepsFree(s: string, sep: string, p: string)
    requires |sep| > 0 && Free(s, p)
    ensures forall q :: q in Split(s, sep) ==> Free(q, p)
    decreases |s|
  {
    var i := Find(s, sep);
    FreeSlice(s, p, 0, i);
    if i < |s| {
      FreeSlice(s, p, i + |sep|, |s|);
      assert s[i + |sep|..] == s[i + |sep|..|s|];
      SplitKeepsFree(s[i + |sep|..], sep, p);
    }
  }

  /** Stripping a text without occurrences of p leaves none. */
  lemma StripKeepsFree(s: string, p: string)
    requires Free(s, p)
    ensures Free(Strip(s), p)
  {
    FreeSlice(s, p, StripStart(s), StripEnd(s));
  }

  /** Python's s.split(c)[0] is the text before the first c (all of s when
      c does not occur). */
  function BeforeFirst(s: string, c: char): (r: string)
    ensures c !in r
    ensures r == s || (|r| < |s| && s[|r|] == c)
    ensures r == s[..|r|]
  {
    FindChar(s, c);
    Split(s, [c])[0]
  }

  /** Python's s.split(c, 1) on a text that contains c: the texts before
      and after the first c. */
  function SplitOnce(s: string, c: char): (kv: (string, string))
    requires c in s
    ensures c !in kv.0
    ensures s == kv.0 + [c] + kv.1
  {
    var i := Find(s, [c]);
    FindChar(s, c);
    (s[..i], s[i + 1..])
  }
}
