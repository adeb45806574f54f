/**
 * The identifier scanner the solver backends use to discover unknowns:
 * re.findall with the pattern \b[a-zA-Z_][a-zA-Z0-9_]*\b, over ASCII text.
 */
module Identifiers {

  /** A character of the class [A-Za-z0-9_]. */
  predicate IsWordChar(c: char) {
    ('a' <= c <= 'z') || ('A' <= c <= 'Z') || ('0' <= c <= '9') || c == '_'
  }

  /** A character of the class [A-Za-z_]. */
  predicate IsIdentStart(c: char) {
    ('a' <= c <= 'z') || ('A' <= c <= 'Z') || c == '_'
  }

  /** The regular expression matches the identifier s[i..j]: a maximal run
      of word characters (word boundaries on both sides) whose first
      character is a letter or an underscore. */
  predicate IsTokenAt(s: string, i: nat, j: nat) {
    && i < j <= |s|
    && (i == 0 || !IsWordChar(s[i - 1]))
    && (j == |s| || !IsWordChar(s[j]))
    && IsIdentStart(s[i])
    && forall k :: i <= k < j ==> IsWordChar(s[k])
  }

  /** The end of the run of word characters that starts at i. */
  function RunEnd(s: string, i: nat): (j: nat)
    requires i <= |s|
    ensures i <= j <= |s|
    ensures forall k :: i <= k < j ==> IsWordChar(s[k])
    ensures j < |s| ==> !IsWordChar(s[j])
    decreases |s| - i
  {
    if i < |s| && IsWordChar(s[i]) then RunEnd(s, i + 1) else i
  }

  /** The scan can resume at i: no run of word characters straddles i. */
  predicate AtBoundary(s: string, i: nat)
    requires i <= |s|
  {
    i == 0 || i == |s| || !IsWordChar(s[i - 1]) || !IsWordChar(s[i])
  }

  /** The matches found by scanning s from index i on. A run of word
      characters that starts with a digit (the "e5" of "1e5") is skipped
      whole: no word boundary lies inside it. */
  function TokensFrom(s: string, i: nat): seq<string>
    requires i <= |s| && AtBoundary(s, i)
    decreases |s| - i
  {
    if i == |s| then []
    else if !IsWordChar(s[i]) then TokensFrom(s, i + 1)
    else
      var j := RunEnd(s, i);
      (if IsIdentStart(s[i]) then [s[i..j]] else []) + TokensFrom(s, j)
  }

  /** re.findall(r'\b[a-zA-Z_][a-zA-Z0-9_]*\b', s). */
  function Tokens(s: string): seq<string> {
    TokensFrom(s, 0)
  }

  /** The scan from i finds exactly the identifiers that start at i or later. */
  lemma {:induction false} TokensFromExactly(s: string, i: nat, t: string)
    requires i <= |s| && AtBoundary(s, i)
    ensures t in TokensFrom(s, i) <==> exists a: nat, b: nat :: i <= a && IsTokenAt(s, a, b) && s[a..b] == t
    decreases |s| - i
  {
    if i == |s| {
    } else if !IsWordChar(s[i]) {
      TokensFromExactly(s, i + 1, t);
      if exists a: nat, b: nat :: i <= a && IsTokenAt(s, a, b) && s[a..b] == t {
        var a: nat, b: nat :| i <= a && IsTokenAt(s, a, b) && s[a..b] == t;
        assert a != i;
      }
    } else {
      var j := RunEnd(s, i);
      TokensFromExactly(s, j, t);
      var here := if IsIdentStart(s[i]) then [s[i..j]] else [];
      assert TokensFrom(s, i) == here + TokensFrom(s, j);
      if t in TokensFrom(s, i) {
        if t in here {
          assert IsTokenAt(s, i, j);
        }
      }
      if exists a: nat, b: nat :: i <= a && IsTokenAt(s, a, b) && s[a..b] == t {
        var a: nat, b: nat :| i <= a && IsTokenAt(s, a, b) && s[a..b] == t;
        if a == i {
          if b != j {
            assert false;
          }
          assert t in here;
        } else if a < j {
          assert false;
        }
      }
    }
  }

  /** t is among the identifiers found in s exactly when some window of s
      is a match equal to t. */
  lemma TokensExactly(s: string, t: string)
    ensures t in Tokens(s) <==> exists a: nat, b: nat :: IsTokenAt(s, a, b) && s[a..b] == t
  {
    TokensFromExactly(s, 0, t);
  }

  /** Every identifier found starts with a letter or underscore and is made
      of word characters only. */
  lemma TokenShape(s: string, t: string)
    requires t in Tokens(s)
    ensures |t| > 0 && IsIdentStart(t[0])
    ensures forall k :: 0 <= k < |t| ==> IsWordChar(t[k])
  {
    TokensExactly(s, t);
    var a: nat, b: nat :| IsTokenAt(s, a, b) && s[a..b] == t;
    assert forall k :: 0 <= k < |t| ==> t[k] == s[a + k];
  }

  /** A match inside a window bordered by non-word characters (or by the
      ends of s) is a match of s at the shifted indices. */
  lemma TokenShift(s: string, lo: nat, hi: nat, a: nat, b: nat)
    requires lo <= hi <= |s|
    requires lo == 0 || !IsWordChar(s[lo - 1])
    requires hi == |s| || !IsWordChar(s[hi])
    requires IsTokenAt(s[lo..hi], a, b)
    ensures IsTokenAt(s, lo + a, lo + b) && s[lo + a..lo + b] == s[lo..hi][a..b]
  {
    var w := s[lo..hi];
    assert forall k :: a <= k < b ==> w[k] == s[lo + k];
    assert a > 0 ==> w[a - 1] == s[lo + a - 1];
    assert b < |w| ==> w[b] == s[lo + b];
  }

  /** An identifier found in a window of s that is bordered by non-word
      characters (or by the ends of s) is an identifier of s as well. */
  lemma TokenOfWindow(s: string, lo: nat, hi: nat, t: string)
    requires lo <= hi <= |s|
    requires lo == 0 || !IsWordChar(s[lo - 1])
    requires hi == |s| || !IsWordChar(s[hi])
    requires t in Tokens(s[lo..hi])
    ensures t in Tokens(s)
  {
    var w := s[lo..hi];
    TokensExactly(w, t);
    var a: nat, b: nat :| IsTokenAt(w, a, b) && w[a..b] == t;
    TokenShift(s, lo, hi, a, b);
    TokensExactly(s, t);
  }

  /** A match of s that starts at d or later is a match of s[d..]. */
  lemma TokenInSuffix(s: string, d: nat, i: nat, n: nat)
    requires IsTokenAt(s, i, i + n) && d <= i
    ensures IsTokenAt(s[d..], i - d, i - d + n) && s[d..][i - d..i - d + n] == s[i..i + n]
  {
    assert forall k :: d <= k < |s| ==> s[d..][k - d] == s[k];
  }

  /** A match of u stays a match when v follows u, provided that a match
      ending u is not run on by a word character starting v. */
  lemma TokenBeforeSuffix(w: string, u: string, v: string, i: nat, n: nat)
    requires w == u + v && IsTokenAt(u, i, i + n)
    requires i + n == |u| && |v| > 0 ==> !IsWordChar(v[0])
    ensures IsTokenAt(w, i, i + n) && w[i..i + n] == u[i..i + n]
  {
    assert forall k :: 0 <= k < |u| ==> w[k] == u[k];
  }

  /** A match of v stays a match behind u, provided that a match starting v
      does not follow a word character ending u; it is found at c. */
  lemma TokenBehindPrefix(w: string, u: string, v: string, i: nat, n: nat) returns (c: nat)
    requires w == u + v && IsTokenAt(v, i, i + n)
    requires i == 0 && |u| > 0 ==> !IsWordChar(u[|u| - 1])
    ensures c == |u| + i
    ensures IsTokenAt(w, c, c + n) && w[c..c + n] == v[i..i + n] && w[c] == v[i]
  {
    c := |u| + i;
    forall k | |u| <= k < |w|
      ensures w[k] == v[k - |u|]
    {
    }
  }

  /** s starts with a non-word character, or is empty. */
  predicate OpenLeft(s: string) {
    |s| == 0 || !IsWordChar(s[0])
  }

  /** s ends with a non-word character, or is empty. */
  predicate OpenRight(s: string) {
    |s| == 0 || !IsWordChar(s[|s| - 1])
  }

  /** A concatenation starts open when its first non-empty part does. */
  lemma OpenLeftConcat(u: string, v: string)
    requires OpenLeft(u) && (|u| == 0 ==> OpenLeft(v))
    ensures OpenLeft(u + v)
  {
    if |u| > 0 {
      assert (u + v)[0] == u[0];
    } else {
      assert u + v == v;
    }
  }

  /** A concatenation ends open when its last non-empty part does. */
  lemma OpenRightConcat(u: string, v: string)
    requires OpenRight(v) && (|v| == 0 ==> OpenRight(u))
    ensures OpenRight(u + v)
  {
    if |v| > 0 {
      assert (u + v)[|u + v| - 1] == v[|v| - 1];
    } else {
      assert u + v == u;
    }
  }

  /** The first f characters of s, around a match s[i..i + n] that ends by
      f, are P + s[i..i + n] + X, with P and X open towards the match. */
  lemma Window(s: string, f: nat, i: nat, n: nat) returns (P: string, X: string)
    requires IsTokenAt(s, i, i + n) && i + n <= f <= |s|
    ensures |P| == i && |X| == f - (i + n)
    ensures s[..f] == P + s[i..i + n] + X
    ensures f == |s| ==> s == P + s[i..i + n] + X
    ensures OpenRight(P) && OpenLeft(X)
  {
    P, X := s[..i], s[i + n..f];
    assert s[..f] == P + s[i..i + n] + X;
    if f == |s| {
      assert s[..f] == s;
    }
    if i > 0 {
      assert P[i - 1] == s[i - 1];
    }
    if |X| > 0 {
      assert X[0] == s[i + n];
    }
  }

  /** The text of a match, put between a text that ends open and one that
      starts open, is a match there. */
  lemma TokenBetween(s: string, a: nat, n: nat, P: string, S: string)
    requires IsTokenAt(s, a, a + n) && OpenRight(P) && OpenLeft(S)
    ensures IsTokenAt(P + s[a..a + n] + S, |P|, |P| + n)
    ensures (P + s[a..a + n] + S)[|P|..|P| + n] == s[a..a + n]
  {
    var t := s[a..a + n];
    assert IsTokenAt(t, 0, n) by {
      assert forall k :: 0 <= k < n ==> t[k] == s[a + k];
    }
    TokenBeforeSuffix(t + S, t, S, 0, n);
    assert P + t + S == P + (t + S);
    var c := TokenBehindPrefix(P + t + S, P, t + S, 0, n);
  }
}
