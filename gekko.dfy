/**
 * The GEKKO back end's own parts: its process_equations, which rewrites
 * equations into GEKKO syntax by plain substring replacement, the scopes
 * the equations and residuals are evaluated in, the solution dictionary
 * and the residual report.
 */
module Gekko {
  import opened Wrappers
  import opened Text
  import opened Identifiers
  import opened Constants
  import opened FrontEnd
  import opened Guesses

  // ---------------------------------------------------------------------
  // Rewriting into GEKKO syntax

  /** [x.replace(pat, repl) for x in equations] */
  function ReplaceEach(eqs: seq<string>, pat: string, repl: string): (r: seq<string>)
    requires |pat| > 0
    ensures |r| == |eqs|
  {
    seq(|eqs|, k requires 0 <= k < |eqs| => Replace(eqs[k], pat, repl))
  }

  /** The eight math names of process_equations with their replacements, in
      the order they are applied: each gets the model's prefix `m.`, and ln
      becomes m.log. */
  const MathRewrites: seq<(string, string)> :=
    [("sin", "m.sin"), ("cos", "m.cos"), ("tan", "m.tan"), ("sqrt", "m.sqrt"),
     ("log", "m.log"), ("ln", "m.log"), ("pi", "m.pi"), ("exp", "m.exp")]

  /** The nine replacements of process_equations, in order: first the
      equals sign becomes Python's comparison, then the math names. */
  const Rewrites: seq<(string, string)> := [("=", "==")] + MathRewrites

  /** No pattern of a list of replacements is empty. */
  predicate NonEmptyPatterns(rs: seq<(string, string)>) {
    forall pr :: pr in rs ==> |pr.0| > 0
  }

  /** A list of replacements applied to one text, one after the other. */
  function RewriteWith(eq: string, rs: seq<(string, string)>): string
    requires NonEmptyPatterns(rs)
    decreases |rs|
  {
    if rs == [] then eq else RewriteWith(Replace(eq, rs[0].0, rs[0].1), rs[1..])
  }

  /** A list of replacements applied to a list of texts, each replacement
      list-wide before the next. */
  function ProcessWith(eqs: seq<string>, rs: seq<(string, string)>): (r: seq<string>)
    requires NonEmptyPatterns(rs)
    ensures |r| == |eqs|
    decreases |rs|
  {
    if rs == [] then eqs else ProcessWith(ReplaceEach(eqs, rs[0].0, rs[0].1), rs[1..])
  }

  /** process_equations: the nine replacements, each list-wide. */
  function ProcessEquations(eqs: seq<string>): (r: seq<string>)
    ensures |r| == |eqs|
  {
    ProcessWith(eqs, Rewrites)
  }

  /** One equation put through the nine replacements, in order. */
  function Rewrite(eq: string): string {
    RewriteWith(eq, Rewrites)
  }

  lemma {:induction false} ProcessWithPointwise(eqs: seq<string>, rs: seq<(string, string)>)
    requires NonEmptyPatterns(rs)
    ensures forall k :: 0 <= k < |eqs| ==> ProcessWith(eqs, rs)[k] == RewriteWith(eqs[k], rs)
    decreases |rs|
  {
    if rs != [] {
      ProcessWithPointwise(ReplaceEach(eqs, rs[0].0, rs[0].1), rs[1..]);
    }
  }

  /** The list-wide chain rewrites each equation on its own: the k-th output
      is the k-th equation put through the nine replacements. */
  lemma ProcessEquationsPointwise(eqs: seq<string>)
    ensures forall k :: 0 <= k < |eqs| ==> ProcessEquations(eqs)[k] == Rewrite(eqs[k])
  {
    ProcessWithPointwise(eqs, Rewrites);
  }

  /** Replacements whose patterns and replacements lack c keep c's count. */
  lemma {:induction false} RewriteKeepsCount(s: string, rs: seq<(string, string)>, c: char)
    requires NonEmptyPatterns(rs)
    requires forall pr :: pr in rs ==> c !in pr.0 && c !in pr.1
    ensures multiset(RewriteWith(s, rs))[c] == multiset(s)[c]
    decreases |rs|
  {
    if rs != [] {
      ReplaceKeepsCount(s, rs[0].0, rs[0].1, c);
      RewriteKeepsCount(Replace(s, rs[0].0, rs[0].1), rs[1..], c);
    }
  }

  /** Every '=' is doubled, wherever it stands: a rewritten equation has
      twice as many as the original, since no later pattern or replacement
      has one. */
  lemma EqualsDoubled(eq: string)
    ensures multiset(Rewrite(eq))['='] == 2 * multiset(eq)['=']
  {
    var s1 := Replace(eq, "=", "==");
    assert multiset(s1)['='] == 2 * multiset(eq)['='] by {
      ReplaceDoublesChar(eq, '=');
      assert ['=', '='] == "==";
    }
    assert Rewrites[0] == ("=", "==") && Rewrites[1..] == MathRewrites;
    RewriteKeepsCount(s1, MathRewrites, '=');
  }

  // ---------------------------------------------------------------------
  // Identifiers across the rewriting

  /** Every character of q is a word character. */
  predicate AllWord(q: string) {
    forall k :: 0 <= k < |q| ==> IsWordChar(q[k])
  }

  /** No character of q is a word character. */
  predicate NoWord(q: string) {
    forall k :: 0 <= k < |q| ==> !IsWordChar(q[k])
  }

  /** Replacing q by r leaves the identifier t standing wherever it is an
      identifier: q cannot occur inside t, since its first or its last
      character is missing from t; and either q is made of word characters,
      so an occurrence cannot reach across t's borders, or neither q nor its
      non-empty replacement has any, so the borders stay non-word. */
  predicate Keeps(t: string, q: string, r: string) {
    && |q| > 0
    && (q[0] !in t || q[|q| - 1] !in t)
    && (AllWord(q) || (NoWord(q) && |r| > 0 && NoWord(r)))
  }

  /** The identifier s[a..a + n] is found again, unchanged, after a
      replacement that keeps it; it starts the text only if it started it
      before. */
  lemma TokenAtSurvives(s: string, q: string, r: string, a: nat, n: nat) returns (c: nat)
    requires IsTokenAt(s, a, a + n) && Keeps(s[a..a + n], q, r)
    ensures IsTokenAt(Replace(s, q, r), c, c + n) && Replace(s, q, r)[c..c + n] == s[a..a + n]
    ensures c == 0 ==> a == 0
  {
    var P, S := SurvivesFrom(s, q, r, 0, a, n);
    assert s[0..] == s;
    TokenBetween(s, a, n, P, S);
    c := |P|;
  }

  /** What follows index k is replaced into a text that holds the
      identifier s[a..a + n] whole, as P + s[a..a + n] + S, with P and S
      open towards it; P is empty only if the identifier starts at k. */
  lemma {:induction false} SurvivesFrom(s: string, q: string, r: string, k: nat, a: nat, n: nat)
    returns (P: string, S: string)
    requires k <= a && IsTokenAt(s, a, a + n) && Keeps(s[a..a + n], q, r)
    ensures Replace(s[k..], q, r) == P + s[a..a + n] + S
    ensures |P| == 0 ==> a == k
    ensures OpenRight(P) && OpenLeft(S)
    decreases |s| - k
  {
    var f := Find(s[k..], q);
    if f == |s| - k {
      P, S := SurvivesAbsent(s, q, r, k, a, n);
    } else if a + n <= k + f {
      var x;
      P, x := BeforeParts(s, q, r, k, f, a, n);
      S := SurvivesBefore(s, q, r, k, f, s[a..a + n], P, x);
    } else {
      OccursShift(s, q, k, f);
      ClearOfOccurrence(s, q, r, k + f, a, n);
      BorderBeforeToken(s, q, r, k + f, a, n);
      var k' := k + f + |q|;
      var P', S' := SurvivesFrom(s, q, r, k', a, n);
      P, S := SurvivesBehind(s, q, r, k, f, k', s[a..a + n], P', S');
    }
  }

  /** Without an occurrence of q after k the identifier stays where it is. */
  lemma SurvivesAbsent(s: string, q: string, r: string, k: nat, a: nat, n: nat)
    returns (P: string, S: string)
    requires k <= a && IsTokenAt(s, a, a + n) && |q| > 0 && Find(s[k..], q) == |s| - k
    ensures Replace(s[k..], q, r) == P + s[a..a + n] + S
    ensures |P| == a - k && OpenRight(P) && OpenLeft(S)
  {
    var u := s[k..];
    TokenInSuffix(s, k, a, n);
    ReplaceAbsent(u, q, r);
    P, S := Window(u, |u|, a - k, n);
  }

  /** An identifier that ends before the occurrence of q at k + f lies in
      what precedes it, as P + s[a..a + n] + x, and x + r then starts
      open. */
  lemma BeforeParts(s: string, q: string, r: string, k: nat, f: nat, a: nat, n: nat)
    returns (P: string, x: string)
    requires k <= a && IsTokenAt(s, a, a + n) && Keeps(s[a..a + n], q, r)
    requires k <= |s| && OccursAt(s[k..], q, f) && a + n <= k + f
    ensures s[k..][..f] == P + s[a..a + n] + x
    ensures |P| == a - k && OpenRight(P)
    ensures |x + r| > 0 && OpenLeft(x + r)
  {
    TokenInSuffix(s, k, a, n);
    OccursShift(s, q, k, f);
    BorderAfterToken(s, q, r, k + f, a, n);
    P, x := Window(s[k..], f, a - k, n);
    OpenLeftConcat(x, r);
  }

  /** The replacement goes on behind the first occurrence of q after k, so
      whatever precedes that occurrence stays in front. */
  lemma SurvivesBefore(s: string, q: string, r: string, k: nat, f: nat, t: string, P: string, x: string)
    returns (S: string)
    requires k <= |s| && |q| > 0 && f == Find(s[k..], q) && f < |s| - k
    requires s[k..][..f] == P + t + x
    requires |x + r| > 0 && OpenLeft(x + r)
    ensures Replace(s[k..], q, r) == P + t + S
    ensures OpenLeft(S)
  {
    var u := s[k..];
    var tail := Replace(u[f + |q|..], q, r);
    ReplaceAt(u, q, r, f);
    Regroup(P + t, x, r, tail);
    OpenLeftConcat(x + r, tail);
    S := x + r + tail;
  }

  /** What the rest of the replacement makes of the identifier t, it
      keeps behind the first replaced occurrence of q after k. */
  lemma SurvivesBehind(s: string, q: string, r: string, k: nat, f: nat, k': nat, t: string, P': string, S': string)
    returns (P: string, S: string)
    requires k <= |s| && |q| > 0 && f == Find(s[k..], q) && f < |s| - k && k' == k + f + |q|
    requires Replace(s[k'..], q, r) == P' + t + S'
    requires OpenRight(P') && OpenLeft(S')
    requires |P'| == 0 ==> |r| > 0 && !IsWordChar(r[|r| - 1])
    ensures Replace(s[k..], q, r) == P + t + S
    ensures |P| > 0 && OpenRight(P) && OpenLeft(S)
  {
    var u := s[k..];
    ReplaceFrom(s, q, r, k, f, k');
    Regroup(u[..f] + r, P', t, S');
    if |P'| == 0 {
      OpenRightConcat(u[..f], r);
    }
    OpenRightConcat(u[..f] + r, P');
    P, S := u[..f] + r + P', S';
  }

  /** Regrouping a concatenation of four texts. */
  lemma Regroup(a: string, b: string, c: string, d: string)
    ensures a + b + c + d == a + (b + c + d)
  {
  }

  /** An occurrence in what follows index k is one in the whole text. */
  lemma OccursShift(s: string, q: string, k: nat, f: nat)
    requires k <= |s| && OccursAt(s[k..], q, f)
    ensures OccursAt(s, q, k + f)
  {
    assert s[k..][f..f + |q|] == s[k + f..k + f + |q|];
  }

  /** An identifier that p does not keep whole overlaps no occurrence of
      p: it lies wholly behind one it reaches into. */
  lemma ClearOfOccurrence(s: string, q: string, r: string, f: nat, a: nat, n: nat)
    requires OccursAt(s, q, f) && IsTokenAt(s, a, a + n) && Keeps(s[a..a + n], q, r) && f < a + n
    ensures f + |q| <= a
  {
    var d := f + |q|;
    forall k | f <= k < d
      ensures s[k] == q[k - f]
    {
      assert s[k] == s[f..d][k - f];
    }
    var t := s[a..a + n];
    forall k | a <= k < a + n
      ensures t[k - a] == s[k]
    {
    }
  }

  /** An identifier that an occurrence of q follows at once ends before a
      text of no word characters, which the replacement starts with. */
  lemma BorderAfterToken(s: string, q: string, r: string, f: nat, a: nat, n: nat)
    requires OccursAt(s, q, f) && IsTokenAt(s, a, a + n) && Keeps(s[a..a + n], q, r) && a + n <= f
    ensures a + n == f ==> |r| > 0 && !IsWordChar(r[0])
  {
    assert a + n == f ==> s[f] == s[f..f + |q|][0];
  }

  /** An identifier that follows an occurrence of q at once starts behind a
      text of no word characters, which the replacement ends with. */
  lemma BorderBeforeToken(s: string, q: string, r: string, f: nat, a: nat, n: nat)
    requires OccursAt(s, q, f) && IsTokenAt(s, a, a + n) && Keeps(s[a..a + n], q, r) && f + |q| <= a
    ensures a == f + |q| ==> |r| > 0 && !IsWordChar(r[|r| - 1])
  {
    assert a == f + |q| ==> s[a - 1] == s[f..f + |q|][|q| - 1];
  }

  /** A later occurrence of a text p of word characters that follows a
      non-word character lies wholly behind an earlier occurrence, and is
      found behind a non-word character in what follows that occurrence. */
  lemma OccurrenceBeyond(s: string, p: string, f: nat, a: nat) returns (a': nat)
    requires |p| > 0 && AllWord(p) && OccursAt(s, p, f) && OccursAt(s, p, a) && f < a
    requires !IsWordChar(s[a - 1])
    ensures f + |p| < a && a' == a - (f + |p|)
    ensures a' > 0 && OccursAt(s[f + |p|..], p, a') && !IsWordChar(s[f + |p|..][a' - 1])
  {
    forall k | f <= k < f + |p|
      ensures IsWordChar(s[k])
    {
      assert s[k] == s[f..f + |p|][k - f];
    }
    a' := a - (f + |p|);
    var rest := s[f + |p|..];
    assert rest[a' - 1] == s[a - 1];
    assert rest[a'..a' + |p|] == s[a..a + |p|];
  }

  /** Replacing a text p of word characters, found at s[a..] behind a
      non-word character or at the start, by a call on the model leaves the
      identifier m where the first occurrence of p stood; it starts the text
      only if p started it. */
  lemma {:induction false} ModelAt(s: string, p: string, r: string, a: nat) returns (c: nat)
    requires |p| > 0 && AllWord(p) && OccursAt(s, p, a) && (a == 0 || !IsWordChar(s[a - 1]))
    requires ModelCall(r)
    ensures IsTokenAt(Replace(s, p, r), c, c + 1) && Replace(s, p, r)[c] == 'm'
    ensures c == 0 ==> a == 0
    decreases |s|
  {
    var f := Find(s, p);
    if f == a {
      c := ModelHere(s, p, r, f);
    } else {
      var a' := OccurrenceBeyond(s, p, f, a);
      var c' := ModelAt(s[f + |p|..], p, r, a');
      c := ModelBehind(s, p, r, f, c');
    }
  }

  /** The first occurrence of p, replaced by a call on the model, puts m
      where it stood. */
  lemma ModelHere(s: string, p: string, r: string, f: nat) returns (c: nat)
    requires |p| > 0 && f == Find(s, p) && f < |s| && (f == 0 || !IsWordChar(s[f - 1]))
    requires ModelCall(r)
    ensures IsTokenAt(Replace(s, p, r), c, c + 1) && Replace(s, p, r)[c] == 'm'
    ensures c == 0 ==> f == 0
  {
    ReplaceAt(s, p, r, f);
    var tail := Replace(s[f + |p|..], p, r);
    var v := r + tail;
    assert IsTokenAt(v, 0, 1) by {
      assert v[0] == 'm' && v[1] == '.';
    }
    ConcatAssoc(s[..f], r, tail);
    c := TokenBehindPrefix(Replace(s, p, r), s[..f], v, 0, 1);
  }

  /** An m that the rest of the replacement leaves behind the first
      replaced occurrence, not at its start, stays an identifier. */
  lemma ModelBehind(s: string, p: string, r: string, f: nat, c': nat) returns (c: nat)
    requires |p| > 0 && f == Find(s, p) && f < |s| && c' > 0 && |r| > 0
    requires IsTokenAt(Replace(s[f + |p|..], p, r), c', c' + 1)
    requires Replace(s[f + |p|..], p, r)[c'] == 'm'
    ensures IsTokenAt(Replace(s, p, r), c, c + 1) && Replace(s, p, r)[c] == 'm'
    ensures c > 0
  {
    ReplaceAt(s, p, r, f);
    c := TokenBehindPrefix(Replace(s, p, r), s[..f] + r, Replace(s[f + |p|..], p, r), c', 1);
  }

  /** A replacement that keeps the identifier t leaves it an identifier. */
  lemma TokenSurvives(s: string, q: string, r: string, t: string)
    requires t in Tokens(s) && Keeps(t, q, r)
    ensures t in Tokens(Replace(s, q, r))
  {
    TokensExactly(s, t);
    var a: nat, b: nat :| IsTokenAt(s, a, b) && s[a..b] == t;
    var c := TokenAtSurvives(s, q, r, a, b - a);
    TokensExactly(Replace(s, q, r), t);
  }

  /** Replacing an identifier p by a text that starts with "m." makes m an
      identifier. */
  lemma ModelCreated(s: string, p: string, r: string)
    requires p in Tokens(s)
    requires ModelCall(r)
    ensures |p| > 0 && "m" in Tokens(Replace(s, p, r))
  {
    TokenShape(s, p);
    TokensExactly(s, p);
    var a: nat, b: nat :| IsTokenAt(s, a, b) && s[a..b] == p;
    assert OccursAt(s, p, a);
    var c := ModelAt(s, p, r, a);
    var out := Replace(s, p, r);
    assert out[c..c + 1] == "m";
    TokensExactly(out, "m");
  }

  /** An identifier that every replacement of a list keeps survives the list. */
  lemma {:induction false} TokenSurvivesAll(s: string, rs: seq<(string, string)>, t: string)
    requires NonEmptyPatterns(rs) && t in Tokens(s)
    requires forall pr :: pr in rs ==> Keeps(t, pr.0, pr.1)
    ensures t in Tokens(RewriteWith(s, rs))
    decreases |rs|
  {
    if rs != [] {
      TokenSurvives(s, rs[0].0, rs[0].1, t);
      TokenSurvivesAll(Replace(s, rs[0].0, rs[0].1), rs[1..], t);
    }
  }

  /** A text that starts with the model's prefix "m.". */
  predicate ModelCall(r: string) {
    |r| >= 2 && r[0] == 'm' && r[1] == '.'
  }

  /** A math name is made of word characters and does not start with m. */
  lemma MathNameIsWord(q: string)
    requires q in Reserved
    ensures |q| >= 2 && AllWord(q) && q[0] != 'm'
  {
  }

  /** No math name occurs inside another: its first or its last character
      is missing from the other. */
  lemma MathNamesApart(p: string, q: string)
    requires p in Reserved && q in Reserved && p != q
    ensures |q| > 0 && (q[0] !in p || q[|q| - 1] !in p)
  {
  }

  /** Each math name of process_equations is replaced by a call on the model. */
  lemma MathRewritesShape()
    ensures forall pr :: pr in MathRewrites ==> pr.0 in Reserved && ModelCall(pr.1)
  {
  }

  /** Replacing a math name keeps the identifier m and every other math name. */
  lemma MathNameKeeps(p: string, q: string, r: string)
    requires p in Reserved && q in Reserved
    ensures Keeps("m", q, r)
    ensures q != p ==> Keeps(p, q, r)
  {
    MathNameIsWord(q);
    if q != p {
      MathNamesApart(p, q);
    }
  }

  /** A list of math-name replacements that includes p, each replacing its
      name by a call on the model, turns an identifier p into the identifier
      m, and m stays. */
  lemma {:induction false} ModelIntroduced(s: string, rs: seq<(string, string)>, p: string, repl: string)
    requires NonEmptyPatterns(rs)
    requires forall pr :: pr in rs ==> pr.0 in Reserved && ModelCall(pr.1)
    requires p in Reserved && p in Tokens(s) && (p, repl) in rs
    ensures "m" in Tokens(RewriteWith(s, rs))
    decreases |rs|
  {
    var s1 := Replace(s, rs[0].0, rs[0].1);
    forall pr | pr in rs[1..] ensures pr in rs && Keeps("m", pr.0, pr.1) {
      assert pr in rs;
      MathNameKeeps(p, pr.0, pr.1);
    }
    if rs[0].0 == p {
      ModelCreated(s, p, rs[0].1);
      TokenSurvivesAll(s1, rs[1..], "m");
    } else {
      MathNameKeeps(p, rs[0].0, rs[0].1);
      TokenSurvives(s, rs[0].0, rs[0].1, p);
      assert rs == [rs[0]] + rs[1..];
      ModelIntroduced(s1, rs[1..], p, repl);
    }
  }

  /** Turning = into == keeps every whole-identifier math name. */
  lemma EqualsKeepsName(eq: string, p: string)
    requires p in Reserved && p in Tokens(eq)
    ensures p in Tokens(Replace(eq, "=", "=="))
  {
    TokenShape(eq, p);
    assert '=' !in p;
    assert NoWord("=") && NoWord("==");
    TokenSurvives(eq, "=", "==", p);
  }

  /** Every math name has its replacement among the math-name rules. */
  lemma MathRewriteFor(p: string) returns (repl: string)
    requires p in Reserved
    ensures (p, repl) in MathRewrites
  {
    var k := if p == "sin" then 0 else if p == "cos" then 1 else if p == "tan" then 2
      else if p == "sqrt" then 3 else if p == "log" then 4 else if p == "ln" then 5
      else if p == "pi" then 6 else 7;
    repl := MathRewrites[k].1;
    assert MathRewrites[k] == (p, repl);
  }

  /** The nine replacements are the equals rule followed by the math-name rules. */
  lemma RewriteSplit(eq: string)
    ensures Rewrite(eq) == RewriteWith(Replace(eq, "=", "=="), MathRewrites)
  {
    assert Rewrites[0] == ("=", "==") && Rewrites[1..] == MathRewrites;
  }

  /** Wherever a math name is a whole identifier of an equation, the
      rewritten equation has the identifier m. */
  lemma ModelNameIntroduced(eq: string, p: string)
    requires p in Reserved && p in Tokens(eq)
    ensures "m" in Tokens(Rewrite(eq))
  {
    var s1 := Replace(eq, "=", "==");
    EqualsKeepsName(eq, p);
    MathRewritesShape();
    var repl := MathRewriteFor(p);
    ModelIntroduced(s1, MathRewrites, p, repl);
    RewriteSplit(eq);
  }

  /** get_variables reports m as an unknown whenever a math name is a whole
      identifier of one of the equations and no constant is named m. */
  lemma ModelNameDiscovered(eqs: seq<string>, constants: set<string>, k: nat, p: string)
    requires k < |eqs| && p in Reserved && p in Tokens(eqs[k]) && "m" !in constants
    ensures "m" in Discover(ProcessEquations(eqs), Reserved + constants)
  {
    ProcessEquationsPointwise(eqs);
    ModelNameIntroduced(eqs[k], p);
    DiscoverExactly(ProcessEquations(eqs), Reserved + constants, "m");
  }

  /** "sin" inside the identifier "xsin" is rewritten. */
  lemma SinInsideIdentifier()
    ensures Replace("xsin", "sin", "m.sin") == "xm.sin"
  {
    assert "xsin"[..3][0] == 'x' && "xsin"[1..] == "sin" && "sin"[..3] == "sin";
    assert Find("xsin", "sin") == 1;
    assert "xsin"[..1] == "x" && "xsin"[4..] == "";
  }

  /** "pi" inside the identifier "spin" is rewritten. */
  lemma PiInsideIdentifier()
    ensures Replace("spin", "pi", "m.pi") == "sm.pin"
  {
    assert "spin"[..2][1] == 'p' && "spin"[1..] == "pin" && "pin"[..2] == "pi";
    assert Find("spin", "pi") == 1;
    assert "spin"[..1] == "s" && "spin"[3..] == "n";
    assert Find("n", "pi") == 1;
  }

  /** tan is rewritten before sqrt, so in "sqrtan" it breaks the name sqrt
      apart. */
  lemma TanBeforeSqrt()
    ensures Replace("sqrtan", "tan", "m.tan") == "sqrm.tan"
  {
    var s := "sqrtan";
    TanInSqrtan();
    assert s[..3] == "sqr" && s[6..] == "";
  }

  /** The first tan of "sqrtan" is at index 3. */
  lemma TanInSqrtan()
    ensures Find("sqrtan", "tan") == 3
  {
    var s := "sqrtan";
    assert s[3..] == "tan" && "tan"[..3] == "tan";
    assert Find(s[3..], "tan") == 0;
    assert s[2..][1..] == s[3..] && s[2..][..3][0] == 'r';
    assert s[1..][1..] == s[2..] && s[1..][..3][0] == 'q';
    assert s[..3][0] == 's';
  }

  /** The identifiers of "sqrm.tan": no m among them. */
  lemma TokensOfBrokenSqrt()
    ensures Tokens("sqrm.tan") == ["sqrm", "tan"]
  {
    var t := "sqrm.tan";
    assert RunEnd(t, 5) == 8;
    assert t[5..8] == "tan";
    assert TokensFrom(t, 5) == ["tan"];
    assert TokensFrom(t, 4) == ["tan"];
    assert RunEnd(t, 0) == 4;
    assert t[0..4] == "sqrm";
  }

  /** A math name at the start of a longer identifier is rewritten as well:
      "sinh" becomes "m.sinh". */
  lemma SinAtStartOfIdentifier()
    ensures Replace("sinh", "sin", "m.sin") == "m.sinh"
  {
    var s := "sinh";
    assert s[..3] == "sin";
    assert Find(s, "sin") == 0;
    assert s[3..] == "h";
    assert Find("h", "sin") == 1;
  }

  /** The identifiers of "m.sinh": m among them. */
  lemma TokensOfModelPrefix()
    ensures Tokens("m.sinh") == ["m", "sinh"]
  {
    var t := "m.sinh";
    assert RunEnd(t, 2) == 6;
    assert t[2..6] == "sinh";
    assert TokensFrom(t, 2) == ["sinh"];
    assert TokensFrom(t, 1) == ["sinh"];
    assert RunEnd(t, 0) == 1;
    assert t[0..1] == "m";
  }

  /** The identifiers of "m.sin(x)". */
  lemma TokensOfModelCall()
    ensures Tokens("m.sin(x)") == ["m", "sin", "x"]
  {
    var s := "m.sin(x)";
    assert RunEnd(s, 6) == 7;
    assert s[6..7] == "x";
    assert TokensFrom(s, 7) == [];
    assert TokensFrom(s, 6) == ["x"];
    assert TokensFrom(s, 5) == ["x"];
    assert RunEnd(s, 2) == 5;
    assert s[2..5] == "sin";
    assert TokensFrom(s, 2) == ["sin", "x"];
    assert TokensFrom(s, 1) == ["sin", "x"];
    assert RunEnd(s, 0) == 1;
    assert s[0..1] == "m";
  }

  /** Of those, sin is reserved and the other two are unknowns. */
  lemma UnknownsOfModelCall()
    ensures Unknowns("m.sin(x)", Reserved) == {"m", "x"}
  {
    TokensOfModelCall();
    assert "sin" in Reserved && "m" !in Reserved && "x" !in Reserved;
    forall t | t in Unknowns("m.sin(x)", Reserved) ensures t == "m" || t == "x" {
      assert t in ["m", "sin", "x"];
    }
  }

  /** The identifiers of "xm.sin". */
  lemma TokensOfGrownPrefix()
    ensures Tokens("xm.sin") == ["xm", "sin"]
  {
    var t := "xm.sin";
    assert RunEnd(t, 3) == 6;
    assert t[3..6] == "sin";
    assert TokensFrom(t, 3) == ["sin"];
    assert TokensFrom(t, 2) == ["sin"];
    assert RunEnd(t, 0) == 2;
    assert t[0..2] == "xm";
  }

  // ---------------------------------------------------------------------
  // Scopes and the solution dictionary

  /** What a name means inside an equation handed to GEKKO: a solver
      variable, a constant, or the model object m. */
  datatype ModelBinding = SolverVar(name: string) | Constant(value: real) | Model

  /** {**g_vars, **coefficients, "m": m}: constants shadow solver variables,
      and m is always the model, even when m was discovered as an unknown. */
  function EquationScope(gvars: set<string>, coefficients: map<string, real>): (scope: map<string, ModelBinding>)
    ensures scope.Keys == gvars + coefficients.Keys + {"m"}
    ensures scope["m"] == Model
    ensures forall k :: k in coefficients && k != "m" ==> scope[k] == Constant(coefficients[k])
    ensures forall k :: k in gvars && k !in coefficients && k != "m" ==> scope[k] == SolverVar(k)
  {
    ((map k | k in gvars :: SolverVar(k)) + (map k | k in coefficients :: Constant(coefficients[k])))["m" := Model]
  }

  /** The solution dictionary: the solved value of every unknown except m. */
  function SolutionDict(vars: seq<string>, solved: string -> real): (d: map<string, real>)
    ensures "m" !in d
    ensures forall v :: v in d <==> v in vars && v != "m"
    ensures forall v :: v in d ==> d[v] == solved(v)
  {
    map v | v in vars && v != "m" :: solved(v)
  }

  /** Numbers for the solution, overwritten by numbers for the constants,
      overwritten by the built-ins named in top. */
  function Layered(solution: map<string, real>, coefficients: map<string, real>, top: set<string>): (scope: map<string, Binding>)
    ensures scope.Keys == solution.Keys + coefficients.Keys + top
    ensures forall k :: k in top ==> scope[k] == Builtin(k)
    ensures forall k :: k in coefficients && k !in top ==> scope[k] == Number(coefficients[k])
    ensures forall k :: k in solution && k !in coefficients && k !in top ==> scope[k] == Number(solution[k])
  {
    (map k | k in solution :: Number(solution[k]))
      + (map k | k in coefficients :: Number(coefficients[k]))
      + (map k | k in top :: Builtin(k))
  }

  /** The residual scope: the solution, updated by the constants, updated by
      the math names. The math names come last and win, so a constant named
      e or pi is shadowed here although it shadows the math name while the
      constants are evaluated. */
  function ResidualScope(solution: map<string, real>, coefficients: map<string, real>): (scope: map<string, Binding>)
    ensures scope.Keys == solution.Keys + coefficients.Keys + SafeMath
    ensures forall k :: k in SafeMath ==> scope[k] == Builtin(k)
    ensures forall k :: k in coefficients && k !in SafeMath ==> scope[k] == Number(coefficients[k])
    ensures forall k :: k in solution && k !in coefficients && k !in SafeMath ==> scope[k] == Number(solution[k])
  {
    Layered(solution, coefficients, SafeMath)
  }

  /** The two scopes disagree on a constant named like a math name. */
  lemma ConstantShadowing(solution: map<string, real>, coefficients: map<string, real>)
    requires "e" in coefficients
    ensures ConstantScope(coefficients)["e"] == Number(coefficients["e"])
    ensures ResidualScope(solution, coefficients)["e"] == Builtin("e")
  {
  }

  // ---------------------------------------------------------------------
  // Residual report

  /** One line of the residual report, numbered from 1. */
  datatype ResidualLine = Residual(eq: nat, value: real) | NoResidual(eq: nat)

  /** lhs, rhs = eq.split('='), each side stripped and evaluated, and the
      residual lhs - rhs; NoResidual when the split does not give exactly two
      parts or a side fails to evaluate. */
  function ResidualOf(i: nat, eq: string, scope: map<string, Binding>, eval: Evaluator): ResidualLine {
    var parts := Split(eq, "=");
    if |parts| != 2 then NoResidual(i)
    else
      var l := eval(Strip(parts[0]), scope);
      var r := eval(Strip(parts[1]), scope);
      if l.Some? && r.Some? then Residual(i, l.value - r.value) else NoResidual(i)
  }

  /** f applied to each element and its number, counting from i:
      Python's enumerate(xs, i). */
  function Numbered<T, U>(xs: seq<T>, i: nat, f: (nat, T) -> U): seq<U> {
    if xs == [] then [] else [f(i, xs[0])] + Numbered(xs[1..], i + 1, f)
  }

  lemma {:induction false} NumberedAppend<T, U>(xs: seq<T>, x: T, i: nat, f: (nat, T) -> U)
    ensures Numbered(xs + [x], i, f) == Numbered(xs, i, f) + [f(i + |xs|, x)]
  {
    if xs == [] {
      assert xs + [x] == [x];
      assert [x][1..] == [];
    } else {
      assert (xs + [x])[1..] == xs[1..] + [x];
      NumberedAppend(xs[1..], x, i + 1, f);
    }
  }

  lemma {:induction false} NumberedPointwise<T, U>(xs: seq<T>, i: nat, f: (nat, T) -> U)
    ensures |Numbered(xs, i, f)| == |xs|
    ensures forall k :: 0 <= k < |xs| ==> Numbered(xs, i, f)[k] == f(i + k, xs[k])
  {
    if xs != [] {
      NumberedPointwise(xs[1..], i + 1, f);
    }
  }

  /** original_eqs: the equations as typed, stripped. */
  function Originals(equations: seq<string>): (r: seq<string>)
    ensures |r| == |equations|
  {
    seq(|equations|, k requires 0 <= k < |equations| => Strip(equations[k]))
  }

  /** The residual report: one line per original equation, numbered from 1. */
  function Report(originals: seq<string>, scope: map<string, Binding>, eval: Evaluator): seq<ResidualLine> {
    Numbered(originals, 1, (i: nat, eq: string) => ResidualOf(i, eq, scope, eval))
  }

  /** The report has one line per equation, in order: the k-th line is the
      residual of the k-th equation under the number k + 1. */
  lemma ReportPointwise(originals: seq<string>, scope: map<string, Binding>, eval: Evaluator)
    ensures |Report(originals, scope, eval)| == |originals|
    ensures forall k :: 0 <= k < |originals| ==>
      Report(originals, scope, eval)[k] == ResidualOf(k + 1, originals[k], scope, eval)
  {
    NumberedPointwise(originals, 1, (i: nat, eq: string) => ResidualOf(i, eq, scope, eval));
  }

  /** The body of the residual loop: the try block and its handler. */
  method ComputeResidual(i: nat, eq: string, scope: map<string, Binding>, eval: Evaluator)
    returns (line: ResidualLine)
    ensures line == ResidualOf(i, eq, scope, eval)
  {
    var parts := Split(eq, "=");
    if |parts| != 2 {
      return NoResidual(i);
    }
    var lhs := eval(Strip(parts[0]), scope);
    var rhs := eval(Strip(parts[1]), scope);
    if lhs.Some? && rhs.Some? {
      return Residual(i, lhs.value - rhs.value);
    }
    return NoResidual(i);
  }

  /** The residual loop over the stripped original equations; an equation
      whose residual cannot be computed is reported and the loop goes on. */
  method ResidualReport(originals: seq<string>, scope: map<string, Binding>, eval: Evaluator)
    returns (report: seq<ResidualLine>)
    ensures report == Report(originals, scope, eval)
  {
    report := [];
    for i := 0 to |originals|
      invariant report == Report(originals[..i], scope, eval)
    {
      var line := ComputeResidual(i + 1, originals[i], scope, eval);
      ReportSnoc(originals, i, scope, eval);
      report := report + [line];
    }
    assert originals[..|originals|] == originals;
  }

  /** Reporting one more equation adds its line at the end. */
  lemma ReportSnoc(originals: seq<string>, i: nat, scope: map<string, Binding>, eval: Evaluator)
    requires i < |originals|
    ensures Report(originals[..i + 1], scope, eval) ==
      Report(originals[..i], scope, eval) + [ResidualOf(i + 1, originals[i], scope, eval)]
  {
    assert originals[..i + 1] == originals[..i] + [originals[i]];
    NumberedAppend(originals[..i], originals[i], 1, (i: nat, eq: string) => ResidualOf(i, eq, scope, eval));
  }

  /** The residual of an equation lhs = rhs with a single '=' is the value
      of the stripped lhs minus that of the stripped rhs, when both
      evaluate; with any other number of '=' there is none. */
  lemma ResidualExactly(i: nat, eq: string, scope: map<string, Binding>, eval: Evaluator, a: string, b: string)
    requires eq == a + "=" + b && '=' !in a && '=' !in b
    ensures var l := eval(Strip(a), scope);
      var r := eval(Strip(b), scope);
      ResidualOf(i, eq, scope, eval) ==
        if l.Some? && r.Some? then Residual(i, l.value - r.value) else NoResidual(i)
  {
    assert "=" == ['='];
    SplitAtOnly(eq, '=', a, b);
  }

  lemma NoResidualWithoutSingleEquals(i: nat, eq: string, scope: map<string, Binding>, eval: Evaluator)
    requires multiset(eq)['='] != 1
    ensures ResidualOf(i, eq, scope, eval) == NoResidual(i)
  {
    assert "=" == ['='];
    TwoPartsExactly(eq, '=');
  }

  // ---------------------------------------------------------------------
  // solution(): from the equations to the answer and the residual report

  /** GEKKO: build the model from the equations evaluated in the scope,
      start its variables from the guess and solve it; the solved value of
      each name, or None where building or solving the model raises. */
  type ModelSolver = (seq<string>, map<string, ModelBinding>, map<string, real>) -> Option<string -> real>

  /** What solution() returns: the solution dictionary and the residual
      report written to its log. */
  datatype GekkoAnswer = GekkoAnswer(solution: map<string, real>, report: seq<ResidualLine>)

  /** Solution.solution of gekko_solver.py: keep the stripped originals,
      rewrite the equations, discover the unknowns (reading the constants
      file first), give every unknown a starting value, solve, and report
      the solution and each original equation's residual. The constants
      and the residuals go through two different Python evals: eval is the
      one of the constants file, with Python's builtins removed, and
      residualEval the one of the residual report, whose globals are empty
      and so still reach the builtins. */
  method Solve(s: Solution, equations: seq<string>, initialGuess: Option<map<string, real>>,
               solve: ModelSolver, eval: Evaluator, residualEval: Evaluator, rng: Draws, drawn: nat)
    returns (answer: Result<GekkoAnswer, SolveError>, drawnAfter: nat)
    modifies s`coefficients, s`variables
    ensures s.coefficients == ParseResult(old(s.coefficients), s.constantsFile, eval).table
    ensures var parsed := ParseResult(old(s.coefficients), s.constantsFile, eval);
      parsed.Failed? ==>
        answer == Err(InvalidConstant(parsed.key, parsed.expr)) && s.variables == old(s.variables) &&
        drawnAfter == drawn
    ensures var processed := ProcessEquations(equations);
      var guess := if initialGuess.Some? then initialGuess.value else map[];
      var gvars := ZipMap(s.variables, GuessValues(s.variables, guess, rng, drawn));
      var solved := solve(processed, EquationScope(gvars.Keys, s.coefficients), gvars);
      ParseResult(old(s.coefficients), s.constantsFile, eval).Defined? ==>
        NoDuplicates(s.variables) &&
        (forall v :: v in s.variables <==> v in Discover(processed, Reserved + s.coefficients.Keys)) &&
        drawnAfter == drawn + Misses(s.variables, guess) &&
        (solved.None? ==> answer == Err(ModelError)) &&
        (solved.Some? ==>
          var solution := SolutionDict(s.variables, solved.value);
          answer == Ok(GekkoAnswer(solution, Report(Originals(equations), ResidualScope(solution, s.coefficients), residualEval))))
  {
    var originals := Originals(equations);
    var processed := ProcessEquations(equations);
    var outcome := s.GetVariables(processed, eval);
    if outcome.Fail? {
      return Err(ConstantFailure(outcome.error)), drawn;
    }
    var gvars;
    gvars, drawnAfter := GekkoGuess(s.variables, initialGuess, rng, drawn);
    var solved := solve(processed, EquationScope(gvars.Keys, s.coefficients), gvars);
    if solved.None? {
      return Err(ModelError), drawnAfter;
    }
    var solution := SolutionDict(s.variables, solved.value);
    var report := ResidualReport(originals, ResidualScope(solution, s.coefficients), residualEval);
    answer := Ok(GekkoAnswer(solution, report));
  }
}
