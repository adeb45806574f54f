/**
 * The front end shared by the numpy/sympy Newton solver and the two SciPy
 * back ends: equation normalisation, the constants file and discovery of
 * the unknowns. The four back ends declare the same `Solution` class with
 * textually identical parse_constants_file and get_variables; it is
 * modelled once here.
 */
module FrontEnd {
  import opened Wrappers
  import opened Text
  import opened Identifiers
  import opened Constants

  // ---------------------------------------------------------------------
  // Equation normalisation

  /** Python's eq.split('=')[0].strip(): the trimmed left-hand side. */
  function LeftSide(eq: string): (r: string)
    ensures '=' !in r && IsTrimmed(r)
  {
    var lhs := BeforeFirst(eq, '=');
    StripChars(lhs, '=');
    Strip(lhs)
  }

  /** process_equations of the Newton and SciPy back ends. */
  function ProcessEquations(eqs: seq<string>): (r: seq<string>)
    ensures |r| == |eqs|
    ensures forall k :: 0 <= k < |r| ==> '=' !in r[k] && IsTrimmed(r[k])
  {
    seq(|eqs|, k requires 0 <= k < |eqs| => LeftSide(eqs[k]))
  }

  /** The left-hand side is characterised by its place in the equation:
      whitespace, a trimmed text r without '=', whitespace, and then either
      the end of the equation or its first '='. */
  lemma LeftSideUnique(eq: string, w1: string, r: string, w2: string, rest: string)
    requires eq == w1 + r + w2 + rest
    requires AllSpace(w1) && AllSpace(w2) && IsTrimmed(r) && '=' !in r
    requires rest == [] || rest[0] == '='
    ensures LeftSide(eq) == r
  {
    var pre := w1 + r + w2;
    assert '=' !in pre by {
      forall k | 0 <= k < |pre| ensures pre[k] != '=' {
        if k < |w1| {
          assert IsSpace(w1[k]);
        } else if k < |w1| + |r| {
          assert pre[k] == r[k - |w1|];
        } else {
          assert IsSpace(w2[k - |w1| - |r|]);
        }
      }
    }
    var b := BeforeFirst(eq, '=');
    assert eq == pre + rest;
    assert forall k :: 0 <= k < |pre| ==> eq[k] == pre[k];
    assert forall k :: 0 <= k < |b| ==> b[k] == eq[k] && b[k] != '=';
    assert rest != [] ==> eq[|pre|] == '=';
    assert b == pre;
    StripUnique(pre, w1, r, w2);
  }

  /** An equation without '=' keeps its whole trimmed text. */
  lemma LeftSideOfExpression(eq: string)
    requires '=' !in eq
    ensures LeftSide(eq) == Strip(eq)
  {
  }

  /** Normalising is idempotent: a left-hand side is its own left-hand side. */
  lemma LeftSideIdempotent(eq: string)
    ensures LeftSide(LeftSide(eq)) == LeftSide(eq)
  {
    var r := LeftSide(eq);
    assert r == [] + r + [] + [];
    LeftSideUnique(r, [], r, [], []);
  }

  /** Every identifier of a left-hand side is an identifier of the text
      before the first '=', and so of the equation: the right-hand side is
      discarded, nothing is invented. */
  lemma LeftSideTokens(eq: string, t: string)
    requires t in Tokens(LeftSide(eq))
    ensures t in Tokens(BeforeFirst(eq, '='))
    ensures t in Tokens(eq)
  {
    var u := BeforeFirst(eq, '=');
    var lo, hi := StripStart(u), StripEnd(u);
    assert Strip(u) == u[lo..hi];
    if lo > 0 {
      assert IsSpace(u[lo - 1]);
    }
    if hi < |u| {
      assert IsSpace(u[hi]);
    }
    TokenOfWindow(u, lo, hi, t);
    assert u == eq[0..|u|];
    if |u| < |eq| {
      assert eq[|u|] == '=';
    }
    TokenOfWindow(eq, 0, |u|, t);
  }

  /** An identifier that only appears to the right of '=' never reaches
      variable discovery: "x = y" normalises to "x". */
  lemma RightSideDiscarded()
    ensures LeftSide("x = y") == "x"
  {
    assert "x = y" == "" + "x" + " " + "= y";
    LeftSideUnique("x = y", "", "x", " ", "= y");
  }

  // ---------------------------------------------------------------------
  // Variable discovery

  /** The names get_variables never reports: the math functions and pi.
      The constant e of the evaluation scope is not among them. */
  const Reserved: set<string> := {"sin", "cos", "tan", "sqrt", "log", "ln", "exp", "pi"}

  /** The identifiers of one equation that are not excluded. */
  function Unknowns(eq: string, excluded: set<string>): set<string> {
    set t | t in Tokens(eq) && t !in excluded
  }

  /** The identifiers of a list of equations that are not excluded. */
  function Discover(eqs: seq<string>, excluded: set<string>): set<string> {
    if eqs == [] then {} else Unknowns(eqs[0], excluded) + Discover(eqs[1..], excluded)
  }

  lemma {:induction false} DiscoverAppend(a: seq<string>, b: seq<string>, excluded: set<string>)
    ensures Discover(a + b, excluded) == Discover(a, excluded) + Discover(b, excluded)
  {
    if a == [] {
      assert a + b == b;
    } else {
      assert (a + b)[1..] == a[1..] + b;
      DiscoverAppend(a[1..], b, excluded);
    }
  }

  /** A name is discovered exactly when it is not excluded and is an
      identifier of one of the equations. */
  lemma {:induction false} DiscoverExactly(eqs: seq<string>, excluded: set<string>, v: string)
    ensures v in Discover(eqs, excluded) <==>
      v !in excluded && exists k :: 0 <= k < |eqs| && v in Tokens(eqs[k])
  {
    if eqs != [] {
      var rest := eqs[1..];
      DiscoverExactly(rest, excluded, v);
      if exists k :: 0 <= k < |eqs| && v in Tokens(eqs[k]) {
        var k :| 0 <= k < |eqs| && v in Tokens(eqs[k]);
        if k > 0 {
          assert rest[k - 1] == eqs[k];
        }
      }
      if exists k :: 0 <= k < |rest| && v in Tokens(rest[k]) {
        var k :| 0 <= k < |rest| && v in Tokens(rest[k]);
        assert eqs[k + 1] == rest[k];
      }
    }
  }

  /** Discovery on normalised equations finds only identifiers of the
      original equations, and only ones left of an equation's first '='. */
  lemma DiscoverNormalised(eqs: seq<string>, excluded: set<string>, v: string)
    requires v in Discover(ProcessEquations(eqs), excluded)
    ensures v !in excluded && exists k :: 0 <= k < |eqs| && v in Tokens(eqs[k])
    ensures exists k :: 0 <= k < |eqs| && v in Tokens(BeforeFirst(eqs[k], '='))
  {
    var p := ProcessEquations(eqs);
    DiscoverExactly(p, excluded, v);
    var k :| 0 <= k < |p| && v in Tokens(p[k]);
    LeftSideTokens(eqs[k], v);
  }

  /** The digit-led run "e5" of "1e5" yields no identifier. */
  lemma NumberLiteralExample()
    ensures Tokens("2*x+1e5") == ["x"]
  {
    var s := "2*x+1e5";
    assert RunEnd(s, 5) == 7;
    assert RunEnd(s, 4) == 7;
    assert TokensFrom(s, 4) == [];
    assert TokensFrom(s, 3) == [];
    assert RunEnd(s, 2) == 3;
    assert s[2..3] == "x";
    assert TokensFrom(s, 2) == ["x"];
    assert TokensFrom(s, 1) == ["x"];
    assert RunEnd(s, 0) == 1;
  }

  /** The math constant e is not reserved: it is discovered as an unknown. */
  lemma ConstantEIsDiscovered()
    ensures Discover(["e*x"], Reserved) == {"e", "x"}
  {
    var s := "e*x";
    assert RunEnd(s, 2) == 3;
    assert s[2..3] == "x";
    assert TokensFrom(s, 2) == ["x"];
    assert TokensFrom(s, 1) == ["x"];
    assert RunEnd(s, 0) == 1;
    assert s[0..1] == "e";
    assert Tokens(s) == ["e", "x"];
    assert Unknowns(s, Reserved) == {"e", "x"};
    assert ["e*x"][1..] == [];
  }

  predicate NoDuplicates<T(==)>(xs: seq<T>) {
    forall i, j :: 0 <= i < j < |xs| ==> xs[i] != xs[j]
  }

  /** The nested loops of get_variables: every identifier of every
      equation that is not excluded is added to a set. */
  method CollectUnknowns(eqs: seq<string>, excluded: set<string>) returns (found: set<string>)
    ensures found == Discover(eqs, excluded)
  {
    found := {};
    for i := 0 to |eqs|
      invariant found == Discover(eqs[..i], excluded)
    {
      var toks := Tokens(eqs[i]);
      for j := 0 to |toks|
        invariant found == Discover(eqs[..i], excluded) + set t | t in toks[..j] && t !in excluded
      {
        assert toks[..j + 1] == toks[..j] + [toks[j]];
        if toks[j] !in excluded {
          found := found + {toks[j]};
        }
      }
      assert toks[..|toks|] == toks;
      assert eqs[..i + 1] == eqs[..i] + [eqs[i]];
      DiscoverAppend(eqs[..i], [eqs[i]], excluded);
      assert Discover([eqs[i]], excluded) == Unknowns(eqs[i], excluded) by {
        assert [eqs[i]][1..] == [];
      }
    }
    assert eqs[..|eqs|] == eqs;
  }

  /** Python's list(s): the elements of a set, each once, in an order the
      model leaves open. */
  method ListOfSet(s: set<string>) returns (xs: seq<string>)
    ensures NoDuplicates(xs)
    ensures forall v :: v in xs <==> v in s
    ensures |xs| == |s|
  {
    xs := [];
    var rest := s;
    while rest != {}
      invariant NoDuplicates(xs)
      invariant rest !! set v | v in xs
      invariant forall v :: v in s <==> v in xs || v in rest
      invariant |xs| + |rest| == |s|
      decreases |rest|
    {
      var v :| v in rest;
      xs := xs + [v];
      rest := rest - {v};
    }
  }

  // ---------------------------------------------------------------------
  // The solver object

  /** What parse_constants_file does to a constants table: nothing without
      a constants file, otherwise the definitions of its cleaned lines. */
  function ParseResult(table: map<string, real>, file: Option<seq<string>>, eval: Evaluator): Definitions {
    if file.None? then Defined(table) else Define(table, Cleaned(file.value), eval)
  }

  /** The exception a run of definitions raises, if any. */
  function Raised(d: Definitions): (o: Outcome<ConstantError>)
    ensures o.Pass? <==> d.Defined?
    ensures o.Fail? ==> o.error.key == d.key && o.error.expr == d.expr
  {
    if d.Defined? then Pass else Fail(InvalidExpression(d.key, d.expr))
  }

  /** What a solution() call raises: the constants file's ValueError, a
      ValueError with the given message, the TypeError of calling the
      compiled system with the wrong number of values, or an exception from
      the GEKKO model. */
  datatype SolveError =
    | InvalidConstant(key: string, expr: string)
    | ValueError(message: string)
    | TypeError
    | ModelError

  /** The constants file's error as solution() raises it. */
  function ConstantFailure(e: ConstantError): SolveError {
    InvalidConstant(e.key, e.expr)
  }

  class Solution {
    var equations: seq<string>
    var variables: seq<string>
    var coefficients: map<string, real>
    /** The lines of the file at constantspath; None while no path is set. */
    var constantsFile: Option<seq<string>>

    constructor ()
      ensures equations == [] && variables == [] && coefficients == map[]
      ensures constantsFile == None
    {
      equations := [];
      variables := [];
      coefficients := map[];
      constantsFile := None;
    }

    /** parse_constants_file: clean the file's lines, then define the
        constants in file order into `coefficients`; the first expression
        that fails to evaluate raises. */
    method ParseConstantsFile(eval: Evaluator) returns (outcome: Outcome<ConstantError>)
      modifies this`coefficients
      ensures coefficients == ParseResult(old(coefficients), constantsFile, eval).table
      ensures outcome == Raised(ParseResult(old(coefficients), constantsFile, eval))
    {
      if constantsFile.None? {
        return Pass;
      }
      var cleaned := CleanConstantLines(constantsFile.value);
      var d := DefineConstants(coefficients, cleaned, eval);
      coefficients := d.table;
      outcome := Raised(d);
    }

    /** get_variables: parse the constants file, then collect every
        identifier of the equations that is neither reserved nor a constant,
        each once, in the order list(set) happens to give. */
    method GetVariables(eqs: seq<string>, eval: Evaluator) returns (outcome: Outcome<ConstantError>)
      modifies this`coefficients, this`variables
      ensures coefficients == ParseResult(old(coefficients), constantsFile, eval).table
      ensures outcome == Raised(ParseResult(old(coefficients), constantsFile, eval))
      ensures outcome.Fail? ==> variables == old(variables)
      ensures outcome.Pass? ==> NoDuplicates(variables)
      ensures outcome.Pass? ==> forall v :: v in variables <==> v in Discover(eqs, Reserved + coefficients.Keys)
    {
      outcome := ParseConstantsFile(eval);
      if outcome.Fail? {
        return;
      }
      var excluded := Reserved + coefficients.Keys;
      var found := CollectUnknowns(eqs, excluded);
      variables := ListOfSet(found);
    }
  }
}
