/**
 * The constants file that every solver backend reads before discovering
 * unknowns: `name = expression` lines with `#` comments, evaluated in
 * file order, each expression seeing the constants defined above it.
 */
module Constants {
  import opened Wrappers
  import opened Text

  // ---------------------------------------------------------------------
  // Cleaning

  /** One raw line with its comment and surrounding whitespace removed:
      Python's line.split('#', 1)[0].strip(). */
  function CleanLine(line: string): (r: string)
    ensures '#' !in r && IsTrimmed(r)
  {
    var code := BeforeFirst(line, '#');
    StripChars(code, '#');
    Strip(code)
  }

  /** The cleaned form of one line, as a list of zero or one kept lines. */
  function Kept(line: string): seq<string> {
    var c := CleanLine(line);
    if c != "" then [c] else []
  }

  /** The lines kept by the cleaning loop: the non-empty cleaned lines, in
      file order. */
  function Cleaned(lines: seq<string>): seq<string> {
    if lines == [] then [] else Kept(lines[0]) + Cleaned(lines[1..])
  }

  /** Cleaning respects file order: cleaning two parts and concatenating is
      cleaning the whole. */
  lemma {:induction false} CleanedAppend(a: seq<string>, b: seq<string>)
    ensures Cleaned(a + b) == Cleaned(a) + Cleaned(b)
  {
    if a == [] {
      assert a + b == b;
    } else {
      assert (a + b)[1..] == a[1..] + b;
      CleanedAppend(a[1..], b);
      ConcatAssoc(Kept(a[0]), Cleaned(a[1..]), Cleaned(b));
    }
  }

  /** Cleaning from line i on keeps what line i keeps, then cleans the rest. */
  lemma CleanedFrom(lines: seq<string>, i: nat)
    requires i < |lines|
    ensures Cleaned(lines[i..]) == Kept(lines[i]) + Cleaned(lines[i + 1..])
  {
    assert lines[i..][1..] == lines[i + 1..];
  }

  /** One pass of the comment-stripping loop: the line, cleaned, is
      appended when it is not empty. */
  method AppendCleaned(cleaned: seq<string>, raw: string) returns (r: seq<string>)
    ensures r == cleaned + Kept(raw)
  {
    var line := CleanLine(raw);
    r := cleaned;
    if line != "" {
      r := r + [line];
    }
  }

  /** The comment-stripping loop: appends each non-empty cleaned line. */
  method CleanConstantLines(lines: seq<string>) returns (cleaned: seq<string>)
    ensures cleaned == Cleaned(lines)
  {
    cleaned := [];
    var i := 0;
    while i < |lines|
      invariant 0 <= i <= |lines|
      invariant Cleaned(lines) == cleaned + Cleaned(lines[i..])
    {
      CleanedFrom(lines, i);
      ConcatAssoc(cleaned, Kept(lines[i]), Cleaned(lines[i + 1..]));
      cleaned := AppendCleaned(cleaned, lines[i]);
      i := i + 1;
    }
    assert lines[i..] == [];
  }

  /** Every kept line is non-empty, trimmed and free of comments. */
  lemma {:induction false} CleanedShape(lines: seq<string>)
    ensures forall x :: x in Cleaned(lines) ==> x != "" && '#' !in x && IsTrimmed(x)
    ensures |Cleaned(lines)| <= |lines|
  {
    if lines != [] {
      CleanedShape(lines[1..]);
    }
  }

  /** A text is kept exactly when it is the non-empty cleaned form of some line. */
  lemma {:induction false} CleanedMembers(lines: seq<string>, x: string)
    ensures x in Cleaned(lines) <==> x != "" && exists k :: 0 <= k < |lines| && CleanLine(lines[k]) == x
  {
    if lines != [] {
      var rest := lines[1..];
      CleanedMembers(rest, x);
      if exists k :: 0 <= k < |lines| && CleanLine(lines[k]) == x {
        var k :| 0 <= k < |lines| && CleanLine(lines[k]) == x;
        if k > 0 {
          assert rest[k - 1] == lines[k];
        }
      }
      if exists k :: 0 <= k < |rest| && CleanLine(rest[k]) == x {
        var k :| 0 <= k < |rest| && CleanLine(rest[k]) == x;
        assert lines[k + 1] == rest[k];
      }
    }
  }

  /** A line that is already clean survives cleaning unchanged. */
  lemma CleanLineOfClean(x: string)
    requires '#' !in x && IsTrimmed(x)
    ensures CleanLine(x) == x
  {
    assert BeforeFirst(x, '#') == x;
    assert x == [] + x + [];
    StripUnique(x, [], x, []);
  }

  /** Cleaning is idempotent. */
  lemma {:induction false} CleanedIdempotent(lines: seq<string>)
    ensures Cleaned(Cleaned(lines)) == Cleaned(lines)
  {
    if lines != [] {
      var c := CleanLine(lines[0]);
      CleanedIdempotent(lines[1..]);
      CleanedAppend(Kept(lines[0]), Cleaned(lines[1..]));
      if c != "" {
        CleanLineOfClean(c);
        assert Cleaned([c]) == Kept(c) + Cleaned([]);
      }
    }
  }

  // ---------------------------------------------------------------------
  // Evaluation scope

  /** What a name stands for when an expression is evaluated: a value of
      Python's math module (a function, or pi or e), or a constant. */
  datatype Binding = Builtin(name: string) | Number(value: real)

  /** The names of the `safe_math` table handed to eval. */
  const SafeMath: set<string> := {"sqrt", "sin", "cos", "tan", "log", "ln", "exp", "pi", "e"}

  /** Python's {**safe_math, **coefficients}: the math names, shadowed by
      every constant defined so far. */
  function ConstantScope(table: map<string, real>): (scope: map<string, Binding>)
    ensures scope.Keys == SafeMath + table.Keys
    ensures forall k :: k in table ==> scope[k] == Number(table[k])
    ensures forall k :: k in SafeMath && k !in table ==> scope[k] == Builtin(k)
  {
    (map k | k in SafeMath :: Builtin(k)) + (map k | k in table :: Number(table[k]))
  }

  /** One of Python's evals of an expression against a scope: a number, or
      None when evaluation raises or gives something other than a number. */
  type Evaluator = (string, map<string, Binding>) -> Option<real>

  // ---------------------------------------------------------------------
  // Definition

  /** The error `Invalid expression for '<key>': '<expr>'` raised as ValueError. */
  datatype ConstantError = InvalidExpression(key: string, expr: string)

  /** The constants table after a run of definitions; on failure, the table
      as it stood when the failing line was reached. */
  datatype Definitions =
    | Defined(table: map<string, real>)
    | Failed(table: map<string, real>, key: string, expr: string)

  /** A cleaned line defines a constant when it contains '=': the key and the
      expression are the trimmed texts around its first '='. */
  predicate IsDefinition(line: string) {
    '=' in line
  }

  function KeyOf(line: string): string
    requires IsDefinition(line)
  {
    Strip(SplitOnce(line, '=').0)
  }

  function ExprOf(line: string): string
    requires IsDefinition(line)
  {
    Strip(SplitOnce(line, '=').1)
  }

  /** One line of the definition loop: a line without '=' is skipped; a
      definition evaluates its expression in the scope of the table so far
      and stores the value under its key, overwriting an earlier one; None
      when the evaluation raises. */
  function Step(table: map<string, real>, line: string, eval: Evaluator): (r: Option<map<string, real>>)
    ensures !IsDefinition(line) ==> r == Some(table)
    ensures r.None? ==> IsDefinition(line)
  {
    if !IsDefinition(line) then Some(table)
    else
      match eval(ExprOf(line), ConstantScope(table))
      case None => None
      case Some(v) => Some(table[KeyOf(line) := v])
  }

  /** The definition loop: lines in file order, each stepped on the table
      built so far; the first failing evaluation stops the run. */
  function Define(table: map<string, real>, lines: seq<string>, eval: Evaluator): Definitions
    decreases |lines|
  {
    if lines == [] then Defined(table)
    else
      match Step(table, lines[0], eval)
      case None => Failed(table, KeyOf(lines[0]), ExprOf(lines[0]))
      case Some(t) => Define(t, lines[1..], eval)
  }

  /** The definition loop of parse_constants_file over the cleaned lines:
      the table grows line by line until an expression fails to evaluate. */
  method DefineConstants(table: map<string, real>, cleaned: seq<string>, eval: Evaluator) returns (d: Definitions)
    ensures d == Define(table, cleaned, eval)
  {
    var t := table;
    var i := 0;
    while i < |cleaned|
      invariant 0 <= i <= |cleaned|
      invariant Define(table, cleaned, eval) == Define(t, cleaned[i..], eval)
    {
      var line := cleaned[i];
      assert cleaned[i..] == [line] + cleaned[i + 1..];
      DefineCons(t, line, cleaned[i + 1..], eval);
      if '=' in line {
        var kv := SplitOnce(line, '=');
        var key, value := Strip(kv.0), Strip(kv.1);
        var v := eval(value, ConstantScope(t));
        if v.None? {
          return Failed(t, key, value);
        }
        t := t[key := v.value];
      }
      i := i + 1;
    }
    assert cleaned[i..] == [];
    return Defined(t);
  }

  /** Continue a run of definitions after an earlier run. */
  function Then(d: Definitions, lines: seq<string>, eval: Evaluator): Definitions {
    if d.Failed? then d else Define(d.table, lines, eval)
  }

  /** Definitions run in file order: running a + b is running a and then b
      on a's table; once a fails, b is never looked at. */
  lemma {:induction false} DefineAppend(table: map<string, real>, a: seq<string>, b: seq<string>, eval: Evaluator)
    ensures Define(table, a + b, eval) == Then(Define(table, a, eval), b, eval)
    decreases |a|
  {
    if a == [] {
      assert a + b == b;
    } else {
      assert (a + b)[0] == a[0];
      assert (a + b)[1..] == a[1..] + b;
      match Step(table, a[0], eval)
      case None =>
      case Some(t) => DefineAppend(t, a[1..], b, eval);
    }
  }

  /** A single definition line evaluates its expression in the current scope
      and overwrites (or adds) its key. */
  lemma DefineOne(table: map<string, real>, line: string, eval: Evaluator)
    requires IsDefinition(line)
    ensures eval(ExprOf(line), ConstantScope(table)).None? ==>
              Define(table, [line], eval) == Failed(table, KeyOf(line), ExprOf(line))
    ensures eval(ExprOf(line), ConstantScope(table)).Some? ==>
              Define(table, [line], eval) == Defined(table[KeyOf(line) := eval(ExprOf(line), ConstantScope(table)).value])
  {
    assert [line][1..] == [];
  }

  /** The definition loop's step: the first line decides whether the run
      stops or goes on with the rest on the stepped table. */
  lemma DefineCons(table: map<string, real>, line: string, rest: seq<string>, eval: Evaluator)
    ensures Step(table, line, eval).None? ==>
              Define(table, [line] + rest, eval) == Failed(table, KeyOf(line), ExprOf(line))
    ensures Step(table, line, eval).Some? ==>
              Define(table, [line] + rest, eval) == Define(Step(table, line, eval).value, rest, eval)
  {
    assert ([line] + rest)[0] == line && ([line] + rest)[1..] == rest;
  }

  /** Some line of lines defines key. */
  predicate Defines(lines: seq<string>, key: string) {
    exists k :: 0 <= k < |lines| && IsDefinition(lines[k]) && KeyOf(lines[k]) == key
  }

  /** A name that no line defines keeps whatever the table held for it. */
  lemma {:induction false} DefineUntouched(table: map<string, real>, lines: seq<string>, eval: Evaluator, key: string)
    requires !Defines(lines, key)
    ensures var t := Define(table, lines, eval).table;
      (key in t <==> key in table) && (key in table ==> t[key] == table[key])
    decreases |lines|
  {
    if lines != [] {
      assert !Defines(lines[1..], key);
      assert IsDefinition(lines[0]) ==> KeyOf(lines[0]) != key;
      match Step(table, lines[0], eval)
      case None =>
      case Some(t) => DefineUntouched(t, lines[1..], eval, key);
    }
  }

  /** The last definition of a name wins: its value is its expression
      evaluated in the scope of everything defined above it. */
  lemma LastDefinitionWins(table: map<string, real>, a: seq<string>, line: string, b: seq<string>, eval: Evaluator)
    requires IsDefinition(line) && !Defines(b, KeyOf(line))
    requires Define(table, a + [line] + b, eval).Defined?
    ensures Define(table, a, eval).Defined?
    ensures var before := Define(table, a, eval).table;
      var v := eval(ExprOf(line), ConstantScope(before));
      v.Some? && KeyOf(line) in Define(table, a + [line] + b, eval).table &&
      Define(table, a + [line] + b, eval).table[KeyOf(line)] == v.value
  {
    DefineAppend(table, a, [line] + b, eval);
    assert a + [line] + b == a + ([line] + b);
    var before := Define(table, a, eval);
    if before.Defined? {
      DefineAppend(before.table, [line], b, eval);
      DefineOne(before.table, line, eval);
      var v := eval(ExprOf(line), ConstantScope(before.table));
      if v.Some? {
        DefineUntouched(before.table[KeyOf(line) := v.value], b, eval, KeyOf(line));
      }
    }
  }

  lemma TakeOfTail<T>(s: seq<T>, k: nat)
    requires k < |s|
    ensures s[..k + 1] == [s[0]] + s[1..][..k]
  {
  }

  /** The index of the line a failed run stopped at. */
  lemma {:induction false} FailingLine(table: map<string, real>, lines: seq<string>, eval: Evaluator) returns (k: nat)
    requires Define(table, lines, eval).Failed?
    ensures var d := Define(table, lines, eval);
      k < |lines| && IsDefinition(lines[k]) &&
        KeyOf(lines[k]) == d.key && ExprOf(lines[k]) == d.expr &&
        Define(table, lines[..k], eval) == Defined(d.table) &&
        eval(d.expr, ConstantScope(d.table)).None?
    decreases |lines|
  {
    var d := Define(table, lines, eval);
    match Step(table, lines[0], eval)
    case None =>
      assert lines[..0] == [];
      k := 0;
    case Some(t) =>
      var rest := lines[1..];
      assert d == Define(t, rest, eval);
      var j := FailingLine(t, rest, eval);
      assert Define(table, lines[..j + 1], eval) == Defined(d.table) by {
        TakeOfTail(lines, j);
        DefineAppend(table, [lines[0]], rest[..j], eval);
        assert [lines[0]][1..] == [];
      }
      assert lines[j + 1] == rest[j];
      k := j + 1;
  }

  /** A failure names the key and expression of a definition line whose
      evaluation failed in the scope of the definitions above it. */
  lemma FailureNamesItsLine(table: map<string, real>, lines: seq<string>, eval: Evaluator)
    requires Define(table, lines, eval).Failed?
    ensures var d := Define(table, lines, eval);
      exists k :: 0 <= k < |lines| && IsDefinition(lines[k]) &&
        KeyOf(lines[k]) == d.key && ExprOf(lines[k]) == d.expr &&
        Define(table, lines[..k], eval) == Defined(d.table) &&
        eval(d.expr, ConstantScope(d.table)).None?
  {
    var k := FailingLine(table, lines, eval);
  }
}
