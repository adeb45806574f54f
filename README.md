# Equation solver front end and Newton loop, in Dafny

The system is a small web tool for solving systems of nonlinear
equations. It has four interchangeable Python back ends: a hand-written
Newton-Raphson solver over sympy and NumPy, `scipy.optimize.root`,
`scipy.optimize.least_squares`, and GEKKO. A Flask page and its script
sit in front of them. This project models the text-to-model front end
that the back ends share, the Newton loop's control flow, and the
`solution()` driver of each back end. It then proves properties of the
model.

Parts of the model:

- **Text** (`text.dfy`) models the Python and JavaScript string operations the
  code relies on: `strip`/`trim`, `split`, `join` and `replace`, with their
  algebra. For example, joining a split gives back the text, and replacing
  is a split followed by a join.
- **Identifiers** (`identifiers.dfy`) models `re.findall(r'\b[a-zA-Z_][a-zA-Z0-9_]*\b', s)` as a
  scanner over maximal runs of word characters.
- **Constants** (`constants.dfy`) models the constants file:
  - cleaning, which cuts each line at the first `#`, strips it and drops empty lines;
  - the ordered definition loop, where each `name = expression` line is evaluated against the
    math names and every constant defined above it, and stops at the first failure.
- **FrontEnd** (`frontend.dfy`) covers three things:
  - `process_equations` of the Newton and SciPy back ends, which keeps the stripped text
    before the first `=`;
  - variable discovery;
  - the `Solution` class its methods update: `parse_constants_file` fills `coefficients`,
    and `get_variables` sets `variables`. The four back ends carry textual copies of these
    two methods, so they are modelled once.
- **Guesses** (`guesses.dfy`) models the initial guess:
  - the guess vector of the Newton and SciPy back ends, which is either a NumPy array of
    fresh draws or a Python list built by `append`;
  - GEKKO's guess dictionary;
  - `dict(zip(...))`.
- **Newton** (`newton.dfy`) models the loop `for iteration in range(max_iter)`, with its
  `break` and `for`-`else`, as a method proved against a recursive specification. It also
  models `solution()`, which ties together discovery, the guess, the loop and the answer.
- **Scipy** (`scipy.dfy`) models `solution()` of the two SciPy back ends: the optimizer
  call, the `success` check that raises `ValueError`, and the solution dictionary.
- **Gekko** (`gekko.dfy`) models the GEKKO back end:
  - its `process_equations`, a chain of nine substring replacements;
  - the evaluation scopes;
  - the solution dictionary without `m`;
  - the residual report over the stripped original equations;
  - `solution()`.
- **App** (`app.dfy`) models two parts of the endpoints: flattening the `---`-separated blocks
  of the equations text into equation lines, and the `k = ` template the extraction endpoint
  replies with.
- **Script** (`script.dfy`) models the browser side:
  - joining several uploaded files in index order, whatever order their readers finish in;
  - the parser that turns `name = value` lines into the guess mapping.

Everything numeric is a parameter:
- Python `eval` is an `Evaluator` from a text and a scope to an
  optional number.
- The compiled sympy system, `np.linalg.norm` and `np.linalg.solve` are the
  fields of `Numerics`.
- The SciPy optimizers are an `Optimizer`.
- GEKKO's model building and `m.solve` are a `ModelSolver`.
- JavaScript's `parseFloat` is a `FloatParser`.
- The random generators are `Draws`: the n-th draw of a stream, with
  the count of draws taken threaded through. NumPy's generator and Python's
  `random` are two separate streams.

Behaviours of the code that the model reproduces, not corrects:

- **The list `+=` divergence.** With a guess mapping, the Newton back end builds `x` as a Python
  list.
  - `x += delta` then extends the list instead of adding element-wise.
  - After one update the compiled system is called with twice as many values as it has unknowns,
    and raises `TypeError` (`Newton.ListGuessBreaksArity`, `Newton.DictGuessRaises`).
  - The browser always sends a mapping, the empty one when the box is empty
    (`Script.EmptyBoxSendsEmptyMapping`). So from the web page the Newton back end fails unless
    its first guess already converges.
  - A NumPy array never hits this (`Newton.ArrayKeepsArity`).
- **`e` is not excluded.** The exclusion set lacks `e`, although `e` is a math name in the
  constants scope. So `e` in an equation is discovered as an unknown
  (`FrontEnd.ConstantEIsDiscovered`).
- **GEKKO rewrites substrings, not tokens.**
  - `xsin` becomes `xm.sin` and `spin` becomes `sm.pin` (`Gekko.SinInsideIdentifier`,
    `Gekko.PiInsideIdentifier`).
  - `m` is discovered as an unknown whenever a math name is a whole identifier of an equation
    and no constant is named `m` (`Gekko.ModelNameDiscovered`).
  - A math name at the start of a longer identifier usually gives `m` too: `sinh` becomes
    `m.sinh`, whose identifiers are `m` and `sinh` (`Gekko.SinAtStartOfIdentifier`,
    `Gekko.TokensOfModelPrefix`). An earlier rule can break such a name apart: `tan` is rewritten
    before `sqrt`, so `sqrtan` becomes `sqrm.tan`, which has no `m` (`Gekko.TanBeforeSqrt`,
    `Gekko.TokensOfBrokenSqrt`).
  - A math name further inside an identifier grows the identifier in front of it: `xsin` becomes
    `xm.sin`, whose identifiers are `xm` and `sin` (`Gekko.TokensOfGrownPrefix`).
  - `m` is kept out of the solution dictionary in either case.
- **`e` and `pi` mean different things in the two GEKKO scopes.** While the constants are
  defined, a constant named `e` or `pi` shadows the math name. In GEKKO's residual scope the math
  names are installed last and win (`Gekko.ConstantShadowing`).
- **Assigning to `"__proto__"` adds no entry.** In the browser's guess parser, a
  line `__proto__ = 1` assigns to the object's prototype and adds nothing.
- **The last update is never checked against the tolerance.** A Newton run whose last update reaches the tolerance still
  raises "did not converge" (`Newton.LastUpdateNeverChecked`), and `max_iter = 0` always raises
  (`Newton.ZeroBudget`).

Where two parts of the code treat the same input differently, the model follows each part:

- code_runner.py:61-65 cuts every equation line at its first `#`. The /solve endpoint
  (app.py:21-23) only strips and splits, so a `#` in an equation from the web page passes through
  (`App.SingleLinePassesThrough`).
- GEKKO's residual report evaluates both sides of `=` and subtracts them
  (gekko_solver.py:132-135). The `process_equations` of the Newton and SciPy back ends keeps only
  the text left of the first `=` (newton_raphson.py:19), so their right-hand sides are dropped
  (`FrontEnd.RightSideDiscarded`).

## Model

Each row cites the Newton back end (or the first back end that has the code). The other back
ends carry textual copies of the same code, which the same member models:

- the cleaning loop: gekko_solver.py:44-47;
- the definition loop: gekko_solver.py:63-72, scipy_root_solver.py:53-62 and
  scipy_ls_solver.py:50-59;
- `parse_constants_file`: gekko_solver.py:36-72, scipy_root_solver.py:26-62 and
  scipy_ls_solver.py:23-59;
- `get_variables`: gekko_solver.py:75-85, scipy_root_solver.py:66-76 and
  scipy_ls_solver.py:62-71;
- `process_equations`: scipy_root_solver.py:19-24;
- the guess vector: scipy_root_solver.py:113-121 and scipy_ls_solver.py:86-94;
- the success check: scipy_ls_solver.py:108-125;
- the equation flattening of /solve: app.py:43-45.

| member | source | states |
|---|---|---|
| Text.SpaceRunEnd | newton_raphson.py:19 | the whitespace run from i covers only whitespace and stops at the first other character or the end |
| Text.SpaceRunStart | newton_raphson.py:19 | the whitespace run ending at j covers only whitespace and starts just after another character or at the lower bound |
| Text.Strip | newton_raphson.py:19 | the result neither starts nor ends with whitespace |
| Text.StripUnique | newton_raphson.py:19 | any text written as whitespace, a trimmed core and whitespace strips to that core |
| Text.StripIdempotent | newton_raphson.py:19 | stripping twice is stripping once |
| Text.StripChars | newton_raphson.py:19 | stripping introduces no character that was not there |
| Text.FindChar | newton_raphson.py:19 | the first occurrence of c is at the position found, and none lies before it |
| Text.FreeChar | gekko_solver.py:132 | a text has no occurrence of the one-character pattern c exactly when c does not occur |
| Text.JoinCons | static/script.js:26 | joining a part in front of a non-empty list puts one separator between them |
| Text.JoinSplit | gekko_solver.py:132 | joining the parts of a split with the separator gives back the text |
| Text.SplitPartsFree | gekko_solver.py:132 | no part of a split contains the separator |
| Text.SplitCharCount | gekko_solver.py:132 | a split at a character has one more part than the text has occurrences of it |
| Text.TwoPartsExactly | gekko_solver.py:132 | a split at c has two parts exactly when c occurs once, and then the parts are the c-free texts around it |
| Text.SplitCons | static/script.js:47 | the first part of a split is the text before the first separator, followed by the split of the rest |
| Text.SplitAbsent | static/script.js:48 | a text without the separator character splits into itself alone |
| Text.SplitAtOnly | static/script.js:48 | a text with a single separator splits into exactly the two texts around it |
| Text.SplitFree | app.py:22 | a text without occurrences of the separator splits into itself alone |
| Text.FreeSlice | app.py:22 | a slice of a text without occurrences of a pattern has none either |
| Text.SplitKeepsFree | app.py:22 | splitting a text without occurrences of a pattern gives parts without them |
| Text.StripKeepsFree | app.py:23 | stripping a text without occurrences of a pattern leaves none |
| Text.ReplaceIsJoinSplit | gekko_solver.py:21-30 | replace-all equals splitting at the pattern and joining with the replacement |
| Text.ReplaceAbsent | gekko_solver.py:21-30 | replacing a pattern that does not occur changes nothing |
| Text.ReplaceKeepsCount | gekko_solver.py:22-30 | replacing leaves the count of a character that neither pattern nor replacement holds |
| Text.ReplaceDoublesChar | gekko_solver.py:21 | replacing a character by two copies of it doubles its count |
| Text.BeforeFirst | newton_raphson.py:19 | the result is a c-free prefix that is the whole text or stops just before a c |
| Text.SplitOnce | newton_raphson.py:50 | on a text containing c: a c-free key, then c, then the rest, rebuilding the text |
| Identifiers.RunEnd | newton_raphson.py:61 | the run of word characters from i ends at the first non-word character or the end |
| Identifiers.TokensFromExactly | newton_raphson.py:61 | t is found from i on exactly when a maximal word run starting with a letter or underscore at or after i spells t |
| Identifiers.TokensExactly | newton_raphson.py:61 | t is a match exactly when some maximal word run starting with a letter or underscore spells t; digit-led runs give nothing |
| Identifiers.TokenShape | newton_raphson.py:61 | every match is non-empty, starts with a letter or underscore and holds only word characters |
| Identifiers.TokenShift | newton_raphson.py:61 | a match inside a window bounded by non-word characters is a match of the whole text at the shifted indices |
| Identifiers.TokenOfWindow | newton_raphson.py:61 | a match of a window bounded by non-word characters is a match of the whole text |
| Constants.CleanLine | newton_raphson.py:30 | a cleaned line holds no `#` and is trimmed |
| Constants.AppendCleaned | newton_raphson.py:30-32 | one loop pass appends the cleaned line when it is not empty, and nothing otherwise |
| Constants.CleanConstantLines | newton_raphson.py:28-32 | the cleaning loop's list is the cleaned form of the file's lines |
| Constants.CleanedAppend | newton_raphson.py:29-32 | cleaning respects file order: cleaning a concatenation concatenates the cleanings |
| Constants.CleanedShape | newton_raphson.py:29-32 | every kept line is non-empty, trimmed and comment-free, and no more lines are kept than read |
| Constants.CleanedMembers | newton_raphson.py:29-32 | a line is kept exactly when it is non-empty and the cleaned form of some input line |
| Constants.CleanLineOfClean | newton_raphson.py:30 | a trimmed comment-free line is its own cleaned form |
| Constants.CleanedIdempotent | newton_raphson.py:29-32 | cleaning the cleaned lines changes nothing |
| Constants.ConstantScope | newton_raphson.py:35-55 | the scope holds the math names and the constants so far, and a constant shadows a math name of the same name |
| Constants.Step | newton_raphson.py:49-57 | a line without `=` is skipped, and only a definition line can fail |
| Constants.DefineAppend | newton_raphson.py:48-57 | running the definitions of a + b is running b on the table a left, unless a already failed |
| Constants.DefineConstants | newton_raphson.py:48-57 | the definition loop ends with exactly the outcome of running the definitions of the cleaned lines on the table |
| Constants.DefineOne | newton_raphson.py:49-57 | one definition evaluates its stripped expression in the current scope and stores the value under its stripped key, or fails naming both |
| Constants.DefineCons | newton_raphson.py:48-57 | the first line either stops the run with its key and expression or the run goes on from the updated table |
| Constants.DefineUntouched | newton_raphson.py:48-57 | a name no line defines keeps its value and its presence |
| Constants.LastDefinitionWins | newton_raphson.py:48-57 | the last definition of a name wins, with the value of its expression in the scope of everything defined above it |
| Constants.FailingLine | newton_raphson.py:53-57 | a failed run stopped at a definition line whose key and expression it reports, after the lines above it succeeded, and whose evaluation failed |
| Constants.FailureNamesItsLine | newton_raphson.py:53-57 | the error names the key and expression of a line whose evaluation failed in the scope of the definitions above it |
| FrontEnd.LeftSide | newton_raphson.py:19 | the kept text holds no `=` and is trimmed |
| FrontEnd.ProcessEquations | newton_raphson.py:18-19 | one output per equation, in order, each `=`-free and trimmed |
| FrontEnd.LeftSideUnique | newton_raphson.py:19 | an equation written as whitespace, a trimmed `=`-free text, whitespace, then nothing or `=...` keeps exactly that text |
| FrontEnd.LeftSideOfExpression | newton_raphson.py:19 | a text without `=` is kept whole, stripped |
| FrontEnd.LeftSideIdempotent | newton_raphson.py:19 | normalising twice is normalising once |
| FrontEnd.LeftSideTokens | newton_raphson.py:19 | every identifier of the kept text is an identifier of the text before the first `=`, and so of the equation |
| FrontEnd.RightSideDiscarded | newton_raphson.py:19 | the right-hand side is dropped: `x = y` keeps `x` |
| FrontEnd.DiscoverAppend | newton_raphson.py:64-67 | discovery over concatenated equation lists is the union of the discoveries |
| FrontEnd.DiscoverExactly | newton_raphson.py:62-67 | a name is discovered exactly when it is not excluded and is an identifier of some equation |
| FrontEnd.DiscoverNormalised | newton_raphson.py:71-72 | every unknown is a non-excluded identifier of the left side of some input equation, so a name only right of `=` is never discovered |
| FrontEnd.NumberLiteralExample | newton_raphson.py:61 | in `2*x+1e5` only `x` is an identifier: the `e5` run starts with a digit |
| FrontEnd.ConstantEIsDiscovered | newton_raphson.py:62 | `e` is not excluded, so `e*x` has the unknowns `e` and `x` |
| FrontEnd.CollectUnknowns | newton_raphson.py:63-67 | the nested loops collect exactly the discovered names |
| FrontEnd.ListOfSet | newton_raphson.py:68 | `list(set)` has each member once and nothing else, in some order |
| FrontEnd.Raised | newton_raphson.py:56-57 | the loader raises exactly when the definitions failed, naming the key and expression |
| FrontEnd.Solution.constructor | newton_raphson.py:12-16 | a new solution has no equations, unknowns or constants and no constants file |
| FrontEnd.Solution.ParseConstantsFile | newton_raphson.py:21-57 | the coefficients become the table of the ordered definitions of the cleaned file, or stay when there is no file, and the error is raised as the definitions dictate |
| FrontEnd.Solution.GetVariables | newton_raphson.py:59-68 | after loading the constants, the unknowns are duplicate-free and are exactly the identifiers of the equations that are neither reserved nor constants; a failed load leaves them unchanged |
| Guesses.Misses | newton_raphson.py:93-94 | no more draws are taken than there are unknowns |
| Guesses.MissesAppend | newton_raphson.py:90-94 | the draws taken for a concatenation add up |
| Guesses.GuessValuesSnoc | newton_raphson.py:90-94 | one more unknown adds its supplied value, or the next draw together with one more miss |
| Guesses.GuessValuesAppend | newton_raphson.py:90-94 | the values for a concatenation are those of the front, then those of the back drawn after the front's draws |
| Guesses.GuessValuesPointwise | newton_raphson.py:89-94 | one value per unknown; the k-th is the supplied guess, or else the next draw after those taken for the unknowns before it |
| Guesses.CompleteGuessDrawsNothing | newton_raphson.py:90-92 | when every unknown has a guess, the values are the guesses and no draw is taken |
| Guesses.AssembleGuess | newton_raphson.py:86-94 | without a mapping, a NumPy array of fresh draws; with one, a Python list of the supplied or drawn values; one value per unknown |
| Guesses.ZipMapKeys | newton_raphson.py:135 | the keys of `dict(zip(keys, values))` are the keys that have a value |
| Guesses.ZipMapAt | newton_raphson.py:135 | with distinct keys, each key is paired with its own value |
| Guesses.ZipMapSnoc | gekko_solver.py:97-102 | filling the dictionary one pair at a time is zipping the lists |
| Guesses.ZipMapExact | newton_raphson.py:135 | with distinct keys and as many values, every key and nothing else is present, holding its own value |
| Guesses.GekkoGuess | gekko_solver.py:94-102 | the guess dictionary pairs the unknowns with their supplied or drawn values; having no mapping draws for all, like an empty one |
| Guesses.GuessDictEntries | gekko_solver.py:94-102 | every unknown and nothing else is a key, holding its guess or its own draw |
| Newton.Update | newton_raphson.py:116 | an array is updated element-wise and keeps its length; a list is extended by the step |
| Newton.Advance | newton_raphson.py:104-116 | an update happens only from a vector the compiled system accepts, and an array stays an array of the same length |
| Newton.Iterate | newton_raphson.py:103-123 | the loop ends as the recursive description of the run says |
| Newton.NoneConvergedShift | newton_raphson.py:103-116 | after one update without convergence, none of the first j+1 iterates converged exactly when none of the j after the update did |
| Newton.ConvergedExactly | newton_raphson.py:103-109 | the run converges at iteration c exactly when c < max_iter, the guess after c updates passes the convergence check and none before it did |
| Newton.ExhaustedExactly | newton_raphson.py:103-123 | the budget is exhausted exactly when all max_iter updates succeed without any checked guess converging, and the result is the last, unchecked guess |
| Newton.WithinBudget | newton_raphson.py:103 | every way the run stops, it stops at an iteration below max_iter |
| Newton.SingularStopsAtFailure | newton_raphson.py:111-114 | a singular-Jacobian stop happens at a guess that was not converged and whose solve failed, with no update applied |
| Newton.ZeroBudget | newton_raphson.py:103-123 | with max_iter = 0 the run always raises "did not converge" |
| Newton.LastUpdateNeverChecked | newton_raphson.py:103-123 | with max_iter = 1, an update that reaches the tolerance still raises "did not converge" |
| Newton.ArrayKeepsArity | newton_raphson.py:87-116 | starting from a NumPy array the run never raises the arity TypeError |
| Newton.ListGuessBreaksArity | newton_raphson.py:89-116 | starting from a list that does not converge at once, the first update doubles its length and the second iteration raises TypeError |
| Newton.ConvergedArity | newton_raphson.py:104-109 | a converged vector has one entry per unknown |
| Newton.ConvergedAnswer | newton_raphson.py:122-135 | `solution()` returns exactly when the run converged, and then every unknown and nothing else is a key holding its own final value |
| Newton.DictGuessRaises | newton_raphson.py:89-116 | with a guess mapping and a first guess that does not converge, `solution()` raises TypeError |
| Newton.Solve | newton_raphson.py:83-135 | discovery, then the guess assembled with its draws, then the answer of the loop run on the compiled system; a bad constants file raises before any draw |
| Scipy.AnswerExactly | scipy_root_solver.py:126-152 | the driver raises "Solver failed: " plus the optimizer's message exactly when it reports failure; on success every unknown and nothing else maps to its own entry |
| Scipy.SolutionCoversUnknowns | scipy_root_solver.py:126-152 | a successful optimizer run names every unknown, since its solution has the guess's shape |
| Scipy.SolveProcessed | scipy_root_solver.py:112-129 | discovery, the guess with its draws, and the checked optimizer answer from the guess values |
| Scipy.RootSolution | scipy_root_solver.py:100-154 | the root back end's `solution()` runs the processed equations through discovery, guess, optimizer and check, and it does not store the equations |
| Scipy.StoreEquations | scipy_ls_solver.py:19-21 | the returned list is the normalised equations and the equations field is set to that list |
| Scipy.LeastSquaresSolution | scipy_ls_solver.py:83-127 | like the root driver, and the equations field ends up holding the normalised equations |
| Gekko.ReplaceEach | gekko_solver.py:21 | one output per equation |
| Gekko.ProcessEquations | gekko_solver.py:18-33 | one output per equation |
| Gekko.ProcessEquationsPointwise | gekko_solver.py:21-30 | the k-th output is the k-th equation put through the nine replacements in order |
| Gekko.EqualsDoubled | gekko_solver.py:21-30 | every `=` is doubled: the rewritten equation has twice as many |
| Gekko.RewriteKeepsCount | gekko_solver.py:21-30 | replacements whose patterns and replacements lack a character keep its count |
| Gekko.TokenSurvives | gekko_solver.py:21-30 | a replacement that neither touches an identifier nor joins it to neighbouring word characters leaves it an identifier |
| Gekko.TokenAtSurvives | gekko_solver.py:21-30 | such an identifier at a position of the text is an identifier of the replaced text, spelled the same |
| Gekko.TokenSurvivesAll | gekko_solver.py:21-30 | an identifier every replacement of a list keeps survives the whole list |
| Gekko.MathNameIsWord | gekko_solver.py:22-30 | every math name is made of word characters, has two or more of them and does not start with `m` |
| Gekko.MathNamesApart | gekko_solver.py:22-30 | no math name occurs inside another |
| Gekko.MathRewritesShape | gekko_solver.py:22-30 | each math-name rule replaces a math name by a text starting with `m.` |
| Gekko.MathNameKeeps | gekko_solver.py:22-30 | a math-name rule keeps the identifier `m` and every other whole-identifier math name |
| Gekko.ModelCreated | gekko_solver.py:22-30 | replacing a whole identifier by a text starting with `m.` makes `m` an identifier |
| Gekko.ModelIntroduced | gekko_solver.py:22-30 | math-name rules that include one for an identifier of the text leave `m` an identifier |
| Gekko.EqualsKeepsName | gekko_solver.py:21 | turning `=` into `==` keeps every whole-identifier math name |
| Gekko.MathRewriteFor | gekko_solver.py:22-30 | every math name has its own rule |
| Gekko.RewriteSplit | gekko_solver.py:21-30 | the nine rules are the `=` rule followed by the eight math-name rules |
| Gekko.ModelNameIntroduced | gekko_solver.py:21-30 | an equation with a math name as a whole identifier is rewritten into one with the identifier `m` |
| Gekko.ModelNameDiscovered | gekko_solver.py:89-91 | when a math name is a whole identifier of some equation and no constant is named `m`, `m` is discovered as an unknown |
| Gekko.SinInsideIdentifier | gekko_solver.py:22 | `xsin` becomes `xm.sin` |
| Gekko.PiInsideIdentifier | gekko_solver.py:29 | `spin` becomes `sm.pin` |
| Gekko.SinAtStartOfIdentifier | gekko_solver.py:22 | `sinh` becomes `m.sinh` |
| Gekko.TokensOfModelPrefix | gekko_solver.py:90-91 | `m.sinh` has the identifiers `m` and `sinh` |
| Gekko.TanBeforeSqrt | gekko_solver.py:24-25 | `tan` is rewritten first, so `sqrtan` becomes `sqrm.tan` |
| Gekko.TokensOfBrokenSqrt | gekko_solver.py:90-91 | `sqrm.tan` has the identifiers `sqrm` and `tan`, and no `m` |
| Gekko.TokensOfModelCall | gekko_solver.py:90-91 | `m.sin(x)` has the identifiers `m`, `sin` and `x` |
| Gekko.TokensOfGrownPrefix | gekko_solver.py:90-91 | `xm.sin` has the identifiers `xm` and `sin` |
| Gekko.UnknownsOfModelCall | gekko_solver.py:90-91 | in `m.sin(x)`, `sin` is reserved, so the unknowns are `m` and `x` |
| Gekko.EquationScope | gekko_solver.py:105 | the scope names the solver variables, the constants and `m`; constants shadow variables, and `m` is always the model |
| Gekko.SolutionDict | gekko_solver.py:115 | the dictionary holds every unknown except `m`, with its solved value |
| Gekko.Layered | gekko_solver.py:122-127 | the scope holds every layer's names; a later layer overrides an earlier one |
| Gekko.ResidualScope | gekko_solver.py:122-127 | the solution, overridden by the constants, overridden by the math names |
| Gekko.ConstantShadowing | gekko_solver.py:122-127 | a constant named `e` is a number while constants are read but the math constant in the residual scope |
| Gekko.NumberedAppend | gekko_solver.py:129 | numbering a list with one more element adds its line, numbered after the others |
| Gekko.NumberedPointwise | gekko_solver.py:129 | `enumerate(xs, i)` pairs the k-th element with the number i + k |
| Gekko.Originals | gekko_solver.py:89 | one kept original per equation, in order |
| Gekko.ReportPointwise | gekko_solver.py:129-138 | one report line per original equation, in order, the k-th numbered k + 1 |
| Gekko.ReportSnoc | gekko_solver.py:129-138 | reporting one more equation appends its residual line |
| Gekko.ComputeResidual | gekko_solver.py:130-138 | the try block gives the residual when the split has two parts and both sides evaluate, and the handler's line otherwise |
| Gekko.ResidualReport | gekko_solver.py:129-138 | the residual loop produces the report, going on past equations without a residual |
| Gekko.ResidualExactly | gekko_solver.py:132-135 | for an equation with a single `=`, the residual is the value of the stripped left side minus that of the stripped right side, when both evaluate |
| Gekko.NoResidualWithoutSingleEquals | gekko_solver.py:132-138 | an equation without exactly one `=` gets no residual |
| Gekko.Solve | gekko_solver.py:88-143 | discovery on the rewritten equations, the guess dictionary with its draws, the model solved in the equation scope, then the solution without `m` and the residual report over the stripped originals |
| App.Blocks | app.py:21-22 | one line list per `---` block of the stripped text |
| App.KeepLinesAppend | app.py:23 | keeping the lines of a concatenation concatenates the kept lines |
| App.FlattenIsConcatenation | app.py:21-23 | flattening keeps, in order, the non-blank stripped lines of all blocks taken together |
| App.KeepLinesShape | app.py:23 | from single lines without `---`, every kept line is an equation line |
| App.BlockLinesShape | app.py:22 | the lines of a block are single lines without `---` |
| App.FlattenBlocksShape | app.py:22-23 | from blocks of such lines, every flattened element is an equation line |
| App.FlattenShape | app.py:21-23 | every flattened equation is non-empty, trimmed, a single line and free of `---` |
| App.SingleLinePassesThrough | app.py:21-23 | a line that is already an equation line passes unchanged, `#` and all |
| App.TemplateAppend | app.py:27-28 | the reply for one more unknown ends with its line |
| App.ExtractionReply | app.py:26-28 | the reply loop builds the template of the unknowns |
| App.TemplateLines | app.py:26-28 | the reply has exactly one line `k = ` per unknown in the given order, then ends with a newline |
| App.TemplateLinesAt | app.py:26-28 | the reply's k-th line is `k = ` for the k-th unknown and its last line is empty |
| Script.CombineFiles | static/script.js:13-31 | whatever order the readers finish in, the trimmed files are joined in index order with `\n---\n`; without files nothing is written |
| Script.AllStored | static/script.js:22-26 | once every reader in the completion order has stored its file, each slot holds its own file's trimmed contents |
| Script.ParseGuessText | static/script.js:47-56 | the parse loop builds the mapping the fold over the lines describes |
| Script.ParseLinesAppend | static/script.js:47-56 | parsing a concatenation of lines is parsing the back from the front's mapping |
| Script.LaterLineWins | static/script.js:53 | a later line with the same key overwrites the earlier entry |
| Script.EntriesExactly | static/script.js:47-56 | a key is present exactly when it was already there or some line contributes it |
| Script.ContributorHasOneEquals | static/script.js:48-50 | a contributing line has exactly one `=`, and its key is the trimmed text before it |
| Script.FilledLine | static/script.js:48-54 | a line with a single `=` offers the trimmed left side as key and the parse of the trimmed right side, and nothing when that is NaN |
| Script.NothingOffered | static/script.js:47-56 | lines that offer nothing leave the mapping unchanged |
| Script.UnfilledLine | static/script.js:51-52 | an unfilled template line `k = ` offers nothing, since the empty text parses to NaN |
| Script.UnfilledTemplateGivesNothing | static/script.js:47-56 | sending back the extraction reply untouched gives the empty mapping |
| Script.EmptyBoxSendsEmptyMapping | static/script.js:45-56 | an empty guesses box sends the empty mapping, not no mapping |

## Left out

- sympy: `sympify`, `Matrix.jacobian` and `lambdify` are not modelled. The compiled system is the parameter passed to `Newton.Solve` and `Scipy.Optimizer`. An equation that sympy cannot parse raises there, and that error is not modelled.
- NumPy, SciPy and GEKKO numerics: the norm, the linear solve, the optimizers and `m.solve` are oracles. Only the branches the code takes on their results are modelled.
- Python's `eval` is an `Evaluator` parameter. Each call site gets its own: the constants file's eval and the residual report's eval are two parameters of `Gekko.Solve`. GEKKO's `m.Equation` eval is inside the `ModelSolver`.
- Evaluator: the constants are evaluated with Python's builtins removed (newton_raphson.py:55), while the residual sides are evaluated with empty globals, which still reach the builtins (gekko_solver.py:133-134). The model does not describe either scope's builtins. Both evaluators are given as arbitrary parameters.
- Constants.Step: a constant is stored only when its expression evaluates to a number. Python also stores non-numeric values, such as `f = sin`, which a later line can call (`y = f(0)`). The model treats such a value as a failed evaluation.
- Floating point: values are `real`. There are no rounding, overflow, NaN or `np.float64` conversions, and no accuracy properties.
- Randomness: `random.seed(42)` and the distributions of `random.uniform(0, 2)` and `np.random.uniform(0, 2, size)` are not modelled. A draw is the next element of an abstract stream.
- File and process I/O:
  - The constants file is the list of its lines (`constantsFile`). Reading it, and the temporary file written by core_runner.py, are not modelled.
  - An empty path string, which Python treats as no file, is the same as `None`.
- Output: `print`, `redirect_stdout`, the log text and its number formats are not part of the model. The GEKKO residual report is modelled as values, not as text.
- The web layer is not modelled beyond the flattening, the template and the two script.js pieces: Flask routing and JSON, the browser opener and threads, jQuery, the DOM, `FileReader`, AJAX and the download button.
- code_runner.py and core_runner.py are not part of this model. They hold command-line handling, solver dispatch and temporary files. code_runner.py's comment stripping is the cleaning `Constants.CleanConstantLines` models.
- Unicode:
  - Whitespace for `strip` and `trim` is the space and the characters `\t` through `\r`. Python's `strip` also removes `\x1c`-`\x1f` and the Unicode spaces. JavaScript's `trim` also removes the Unicode spaces.
  - Word characters are ASCII, so a non-ASCII letter next to an identifier is not modelled.
- The iteration order of a Python `set` is not modelled. `FrontEnd.ListOfSet` picks some order, and every property holds for all of them.
- The `method` argument of `scipy.optimize.root` is not modelled. It only selects the optimizer, which is a parameter anyway.
- Scipy.Optimizer: SciPy's promise that the solution vector has the shape of the start vector is taken as part of the parameter's type. The optimizer never raises in the model. SciPy itself can raise: `root` with `method='hybr'` raises TypeError for a system whose number of equations differs from its number of unknowns (scipy_root_solver.py:126), and `least_squares` raises ValueError when the residuals at the start are not finite (scipy_ls_solver.py:108). Those exceptions are not modelled.
- Gekko.Solve: errors from building the model (`m.Equation(eval(...))`) and from `m.solve` are one `ModelError`. The model does not distinguish which call raised.
- JavaScript `parseFloat` is the `FloatParser` parameter. Its prefix grammar is not modelled. Among the special object keys, only `__proto__` is modelled.
