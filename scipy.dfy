/**
 * The solution() driver of the two SciPy back ends, scipy.optimize.root
 * (scipy_root_solver.py) and scipy.optimize.least_squares
 * (scipy_ls_solver.py). Both build the system through the shared front
 * end, hand the guess vector to the optimizer, raise when it reports
 * failure and otherwise pair the unknowns with its solution vector. The
 * optimizer itself is a parameter.
 */
module Scipy {
  import opened Wrappers
  import opened Constants
  import opened FrontEnd
  import opened Guesses

  /** The fields of SciPy's OptimizeResult the back ends read. */
  datatype OptimizeResult = OptimizeResult(success: bool, message: string, x: seq<real>, fun: seq<real>)

  /** An optimizer run on the system compiled from the processed equations,
      the unknowns and the constants table, started from the given values;
      like SciPy's, its solution vector has the shape of the start. */
  type Optimizer = f: (seq<string>, seq<string>, map<string, real>, seq<real>) -> OptimizeResult |
    forall eqs, vars, c, x0 :: |f(eqs, vars, c, x0).x| == |x0|
    witness (eqs: seq<string>, vars: seq<string>, c: map<string, real>, x0: seq<real>) => OptimizeResult(false, "", x0, [])

  /** The success check and the solution dictionary. */
  function Answer(vars: seq<string>, sol: OptimizeResult): Result<map<string, real>, SolveError> {
    if !sol.success then Err(ValueError("Solver failed: " + sol.message))
    else Ok(ZipMap(vars, sol.x))
  }

  /** solution() returns exactly when the optimizer succeeded; the raised
      message carries the optimizer's; on success every unknown, and
      nothing else, is a key holding its own entry of the solution. */
  lemma AnswerExactly(vars: seq<string>, sol: OptimizeResult)
    requires NoDuplicates(vars) && |sol.x| == |vars|
    ensures Answer(vars, sol).Ok? <==> sol.success
    ensures !sol.success ==> Answer(vars, sol) == Err(ValueError("Solver failed: " + sol.message))
    ensures sol.success ==>
      (forall v :: v in Answer(vars, sol).value <==> v in vars) &&
      forall k {:trigger sol.x[k]} :: 0 <= k < |vars| ==> Answer(vars, sol).value[vars[k]] == sol.x[k]
  {
    if sol.success {
      ZipMapExact(vars, sol.x);
    }
  }

  /** The optimizer's solution always has one entry per unknown, so a
      successful run names every unknown. */
  lemma SolutionCoversUnknowns(optimize: Optimizer, eqs: seq<string>, vars: seq<string>,
                               c: map<string, real>, guess: Vector)
    requires NoDuplicates(vars) && |guess.values| == |vars|
    requires optimize(eqs, vars, c, guess.values).success
    ensures var r := Answer(vars, optimize(eqs, vars, c, guess.values));
      r.Ok? && forall v :: v in r.value <==> v in vars
  {
    AnswerExactly(vars, optimize(eqs, vars, c, guess.values));
  }

  /** The part of solution() after the equations are processed:
      create_symbolic_system's get_variables, the guess vector, the
      optimizer run and the success check. */
  method SolveProcessed(s: Solution, processed: seq<string>, initialGuess: Option<map<string, real>>,
                        optimize: Optimizer, eval: Evaluator,
                        npRng: Draws, npDrawn: nat, rng: Draws, drawn: nat)
    returns (answer: Result<map<string, real>, SolveError>, guess: Vector, npDrawnAfter: nat, drawnAfter: nat)
    modifies s`coefficients, s`variables
    ensures s.coefficients == ParseResult(old(s.coefficients), s.constantsFile, eval).table
    ensures var parsed := ParseResult(old(s.coefficients), s.constantsFile, eval);
      parsed.Failed? ==>
        answer == Err(InvalidConstant(parsed.key, parsed.expr)) && s.variables == old(s.variables) &&
        npDrawnAfter == npDrawn && drawnAfter == drawn
    ensures ParseResult(old(s.coefficients), s.constantsFile, eval).Defined? ==>
      NoDuplicates(s.variables) &&
      (forall v :: v in s.variables <==> v in Discover(processed, Reserved + s.coefficients.Keys)) &&
      Assembled(s.variables, initialGuess, npRng, npDrawn, rng, drawn, guess, npDrawnAfter, drawnAfter) &&
      |guess.values| == |s.variables| &&
      answer == Answer(s.variables, optimize(processed, s.variables, s.coefficients, guess.values))
  {
    var outcome := s.GetVariables(processed, eval);
    if outcome.Fail? {
      return Err(ConstantFailure(outcome.error)), NdArray([]), npDrawn, drawn;
    }
    guess, npDrawnAfter, drawnAfter := AssembleGuess(s.variables, initialGuess, npRng, npDrawn, rng, drawn);
    var sol := optimize(processed, s.variables, s.coefficients, guess.values);
    if !sol.success {
      return Err(ValueError("Solver failed: " + sol.message)), guess, npDrawnAfter, drawnAfter;
    }
    answer := Ok(ZipMap(s.variables, sol.x));
  }

  /** Solution.solution of scipy_root_solver.py. Its process_equations
      returns the left-hand sides without storing them. */
  method RootSolution(s: Solution, equations: seq<string>, initialGuess: Option<map<string, real>>,
                      optimize: Optimizer, eval: Evaluator,
                      npRng: Draws, npDrawn: nat, rng: Draws, drawn: nat)
    returns (answer: Result<map<string, real>, SolveError>, guess: Vector, npDrawnAfter: nat, drawnAfter: nat)
    modifies s`coefficients, s`variables
    ensures s.coefficients == ParseResult(old(s.coefficients), s.constantsFile, eval).table
    ensures var parsed := ParseResult(old(s.coefficients), s.constantsFile, eval);
      parsed.Failed? ==>
        answer == Err(InvalidConstant(parsed.key, parsed.expr)) && s.variables == old(s.variables) &&
        npDrawnAfter == npDrawn && drawnAfter == drawn
    ensures var processed := FrontEnd.ProcessEquations(equations);
      ParseResult(old(s.coefficients), s.constantsFile, eval).Defined? ==>
        NoDuplicates(s.variables) &&
        (forall v :: v in s.variables <==> v in Discover(processed, Reserved + s.coefficients.Keys)) &&
        Assembled(s.variables, initialGuess, npRng, npDrawn, rng, drawn, guess, npDrawnAfter, drawnAfter) &&
        answer == Answer(s.variables, optimize(processed, s.variables, s.coefficients, guess.values))
  {
    var processed := FrontEnd.ProcessEquations(equations);
    answer, guess, npDrawnAfter, drawnAfter := SolveProcessed(s, processed, initialGuess, optimize, eval, npRng, npDrawn, rng, drawn);
  }

  /** process_equations of scipy_ls_solver.py, which also keeps the
      left-hand sides in the equations field. */
  method StoreEquations(s: Solution, equations: seq<string>) returns (processed: seq<string>)
    modifies s`equations
    ensures processed == FrontEnd.ProcessEquations(equations)
    ensures s.equations == processed
  {
    s.equations := FrontEnd.ProcessEquations(equations);
    processed := s.equations;
  }

  /** Solution.solution of scipy_ls_solver.py. */
  method LeastSquaresSolution(s: Solution, equations: seq<string>, initialGuess: Option<map<string, real>>,
                              optimize: Optimizer, eval: Evaluator,
                              npRng: Draws, npDrawn: nat, rng: Draws, drawn: nat)
    returns (answer: Result<map<string, real>, SolveError>, guess: Vector, npDrawnAfter: nat, drawnAfter: nat)
    modifies s`equations, s`coefficients, s`variables
    ensures s.equations == FrontEnd.ProcessEquations(equations)
    ensures s.coefficients == ParseResult(old(s.coefficients), s.constantsFile, eval).table
    ensures var parsed := ParseResult(old(s.coefficients), s.constantsFile, eval);
      parsed.Failed? ==>
        answer == Err(InvalidConstant(parsed.key, parsed.expr)) && s.variables == old(s.variables) &&
        npDrawnAfter == npDrawn && drawnAfter == drawn
    ensures var processed := FrontEnd.ProcessEquations(equations);
      ParseResult(old(s.coefficients), s.constantsFile, eval).Defined? ==>
        NoDuplicates(s.variables) &&
        (forall v :: v in s.variables <==> v in Discover(processed, Reserved + s.coefficients.Keys)) &&
        Assembled(s.variables, initialGuess, npRng, npDrawn, rng, drawn, guess, npDrawnAfter, drawnAfter) &&
        answer == Answer(s.variables, optimize(processed, s.variables, s.coefficients, guess.values))
  {
    var processed := StoreEquations(s, equations);
    answer, guess, npDrawnAfter, drawnAfter := SolveProcessed(s, processed, initialGuess, optimize, eval, npRng, npDrawn, rng, drawn);
  }
}
