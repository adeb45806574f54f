/**
 * The control skeleton of the hand-written Newton-Raphson loop. The
 * compiled residual and Jacobian, the vector norm and np.linalg.solve are
 * oracles; the model decides which branch the loop takes from their
 * results, and how the guess vector is updated.
 */
module Newton {
  import opened Wrappers
  import opened Constants
  import opened FrontEnd
  import opened Guesses

  type Matrix = seq<seq<real>>

  /** np.linalg.solve(J, b): a solution with one entry per entry of b, or
      None where NumPy raises LinAlgError. */
  type LinearSolver = f: (Matrix, seq<real>) -> Option<seq<real>> |
    forall J, b :: f(J, b).Some? ==> |f(J, b).value| == |b|
    witness (J: Matrix, b: seq<real>) => None

  /** The numerical parts: the lambdified residual and Jacobian of the
      system in n unknowns, the norm, and the linear solver. */
  datatype Numerics = Numerics(
    residual: seq<real> -> seq<real>,
    jacobian: seq<real> -> Matrix,
    norm: seq<real> -> real,
    solve: LinearSolver)

  /** How a run of the loop ends. Converged(k, x, F): the norm of the
      residual F at x fell below the tolerance at the start of iteration k,
      after k updates. The other three end in an exception: "Jacobian is
      singular", a TypeError from calling the compiled residual with the
      wrong number of arguments, and "did not converge". */
  datatype Run =
    | Converged(iterations: nat, x: seq<real>, residual: seq<real>)
    | SingularJacobian(iteration: nat)
    | ArityError(iteration: nat)
    | DidNotConverge(x: seq<real>)

  function Negate(v: seq<real>): (r: seq<real>)
    ensures |r| == |v| && forall i :: 0 <= i < |v| ==> r[i] == -v[i]
  {
    seq(|v|, i requires 0 <= i < |v| => -v[i])
  }

  /** NumPy's element-wise sum of two arrays of one shape. */
  function Add(x: seq<real>, d: seq<real>): (r: seq<real>)
    requires |x| == |d|
    ensures |r| == |x| && forall i :: 0 <= i < |x| ==> r[i] == x[i] + d[i]
  {
    seq(|x|, i requires 0 <= i < |x| => x[i] + d[i])
  }

  /** x += delta: element-wise on an array, but a list is extended by the
      entries of delta. */
  function Update(x: Vector, delta: seq<real>): (y: Vector)
    requires x.NdArray? ==> |delta| == |x.values|
    ensures y.NdArray? == x.NdArray?
    ensures x.NdArray? ==> |y.values| == |x.values|
    ensures x.PyList? ==> y.values == x.values + delta
  {
    match x
    case NdArray(v) => NdArray(Add(v, delta))
    case PyList(v) => PyList(v + delta)
  }

  /** The compiled residual accepts x: it takes exactly n arguments. */
  predicate Callable(x: Vector, n: nat) {
    |x.values| == n
  }

  /** The convergence check at the start of an iteration. */
  predicate Converges(num: Numerics, n: nat, tol: real, x: Vector) {
    Callable(x, n) && num.norm(num.residual(x.values)) < tol
  }

  /** The update of one iteration: solve J delta = -F and add delta to x;
      None when the system is not square or the solver raises. */
  function Advance(num: Numerics, n: nat, x: Vector): (r: Option<Vector>)
    ensures r.Some? ==> Callable(x, n)
    ensures r.Some? && x.NdArray? ==> r.value.NdArray? && |r.value.values| == |x.values|
  {
    if !Callable(x, n) then None
    else
      var F := num.residual(x.values);
      if |F| != |x.values| then None
      else
        match num.solve(num.jacobian(x.values), Negate(F))
        case None => None
        case Some(delta) => Some(Update(x, delta))
  }

  /** The loop `for iteration in range(max_iter)` from iteration k on, with
      its break on convergence and its for-else. */
  function Loop(num: Numerics, n: nat, tol: real, x: Vector, k: nat, maxIter: nat): Run
    decreases maxIter - k
  {
    if k >= maxIter then DidNotConverge(x.values)
    else if !Callable(x, n) then ArityError(k)
    else if Converges(num, n, tol, x) then Converged(k, x.values, num.residual(x.values))
    else
      match Advance(num, n, x)
      case None => SingularJacobian(k)
      case Some(y) => Loop(num, n, tol, y, k + 1, maxIter)
  }

  /** The loop of newton_raphson.py, run from the initial guess. */
  method Iterate(num: Numerics, n: nat, tol: real, maxIter: nat, x0: Vector) returns (run: Run)
    ensures run == Loop(num, n, tol, x0, 0, maxIter)
  {
    var x := x0;
    for iteration := 0 to maxIter
      invariant Loop(num, n, tol, x0, 0, maxIter) == Loop(num, n, tol, x, iteration, maxIter)
    {
      if |x.values| != n {
        return ArityError(iteration);
      }
      var F := num.residual(x.values);
      if num.norm(F) < tol {
        return Converged(iteration, x.values, F);
      }
      if |F| != |x.values| {
        return SingularJacobian(iteration);
      }
      var J := num.jacobian(x.values);
      var delta := num.solve(J, Negate(F));
      if delta.None? {
        return SingularJacobian(iteration);
      }
      x := Update(x, delta.value);
    }
    return DidNotConverge(x.values);
  }

  // ---------------------------------------------------------------------
  // The iterates, an independent description of the loop

  /** The guess after j updates from x; None when one of them fails. */
  function Iterates(num: Numerics, n: nat, x: Vector, j: nat): Option<Vector>
    decreases j
  {
    if j == 0 then Some(x)
    else
      match Advance(num, n, x)
      case None => None
      case Some(y) => Iterates(num, n, y, j - 1)
  }

  /** None of the first j iterates passed the convergence check. */
  predicate NoneConverged(num: Numerics, n: nat, tol: real, x: Vector, j: nat) {
    forall i :: 0 <= i < j ==> Iterates(num, n, x, i).Some? && !Converges(num, n, tol, Iterates(num, n, x, i).value)
  }

  lemma NoneConvergedShift(num: Numerics, n: nat, tol: real, x: Vector, y: Vector, j: nat)
    requires Advance(num, n, x) == Some(y) && !Converges(num, n, tol, x)
    ensures NoneConverged(num, n, tol, x, j + 1) <==> NoneConverged(num, n, tol, y, j)
  {
    forall i | 0 < i <= j ensures Iterates(num, n, x, i) == Iterates(num, n, y, i - 1) {
    }
    if NoneConverged(num, n, tol, y, j) {
      forall i | 0 <= i < j + 1
        ensures Iterates(num, n, x, i).Some? && !Converges(num, n, tol, Iterates(num, n, x, i).value)
      {
        if i > 0 {
          assert Iterates(num, n, x, i) == Iterates(num, n, y, i - 1);
        }
      }
    }
    if NoneConverged(num, n, tol, x, j + 1) {
      forall i | 0 <= i < j
        ensures Iterates(num, n, y, i).Some? && !Converges(num, n, tol, Iterates(num, n, y, i).value)
      {
        assert Iterates(num, n, x, i + 1) == Iterates(num, n, y, i);
      }
    }
  }

  /** The loop converges in c iterations exactly when c is within the
      budget, the guess after c updates passes the convergence check, and
      none of the guesses before it did. */
  lemma {:induction false} ConvergedExactly(num: Numerics, n: nat, tol: real, x: Vector, k: nat, maxIter: nat,
                                            c: nat, y: seq<real>, F: seq<real>)
    ensures Loop(num, n, tol, x, k, maxIter) == Converged(c, y, F) <==>
      k <= c < maxIter &&
      NoneConverged(num, n, tol, x, c - k) &&
      Iterates(num, n, x, c - k).Some? &&
      Converges(num, n, tol, Iterates(num, n, x, c - k).value) &&
      y == Iterates(num, n, x, c - k).value.values && F == num.residual(y)
    decreases maxIter - k
  {
    if k < maxIter && Callable(x, n) && !Converges(num, n, tol, x) {
      match Advance(num, n, x)
      case None =>
        if c > k {
          assert Iterates(num, n, x, c - k) == None;
        }
      case Some(x1) =>
        ConvergedExactly(num, n, tol, x1, k + 1, maxIter, c, y, F);
        if c > k {
          assert Iterates(num, n, x, c - k) == Iterates(num, n, x1, c - (k + 1));
          NoneConvergedShift(num, n, tol, x, x1, c - (k + 1));
        }
    } else if k < maxIter && !Callable(x, n) && c > k {
      assert Iterates(num, n, x, c - k) == None;
    } else if k < maxIter && Converges(num, n, tol, x) && c > k {
      assert Iterates(num, n, x, 0) == Some(x);
    }
  }

  /** The budget is exhausted exactly when all max_iter updates succeed and
      none of the guesses they started from passed the check; the guess the
      last update produced is never checked. */
  lemma {:induction false} ExhaustedExactly(num: Numerics, n: nat, tol: real, x: Vector, k: nat, maxIter: nat, y: seq<real>)
    requires k <= maxIter
    ensures Loop(num, n, tol, x, k, maxIter) == DidNotConverge(y) <==>
      NoneConverged(num, n, tol, x, maxIter - k) &&
      Iterates(num, n, x, maxIter - k).Some? &&
      y == Iterates(num, n, x, maxIter - k).value.values
    decreases maxIter - k
  {
    if k < maxIter && Callable(x, n) && !Converges(num, n, tol, x) {
      match Advance(num, n, x)
      case None =>
        assert Iterates(num, n, x, maxIter - k) == None;
      case Some(x1) =>
        ExhaustedExactly(num, n, tol, x1, k + 1, maxIter, y);
        assert Iterates(num, n, x, maxIter - k) == Iterates(num, n, x1, maxIter - (k + 1));
        NoneConvergedShift(num, n, tol, x, x1, maxIter - (k + 1));
    } else if k < maxIter && !Callable(x, n) {
      assert Iterates(num, n, x, maxIter - k) == None;
    } else if k < maxIter {
      assert Iterates(num, n, x, 0) == Some(x);
    }
  }

  /** Every way the loop ends is within the budget: a convergence or an
      exception at iteration k has k < max_iter, after k updates. */
  lemma {:induction false} WithinBudget(num: Numerics, n: nat, tol: real, x: Vector, k: nat, maxIter: nat)
    ensures var r := Loop(num, n, tol, x, k, maxIter);
      (r.Converged? ==> k <= r.iterations < maxIter) &&
      (r.SingularJacobian? ==> k <= r.iteration < maxIter) &&
      (r.ArityError? ==> k <= r.iteration < maxIter)
    decreases maxIter - k
  {
    if k < maxIter && Callable(x, n) && !Converges(num, n, tol, x) {
      match Advance(num, n, x)
      case None =>
      case Some(y) => WithinBudget(num, n, tol, y, k + 1, maxIter);
    }
  }

  /** A failed linear solve ends the run where it happens: the guess of that
      iteration is never updated. */
  lemma {:induction false} SingularStopsAtFailure(num: Numerics, n: nat, tol: real, x: Vector, k: nat, maxIter: nat, s: nat)
    requires Loop(num, n, tol, x, k, maxIter) == SingularJacobian(s)
    ensures k <= s
    ensures Iterates(num, n, x, s - k).Some?
    ensures var z := Iterates(num, n, x, s - k).value;
      Callable(z, n) && !Converges(num, n, tol, z) && Advance(num, n, z).None?
    decreases maxIter - k
  {
    match Advance(num, n, x)
    case None =>
    case Some(y) =>
      if s > k {
        SingularStopsAtFailure(num, n, tol, y, k + 1, maxIter, s);
        assert Iterates(num, n, x, s - k) == Iterates(num, n, y, s - (k + 1));
      } else {
        WithinBudget(num, n, tol, y, k + 1, maxIter);
      }
  }

  /** With no budget the loop raises "did not converge" at once. */
  lemma ZeroBudget(num: Numerics, n: nat, tol: real, x: Vector)
    ensures Loop(num, n, tol, x, 0, 0) == DidNotConverge(x.values)
  {
  }

  /** Exhausting the budget raises even when the last update reached the
      tolerance: one iteration that updates to a converging guess still
      ends in "did not converge". */
  lemma LastUpdateNeverChecked(num: Numerics, n: nat, tol: real, x: Vector, y: Vector)
    requires Callable(x, n) && !Converges(num, n, tol, x)
    requires Advance(num, n, x) == Some(y) && Converges(num, n, tol, y)
    ensures Loop(num, n, tol, x, 0, 1) == DidNotConverge(y.values)
  {
  }

  /** On a NumPy array of n entries the compiled residual is always callable:
      the loop never ends in a TypeError. */
  lemma {:induction false} ArrayKeepsArity(num: Numerics, n: nat, tol: real, x: Vector, k: nat, maxIter: nat)
    requires x.NdArray? && Callable(x, n)
    ensures !Loop(num, n, tol, x, k, maxIter).ArityError?
    decreases maxIter - k
  {
    if k < maxIter && !Converges(num, n, tol, x) {
      match Advance(num, n, x)
      case None =>
      case Some(y) => ArrayKeepsArity(num, n, tol, y, k + 1, maxIter);
    }
  }

  /** The list path: when the guess is a Python list of n > 0 values and the
      first iteration neither converges nor fails, `x += delta` extends the
      list to 2n values and the second iteration's call of the compiled
      residual raises a TypeError. */
  lemma ListGuessBreaksArity(num: Numerics, n: nat, tol: real, x: Vector, maxIter: nat)
    requires x.PyList? && Callable(x, n) && n > 0 && maxIter >= 2
    requires !Converges(num, n, tol, x) && Advance(num, n, x).Some?
    ensures |Advance(num, n, x).value.values| == 2 * n
    ensures Loop(num, n, tol, x, 0, maxIter) == ArityError(1)
  {
  }

  // ---------------------------------------------------------------------
  // solution(): from the equations to the solution dictionary

  /** sympy's compilation of the processed equations, in the given unknowns
      and constants table, into the residual and Jacobian, together with
      NumPy's norm and solver. */
  type Compiler = (seq<string>, seq<string>, map<string, real>) -> Numerics

  const SingularMessage := "Jacobian is singular. Cannot proceed."
  const ExhaustedMessage := "Newton method did not converge within the maximum number of iterations."

  /** The solution dictionary returned, or the exception raised, once the
      loop has ended. */
  function Answer(vars: seq<string>, run: Run): Result<map<string, real>, SolveError> {
    match run
    case Converged(_, x, _) => Ok(ZipMap(vars, x))
    case SingularJacobian(_) => Err(ValueError(SingularMessage))
    case ArityError(_) => Err(TypeError)
    case DidNotConverge(_) => Err(ValueError(ExhaustedMessage))
  }

  /** A converged run has passed the arity check on its final vector. */
  lemma {:induction false} ConvergedArity(num: Numerics, n: nat, tol: real, x: Vector, k: nat, maxIter: nat)
    ensures Loop(num, n, tol, x, k, maxIter).Converged? ==> |Loop(num, n, tol, x, k, maxIter).x| == n
    decreases maxIter - k
  {
    if k < maxIter && Callable(x, n) && !Converges(num, n, tol, x) {
      match Advance(num, n, x)
      case None =>
      case Some(y) => ConvergedArity(num, n, tol, y, k + 1, maxIter);
    }
  }

  /** solution() returns exactly when the loop converged, and then every
      unknown, and nothing else, is a key holding its own final value. */
  lemma ConvergedAnswer(num: Numerics, vars: seq<string>, tol: real, x: Vector, maxIter: nat)
    requires NoDuplicates(vars)
    ensures var run := Loop(num, |vars|, tol, x, 0, maxIter);
      Answer(vars, run).Ok? <==> run.Converged?
    ensures var run := Loop(num, |vars|, tol, x, 0, maxIter);
      run.Converged? ==>
        |run.x| == |vars| &&
        (forall v :: v in Answer(vars, run).value <==> v in vars) &&
        forall k {:trigger run.x[k]} :: 0 <= k < |vars| ==> Answer(vars, run).value[vars[k]] == run.x[k]
  {
    var run := Loop(num, |vars|, tol, x, 0, maxIter);
    ConvergedArity(num, |vars|, tol, x, 0, maxIter);
    if run.Converged? {
      ZipMapExact(vars, run.x);
    }
  }

  /** A guess mapping that does not solve the system at once makes
      solution() raise TypeError on the second iteration. */
  lemma DictGuessRaises(num: Numerics, vars: seq<string>, tol: real, x: Vector, maxIter: nat)
    requires x.PyList? && Callable(x, |vars|) && |vars| > 0 && maxIter >= 2
    requires !Converges(num, |vars|, tol, x) && Advance(num, |vars|, x).Some?
    ensures Answer(vars, Loop(num, |vars|, tol, x, 0, maxIter)) == Err(TypeError)
  {
    ListGuessBreaksArity(num, |vars|, tol, x, maxIter);
  }

  /** Solution.solution of newton_raphson.py: normalise the equations,
      discover the unknowns (reading the constants file first), assemble
      the initial guess, run the loop and pair the unknowns with its
      result. A constants file that fails raises before any draw is made. */
  method Solve(s: Solution, equations: seq<string>, initialGuess: Option<map<string, real>>,
               compile: Compiler, tol: real, maxIter: nat, eval: Evaluator,
               npRng: Draws, npDrawn: nat, rng: Draws, drawn: nat)
    returns (answer: Result<map<string, real>, SolveError>, guess: Vector, npDrawnAfter: nat, drawnAfter: nat)
    modifies s`coefficients, s`variables
    ensures s.coefficients == ParseResult(old(s.coefficients), s.constantsFile, eval).table
    ensures var parsed := ParseResult(old(s.coefficients), s.constantsFile, eval);
      parsed.Failed? ==>
        answer == Err(InvalidConstant(parsed.key, parsed.expr)) && s.variables == old(s.variables) &&
        npDrawnAfter == npDrawn && drawnAfter == drawn
    ensures var processed := FrontEnd.ProcessEquations(equations);
      ParseResult(old(s.coefficients), s.constantsFile, eval).Defined? ==>
        NoDuplicates(s.variables) &&
        (forall v :: v in s.variables <==> v in Discover(processed, Reserved + s.coefficients.Keys)) &&
        Assembled(s.variables, initialGuess, npRng, npDrawn, rng, drawn, guess, npDrawnAfter, drawnAfter) &&
        answer == Answer(s.variables, Loop(compile(processed, s.variables, s.coefficients), |s.variables|, tol, guess, 0, maxIter))
  {
    var processed := FrontEnd.ProcessEquations(equations);
    var outcome := s.GetVariables(processed, eval);
    if outcome.Fail? {
      return Err(ConstantFailure(outcome.error)), NdArray([]), npDrawn, drawn;
    }
    guess, npDrawnAfter, drawnAfter := AssembleGuess(s.variables, initialGuess, npRng, npDrawn, rng, drawn);
    var run := Iterate(compile(processed, s.variables, s.coefficients), |s.variables|, tol, maxIter, guess);
    answer := Answer(s.variables, run);
  }
}
