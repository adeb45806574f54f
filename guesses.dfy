/**
 * Initial-guess assembly on the server side. The Newton and SciPy back
 * ends build a vector with one entry per discovered variable; GEKKO builds
 * a dictionary of solver variables. A variable missing from the supplied
 * guesses gets the next draw of Python's random.uniform(0, 2).
 */
module Guesses {
  import opened Wrappers
  import Text

  /** A stream of pseudo-random numbers: the n-th draw of the generator.
      Which draw comes next is part of the state the callers thread. */
  type Draws = nat -> real

  /** The values given to the unknowns, in order: the supplied guess when
      the mapping has the name, otherwise the next random draw. */
  function GuessValues(vars: seq<string>, guess: map<string, real>, rng: Draws, drawn: nat): seq<real> {
    if vars == [] then []
    else if vars[0] in guess then [guess[vars[0]]] + GuessValues(vars[1..], guess, rng, drawn)
    else [rng(drawn)] + GuessValues(vars[1..], guess, rng, drawn + 1)
  }

  /** The number of unknowns the mapping has no value for. */
  function Misses(vars: seq<string>, guess: map<string, real>): (n: nat)
    ensures n <= |vars|
  {
    if vars == [] then 0
    else (if vars[0] in guess then 0 else 1) + Misses(vars[1..], guess)
  }

  lemma {:induction false} MissesAppend(a: seq<string>, b: seq<string>, guess: map<string, real>)
    ensures Misses(a + b, guess) == Misses(a, guess) + Misses(b, guess)
  {
    if a == [] {
      assert a + b == b;
    } else {
      assert (a + b)[1..] == a[1..] + b;
      MissesAppend(a[1..], b, guess);
    }
  }

  lemma {:induction false} GuessValuesAppend(a: seq<string>, b: seq<string>, guess: map<string, real>, rng: Draws, drawn: nat)
    ensures GuessValues(a + b, guess, rng, drawn) ==
      GuessValues(a, guess, rng, drawn) + GuessValues(b, guess, rng, drawn + Misses(a, guess))
  {
    if a == [] {
      assert a + b == b;
      assert GuessValues(a, guess, rng, drawn) == [] && Misses(a, guess) == 0;
    } else {
      var h := if a[0] in guess then [guess[a[0]]] else [rng(drawn)];
      var d := if a[0] in guess then drawn else drawn + 1;
      assert GuessValues(a + b, guess, rng, drawn) == h + GuessValues(a[1..] + b, guess, rng, d) by {
        assert (a + b)[0] == a[0];
        assert (a + b)[1..] == a[1..] + b;
      }
      assert GuessValues(a, guess, rng, drawn) == h + GuessValues(a[1..], guess, rng, d);
      assert d + Misses(a[1..], guess) == drawn + Misses(a, guess);
      var tail := GuessValues(b, guess, rng, drawn + Misses(a, guess));
      assert GuessValues(a[1..] + b, guess, rng, d) == GuessValues(a[1..], guess, rng, d) + tail by {
        GuessValuesAppend(a[1..], b, guess, rng, d);
      }
      Text.ConcatAssoc(h, GuessValues(a[1..], guess, rng, d), tail);
    }
  }

  /** One more unknown adds its supplied value, or the next draw and one
      miss. */
  lemma GuessValuesSnoc(vars: seq<string>, v: string, guess: map<string, real>, rng: Draws, drawn: nat)
    ensures GuessValues(vars + [v], guess, rng, drawn) == GuessValues(vars, guess, rng, drawn) +
      [if v in guess then guess[v] else rng(drawn + Misses(vars, guess))]
    ensures Misses(vars + [v], guess) == Misses(vars, guess) + (if v in guess then 0 else 1)
  {
    GuessValuesAppend(vars, [v], guess, rng, drawn);
    MissesAppend(vars, [v], guess);
    assert [v][1..] == [];
  }

  /** One value per unknown, in the unknowns' order: the k-th is the supplied
      value when the mapping has the k-th name, and otherwise the draw that
      follows the ones the earlier missing names took. */
  lemma {:induction false} GuessValuesPointwise(vars: seq<string>, guess: map<string, real>, rng: Draws, drawn: nat)
    ensures |GuessValues(vars, guess, rng, drawn)| == |vars|
    ensures forall k {:trigger GuessValues(vars, guess, rng, drawn)[k]} :: 0 <= k < |vars| ==>
      GuessValues(vars, guess, rng, drawn)[k] ==
        if vars[k] in guess then guess[vars[k]] else rng(drawn + Misses(vars[..k], guess))
  {
    if vars != [] {
      var rest := vars[1..];
      var d := if vars[0] in guess then drawn else drawn + 1;
      var g := GuessValues(vars, guess, rng, drawn);
      var gs := GuessValues(rest, guess, rng, d);
      GuessValuesPointwise(rest, guess, rng, d);
      assert g == [g[0]] + gs;
      forall k | 0 <= k < |vars|
        ensures g[k] == if vars[k] in guess then guess[vars[k]] else rng(drawn + Misses(vars[..k], guess))
      {
        if k == 0 {
          assert vars[..0] == [];
        } else {
          MissesPrefix(vars, k, guess);
          assert d + Misses(rest[..k - 1], guess) == drawn + Misses(vars[..k], guess);
          assert g[k] == gs[k - 1] && vars[k] == rest[k - 1];
        }
      }
    }
  }

  /** The misses of a non-empty prefix: the first name's, then those of the
      rest of the prefix. */
  lemma MissesPrefix(vars: seq<string>, k: nat, guess: map<string, real>)
    requires 0 < k <= |vars|
    ensures Misses(vars[..k], guess) == (if vars[0] in guess then 0 else 1) + Misses(vars[1..][..k - 1], guess)
  {
    assert vars[..k][1..] == vars[1..][..k - 1];
  }

  /** A complete mapping leaves the generator alone. */
  lemma {:induction false} CompleteGuessDrawsNothing(vars: seq<string>, guess: map<string, real>, rng: Draws, drawn: nat)
    requires forall v :: v in vars ==> v in guess
    ensures Misses(vars, guess) == 0
    ensures GuessValues(vars, guess, rng, drawn) == seq(|vars|, k requires 0 <= k < |vars| => guess[vars[k]])
  {
    GuessValuesPointwise(vars, guess, rng, drawn);
    if vars != [] {
      CompleteGuessDrawsNothing(vars[1..], guess, rng, drawn);
    }
  }

  /** A vector in the solvers' sense: a NumPy array, on which += adds
      element-wise, or a Python list, on which += extends. */
  datatype Vector = NdArray(values: seq<real>) | PyList(values: seq<real>)

  /** The guess vector of the Newton and SciPy back ends. Without a mapping,
      np.random.uniform(0, 2, size=n) gives a NumPy array of n draws of
      NumPy's generator; with one, the list is built by a loop that appends
      the supplied value or the next draw of Python's generator. */
  method AssembleGuess(vars: seq<string>, initialGuess: Option<map<string, real>>,
                       npRng: Draws, npDrawn: nat, rng: Draws, drawn: nat)
    returns (x: Vector, npDrawnAfter: nat, drawnAfter: nat)
    ensures Assembled(vars, initialGuess, npRng, npDrawn, rng, drawn, x, npDrawnAfter, drawnAfter)
    ensures |x.values| == |vars|
  {
    if initialGuess.None? {
      x := NdArray(seq(|vars|, k requires 0 <= k < |vars| => npRng(npDrawn + k)));
      return x, npDrawn + |vars|, drawn;
    }
    var guess := initialGuess.value;
    var values: seq<real> := [];
    drawnAfter := drawn;
    for i := 0 to |vars|
      invariant values == GuessValues(vars[..i], guess, rng, drawn)
      invariant drawnAfter == drawn + Misses(vars[..i], guess)
    {
      var v := vars[i];
      var value: real;
      if v in guess {
        value := guess[v];
      } else {
        value := rng(drawnAfter);
        drawnAfter := drawnAfter + 1;
      }
      assert values + [value] == GuessValues(vars[..i + 1], guess, rng, drawn) &&
        drawnAfter == drawn + Misses(vars[..i + 1], guess) by {
        assert vars[..i + 1] == vars[..i] + [v];
        GuessValuesSnoc(vars[..i], v, guess, rng, drawn);
      }
      values := values + [value];
    }
    assert vars[..|vars|] == vars;
    GuessValuesPointwise(vars, guess, rng, drawn);
    return PyList(values), npDrawn, drawnAfter;
  }

  /** x is the guess vector assembled for vars, and the two generators have
      advanced by the draws it took: |vars| NumPy draws without a mapping,
      one Python draw per unknown the mapping lacks with one. */
  predicate Assembled(vars: seq<string>, initialGuess: Option<map<string, real>>,
                      npRng: Draws, npDrawn: nat, rng: Draws, drawn: nat,
                      x: Vector, npDrawnAfter: nat, drawnAfter: nat)
  {
    match initialGuess
    case None =>
      x == NdArray(seq(|vars|, k requires 0 <= k < |vars| => npRng(npDrawn + k))) &&
      npDrawnAfter == npDrawn + |vars| && drawnAfter == drawn
    case Some(guess) =>
      x == PyList(GuessValues(vars, guess, rng, drawn)) &&
      npDrawnAfter == npDrawn && drawnAfter == drawn + Misses(vars, guess)
  }

  // ---------------------------------------------------------------------
  // Dictionaries keyed by the unknowns

  /** Python's dict(zip(keys, values)): pairs up to the shorter of the two;
      a later key overwrites an earlier equal one. */
  function ZipMap(keys: seq<string>, values: seq<real>): map<string, real> {
    if keys == [] || values == [] then map[]
    else map[keys[0] := values[0]] + ZipMap(keys[1..], values[1..])
  }

  lemma {:induction false} ZipMapKeys(keys: seq<string>, values: seq<real>)
    ensures ZipMap(keys, values).Keys == set k | 0 <= k < |keys| && k < |values| :: keys[k]
  {
    if keys != [] && values != [] {
      ZipMapKeys(keys[1..], values[1..]);
      var s := set k | 0 <= k < |keys| && k < |values| :: keys[k];
      var t := set k | 0 <= k < |keys| - 1 && k < |values| - 1 :: keys[1..][k];
      assert s == {keys[0]} + t by {
        forall v | v in s ensures v in {keys[0]} + t {
          var k :| 0 <= k < |keys| && k < |values| && keys[k] == v;
          if k > 0 {
            assert keys[1..][k - 1] == v;
          }
        }
        forall v | v in t ensures v in s {
          var k :| 0 <= k < |keys| - 1 && k < |values| - 1 && keys[1..][k] == v;
          assert keys[k + 1] == v;
        }
      }
    }
  }

  /** With distinct keys, each key is paired with its own value. */
  lemma {:induction false} ZipMapAt(keys: seq<string>, values: seq<real>, k: nat)
    requires forall i, j :: 0 <= i < j < |keys| ==> keys[i] != keys[j]
    requires k < |keys| && k < |values|
    ensures keys[k] in ZipMap(keys, values) && ZipMap(keys, values)[keys[k]] == values[k]
  {
    ZipMapKeys(keys[1..], values[1..]);
    if k > 0 {
      ZipMapAt(keys[1..], values[1..], k - 1);
    }
  }

  /** GEKKO's guess dictionary: every unknown gets a solver variable whose
      starting value is the supplied guess or, failing that, the next random
      draw. Without a mapping all of them are drawn, as with an empty one. */
  method GekkoGuess(vars: seq<string>, initialGuess: Option<map<string, real>>, rng: Draws, drawn: nat)
    returns (gvars: map<string, real>, drawnAfter: nat)
    ensures var guess := if initialGuess.Some? then initialGuess.value else map[];
      gvars == ZipMap(vars, GuessValues(vars, guess, rng, drawn)) &&
      drawnAfter == drawn + Misses(vars, guess)
  {
    var guess := if initialGuess.Some? then initialGuess.value else map[];
    gvars := map[];
    drawnAfter := drawn;
    ghost var values: seq<real> := [];
    for i := 0 to |vars|
      invariant values == GuessValues(vars[..i], guess, rng, drawn)
      invariant drawnAfter == drawn + Misses(vars[..i], guess)
      invariant |values| == i
      invariant gvars == ZipMap(vars[..i], values)
    {
      var v := vars[i];
      var value: real;
      if v in guess {
        value := guess[v];
      } else {
        value := rng(drawnAfter);
        drawnAfter := drawnAfter + 1;
      }
      assert values + [value] == GuessValues(vars[..i + 1], guess, rng, drawn) &&
        drawnAfter == drawn + Misses(vars[..i + 1], guess) by {
        assert vars[..i + 1] == vars[..i] + [v];
        GuessValuesSnoc(vars[..i], v, guess, rng, drawn);
      }
      assert gvars[v := value] == ZipMap(vars[..i + 1], values + [value]) by {
        assert vars[..i + 1] == vars[..i] + [v];
        ZipMapSnoc(vars[..i], values, v, value);
      }
      gvars := gvars[v := value];
      values := values + [value];
    }
    assert vars[..|vars|] == vars;
  }

  /** Adding a pair at the back overwrites that key. */
  lemma {:induction false} ZipMapSnoc(keys: seq<string>, values: seq<real>, k: string, v: real)
    requires |keys| == |values|
    ensures ZipMap(keys + [k], values + [v]) == ZipMap(keys, values)[k := v]
  {
    if keys == [] {
      assert keys + [k] == [k] && values + [v] == [v];
      assert [k][1..] == [] && [v][1..] == [];
    } else {
      assert (keys + [k])[1..] == keys[1..] + [k];
      assert (values + [v])[1..] == values[1..] + [v];
      ZipMapSnoc(keys[1..], values[1..], k, v);
    }
  }

  /** dict(zip(keys, values)) of distinct keys and as many values: each key
      maps to its own value, and nothing else is a key. */
  lemma ZipMapExact(keys: seq<string>, values: seq<real>)
    requires forall i, j :: 0 <= i < j < |keys| ==> keys[i] != keys[j]
    requires |keys| == |values|
    ensures forall v :: v in ZipMap(keys, values) <==> v in keys
    ensures forall k {:trigger values[k]} :: 0 <= k < |keys| ==> keys[k] in ZipMap(keys, values) && ZipMap(keys, values)[keys[k]] == values[k]
  {
    ZipMapKeys(keys, values);
    forall v | v in keys ensures v in ZipMap(keys, values) {
      var k :| 0 <= k < |keys| && keys[k] == v;
      assert v == keys[k];
    }
    forall k | 0 <= k < |keys| ensures keys[k] in ZipMap(keys, values) && ZipMap(keys, values)[keys[k]] == values[k] {
      ZipMapAt(keys, values, k);
    }
  }

  /** GEKKO's dictionary has exactly the unknowns as keys, and each holds the
      supplied guess or its own draw. */
  lemma GuessDictEntries(vars: seq<string>, guess: map<string, real>, rng: Draws, drawn: nat)
    requires forall i, j :: 0 <= i < j < |vars| ==> vars[i] != vars[j]
    ensures forall v :: v in ZipMap(vars, GuessValues(vars, guess, rng, drawn)) <==> v in vars
    ensures forall k :: 0 <= k < |vars| ==> GuessEntry(vars, guess, rng, drawn, k)
  {
    var values := GuessValues(vars, guess, rng, drawn);
    GuessValuesPointwise(vars, guess, rng, drawn);
    ZipMapExact(vars, values);
    forall k | 0 <= k < |vars| ensures GuessEntry(vars, guess, rng, drawn, k) {
      assert values[k] == if vars[k] in guess then guess[vars[k]] else rng(drawn + Misses(vars[..k], guess));
    }
  }

  /** The k-th unknown's entry in GEKKO's dictionary. */
  predicate GuessEntry(vars: seq<string>, guess: map<string, real>, rng: Draws, drawn: nat, k: nat)
    requires k < |vars|
  {
    var g := ZipMap(vars, GuessValues(vars, guess, rng, drawn));
    vars[k] in g && g[vars[k]] == if vars[k] in guess then guess[vars[k]] else rng(drawn + Misses(vars[..k], guess))
  }
}
