/** `generate_solutions`: rejection sampling of variable bindings until
    enough distinct ones satisfy the conditions, the run is cancelled, a
    minute has passed, or the attempt budget is spent. The random draws, the
    clock and the cancellation poll are supplied by an `Environment`. */
module Generator {
  import opened Wrappers
  import opened GeneratorTypes
  import opened Sampler
  import opened Evaluator

  /** The seconds after which a run gives up. */
  const TimeLimit: real := 60.0

  /** The default of `max_attempts_per_solution`. */
  const DefaultMaxAttemptsPerSolution: int := 50000

  /** The arguments of one call: the variables in their mapping's order,
      the conditions, the number of solutions wanted and the attempts
      allowed per solution. */
  datatype Request = Request(
    variables: seq<(string, VariableProperties)>,
    conditions: seq<Expr>,
    numOfSolutions: int,
    maxAttemptsPerSolution: int)
  {
    /** The variables come from a mapping, so their names are distinct. */
    predicate DistinctNames() {
      forall i, j :: 0 <= i < j < |variables| ==> variables[i].0 != variables[j].0
    }

    function Names(): set<string> {
      set i | 0 <= i < |variables| :: variables[i].0
    }

    /** `range(max_attempts_per_solution * num_of_solutions)` has this many
        elements. */
    function Budget(): (b: nat)
      ensures b == 0 <==> maxAttemptsPerSolution * numOfSolutions <= 0
      ensures maxAttemptsPerSolution * numOfSolutions > 0 ==> b == maxAttemptsPerSolution * numOfSolutions
    {
      if maxAttemptsPerSolution * numOfSolutions > 0 then maxAttemptsPerSolution * numOfSolutions else 0
    }
  }

  /** What a run observes, attempt by attempt: the outcomes of the random
      calls for variable `i` of attempt `k`, the seconds elapsed when attempt
      `k` reads the clock, whether attempt `k` finds the task cancelled or
      the page left, and the power of a positive base to a fractional
      exponent. */
  datatype Environment = Environment(
    draws: (nat, nat) -> Draws,
    elapsed: nat -> real,
    canceled: nat -> bool,
    root: (real, real) -> real)

  /** The random calls return values in the ranges they are given. */
  ghost predicate EnvFits(req: Request, env: Environment) {
    forall k: nat, i: nat :: i < |req.variables| ==> DrawsFit(req.variables[i].1, env.draws(k, i))
  }

  /** The value drawn for variable `i` in attempt `k`. */
  function Draw(req: Request, env: Environment, k: nat, i: nat): Option<real>
    requires EnvFits(req, env) && i < |req.variables|
  {
    GenerateValue(req.variables[i].1, env.draws(k, i))
  }

  /** The binding attempt `k` builds for the first `n` variables, or `None`
      once one of them fails to draw. */
  function SamplePrefix(req: Request, env: Environment, k: nat, n: nat): Option<map<string, real>>
    requires EnvFits(req, env) && n <= |req.variables|
  {
    if n == 0 then Some(map[])
    else
      match SamplePrefix(req, env, k, n - 1)
      case None => None
      case Some(values) =>
        match Draw(req, env, k, n - 1)
        case None => None
        case Some(v) => Some(values[req.variables[n - 1].0 := v])
  }

  /** The binding is built exactly when every one of the first `n`
      variables draws a value. */
  lemma {:induction false} SamplePrefixDefined(req: Request, env: Environment, k: nat, n: nat)
    requires EnvFits(req, env) && n <= |req.variables|
    ensures SamplePrefix(req, env, k, n).Some? <==> forall i :: 0 <= i < n ==> Draw(req, env, k, i).Some?
  {
    if n > 0 {
      SamplePrefixDefined(req, env, k, n - 1);
    }
  }

  /** A built binding binds exactly the first `n` names. */
  lemma {:induction false} SamplePrefixKeys(req: Request, env: Environment, k: nat, n: nat)
    requires EnvFits(req, env) && n <= |req.variables|
    requires SamplePrefix(req, env, k, n).Some?
    ensures SamplePrefix(req, env, k, n).value.Keys == set i | 0 <= i < n :: req.variables[i].0
  {
    if n > 0 {
      var values := SamplePrefix(req, env, k, n - 1).value;
      SamplePrefixKeys(req, env, k, n - 1);
      var r := SamplePrefix(req, env, k, n).value;
      assert r.Keys == values.Keys + {req.variables[n - 1].0};
      assert r.Keys == set i | 0 <= i < n :: req.variables[i].0;
    }
  }

  /** When the names are distinct, a built binding maps each name to the
      value drawn for it. */
  lemma {:induction false} SamplePrefixValues(req: Request, env: Environment, k: nat, n: nat)
    requires EnvFits(req, env) && n <= |req.variables| && req.DistinctNames()
    requires SamplePrefix(req, env, k, n).Some?
    ensures forall i :: 0 <= i < n ==>
      req.variables[i].0 in SamplePrefix(req, env, k, n).value &&
      Draw(req, env, k, i) == Some(SamplePrefix(req, env, k, n).value[req.variables[i].0])
  {
    if n > 0 {
      var values := SamplePrefix(req, env, k, n - 1).value;
      SamplePrefixValues(req, env, k, n - 1);
      var r := SamplePrefix(req, env, k, n).value;
      var v := Draw(req, env, k, n - 1).value;
      assert r == values[req.variables[n - 1].0 := v];
      forall i | 0 <= i < n
        ensures req.variables[i].0 in r && Draw(req, env, k, i) == Some(r[req.variables[i].0])
      {
        if i < n - 1 {
          assert req.variables[i].0 != req.variables[n - 1].0;
        }
      }
    }
  }

  /** The inner loop of one attempt: draw the variables in order and stop
      at the first that fails. */
  method SampleAttempt(req: Request, env: Environment, k: nat) returns (values: map<string, real>, complete: bool)
    requires EnvFits(req, env)
    ensures complete <==> SamplePrefix(req, env, k, |req.variables|).Some?
    ensures complete ==> values == SamplePrefix(req, env, k, |req.variables|).value
  {
    values := map[];
    var i := 0;
    while i < |req.variables|
      invariant 0 <= i <= |req.variables|
      invariant SamplePrefix(req, env, k, i) == Some(values)
    {
      var value := GenerateValue(req.variables[i].1, env.draws(k, i));
      if value.None? {
        assert SamplePrefix(req, env, k, i + 1).None?;
        SampleFailureIsFinal(req, env, k, i + 1, |req.variables|);
        return values, false;
      }
      values := values[req.variables[i].0 := value.value];
      i := i + 1;
    }
    return values, true;
  }

  lemma {:induction false} SampleFailureIsFinal(req: Request, env: Environment, k: nat, m: nat, n: nat)
    requires EnvFits(req, env) && m <= n <= |req.variables|
    requires SamplePrefix(req, env, k, m).None?
    ensures SamplePrefix(req, env, k, n).None?
    decreases n - m
  {
    if m < n {
      SampleFailureIsFinal(req, env, k, m + 1, n);
    }
  }

  /** The result of the attempts from `k` on, with `solutions` found so
      far: `None` when the budget is spent or the clock ran out, the empty
      set when cancelled. */
  function Run(req: Request, env: Environment, k: nat, solutions: set<Solution>): Option<set<Solution>>
    requires EnvFits(req, env)
    decreases req.Budget() - k
  {
    if k >= req.Budget() then None
    else if env.canceled(k) then Some({})
    else if env.elapsed(k) > TimeLimit then None
    else
      match SamplePrefix(req, env, k, |req.variables|)
      case None => Run(req, env, k + 1, solutions)
      case Some(values) =>
        var next := if IsSolution(values, req.conditions, env.root) then solutions + {Solution(values)} else solutions;
        if |next| == req.numOfSolutions then Some(next) else Run(req, env, k + 1, next)
  }

  /** `generate_solutions(variables, conditions, num_of_solutions, ...)`. */
  method GenerateSolutions(req: Request, env: Environment) returns (r: Option<set<Solution>>)
    requires EnvFits(req, env)
    ensures r == Run(req, env, 0, {})
  {
    var solutions: set<Solution> := {};
    var k: nat := 0;
    while k < req.Budget()
      invariant k <= req.Budget()
      invariant Run(req, env, 0, {}) == Run(req, env, k, solutions)
      decreases req.Budget() - k
    {
      if env.canceled(k) {
        return Some({});
      }
      if env.elapsed(k) > TimeLimit {
        return None;
      }
      var values, complete := SampleAttempt(req, env, k);
      if complete {
        if IsSolution(values, req.conditions, env.root) {
          solutions := solutions + {Solution(values)};
        }
        if |solutions| == req.numOfSolutions {
          return Some(solutions);
        }
      }
      k := k + 1;
    }
    return None;
  }

  /** A solution a run may report: it binds exactly the variables, every
      value is one its variable's sampler can produce, and it satisfies
      the conditions. */
  predicate Valid(req: Request, root: (real, real) -> real, s: Solution) {
    && s.values.Keys == req.Names()
    && (forall i :: 0 <= i < |req.variables| ==> Admissible(req.variables[i].1, s.values[req.variables[i].0]))
    && IsSolution(s.values, req.conditions, root)
  }

  /** A complete sample is a valid solution whenever it passes the
      conditions. */
  lemma SampleIsValid(req: Request, env: Environment, k: nat, values: map<string, real>)
    requires EnvFits(req, env) && req.DistinctNames()
    requires SamplePrefix(req, env, k, |req.variables|) == Some(values)
    requires IsSolution(values, req.conditions, env.root)
    ensures Valid(req, env.root, Solution(values))
  {
    SamplePrefixKeys(req, env, k, |req.variables|);
    SamplePrefixValues(req, env, k, |req.variables|);
    forall i | 0 <= i < |req.variables|
      ensures Admissible(req.variables[i].1, values[req.variables[i].0])
    {
      assert Draw(req, env, k, i) == Some(values[req.variables[i].0]);
    }
  }

  /** What a run returns: the empty set only when some attempt saw the
      cancellation, and otherwise exactly `num_of_solutions` valid
      solutions. */
  lemma {:induction false} RunIsSound(req: Request, env: Environment, k: nat, solutions: set<Solution>)
    requires EnvFits(req, env) && req.DistinctNames()
    requires forall s :: s in solutions ==> Valid(req, env.root, s)
    ensures var r := Run(req, env, k, solutions);
      r.Some? ==>
        || (r.value == {} && exists j :: k <= j < req.Budget() && env.canceled(j))
        || (|r.value| == req.numOfSolutions && forall s :: s in r.value ==> Valid(req, env.root, s))
    decreases req.Budget() - k
  {
    if k >= req.Budget() || env.canceled(k) || env.elapsed(k) > TimeLimit {
    } else {
      match SamplePrefix(req, env, k, |req.variables|)
      case None =>
        RunIsSound(req, env, k + 1, solutions);
      case Some(values) =>
        var next := if IsSolution(values, req.conditions, env.root) then solutions + {Solution(values)} else solutions;
        if IsSolution(values, req.conditions, env.root) {
          SampleIsValid(req, env, k, values);
        }
        if |next| != req.numOfSolutions {
          RunIsSound(req, env, k + 1, next);
        }
    }
  }

  /** A run that finishes normally (not cancelled) returns exactly the
      requested number of valid solutions. */
  lemma GenerateSolutionsIsSound(req: Request, env: Environment)
    requires EnvFits(req, env) && req.DistinctNames()
    ensures var r := Run(req, env, 0, {});
      r.Some? && r.value != {} ==>
        |r.value| == req.numOfSolutions && forall s :: s in r.value ==> Valid(req, env.root, s)
  {
    RunIsSound(req, env, 0, {});
  }

  /** Asking for no solutions (or allowing no attempts) returns `None`:
      the attempt loop is empty and its `else` branch runs. */
  lemma NoAttemptsGiveNone(req: Request, env: Environment)
    requires EnvFits(req, env)
    requires req.numOfSolutions == 0 || req.maxAttemptsPerSolution <= 0 < req.numOfSolutions
    ensures Run(req, env, 0, {}) == None
  {
    assert req.maxAttemptsPerSolution * req.numOfSolutions <= 0 by {
      if req.numOfSolutions > 0 {
        assert req.maxAttemptsPerSolution * req.numOfSolutions == -((-req.maxAttemptsPerSolution) * req.numOfSolutions);
      }
    }
  }

  /** Cancellation seen by the first attempt returns the empty set; a first
      attempt past the time limit returns `None`. */
  lemma FirstPollDecides(req: Request, env: Environment)
    requires EnvFits(req, env) && req.Budget() > 0
    ensures env.canceled(0) ==> Run(req, env, 0, {}) == Some({})
    ensures !env.canceled(0) && env.elapsed(0) > TimeLimit ==> Run(req, env, 0, {}) == None
  {
  }

  /** A variable with an empty interval never draws, so unless the run is
      cancelled it spends its whole budget and returns `None`. */
  lemma {:induction false} EmptyIntervalExhaustsBudget(req: Request, env: Environment, k: nat, solutions: set<Solution>, i: nat)
    requires EnvFits(req, env) && i < |req.variables|
    requires req.variables[i].1.interval.start >= req.variables[i].1.interval.stop
    requires forall j :: k <= j < req.Budget() ==> !env.canceled(j)
    ensures Run(req, env, k, solutions) == None
    decreases req.Budget() - k
  {
    if k < req.Budget() && env.elapsed(k) <= TimeLimit {
      assert Draw(req, env, k, i).None?;
      SamplePrefixDefined(req, env, k, |req.variables|);
      EmptyIntervalExhaustsBudget(req, env, k + 1, solutions, i);
    }
  }

  /** Attempts whose sample fails leave the solutions unchanged: the run
      from `k` equals the run from the next attempt. */
  lemma FailedAttemptAddsNothing(req: Request, env: Environment, k: nat, solutions: set<Solution>)
    requires EnvFits(req, env) && k < req.Budget() && !env.canceled(k) && env.elapsed(k) <= TimeLimit
    requires exists i :: 0 <= i < |req.variables| && Draw(req, env, k, i).None?
    ensures Run(req, env, k, solutions) == Run(req, env, k + 1, solutions)
  {
    SamplePrefixDefined(req, env, k, |req.variables|);
  }
}
