/**
 * The variables of a simulation: uniform random integers, binomial random
 * variables (declared but never implemented) and expression variables, each
 * evaluated against the values computed so far in a trial.
 */
module SimulationVariables {
  import opened Wrappers
  import opened Exceptions
  import opened Machine
  import opened Randomness
  import opened ExpressionTrees

  /** How a variable gets its value. */
  datatype Kind =
      /** `UniformRandomVariable`: an integer drawn from `[lowerBound, upperBound]`. */
    | Uniform(lowerBound: int32, upperBound: int32)
      /** `BinomialVariable`: `trials` Bernoulli trials of the given probability. */
    | Binomial(trials: uint32, successProbability: real)
      /** `ExpressionVariable`: the value of an expression over earlier variables. */
    | Expression(tree: Expr)

  /** `SimulationVariable`: a named variable, recorded as an output of each trial or not. */
  datatype SimVar = SimVar(name: string, recorded: bool, kind: Kind)

  /**
   * `SimulationVariable.Evaluate`: a uniform variable asks the generator for a
   * value in `[lowerBound, upperBound + 1)`, the upper bound plus one being
   * unchecked `int` arithmetic; a binomial variable throws
   * NotImplementedException; an expression variable evaluates its tree and
   * leaves the generator untouched.
   */
  function EvaluateVariable(v: SimVar, values: Mapping, g: Random, sampler: Sampler, ops: DivisionOps)
    : (r: Result<(real, Random), Exception>)
    ensures v.kind.Binomial? ==> r == Err(NotImplemented)
    ensures v.kind.Expression? ==> (r.Ok? <==> Vars(v.kind.tree) <= values.Keys)
    ensures v.kind.Expression? && r.Ok? ==> r.value.1 == g
    ensures v.kind.Uniform? && r.Ok? ==> r.value.1 == Random(g.seed, g.draws + 1)
  {
    match v.kind
    case Uniform(lo, hi) =>
      var (x, g') :- Next(g, lo, WrapInt32(hi + 1), sampler);
      Ok((x as real, g'))
    case Binomial(_, _) => Err(NotImplemented)
    case Expression(tree) =>
      EvaluateSucceedsIff(tree, values, ops);
      var x :- Evaluate(tree, values, ops);
      Ok((x, g))
  }

  /** With a sound generator, a uniform variable whose upper bound is below `int.MaxValue` lands in its closed range. */
  lemma UniformInRange(v: SimVar, values: Mapping, g: Random, sampler: Sampler, ops: DivisionOps)
    requires Sound(sampler) && v.kind.Uniform?
    requires v.kind.lowerBound <= v.kind.upperBound < IntMax
    ensures EvaluateVariable(v, values, g, sampler, ops).Ok?
    ensures var x := EvaluateVariable(v, values, g, sampler, ops).value.0;
      x == x.Floor as real && v.kind.lowerBound as real <= x <= v.kind.upperBound as real
  {
    NextInRange(g, v.kind.lowerBound, v.kind.upperBound + 1, sampler);
  }

  /** With a sound generator, equal bounds always give that value. */
  lemma UniformDegenerate(v: SimVar, values: Mapping, g: Random, sampler: Sampler, ops: DivisionOps)
    requires Sound(sampler)
    requires v.kind.Uniform? && v.kind.lowerBound == v.kind.upperBound < IntMax
    ensures EvaluateVariable(v, values, g, sampler, ops) ==
      Ok((v.kind.lowerBound as real, Random(g.seed, g.draws + 1)))
  {
    NextInRange(g, v.kind.lowerBound, v.kind.upperBound + 1, sampler);
  }

  /**
   * An inverted range: a lower bound exactly one above the upper bound makes an
   * empty request, answered with the lower bound itself; anything lower throws.
   */
  lemma UniformInverted(v: SimVar, values: Mapping, g: Random, sampler: Sampler, ops: DivisionOps)
    requires v.kind.Uniform? && v.kind.lowerBound > v.kind.upperBound
    ensures v.kind.lowerBound == v.kind.upperBound + 1 ==>
      EvaluateVariable(v, values, g, sampler, ops) == Ok((v.kind.lowerBound as real, Random(g.seed, g.draws + 1)))
    ensures v.kind.lowerBound > v.kind.upperBound + 1 ==>
      EvaluateVariable(v, values, g, sampler, ops) == Err(MinGreaterThanMax)
  {
  }

  /**
   * An upper bound of `int.MaxValue` wraps the exclusive bound round to
   * `int.MinValue`: the call throws unless the lower bound is `int.MinValue` too,
   * in which case the value is always `int.MinValue`.
   */
  lemma UniformUpperBoundWraps(v: SimVar, values: Mapping, g: Random, sampler: Sampler, ops: DivisionOps)
    requires v.kind.Uniform? && v.kind.upperBound == IntMax
    ensures v.kind.lowerBound > IntMin ==> EvaluateVariable(v, values, g, sampler, ops) == Err(MinGreaterThanMax)
    ensures v.kind.lowerBound == IntMin ==>
      EvaluateVariable(v, values, g, sampler, ops) == Ok((IntMin as real, Random(g.seed, g.draws + 1)))
  {
    assert WrapInt32(IntMax + 1) == IntMin;
  }

  /** Random variables never look at the other variables' values. */
  lemma RandomIgnoresValues(v: SimVar, m1: Mapping, m2: Mapping, g: Random, sampler: Sampler, ops: DivisionOps)
    requires !v.kind.Expression?
    ensures EvaluateVariable(v, m1, g, sampler, ops) == EvaluateVariable(v, m2, g, sampler, ops)
  {
  }

  /** An expression variable's value is its tree's value, and only its tree's variables matter. */
  lemma ExpressionValue(v: SimVar, m1: Mapping, m2: Mapping, g: Random, sampler: Sampler, ops: DivisionOps)
    requires v.kind.Expression? && AgreeOn(m1, m2, Vars(v.kind.tree))
    ensures EvaluateVariable(v, m1, g, sampler, ops) == EvaluateVariable(v, m2, g, sampler, ops)
    ensures EvaluateVariable(v, m1, g, sampler, ops).Ok? ==>
      Evaluate(v.kind.tree, m1, ops) == Ok(EvaluateVariable(v, m1, g, sampler, ops).value.0)
  {
    EvaluateLocal(v.kind.tree, m1, m2, ops);
  }
}
