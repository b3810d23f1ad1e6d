/**
 * One trial of a simulation: every variable is set to 0, the variables are
 * evaluated in declaration order (each value written back under its name
 * before the next variable is evaluated), and the recorded variables' values
 * are collected into the trial's output.
 */
module Simulating {
  import opened Wrappers
  import opened Exceptions
  import opened Machine
  import opened Randomness
  import opened ExpressionTrees
  import opened SimulationVariables
  import opened SimulationDefinitions

  /**
   * The first loop of `RunSimulation`: every name mapped to 0, in order;
   * `Dictionary.Add` throws on a name that is already present.
   */
  function InitialValues(vs: seq<SimVar>): Result<Mapping, Exception>
  {
    if vs == [] then Ok(map[])
    else
      var v := vs[|vs| - 1];
      var m :- InitialValues(vs[..|vs| - 1]);
      if v.name in m then Err(DuplicateKey(v.name)) else Ok(m[v.name := 0.0])
  }

  /**
   * The second loop: the variables evaluated in order against the values so
   * far, each result stored under the variable's name (the indexer adds or
   * overwrites, it never throws); the first exception ends the run.
   */
  function EvaluateAll(vs: seq<SimVar>, values: Mapping, g: Random, sampler: Sampler, ops: DivisionOps)
    : Result<(Mapping, Random), Exception>
  {
    if vs == [] then Ok((values, g))
    else
      var v := vs[|vs| - 1];
      var before :- EvaluateAll(vs[..|vs| - 1], values, g, sampler, ops);
      var after :- EvaluateVariable(v, before.0, before.1, sampler, ops);
      Ok((before.0[v.name := after.0], after.1))
  }

  /**
   * The third loop: the recorded variables' values, looked up by name (the
   * indexer throws on an absent name) and added to the output in order
   * (`Dictionary.Add` throws on a repeated name).
   */
  function RecordedValues(vs: seq<SimVar>, values: Mapping): Result<Mapping, Exception>
  {
    if vs == [] then Ok(map[])
    else
      var v := vs[|vs| - 1];
      var out :- RecordedValues(vs[..|vs| - 1], values);
      if !v.recorded then Ok(out)
      else if v.name !in values then Err(KeyNotFound(v.name))
      else if v.name in out then Err(DuplicateKey(v.name))
      else Ok(out[v.name := values[v.name]])
  }

  /** `RunSimulation`, as a function: the output of one trial with the generator seeded by `seed`. */
  function Simulate(d: SimulationDefinition, seed: int32, sampler: Sampler, ops: DivisionOps)
    : (r: Result<Mapping, Exception>)
  {
    var init :- InitialValues(d.variables);
    var evaluated :- EvaluateAll(d.variables, init, NewRandom(seed), sampler, ops);
    RecordedValues(d.variables, evaluated.0)
  }

  /** `Simulating.RunSimulation`: the three loops over the variables, with the value dictionary updated in place. */
  method RunSimulation(d: SimulationDefinition, seed: int32, sampler: Sampler, ops: DivisionOps)
    returns (r: Result<Mapping, Exception>)
    ensures r == Simulate(d, seed, sampler, ops)
  {
    var vs := d.variables;
    var values: Mapping := map[];
    for i := 0 to |vs|
      invariant InitialValues(vs[..i]) == Ok(values)
    {
      assert vs[..i + 1][..i] == vs[..i];
      if vs[i].name in values {
        assert vs == vs[..|vs|];
        InitialValuesFailurePersists(vs, i + 1);
        return Err(DuplicateKey(vs[i].name));
      }
      values := values[vs[i].name := 0.0];
    }
    assert vs[..|vs|] == vs;
    ghost var init := values;
    var random := NewRandom(seed);
    for i := 0 to |vs|
      invariant EvaluateAll(vs[..i], init, NewRandom(seed), sampler, ops) == Ok((values, random))
    {
      assert vs[..i + 1][..i] == vs[..i];
      var result := EvaluateVariable(vs[i], values, random, sampler, ops);
      if result.Err? {
        EvaluateAllFailurePersists(vs, init, NewRandom(seed), sampler, ops, i + 1);
        return Err(result.error);
      }
      values := values[vs[i].name := result.value.0];
      random := result.value.1;
    }
    assert vs[..|vs|] == vs;
    var output: Mapping := map[];
    for i := 0 to |vs|
      invariant RecordedValues(vs[..i], values) == Ok(output)
    {
      assert vs[..i + 1][..i] == vs[..i];
      if vs[i].recorded {
        if vs[i].name !in values {
          RecordedValuesFailurePersists(vs, values, i + 1);
          return Err(KeyNotFound(vs[i].name));
        }
        if vs[i].name in output {
          RecordedValuesFailurePersists(vs, values, i + 1);
          return Err(DuplicateKey(vs[i].name));
        }
        output := output[vs[i].name := values[vs[i].name]];
      }
    }
    assert vs[..|vs|] == vs;
    return Ok(output);
  }

  /** A failure in the first `k` names is the failure of the whole first loop. */
  lemma {:induction false} InitialValuesFailurePersists(vs: seq<SimVar>, k: nat)
    requires k <= |vs| && InitialValues(vs[..k]).Err?
    ensures InitialValues(vs) == InitialValues(vs[..k])
    decreases |vs| - k
  {
    if k < |vs| {
      assert vs[..k + 1][..k] == vs[..k];
      InitialValuesFailurePersists(vs, k + 1);
    } else {
      assert vs[..k] == vs;
    }
  }

  lemma {:induction false} EvaluateAllFailurePersists(vs: seq<SimVar>, values: Mapping, g: Random,
                                                      sampler: Sampler, ops: DivisionOps, k: nat)
    requires k <= |vs| && EvaluateAll(vs[..k], values, g, sampler, ops).Err?
    ensures EvaluateAll(vs, values, g, sampler, ops) == EvaluateAll(vs[..k], values, g, sampler, ops)
    decreases |vs| - k
  {
    if k < |vs| {
      assert vs[..k + 1][..k] == vs[..k];
      EvaluateAllFailurePersists(vs, values, g, sampler, ops, k + 1);
    } else {
      assert vs[..k] == vs;
    }
  }

  lemma {:induction false} RecordedValuesFailurePersists(vs: seq<SimVar>, values: Mapping, k: nat)
    requires k <= |vs| && RecordedValues(vs[..k], values).Err?
    ensures RecordedValues(vs, values) == RecordedValues(vs[..k], values)
    decreases |vs| - k
  {
    if k < |vs| {
      assert vs[..k + 1][..k] == vs[..k];
      RecordedValuesFailurePersists(vs, values, k + 1);
    } else {
      assert vs[..k] == vs;
    }
  }

  // ---------------------------------------------------------------- the first loop

  /** After the first loop every declared name is present, with the value 0. */
  lemma {:induction false} InitialValuesKeys(vs: seq<SimVar>)
    requires InitialValues(vs).Ok?
    ensures InitialValues(vs).value.Keys == NameSet(vs)
    ensures forall n :: n in InitialValues(vs).value ==> InitialValues(vs).value[n] == 0.0
  {
    if vs != [] {
      InitialValuesKeys(vs[..|vs| - 1]);
      NameSetLast(vs);
    }
  }

  /** The first loop succeeds exactly when no name is declared twice; otherwise it names a repeated name. */
  lemma {:induction false} InitialValuesSucceedsIff(vs: seq<SimVar>)
    ensures InitialValues(vs).Ok? <==> DistinctNames(vs)
    ensures InitialValues(vs).Err? ==> exists i, j :: (0 <= i < j < |vs| && vs[i].name == vs[j].name &&
      InitialValues(vs).error == DuplicateKey(vs[j].name))
  {
    if vs != [] {
      var init := vs[..|vs| - 1];
      var v := vs[|vs| - 1];
      InitialValuesSucceedsIff(init);
      if InitialValues(init).Err? {
        var i, j :| 0 <= i < j < |init| && init[i].name == init[j].name &&
          InitialValues(init).error == DuplicateKey(init[j].name);
        assert vs[i] == init[i] && vs[j] == init[j];
      } else {
        InitialValuesKeys(init);
        if v.name in InitialValues(init).value {
          var i :| 0 <= i < |init| && init[i].name == v.name;
          assert vs[i] == init[i];
        } else {
          forall i, j | 0 <= i < j < |vs| ensures vs[i].name != vs[j].name {
            assert vs[i] == init[i];
            if j < |init| {
              assert vs[j] == init[j];
            } else {
              assert init[i].name in NameSet(init);
            }
          }
        }
      }
    }
  }

  // ---------------------------------------------------------------- the second loop

  /** The second loop only stores values under the variables' names. */
  lemma {:induction false} EvaluateAllKeys(vs: seq<SimVar>, values: Mapping, g: Random, sampler: Sampler, ops: DivisionOps)
    requires EvaluateAll(vs, values, g, sampler, ops).Ok?
    ensures EvaluateAll(vs, values, g, sampler, ops).value.0.Keys == values.Keys + NameSet(vs)
  {
    if vs != [] {
      EvaluateAllKeys(vs[..|vs| - 1], values, g, sampler, ops);
      NameSetLast(vs);
    }
  }

  /** The number of uniform variables: each takes one draw from the generator. */
  function UniformCount(vs: seq<SimVar>): nat
  {
    if vs == [] then 0
    else UniformCount(vs[..|vs| - 1]) + (if vs[|vs| - 1].kind.Uniform? then 1 else 0)
  }

  /**
   * The generator is advanced once per uniform variable and never reseeded, so
   * the uniform variables take the draws of the seed's stream in declaration order.
   */
  lemma {:induction false} DrawsPerUniform(vs: seq<SimVar>, values: Mapping, g: Random, sampler: Sampler, ops: DivisionOps)
    requires EvaluateAll(vs, values, g, sampler, ops).Ok?
    ensures EvaluateAll(vs, values, g, sampler, ops).value.1 == Random(g.seed, g.draws + UniformCount(vs))
  {
    if vs != [] {
      DrawsPerUniform(vs[..|vs| - 1], values, g, sampler, ops);
    }
  }

  /** A successful run evaluated every variable successfully, each against the state its predecessors left. */
  lemma EvaluateAllEach(vs: seq<SimVar>, values: Mapping, g: Random, sampler: Sampler, ops: DivisionOps, k: nat)
    requires k < |vs| && EvaluateAll(vs, values, g, sampler, ops).Ok?
    ensures EvaluateAll(vs[..k], values, g, sampler, ops).Ok?
    ensures var s := EvaluateAll(vs[..k], values, g, sampler, ops).value;
      EvaluateVariable(vs[k], s.0, s.1, sampler, ops).Ok?
  {
    if EvaluateAll(vs[..k], values, g, sampler, ops).Err? {
      EvaluateAllFailurePersists(vs, values, g, sampler, ops, k);
    } else {
      assert vs[..k + 1][..k] == vs[..k];
      if EvaluateAll(vs[..k + 1], values, g, sampler, ops).Err? {
        EvaluateAllFailurePersists(vs, values, g, sampler, ops, k + 1);
      }
    }
  }

  /** A failed run failed at some variable, with that variable's own exception, all earlier ones having succeeded. */
  lemma {:induction false} EvaluateAllFailsAt(vs: seq<SimVar>, values: Mapping, g: Random, sampler: Sampler, ops: DivisionOps)
    requires EvaluateAll(vs, values, g, sampler, ops).Err?
    ensures exists k :: (0 <= k < |vs| && EvaluateAll(vs[..k], values, g, sampler, ops).Ok? &&
      var s := EvaluateAll(vs[..k], values, g, sampler, ops).value;
      EvaluateVariable(vs[k], s.0, s.1, sampler, ops) == Err(EvaluateAll(vs, values, g, sampler, ops).error))
  {
    var init := vs[..|vs| - 1];
    if EvaluateAll(init, values, g, sampler, ops).Err? {
      EvaluateAllFailsAt(init, values, g, sampler, ops);
      var k :| 0 <= k < |init| && EvaluateAll(init[..k], values, g, sampler, ops).Ok? &&
        (var s := EvaluateAll(init[..k], values, g, sampler, ops).value;
         EvaluateVariable(init[k], s.0, s.1, sampler, ops) == Err(EvaluateAll(init, values, g, sampler, ops).error));
      assert init[..k] == vs[..k] && init[k] == vs[k];
    } else {
      assert vs[..|vs| - 1] == init;
    }
  }

  /** One more variable evaluated: its value is stored under its name, and no other entry changes. */
  lemma EvaluateAllStep(vs: seq<SimVar>, values: Mapping, g: Random, sampler: Sampler, ops: DivisionOps, k: nat)
    requires k < |vs| && EvaluateAll(vs[..k + 1], values, g, sampler, ops).Ok?
    ensures EvaluateAll(vs[..k], values, g, sampler, ops).Ok?
    ensures var s := EvaluateAll(vs[..k], values, g, sampler, ops).value;
      var x := EvaluateVariable(vs[k], s.0, s.1, sampler, ops);
      x.Ok? && EvaluateAll(vs[..k + 1], values, g, sampler, ops).value.0 == s.0[vs[k].name := x.value.0]
  {
    assert vs[..k + 1][..k] == vs[..k];
  }

  /** With distinct names, evaluating variables `i .. k-1` leaves every other variable's entry as it was. */
  lemma {:induction false} OtherEntriesUntouched(vs: seq<SimVar>, values: Mapping, g: Random, sampler: Sampler,
                                                 ops: DivisionOps, i: nat, k: nat, j: nat)
    requires DistinctNames(vs) && i <= k <= |vs| && j < |vs| && (j < i || k <= j)
    requires EvaluateAll(vs[..k], values, g, sampler, ops).Ok?
    ensures EvaluateAll(vs[..i], values, g, sampler, ops).Ok?
    ensures var before := EvaluateAll(vs[..i], values, g, sampler, ops).value.0;
      var after := EvaluateAll(vs[..k], values, g, sampler, ops).value.0;
      vs[j].name in before ==> vs[j].name in after && after[vs[j].name] == before[vs[j].name]
    decreases k - i
  {
    if i < k {
      EvaluateAllStep(vs, values, g, sampler, ops, k - 1);
      assert vs[k - 1].name != vs[j].name;
      OtherEntriesUntouched(vs, values, g, sampler, ops, i, k - 1, j);
    }
  }

  /**
   * What variable `k` sees when it is evaluated: the value computed for every
   * earlier variable, and 0 for itself and every later one.
   */
  lemma VariableSees(d: SimulationDefinition, seed: int32, sampler: Sampler, ops: DivisionOps, k: nat, j: nat)
    requires InitialValues(d.variables).Ok?
    requires k <= |d.variables| && j < |d.variables|
    requires EvaluateAll(d.variables[..k], InitialValues(d.variables).value, NewRandom(seed), sampler, ops).Ok?
    ensures var vs := d.variables;
      var init := InitialValues(vs).value;
      var seen := EvaluateAll(vs[..k], init, NewRandom(seed), sampler, ops).value.0;
      vs[j].name in seen &&
      if j < k then
        EvaluateAll(vs[..j], init, NewRandom(seed), sampler, ops).Ok? &&
        (var s := EvaluateAll(vs[..j], init, NewRandom(seed), sampler, ops).value;
         EvaluateVariable(vs[j], s.0, s.1, sampler, ops).Ok? &&
         seen[vs[j].name] == EvaluateVariable(vs[j], s.0, s.1, sampler, ops).value.0)
      else
        seen[vs[j].name] == 0.0
  {
    var vs := d.variables;
    var init := InitialValues(vs).value;
    var g := NewRandom(seed);
    InitialValuesSucceedsIff(vs);
    InitialValuesKeys(vs);
    NameSetPrefix(vs, j);
    if j < k {
      OtherEntriesUntouched(vs, init, g, sampler, ops, j + 1, k, j);
      EvaluateAllStep(vs, init, g, sampler, ops, j);
    } else {
      assert vs[..0] == [];
      OtherEntriesUntouched(vs, init, g, sampler, ops, 0, k, j);
    }
  }

  // ---------------------------------------------------------------- the third loop

  /** The output holds exactly the recorded names, each with its value. */
  lemma {:induction false} RecordedValuesMeaning(vs: seq<SimVar>, values: Mapping)
    requires RecordedValues(vs, values).Ok?
    ensures RecordedValues(vs, values).value.Keys == (set n | n in RecordedNames(vs))
    ensures forall n :: n in RecordedValues(vs, values).value ==>
      n in values && RecordedValues(vs, values).value[n] == values[n]
  {
    if vs != [] {
      RecordedValuesMeaning(vs[..|vs| - 1], values);
    }
  }

  /** The recorded values are found whenever every name has a value and no name is repeated. */
  lemma {:induction false} RecordedValuesSucceed(vs: seq<SimVar>, values: Mapping)
    requires NameSet(vs) <= values.Keys && DistinctNames(vs)
    ensures RecordedValues(vs, values).Ok?
  {
    if vs != [] {
      var init := vs[..|vs| - 1];
      var v := vs[|vs| - 1];
      NameSetLast(vs);
      assert DistinctNames(init) by {
        forall i, j | 0 <= i < j < |init| ensures init[i].name != init[j].name {
          assert vs[i] == init[i] && vs[j] == init[j];
        }
      }
      RecordedValuesSucceed(init, values);
      RecordedValuesMeaning(init, values);
      assert v.name !in NameSet(init) by {
        forall i | 0 <= i < |init| ensures init[i].name != v.name {
          assert vs[i] == init[i];
        }
      }
      RecordedNamesAreNames(init);
    }
  }

  /** Every recorded name is the name of one of the variables. */
  lemma {:induction false} RecordedNamesAreNames(vs: seq<SimVar>)
    ensures forall n :: n in RecordedNames(vs) ==> n in NameSet(vs)
  {
    if vs != [] {
      RecordedNamesAreNames(vs[..|vs| - 1]);
      NameSetLast(vs);
    }
  }

  /** A recorded variable's name is among the recorded names. */
  lemma {:induction false} RecordedNameOf(vs: seq<SimVar>, j: nat)
    requires j < |vs| && vs[j].recorded
    ensures vs[j].name in RecordedNames(vs)
  {
    var init := vs[..|vs| - 1];
    if j < |init| {
      RecordedNameOf(init, j);
      assert init[j] == vs[j];
    }
  }

  // ---------------------------------------------------------------- the whole run

  /** A variable that can be evaluated against values for all of `vs`'s names. */
  predicate Runnable(v: SimVar, vs: seq<SimVar>)
  {
    match v.kind
    case Uniform(lo, hi) => lo <= WrapInt32(hi + 1)
    case Binomial(_, _) => false
    case Expression(tree) => Vars(tree) <= NameSet(vs)
  }

  /** Evaluation against a mapping holding every name of `vs` succeeds exactly for the runnable variables. */
  lemma EvaluateVariableSucceedsIff(v: SimVar, vs: seq<SimVar>, values: Mapping, g: Random, sampler: Sampler, ops: DivisionOps)
    requires values.Keys == NameSet(vs)
    ensures EvaluateVariable(v, values, g, sampler, ops).Ok? <==> Runnable(v, vs)
  {
  }

  /** The second loop, started from all the names: it succeeds exactly when each variable is runnable. */
  lemma {:induction false} EvaluateAllSucceedsIff(vs: seq<SimVar>, k: nat, values: Mapping, g: Random,
                                                  sampler: Sampler, ops: DivisionOps)
    requires k <= |vs| && values.Keys == NameSet(vs)
    ensures EvaluateAll(vs[..k], values, g, sampler, ops).Ok? <==> forall i :: 0 <= i < k ==> Runnable(vs[i], vs)
  {
    if k > 0 {
      var v := vs[k - 1];
      assert vs[..k][..k - 1] == vs[..k - 1] && vs[..k][k - 1] == v;
      EvaluateAllSucceedsIff(vs, k - 1, values, g, sampler, ops);
      var before := EvaluateAll(vs[..k - 1], values, g, sampler, ops);
      if before.Ok? {
        NameSetPrefix(vs, k - 1);
        EvaluateAllKeys(vs[..k - 1], values, g, sampler, ops);
        assert before.value.0.Keys == NameSet(vs);
        EvaluateVariableSucceedsIff(v, vs, before.value.0, before.value.1, sampler, ops);
        assert EvaluateAll(vs[..k], values, g, sampler, ops).Ok? <==>
          EvaluateVariable(v, before.value.0, before.value.1, sampler, ops).Ok?;
      } else {
        assert EvaluateAll(vs[..k], values, g, sampler, ops).Err?;
      }
      assert (forall i :: 0 <= i < k ==> Runnable(vs[i], vs)) <==>
        (forall i :: 0 <= i < k - 1 ==> Runnable(vs[i], vs)) && Runnable(v, vs);
    }
  }

  /**
   * A trial succeeds exactly when no name is declared twice and every variable
   * is runnable: no binomial variable, no inverted uniform range, and no
   * expression naming an undeclared variable.
   */
  lemma SimulateSucceedsIff(d: SimulationDefinition, seed: int32, sampler: Sampler, ops: DivisionOps)
    ensures Simulate(d, seed, sampler, ops).Ok? <==>
      DistinctNames(d.variables) && forall i :: 0 <= i < |d.variables| ==> Runnable(d.variables[i], d.variables)
  {
    var vs := d.variables;
    InitialValuesSucceedsIff(vs);
    if InitialValues(vs).Ok? {
      var init := InitialValues(vs).value;
      InitialValuesKeys(vs);
      EvaluateAllSucceedsIff(vs, |vs|, init, NewRandom(seed), sampler, ops);
      assert vs[..|vs|] == vs;
      if EvaluateAll(vs, init, NewRandom(seed), sampler, ops).Ok? {
        EvaluateAllKeys(vs, init, NewRandom(seed), sampler, ops);
        RecordedValuesSucceed(vs, EvaluateAll(vs, init, NewRandom(seed), sampler, ops).value.0);
      }
    }
  }

  /** Any binomial variable makes every trial fail. */
  lemma BinomialRunFails(d: SimulationDefinition, seed: int32, sampler: Sampler, ops: DivisionOps, k: nat)
    requires k < |d.variables| && d.variables[k].kind.Binomial?
    ensures Simulate(d, seed, sampler, ops).Err?
  {
    SimulateSucceedsIff(d, seed, sampler, ops);
    assert !Runnable(d.variables[k], d.variables);
  }

  /** The first binomial variable, reached with every earlier variable evaluated, fails the trial with NotImplementedException. */
  lemma FirstBinomialFails(d: SimulationDefinition, seed: int32, sampler: Sampler, ops: DivisionOps, k: nat)
    requires InitialValues(d.variables).Ok?
    requires k < |d.variables| && d.variables[k].kind.Binomial?
    requires EvaluateAll(d.variables[..k], InitialValues(d.variables).value, NewRandom(seed), sampler, ops).Ok?
    ensures Simulate(d, seed, sampler, ops) == Err(NotImplemented)
  {
    var vs := d.variables;
    assert vs[..k + 1][..k] == vs[..k];
    EvaluateAllFailurePersists(vs, InitialValues(vs).value, NewRandom(seed), sampler, ops, k + 1);
  }

  /**
   * Every failure of a trial is one of the source's exceptions: a repeated
   * name, an inverted range, the unimplemented binomial, or a variable that is
   * not declared at all (a forward reference reads the placeholder 0 instead).
   */
  lemma SimulateErrors(d: SimulationDefinition, seed: int32, sampler: Sampler, ops: DivisionOps)
    requires Simulate(d, seed, sampler, ops).Err?
    ensures var e := Simulate(d, seed, sampler, ops).error;
      (e.DuplicateKey? && !DistinctNames(d.variables)) || e == MinGreaterThanMax || e == NotImplemented ||
      (e.MissingVariable? && e.name !in NameSet(d.variables) &&
       exists k :: 0 <= k < |d.variables| && d.variables[k].kind.Expression? && e.name in Vars(d.variables[k].kind.tree))
  {
    var vs := d.variables;
    InitialValuesSucceedsIff(vs);
    if InitialValues(vs).Ok? {
      var init := InitialValues(vs).value;
      var g := NewRandom(seed);
      InitialValuesKeys(vs);
      if EvaluateAll(vs, init, g, sampler, ops).Err? {
        EvaluateAllFailsAt(vs, init, g, sampler, ops);
        var k :| 0 <= k < |vs| && EvaluateAll(vs[..k], init, g, sampler, ops).Ok? &&
          (var s := EvaluateAll(vs[..k], init, g, sampler, ops).value;
           EvaluateVariable(vs[k], s.0, s.1, sampler, ops) == Err(EvaluateAll(vs, init, g, sampler, ops).error));
        ExpressionFailureIsUndeclared(vs, k, init, g, sampler, ops);
      } else {
        EvaluateAllKeys(vs, init, g, sampler, ops);
        RecordedValuesSucceed(vs, EvaluateAll(vs, init, g, sampler, ops).value.0);
      }
    }
  }

  /** A variable evaluated after the first loop fails only with its own kind's exception, never over a declared name. */
  lemma ExpressionFailureIsUndeclared(vs: seq<SimVar>, k: nat, init: Mapping, g: Random, sampler: Sampler, ops: DivisionOps)
    requires k < |vs| && init.Keys == NameSet(vs)
    requires EvaluateAll(vs[..k], init, g, sampler, ops).Ok?
    requires var s := EvaluateAll(vs[..k], init, g, sampler, ops).value;
      EvaluateVariable(vs[k], s.0, s.1, sampler, ops).Err?
    ensures var s := EvaluateAll(vs[..k], init, g, sampler, ops).value;
      var e := EvaluateVariable(vs[k], s.0, s.1, sampler, ops).error;
      e == MinGreaterThanMax || e == NotImplemented ||
      (e.MissingVariable? && e.name !in NameSet(vs) && vs[k].kind.Expression? && e.name in Vars(vs[k].kind.tree))
  {
    var s := EvaluateAll(vs[..k], init, g, sampler, ops).value;
    EvaluateAllKeys(vs[..k], init, g, sampler, ops);
    NameSetPrefix(vs, k);
    if vs[k].kind.Expression? {
      EvaluateFailureNamesMissingVariable(vs[k].kind.tree, s.0, ops);
    }
  }

  /** A trial's output holds exactly the recorded variables, each with the value the second loop left for it. */
  lemma SimulateOutput(d: SimulationDefinition, seed: int32, sampler: Sampler, ops: DivisionOps)
    requires Simulate(d, seed, sampler, ops).Ok?
    ensures var init := InitialValues(d.variables).value;
      var evaluated := EvaluateAll(d.variables, init, NewRandom(seed), sampler, ops);
      var out := Simulate(d, seed, sampler, ops).value;
      evaluated.Ok? &&
      out.Keys == (set n | n in RecordedNames(d.variables)) &&
      forall n :: n in out ==> n in evaluated.value.0 && out[n] == evaluated.value.0[n]
  {
    var init := InitialValues(d.variables).value;
    RecordedValuesMeaning(d.variables, EvaluateAll(d.variables, init, NewRandom(seed), sampler, ops).value.0);
  }

  /**
   * The second loop leaves each variable's own value under its name: the
   * output entry of a recorded variable is the value that variable was given.
   */
  lemma OutputIsOwnValue(d: SimulationDefinition, seed: int32, sampler: Sampler, ops: DivisionOps, j: nat)
    requires Simulate(d, seed, sampler, ops).Ok?
    requires j < |d.variables| && d.variables[j].recorded
    ensures var vs := d.variables;
      var init := InitialValues(vs).value;
      EvaluateAll(vs[..j], init, NewRandom(seed), sampler, ops).Ok? &&
      (var s := EvaluateAll(vs[..j], init, NewRandom(seed), sampler, ops).value;
       EvaluateVariable(vs[j], s.0, s.1, sampler, ops).Ok? &&
       vs[j].name in Simulate(d, seed, sampler, ops).value &&
       Simulate(d, seed, sampler, ops).value[vs[j].name] == EvaluateVariable(vs[j], s.0, s.1, sampler, ops).value.0)
  {
    var vs := d.variables;
    SimulateOutput(d, seed, sampler, ops);
    assert vs[..|vs|] == vs;
    VariableSees(d, seed, sampler, ops, |vs|, j);
    RecordedNameOf(vs, j);
  }

  /** A definition whose expressions use only earlier names never fails for a repeated or an undeclared name. */
  lemma WellFormedErrors(d: SimulationDefinition, seed: int32, sampler: Sampler, ops: DivisionOps)
    requires DistinctNames(d.variables) && DeclaredBeforeUse(d.variables)
    requires Simulate(d, seed, sampler, ops).Err?
    ensures Simulate(d, seed, sampler, ops).error == MinGreaterThanMax ||
      Simulate(d, seed, sampler, ops).error == NotImplemented
  {
    var vs := d.variables;
    SimulateErrors(d, seed, sampler, ops);
    var e := Simulate(d, seed, sampler, ops).error;
    if e.MissingVariable? {
      var k :| 0 <= k < |vs| && vs[k].kind.Expression? && e.name in Vars(vs[k].kind.tree);
      NameSetPrefix(vs, k);
    }
  }

  /** Without uniform variables the generator is never consulted: every seed gives the same values. */
  lemma {:induction false} SeedIrrelevantWithoutUniforms(vs: seq<SimVar>, values: Mapping, g1: Random, g2: Random,
                                                         sampler: Sampler, ops: DivisionOps)
    requires forall i :: 0 <= i < |vs| ==> !vs[i].kind.Uniform?
    ensures EvaluateAll(vs, values, g1, sampler, ops).Ok? == EvaluateAll(vs, values, g2, sampler, ops).Ok?
    ensures EvaluateAll(vs, values, g1, sampler, ops).Ok? ==>
      EvaluateAll(vs, values, g1, sampler, ops).value.0 == EvaluateAll(vs, values, g2, sampler, ops).value.0
  {
    if vs != [] {
      var init := vs[..|vs| - 1];
      assert forall i :: 0 <= i < |init| ==> init[i] == vs[i];
      SeedIrrelevantWithoutUniforms(init, values, g1, g2, sampler, ops);
    }
  }

  // ---------------------------------------------------------------- StartSimulation

  /** The `SimulationOutput` delegate, as the sequence of result dictionaries it has been invoked with. */
  class SimulationOutput {
    var received: seq<Mapping>

    constructor ()
      ensures received == []
    {
      received := [];
    }
  }

  /**
   * `Simulating.StartSimulation`: runs the trial synchronously and invokes the
   * callback once with its output; an exception of the run escapes instead,
   * and the callback is not invoked. A null callback is skipped (`?.Invoke`).
   */
  method StartSimulation(d: SimulationDefinition, seed: int32, sampler: Sampler, ops: DivisionOps,
                         onComplete: SimulationOutput?)
    returns (r: Result<(), Exception>)
    modifies onComplete
    ensures r.Ok? <==> Simulate(d, seed, sampler, ops).Ok?
    ensures r.Err? ==> r.error == Simulate(d, seed, sampler, ops).error
    ensures onComplete != null && r.Ok? ==>
      onComplete.received == old(onComplete.received) + [Simulate(d, seed, sampler, ops).value]
    ensures onComplete != null && r.Err? ==> onComplete.received == old(onComplete.received)
  {
    var results := RunSimulation(d, seed, sampler, ops);
    if results.Err? {
      return Err(results.error);
    }
    if onComplete != null {
      onComplete.received := onComplete.received + [results.value];
    }
    return Ok(());
  }
}
