# Distributed Monte Carlo simulation — a Dafny model

This project models the core of a small distributed Monte Carlo simulator. A
simulation is written in a line-based definition language (MoCSiDeF):

- a `trials=` line;
- `random` lines that declare uniform (`Range(a,b)`) or binomial (`B(n,p)`)
  random variables;
- `var` / `record var` lines that declare variables computed from expressions
  over earlier variables, with no operator precedence.

A server hands out job indices to clients whose definition checksum matches.
Each job is a block of 1024 seeds. A client runs one trial per seed, turns the
recorded variables of each trial into a row, and returns the rows to the
server in batches of at most 255. The server collects rows until it holds
exactly the trial count, then transposes them into one value array per
recorded variable.

The modules follow the program's components:

| module | models |
|---|---|
| `Wrappers`, `Exceptions` (wrappers.dfy) | `Result`/`Option`, and the .NET exceptions the code can raise |
| `Machine` | `int`/`uint` wrap-around, `Convert.ToInt32`/`ToUInt32` (banker's rounding and overflow) |
| `Lexical` | the regex character classes, numerals, `String.Split` |
| `ExpressionTrees` | `ExpressionTree` and its seven node classes, `Evaluate` |
| `ExpressionParsing` | `ExpressionTree.TryParse` (the character loop) and its helpers |
| `Randomness` | `System.Random`, as an abstract sampler indexed by seed and draw count |
| `SimulationVariables` | `SimulationVariable` and its three subclasses |
| `SimulationDefinitions` | `SimulationDefinition`: checksum and seeds of a job |
| `DefinitionParsing` | `SimulationDefinition.TryParse` (the line loop) and `TryParseVariableDistribution` |
| `Simulating` | `RunSimulation`, `StartSimulation` |
| `Maths` | `Factorial`, `Combinations` in wrapping `uint` arithmetic |
| `ServerProgram` | job distribution, response collection, transposition |
| `ClientProgram` | handshake, recorded order, row conversion, the result collector, batching |

Values are `real`s. The division and remainder of doubles are the two
uninterpreted functions of a `DivisionOps` parameter. The random generator is
a `Sampler` parameter. Every lemma holds for every choice of them, and the
few that need draws to respect their range say so with `Sound(sampler)`.
Connections are abstract events:

- the checksum byte a client sends and the `Reply` it gets;
- the count byte and the decoded doubles of a returned batch (`Response`).

The imperative code of the source stays imperative. Its loops are methods
whose `ensures` ties the result to a specification function. The properties
are proved as lemmas about those functions. The result collector that the
callbacks of `ClientProgram.Run` share is a class whose `Valid()` invariant
states the "returned once, and then exactly the rows held" protocol.

## Specification functions

The loops of the source are proved equal to recursive specification functions.
These functions carry no contract of their own. Their meaning is stated by the
lemmas about them, which have rows in the table below:

| function | lemmas that state its meaning |
|---|---|
| `ExpressionTrees.Evaluate` | `EvaluateSucceedsIff`, `EvaluateFailureNamesMissingVariable`, `EvaluateLocal` |
| `ExpressionParsing.ParseExpression` | `ParseExpressionShape`, `ParseExpressionSucceedsIff`, `ParseExpressionVarsValid` |
| `DefinitionParsing.ParseDistribution` | `ParseDistributionMeaning` |
| `DefinitionParsing.ParseDefinition` | `DefinitionFollowsLines`, `DefinitionTrialCount`, `DefinitionInvalidLine`, `DefinitionMultipleTrials`, `DefinitionTrialCountUnparsable`, `DefinitionTrialCountNeverDefined`, `DefinitionNameUsedTwice` |
| `SimulationDefinitions.Checksum` | `ChecksumIgnoresKinds`, `ChecksumPermutation`, `ChecksumTrialCount` |
| `SimulationDefinitions.JobBounds`, `SeedsOutcome` | `JobSeeds`, `SeedPartition`, `LargeTrialCountWraps` |
| `Simulating.Simulate` | `SimulateSucceedsIff`, `SimulateErrors`, `SimulateOutput` |
| `Maths.Combinations` | `CombinationsExact`, `CombinationsOverflow`, `CombinationsRAboveN` |
| `ServerProgram.Distribute` | `DistributeAnswers`, `DistributeIndices`, `DistributeStops`, `DistributeIssuesAll` |
| `ServerProgram.Collect` | `CollectStopsIff`, `CollectMeaning` |
| `ServerProgram.Transposed` | `TransposedMeaning`, `TransposedSucceedsIff` |
| `ClientProgram.RecordedOrder` | `RecordedOrderMeaning`, `RecordedOrderSucceedsIff` |

## Model

| member | source | states |
|---|---|---|
| Machine.WrapInt32 | SimulationDefinition.cs:49 | unchecked `int` conversion: the result is congruent to the input modulo 2^32, and equals it when it fits |
| Machine.WrapUInt32 | Maths.cs:23 | unchecked `uint` arithmetic: the result is congruent modulo 2^32, and equal when in range |
| Machine.RoundHalfEven | MoCSiDeFParsing.cs:285-286 | rounds to the nearest integer, ties to the even one |
| Machine.ConvertToInt32 | MoCSiDeFParsing.cs:285-286 | succeeds exactly when the rounded value fits in `int` and then yields it; otherwise OverflowException |
| Machine.ConvertToUInt32 | MoCSiDeFParsing.cs:319 | succeeds exactly when the rounded value fits in `uint` and then yields it; otherwise OverflowException |
| Randomness.NewRandom | Simulating.cs:65 | a fresh generator for the seed, with no draws taken |
| Randomness.Next | UniformRandomVariable.cs:22 | throws exactly when min > max; every success is one call to the generator, which advances its stream by one step; an empty range gives min |
| Randomness.NextInRange | UniformRandomVariable.cs:22 | with a sound generator, a non-empty range gives the sampled value, within `[min, max)` |
| ExpressionTrees.ConstantEvaluation | ConstantNode.cs:15-18 | a constant evaluates to its value and never fails |
| ExpressionTrees.ConstantIgnoresMapping | ConstantNode.cs:17 | a constant's value is the same under any mapping, the empty one included |
| ExpressionTrees.VariableEvaluation | VariableNode.cs:16-22 | succeeds exactly when the name is a key, giving its entry; otherwise an exception naming the variable |
| ExpressionTrees.SumEvaluation | SumNode.cs:17-20 | succeeds exactly when both operands do, with left + right; the left operand's exception wins, then the right one's |
| ExpressionTrees.SubtractionEvaluation | SubtractionNode.cs:17-20 | the same, with left - right in that order |
| ExpressionTrees.ProductEvaluation | ProductNode.cs:17-20 | the same, with left * right |
| ExpressionTrees.QuotientEvaluation | QuotientNode.cs:17-20 | the same, with the dividend on the left; no zero-divisor case |
| ExpressionTrees.ModuloEvaluation | ModuloNode.cs:17-20 | the same, with the left operand as dividend |
| ExpressionTrees.EvaluateSucceedsIff | ExpressionTree.cs:9 | evaluation succeeds exactly when every variable of the tree is a key of the mapping |
| ExpressionTrees.EvaluateFailureNamesMissingVariable | VariableNode.cs:20-21 | a failed evaluation reports a variable of the tree that the mapping lacks |
| ExpressionTrees.EvaluateLocal | ExpressionTree.cs:9 | two mappings that agree on the tree's variables give the same outcome |
| ExpressionTrees.LeavesOutnumberNodes | ExpressionTree.cs:9 | a tree has exactly one leaf more than binary nodes |
| Lexical.SplitOn | MoCSiDeFParsing.cs:42 | `String.Split` yields one piece more than there are separators |
| Lexical.SplitOnRoundTrip | MoCSiDeFParsing.cs:42 | rejoining the pieces with the separators gives back the text |
| Lexical.SplitOnPiecesHaveNoSeparator | MoCSiDeFParsing.cs:42 | no piece contains a separator |
| Lexical.SplitOnNoSeparator | MoCSiDeFParsing.cs:158 | a text without a separator is its own single piece |
| Lexical.UnsignedNumeralValue | ExpressionParsing.cs:172 | the value of a numeral is never negative |
| Lexical.NatToStringRoundTrip | MoCSiDeFParsing.cs:199 | the decimal line number in the error message reads back as that number |
| ExpressionParsing.ParseTerm | ExpressionParsing.cs:144-195 | a name is a variable leaf when declared and "undefined variable" otherwise; a numeral is a constant of its value; anything else, the empty term included, is "invalid term" |
| ExpressionParsing.MakeNode | ExpressionParsing.cs:111-139 | the node keeps its operands in place |
| ExpressionParsing.MakeNodeRoundTrip | ExpressionParsing.cs:116-132 | the operator can be read back from the node it builds |
| ExpressionParsing.OperatorOfRoundTrip | ExpressionParsing.cs:116-132 | every binary node is the one built from its operator |
| ExpressionParsing.OperatorsAreOperators | ExpressionParsing.cs:36 | the separators of an expression are the five operator characters |
| ExpressionParsing.ParseTerms | ExpressionParsing.cs:33-98 | a successful parse gives one leaf per term |
| ExpressionParsing.ScannedStart | ExpressionParsing.cs:27-30 | the loop's invariant holds before the first character |
| ExpressionParsing.ScanTermChar | ExpressionParsing.cs:83-88 | a non-operator character extends the current term and keeps the invariant |
| ExpressionParsing.ScanOperator | ExpressionParsing.cs:36-82 | an operator after a good term folds it in and keeps the invariant |
| ExpressionParsing.ScanOperatorFails | ExpressionParsing.cs:42-68 | an operator after a bad term ends the parse with that term's error |
| ExpressionParsing.ScanEnd | ExpressionParsing.cs:92-104 | after the last character the final term decides the outcome |
| ExpressionParsing.TryParse | ExpressionParsing.cs:21-109 | the character loop computes `ParseExpression` |
| ExpressionParsing.ParseTermsAppendFailure | ExpressionParsing.cs:42-47 | once a term fails, later terms do not change the outcome |
| ExpressionParsing.ParseTermsSucceedsIff | ExpressionParsing.cs:33-98 | the terms parse exactly when each does, leaf by leaf |
| ExpressionParsing.ParseTermsFirstError | ExpressionParsing.cs:33-98 | a failure is the error of the first bad term, the ones before it good |
| ExpressionParsing.FoldLeftShape | ExpressionParsing.cs:33-104 | the fold is left-nested, its leaves are the terms and its operators the operator characters, in order |
| ExpressionParsing.ParseExpressionShape | ExpressionParsing.cs:33-104 | a parsed tree is left-nested with one binary node per operator character and one leaf per term |
| ExpressionParsing.ParseExpressionSucceedsIff | ExpressionParsing.cs:33-104 | an expression parses exactly when every term does |
| ExpressionParsing.ParseExpressionVarsValid | ExpressionParsing.cs:153-157 | every variable of a parsed tree is a valid name |
| ExpressionParsing.LeafOfVar | ExpressionParsing.cs:153-157 | every variable of a tree is one of its leaves |
| ExpressionParsing.ParseSingleTerm | ExpressionParsing.cs:101-104 | without operator characters the result is the single term's leaf |
| ExpressionParsing.LeadingOperatorRefused | ExpressionParsing.cs:39-47 | an expression starting with an operator (so a negative literal) is an invalid term |
| ExpressionParsing.EmptyTermRefused | ExpressionParsing.cs:188-193 | an empty term (leading, trailing or adjacent operators) fails |
| ExpressionParsing.ParsedConstantsNonNegative | ExpressionParsing.cs:169-186 | no parsed constant is negative, because `-` is always an operator |
| ExpressionParsing.DigitTerm | ExpressionParsing.cs:169-179 | a single digit parses to the constant of its value |
| ExpressionParsing.LeftToRightParse | ExpressionParsing.cs:16 | for any three digits, `a+b*c` parses as `(a+b)*c`: no precedence |
| SimulationVariables.EvaluateVariable | SimulationVariable.cs:24-25 | a binomial always throws; an expression succeeds exactly when its variables are known, without touching the generator; a uniform takes one draw |
| SimulationVariables.UniformInRange | UniformRandomVariable.cs:22 | for `lower <= upper < int.MaxValue`, the value is an integer in `[lower, upper]` |
| SimulationVariables.UniformDegenerate | UniformRandomVariable.cs:22 | equal bounds always give that bound |
| SimulationVariables.UniformInverted | UniformRandomVariable.cs:22 | lower = upper + 1 gives the lower bound; a lower bound further above throws |
| SimulationVariables.UniformUpperBoundWraps | UniformRandomVariable.cs:22 | an upper bound of `int.MaxValue` wraps `upper + 1`, so the call throws unless the lower bound is `int.MinValue` |
| SimulationVariables.RandomIgnoresValues | UniformRandomVariable.cs:19-24 | random variables ignore the mapping |
| SimulationVariables.ExpressionValue | ExpressionVariable.cs:21-23 | an expression variable's value is its tree's value, and depends only on the tree's variables |
| SimulationDefinitions.GenerateChecksum | SimulationDefinition.cs:22-44 | the nested loops compute `(trialCount + character sum of the names + recorded count) mod 256` |
| SimulationDefinitions.AddNameCharacters | SimulationDefinition.cs:34-35 | the inner loop adds a name's character sum modulo 256 |
| SimulationDefinitions.WeightSumPermutation | SimulationDefinition.cs:31-40 | the per-variable sum does not depend on the order of the variables |
| SimulationDefinitions.ChecksumIgnoresKinds | SimulationDefinition.cs:29-40 | the checksum depends only on the trial count, names and recorded flags, not on kinds or expressions |
| SimulationDefinitions.ChecksumPermutation | SimulationDefinition.cs:29-40 | permuting the variables leaves the checksum unchanged |
| SimulationDefinitions.ChecksumTrialCount | SimulationDefinition.cs:29 | with the same variables, two checksums agree exactly when the trial counts agree modulo 256 |
| SimulationDefinitions.GetSeedsFromJobIndex | SimulationDefinition.cs:46-75 | the seeds of job `index`, computed from the source's bounds in unchecked arithmetic, exceptions included |
| SimulationDefinitions.FillSeeds | SimulationDefinition.cs:64-73 | the array loop: consecutive seeds from the first; a negative length or an overrun throws |
| SimulationDefinitions.FinalJobTest | SimulationDefinition.cs:54-55 | the floating-point final-job test means `trialCount < 1024 * (index + 1)` |
| SimulationDefinitions.JobSeeds | SimulationDefinition.cs:46-75 | without wrap-around, job `index` holds the seeds from `1024 * index` to the next multiple of 1024 or the trial count (empty when they meet); a job past the trial count throws |
| SimulationDefinitions.SeedPartition | SimulationDefinition.cs:46-75 | for trial counts up to `int.MaxValue`, every seed below the trial count is in job `seed / 1024`, at position `seed % 1024`, and in no other job whose first seed fits in `int` |
| SimulationDefinitions.LargeTrialCountWraps | SimulationDefinition.cs:49 | with 3000000000 trials, job 2097152 starts at `int.MinValue` and holds 1024 negative seeds |
| DefinitionParsing.RemoveCarriageReturns | MoCSiDeFParsing.cs:40 | no carriage return is left, and a text without any is unchanged |
| DefinitionParsing.LinesHaveNoBreaks | MoCSiDeFParsing.cs:40-42 | no line contains a line break or a carriage return |
| DefinitionParsing.VarBody | MoCSiDeFParsing.cs:142-156 | the part after `var ` (or `record var `) is a name, `=` and an expression |
| DefinitionParsing.Arguments | MoCSiDeFParsing.cs:263-264 | every distribution argument is a numeral |
| DefinitionParsing.ParseDistributionMeaning | MoCSiDeFParsing.cs:233-350 | in both directions: `Range` with two arguments whose rounded values fit in `int` is exactly the uniform variable with those bounds; `B` with two arguments, a rounded trial count that fits in `uint` and a probability in `[0, 1]` is exactly that binomial variable; a bound or trial count that does not fit throws OverflowException; a probability outside `[0, 1]`, a wrong argument count and an unknown name each give their own error |
| DefinitionParsing.ParseLinesFailurePersists | MoCSiDeFParsing.cs:52-205 | the loop stops at the first error: later lines do not change it |
| DefinitionParsing.ParseLinesStep | MoCSiDeFParsing.cs:52-205 | each pass of the loop handles the next line with its 1-based number |
| DefinitionParsing.DefinitionFailsAt | MoCSiDeFParsing.cs:52-213 | an error on a prefix of the lines is the error of the whole text |
| DefinitionParsing.TryParse | MoCSiDeFParsing.cs:34-223 | the line loop computes `ParseDefinition` |
| DefinitionParsing.ParseLineConsistent | MoCSiDeFParsing.cs:103-195 | each accepted line keeps the names distinct, expressions over declared names, random variables unrecorded and probabilities in range |
| DefinitionParsing.ParseLinesConsistent | MoCSiDeFParsing.cs:52-205 | the same, for all lines |
| DefinitionParsing.DefinitionWellFormed | MoCSiDeFParsing.cs:113-191 | a parsed definition has distinct names, expressions that use only names declared on earlier lines, unrecorded random variables and valid probabilities |
| DefinitionParsing.ParseLineHeader | MoCSiDeFParsing.cs:129-191 | an accepted declaration line appends exactly one variable, with the line's name and recorded flag |
| DefinitionParsing.ParseLinesHeaders | MoCSiDeFParsing.cs:52-205 | the variables are the declaration lines' variables, in line order |
| DefinitionParsing.DefinitionFollowsLines | MoCSiDeFParsing.cs:216-220 | a parsed definition's variables follow the declaration lines one for one |
| DefinitionParsing.TrialsLineIsNotSkipped | MoCSiDeFParsing.cs:57-72 | a `trials=` line is never taken for blank or a comment |
| DefinitionParsing.ParseLineTrials | MoCSiDeFParsing.cs:72-100 | only a `trials=` line sets the count, and only when it was not set yet |
| DefinitionParsing.ParseLinesTrials | MoCSiDeFParsing.cs:72-100 | accepted lines hold at most one `trials=` line; the count is set exactly when there is one, to its value |
| DefinitionParsing.DefinitionTrialCount | MoCSiDeFParsing.cs:72-213 | a parsed definition has exactly one `trials=` line, and its trial count is that line's number |
| DefinitionParsing.ParseLineInvalid | MoCSiDeFParsing.cs:196-202 | a line is reported invalid, with its own number, exactly when it is none of the five kinds |
| DefinitionParsing.ParseLinesInvalidLine | MoCSiDeFParsing.cs:196-202 | "invalid line k" exactly when lines before k are accepted and line k is unrecognised |
| DefinitionParsing.DefinitionInvalidLine | MoCSiDeFParsing.cs:196-202 | the same, for the whole text |
| DefinitionParsing.FirstFailure | MoCSiDeFParsing.cs:52-205 | a refused text was refused at some line, with that line's error, every line before it accepted |
| DefinitionParsing.FailsOnIsError | MoCSiDeFParsing.cs:52-205 | a line refused after accepted lines gives the error of the whole loop |
| DefinitionParsing.ParseLineMultipleTrials | MoCSiDeFParsing.cs:95-100 | a line gives "multiple trial count definition lines" exactly when it is a `trials=` line and the count is already set |
| DefinitionParsing.ParseLineUnparsable | MoCSiDeFParsing.cs:78-92 | a line gives "failed to parse trial count (text)" exactly when it is the first `trials=` line and its number `text` is 2^32 or more |
| DefinitionParsing.ParseLineNameUsedTwice | MoCSiDeFParsing.cs:113-118 | a line gives "variable name used twice (name)" exactly when it is a `random` or `var` line for a name already declared |
| DefinitionParsing.DefinitionMultipleTrials | MoCSiDeFParsing.cs:95-100 | a text is refused for multiple trial count lines exactly when some line `i` is a `trials=` line, the lines before it are accepted, and they hold one `trials=` line already |
| DefinitionParsing.DefinitionTrialCountUnparsable | MoCSiDeFParsing.cs:78-92 | a text is refused with "failed to parse trial count (text)" exactly when some line `i` is the first `trials=` line, the lines before it are accepted, and its number `text` does not fit in a `uint` |
| DefinitionParsing.DefinitionTrialCountNeverDefined | MoCSiDeFParsing.cs:207-213 | a text is refused with "trial count never defined" exactly when every line is accepted and none is a `trials=` line |
| DefinitionParsing.DeclaredNames | MoCSiDeFParsing.cs:129-191 | the names declared after accepted lines are the names their declaration lines give, in order |
| DefinitionParsing.DefinitionNameUsedTwice | MoCSiDeFParsing.cs:163-168 | a text is refused with "variable name used twice (name)" exactly when some line `i` declares `name`, the lines before it are accepted, and one of them declares `name` already |
| DefinitionParsing.SkippedLine | MoCSiDeFParsing.cs:57-71 | blank lines and comment lines change nothing |
| DefinitionParsing.SelfReferenceVarLine | MoCSiDeFParsing.cs:163-184 | the line `var x=x` fails: name used twice if `x` is declared, undefined variable otherwise |
| DefinitionParsing.SelfReferenceRefused | MoCSiDeFParsing.cs:174-177 | after any accepted lines, `var x=x` is refused |
| Simulating.RunSimulation | Simulating.cs:53-87 | the three loops compute `Simulate`, exceptions included |
| Simulating.InitialValuesFailurePersists | Simulating.cs:59-62 | the first loop's exception ends it: later variables change nothing |
| Simulating.EvaluateAllFailurePersists | Simulating.cs:69-74 | the same for the evaluation loop |
| Simulating.RecordedValuesFailurePersists | Simulating.cs:78-82 | the same for the output loop |
| Simulating.InitialValuesKeys | Simulating.cs:59-62 | before evaluation every declared name maps to 0 |
| Simulating.InitialValuesSucceedsIff | Simulating.cs:59-62 | the first loop succeeds exactly when the names are distinct; otherwise it reports a repeated name |
| Simulating.EvaluateAllKeys | Simulating.cs:69-74 | evaluation adds no name beyond the declared ones |
| Simulating.DrawsPerUniform | Simulating.cs:65-74 | a run calls the generator once per uniform variable |
| Simulating.EvaluateAllEach | Simulating.cs:69-74 | in a successful run each variable was evaluated successfully against what its predecessors left |
| Simulating.EvaluateAllFailsAt | Simulating.cs:69-74 | a failed run failed at some variable, with that variable's exception, all earlier ones having succeeded |
| Simulating.EvaluateAllStep | Simulating.cs:72 | each evaluation stores the value under the variable's name |
| Simulating.OtherEntriesUntouched | Simulating.cs:72 | with distinct names, evaluating some variables leaves every other variable's entry alone |
| Simulating.VariableSees | Simulating.cs:59-74 | variable k sees the computed values of the earlier variables and 0 for itself and later ones |
| Simulating.RecordedValuesMeaning | Simulating.cs:78-82 | the output keys are exactly the recorded names, each with its value |
| Simulating.RecordedValuesSucceed | Simulating.cs:78-82 | with distinct, known names the output loop cannot fail |
| Simulating.EvaluateVariableSucceedsIff | Simulating.cs:72 | a variable evaluates exactly when it is a valid uniform, or an expression over declared names |
| Simulating.EvaluateAllSucceedsIff | Simulating.cs:69-74 | the first k variables evaluate exactly when each of them can |
| Simulating.SimulateSucceedsIff | Simulating.cs:53-87 | a run succeeds exactly when the names are distinct and every variable can be evaluated |
| Simulating.BinomialRunFails | BinomialVariable.cs:19-25 | any run of a definition with a binomial variable fails |
| Simulating.FirstBinomialFails | Simulating.cs:69-74 | a binomial variable reached by the loop makes the run throw NotImplementedException |
| Simulating.SimulateErrors | Simulating.cs:53-87 | a failed run reports a repeated name, an inverted range, NotImplementedException, or a name no variable declares |
| Simulating.ExpressionFailureIsUndeclared | Simulating.cs:69-74 | an expression never fails over a declared name: a forward reference reads the placeholder 0 |
| Simulating.WellFormedErrors | Simulating.cs:53-87 | a parsed (well-formed) definition can fail only through an inverted range or a binomial variable |
| Simulating.SimulateOutput | Simulating.cs:78-85 | the output holds exactly the recorded variables, with the values the evaluation loop left |
| Simulating.OutputIsOwnValue | Simulating.cs:72-82 | a recorded variable's output entry is the value that variable was given |
| Simulating.SeedIrrelevantWithoutUniforms | Simulating.cs:65-74 | without uniform variables every seed gives the same values |
| Simulating.SimulationOutput.constructor | Simulating.cs:15 | the callback has not been invoked yet |
| Simulating.StartSimulation | Simulating.cs:23-45 | the run happens synchronously and the callback gets its output exactly once; an exception escapes and the callback is not invoked |
| Maths.Factorial | Maths.cs:15-25 | the true factorial modulo 2^32 |
| Maths.FactorialExact | Maths.cs:15-25 | exact up to 12 |
| Maths.FactorialVanishes | Maths.cs:15-25 | 0 from 34 on (2^32 divides 34!) |
| Maths.ChooseFactorial | Maths.cs:11 | the reference binomial coefficient times r! (n-r)! is n! |
| Maths.CombinationsExact | Maths.cs:8-13 | for `r <= n <= 12`, `Combinations` is the binomial coefficient |
| Maths.CombinationsOverflow | Maths.cs:11 | from 13 on the wrapped products are wrong: `Combinations(13, 1)` is 4, not 13 |
| Maths.CombinationsRAboveN | Maths.cs:11 | for `r > n` the wrapped `n - r` makes the divisor 0: DivideByZeroException |
| ServerProgram.LastJobIndex | ServerProgram.cs:254 | the last index to hand out stays below `uint.MaxValue`, so the job counter never wraps |
| ServerProgram.DistributeJobsToClients | ServerProgram.cs:205-259 | the accept loop with its counter computes `Distribute` over the connections in arrival order |
| ServerProgram.DistributeAnswers | ServerProgram.cs:231-240 | a matching checksum is accepted, a mismatch refused |
| ServerProgram.DistributeIndices | ServerProgram.cs:217-246 | an accepted connection gets the number of earlier matching ones, never more than the last index |
| ServerProgram.DistributeStops | ServerProgram.cs:254-255 | connections go unanswered only after the reply handing out the last index |
| ServerProgram.DistributeIssuesAll | ServerProgram.cs:244-255 | with enough matching clients every index up to the last is handed out, the last ending the loop |
| ServerProgram.IssuedJobsCoverSeeds | ServerProgram.cs:254 | for trial counts up to `int.MaxValue`, every seed below the trial count is in a job the server hands out |
| ServerProgram.IssuedJobsDisjoint | ServerProgram.cs:254 | for trial counts up to `int.MaxValue`, no job the server hands out holds a seed but job `seed / 1024` |
| ServerProgram.WrappingJobIsIssued | ServerProgram.cs:254 | with 3000000000 trials the server hands out job 2097152, whose seeds are all negative |
| ServerProgram.DecodeRows | ServerProgram.cs:294-311 | a response gives its count of rows, each of the row length |
| ServerProgram.ReadResponse | ServerProgram.cs:287-311 | the nested read loops compute `DecodeRows` |
| ServerProgram.DecodeFlatten | ServerProgram.cs:294-311 | decoding the values a client writes gives back its rows |
| ServerProgram.CollectResponses | ServerProgram.cs:268-324 | the collection loop computes `Collect` |
| ServerProgram.CollectStopsIff | ServerProgram.cs:317-318 | collection stops exactly when the running total hits the target; it then holds that many rows, starting with the rows collected before |
| ServerProgram.AllRows | ServerProgram.cs:292-315 | the responses carry as many rows as their counts say |
| ServerProgram.CollectMeaning | ServerProgram.cs:268-324 | a finished collection is the rows of the connections up to the first one after which the total is the target, in arrival order, each connection's rows in the order read |
| ServerProgram.CollectPastTarget | ServerProgram.cs:317-318 | once the total passes the target the loop never stops |
| ServerProgram.CollectOvershoot | ServerProgram.cs:317-318 | a batch that jumps past the target keeps the server waiting forever |
| ServerProgram.OnAllResponsesCollected | ServerProgram.cs:56-74 | the transposition loops compute `Transposed` |
| ServerProgram.CopyColumn | ServerProgram.cs:64-68 | the inner loop copies column j, or throws on a short row |
| ServerProgram.TransposedFailurePersists | ServerProgram.cs:60-74 | a transposition error persists over later variables |
| ServerProgram.TransposedMeaning | ServerProgram.cs:56-74 | recorded variable j gets column j of the rows, one value per row, in row order; one array per recorded variable |
| ServerProgram.ColumnSucceedsIff | ServerProgram.cs:67-68 | a column exists exactly when every row is long enough |
| ServerProgram.TransposedSucceedsIff | ServerProgram.cs:56-74 | transposition succeeds exactly when recorded names do not repeat and every row has a value for each recorded variable |
| ClientProgram.JobIndexFromReply | ClientProgram.cs:212-254 | the intended handshake: a job index exactly for an acceptance, the one sent |
| ClientProgram.RefusalLooksLikeJobZero | ClientProgram.cs:232-244 | as written, a refused client cannot tell the refusal from being handed job 0 |
| ClientProgram.BuildRecordedOrder | ClientProgram.cs:38-46 | the order loop computes `RecordedOrder` |
| ClientProgram.RecordedOrderFailurePersists | ClientProgram.cs:41-46 | a repeated recorded name ends the loop with its exception |
| ClientProgram.RecordedOrderMeaning | ClientProgram.cs:38-46 | the j-th recorded variable, in declaration order, gets position j, and nothing else has one |
| ClientProgram.RecordedOrderSucceedsIff | ClientProgram.cs:44 | the order is built exactly when no recorded name repeats |
| ClientProgram.ResultsDictionaryToResultArray | ClientProgram.cs:170-183 | succeeds exactly when every name has an order entry within the array, each value then in its slot; otherwise the missing name or out-of-range index throws |
| ClientProgram.RecordedOrderPlaces | ClientProgram.cs:175-177 | the order built from the definition places a trial's names, each in its own slot |
| ClientProgram.RowOfRecordedValues | ClientProgram.cs:173-177 | the resulting row is the recorded values in recorded order |
| ClientProgram.RecordedRow | ClientProgram.cs:170-183 | a row has one value per recorded variable |
| ClientProgram.TrialRows | ClientProgram.cs:57-67 | one row per seed |
| ClientProgram.SingleBatch | ClientProgram.cs:150-151 | a batch of more than 255 rows is refused |
| ClientProgram.BatchRoundTrip | ClientProgram.cs:157-161 | what the server decodes from a batch is the batch |
| ClientProgram.ReturnSingleResultsBatchToServer | ClientProgram.cs:146-165 | computes `SingleBatch` |
| ClientProgram.AsWrittenBatchLength | ClientProgram.cs:124-128 | the batch length stays within the rows and at most 255 |
| ClientProgram.AsWrittenFrom | ClientProgram.cs:119-140 | every batch of the do-while loop has at most 255 rows |
| ClientProgram.AsWrittenBatches | ClientProgram.cs:114-140 | every batch sent as written has at most 255 rows |
| ClientProgram.ReturnResultsToServer | ClientProgram.cs:108-144 | as written: sends `AsWrittenBatches` |
| ClientProgram.SendAsWrittenLoop | ClientProgram.cs:119-140 | the do-while loop sends the batches `AsWrittenFrom` gives from 0 |
| ClientProgram.SendAsWrittenBatch | ClientProgram.cs:124-137 | one pass of the loop sends the next batch |
| ClientProgram.ReturnResultsToServerCorrected | ClientProgram.cs:108-144 | with the final batch corrected: sends `CorrectedBatches` |
| ClientProgram.CorrectedFromMeaning | ClientProgram.cs:119-140 | the corrected batches carry every row once, in order, all full but the last, none empty |
| ClientProgram.CorrectedBatchesMeaning | ClientProgram.cs:108-144 | the corrected batches concatenate to the rows, all but the last of 255 |
| ClientProgram.AsWrittenFromAgrees | ClientProgram.cs:119-140 | off the multiples of 255 the loop as written makes the intended slices |
| ClientProgram.AsWrittenAgrees | ClientProgram.cs:114-140 | for at most 255 rows, or a count that is not a multiple of 255, as written equals corrected |
| ClientProgram.AsWrittenFromLoses | ClientProgram.cs:124-140 | on a multiple of 255 the loop as written drops the last 255 rows |
| ClientProgram.AsWrittenLosesLastBatch | ClientProgram.cs:124-140 | for n > 255 with `n % 255 == 0`, the rows sent are all but the last 255 |
| ClientProgram.AsWritten510 | ClientProgram.cs:124-140 | 510 rows go as batches of 255, 0 and 0 rows |
| ClientProgram.ResultCollector.constructor | ClientProgram.cs:50-55 | no rows, not sent, nothing sent |
| ClientProgram.ResultCollector.OnResultComplete | ClientProgram.cs:71-106 | converts and appends exactly one row, or throws and changes nothing; the rows are returned once, when enough are in, and never again |
| ClientProgram.TrialIsPlaced | ClientProgram.cs:82 | every successful trial's dictionary converts under the recorded order |
| ClientProgram.TrialRowFor | ClientProgram.cs:82 | the converted row is the trial's recorded values in recorded order |
| ClientProgram.StartTrial | ClientProgram.cs:57-67 | one trial appends its row to the collector, or throws and appends nothing |
| ClientProgram.RunJob | ClientProgram.cs:50-67 | the job succeeds exactly when every trial does; it then sends all rows, in seed order, in the corrected batches |
| ClientProgram.Run | ClientProgram.cs:14-69 | a refused client sends nothing; an accepted one runs the seeds of its job and returns their rows |

## Left out

- Sockets, `BitConverter` encodings, partial reads and the ignored `Receive` results are not modelled. A connection is an abstract event: a checksum byte and a `Reply`, or a count byte and decoded doubles.
- Threads, the result-list lock and the thread of `ServerProgram.Run` are not modelled. The trials run one after another, as `StartSimulation` already does. `ServerProgram.Run` itself, which only starts the two loops, is left out.
- IEEE-754 doubles are not modelled: values are exact reals. `/` and `%` are uninterpreted. `double.Parse` and `double.TryParse` give the exact decimal value. So the "Invalid number provided" branch at ExpressionParsing.cs:180-185 never fires in the model.
- `System.Random` is not modelled; it is a `Sampler` parameter. Only the range of its draws is assumed, and only by the lemmas that say `Sound(sampler)`.
- `ProcessedResultSet`, the statistics, console output, the save dialog and `File.WriteAllText` are not modelled: they are I/O and floating-point numerics. Program.cs and `GetServerIPAddressInput` are I/O too.
- `RandomVariable` is not part of this model. It is assumed to add nothing to `SimulationVariable`.
- The bracket-count checks at MoCSiDeFParsing.cs:241-253 are left out. The random-line recogniser admits exactly one `(` and one `)`, so the checks cannot fire.
- The `FormatException` handlers around `Convert` (MoCSiDeFParsing.cs:288-293, 321-326) are dead code. An argument that does not fit throws OverflowException, which escapes `TryParse`; the model returns it as `Thrown(Overflow)`.
- Regex `$` also matches before a final line break. Lines come from splitting on `\n`, so this never matters, and the recognisers test the end of the text.
- Strings are sequences of UTF-16 code units as `char`s, with no culture-specific comparison.
- `Maths.Factorial`: the C# recursion exhausts the stack for large arguments, such as the wrapped `n - r` when `r > n`. The model computes the value instead.
- `Simulating.StartSimulation`: the method is `async void`, so an exception of the run escapes to the synchronisation context. The model returns it to the caller.
- `ClientProgram.ResultsDictionaryToResultArray`: the dictionary's key order is unspecified, so it is chosen nondeterministically. When several names are faulty, the contract says only that one of them is reported.
- `SimulationDefinitions.SeedPartition`: proved only for trial counts up to `int.MaxValue`. Above it, `(int)(clientJobSize * index)` at SimulationDefinition.cs:49 wraps, so the jobs no longer partition `[0, trialCount)`: with 3000000000 trials, job 2097152 holds the 1024 seeds from `int.MinValue` up (`LargeTrialCountWraps`). The definition parser admits any `uint` trial count, so such a definition is accepted.
- `ServerProgram.IssuedJobsCoverSeeds`: proved only for trial counts up to `int.MaxValue`, as is `ServerProgram.IssuedJobsDisjoint`. Above it the server hands out jobs whose seeds have wrapped to negative values (`WrappingJobIsIssued`), and no job holds a seed of `2^31` or more, since seeds are `int`s.
- `ServerProgram.CollectResponses`: when the connections run out before the target is hit, the server would block in `Accept`. The model returns `None`, "still waiting".
- `ClientProgram.ResultCollector.OnResultComplete`: returns the rows with the corrected batching (`ReturnResultsToServerCorrected`), not the loop as written. The as-written loop is modelled separately; see Findings.
- `ClientProgram.Run`: a refused handshake ends the run (`JobIndexFromReply`), where the source goes on with job 0. The as-written reading is `JobIndexAsWritten`; see Findings.

## Findings

| source | as written | input that shows it | evidently intended | confidence | as-written member | corrected member |
|---|---|---|---|---|---|---|
| ClientProgram.cs:124-140 | the final batch has `n % 255` rows, and the loop runs while `index <= n` | 510 rows: batches of 255, 0 and 0 rows, so the last 255 rows are never sent and the server never reaches its target | the final batch carries the `n - index` remaining rows: every row is sent once | not executed | ClientProgram.ReturnResultsToServer, ClientProgram.AsWrittenLosesLastBatch, ClientProgram.AsWritten510 | ClientProgram.ReturnResultsToServerCorrected, ClientProgram.CorrectedBatchesMeaning |
| ClientProgram.cs:232-244 | a checksum mismatch is only printed; the client reads four bytes that stay zero from the closed connection and returns job 0 | a client whose definition differs from the server's: the server refuses it, and the client runs job 0 anyway | a refusal ends the client's run ("Exiting program...") | not executed | ClientProgram.JobIndexAsWritten, ClientProgram.RefusalLooksLikeJobZero | ClientProgram.JobIndexFromReply, ClientProgram.Run |
