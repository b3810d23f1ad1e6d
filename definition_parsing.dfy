/**
 * The MoCSiDeF definition language. A definition is a text of lines, each of
 * which is blank, a comment, the trial count (`trials=N`), a random variable
 * (`random name=Distribution(args)`) or a calculated variable
 * (`[record ]var name=expression`). The lines are read in order, and the
 * first bad line refuses the whole text.
 */
module DefinitionParsing {
  import opened Wrappers
  import opened Exceptions
  import opened Machine
  import opened Lexical
  import opened ExpressionTrees
  import ExpressionParsing
  import opened SimulationVariables
  import opened SimulationDefinitions

  // ------------------------------------------------------------------ errors

  /** Why `TryParseVariableDistribution` refused a distribution. */
  datatype DistributionError =
    | RangeArity
    | BinomialArity
    | ProbabilityOutOfRange
    | UnknownDistribution(distributionName: string)

  /**
   * Why a definition was refused. `Thrown` stands for an exception that escapes
   * `TryParse` instead of being reported: the OverflowException of
   * `Convert.ToInt32`/`Convert.ToUInt32`, which the code does not catch.
   */
  datatype DefinitionError =
    | MultipleTrialCountLines
    | TrialCountUnparsable(text: string)
    | VariableNameUsedTwice(name: string)
    | DistributionFailed(name: string, distributionError: DistributionError)
    | ExpressionFailed(name: string, termError: ExpressionParsing.TermError)
    | InvalidLine(lineNumber: nat)
    | TrialCountNeverDefined
    | Thrown(exception: Exception)

  function DistributionMessage(e: DistributionError): string
  {
    match e
    case RangeArity => "Invalid number of arguments for uniform random distribution"
    case BinomialArity => "Invalid number of arguments for binomial distribution"
    case ProbabilityOutOfRange => "Success probability isn't in range [0.0,1.0]"
    case UnknownDistribution(n) => "Unknown distribution name - " + n
  }

  /** The error message `TryParse` reports; an escaping exception has none. */
  function Message(e: DefinitionError): string
    requires !e.Thrown?
  {
    match e
    case MultipleTrialCountLines => "Multiple trial count definition lines detected"
    case TrialCountUnparsable(t) => "Failed to parse trial count (" + t + ")"
    case VariableNameUsedTwice(n) => "Variable name used twice (" + n + ")"
    case DistributionFailed(n, reason) =>
      "Error occured when parsing distribution for " + n + ":\n" + DistributionMessage(reason)
    case ExpressionFailed(n, reason) =>
      "Error occured when parsing expression for " + n + ":\n" + ExpressionParsing.Message(reason)
    case InvalidLine(k) => "Invalid line found (line " + NatToString(k) + ")"
    case TrialCountNeverDefined => "Trial count never defined"
  }

  // ------------------------------------------------------------------- lines

  predicate IsNewline(c: char) { c == '\n' }

  predicate IsComma(c: char) { c == ',' }

  predicate NotCarriageReturn(c: char) { c != '\r' }

  /** `s.Replace("\r", "")`: the text without its carriage returns, the rest in order. */
  function RemoveCarriageReturns(s: string): (t: string)
    ensures forall i :: 0 <= i < |t| ==> t[i] != '\r'
    ensures (forall i :: 0 <= i < |s| ==> s[i] != '\r') ==> t == s
  {
    if s == [] then []
    else
      var init := s[..|s| - 1];
      assert init + [s[|s| - 1]] == s;
      RemoveCarriageReturns(init) + (if s[|s| - 1] == '\r' then [] else [s[|s| - 1]])
  }

  /** The lines of a definition: carriage returns removed, then split at every line feed. */
  function Lines(s: string): seq<string>
  {
    SplitOn(RemoveCarriageReturns(s), IsNewline)
  }

  /** No line holds a line break, so the regex anchor `$` only ever matches at the end of a line. */
  lemma LinesHaveNoBreaks(s: string, k: nat, i: nat)
    requires k < |Lines(s)| && i < |Lines(s)[k]|
    ensures Lines(s)[k][i] != '\n' && Lines(s)[k][i] != '\r'
  {
    SplitOnPiecesHaveNoSeparator(RemoveCarriageReturns(s), IsNewline, k, i);
    SplitOnPreserves(RemoveCarriageReturns(s), IsNewline, NotCarriageReturn, k, i);
  }

  // ---------------------------------------------------------- line recognisers

  /** Only spaces and tabs, or nothing: removing the spaces and the tabs leaves the empty string. */
  predicate IsBlank(line: string)
  {
    forall i :: 0 <= i < |line| ==> line[i] == ' ' || line[i] == '\t'
  }

  predicate HasPrefix(s: string, p: string)
  {
    |p| <= |s| && s[..|p|] == p
  }

  /** `^trials=[0-9]+$` */
  predicate IsTrialsLine(line: string)
  {
    HasPrefix(line, "trials=") && IsDigits(line[7..])
  }

  /** `name=rest` where the name matches `[A-z]+`: the name is all before the first `=`. */
  predicate IsAssignment(body: string)
  {
    var e := FindChar(body, '=');
    e < |body| && IsName(body[..e])
  }

  /** The name of an assignment, `body.Split('=')[0]`. */
  function AssignedName(body: string): string
    requires IsAssignment(body)
  {
    body[..FindChar(body, '=')]
  }

  /** The right-hand side of an assignment, `body.Split('=')[1]` (it holds no further `=`). */
  function RightHandSide(body: string): string
    requires IsAssignment(body)
  {
    body[FindChar(body, '=') + 1..]
  }

  /** `-?[0-9]+(\.[0-9]+)?` repeated with `,` between: one or more numerals separated by commas. */
  predicate IsArguments(a: string)
  {
    var args := SplitOn(a, IsComma);
    forall k :: 0 <= k < |args| ==> IsNumeral(args[k])
  }

  /** `[A-z]+\(arguments\)` */
  predicate IsDistribution(d: string)
  {
    var p := FindChar(d, '(');
    p + 1 < |d| && IsName(d[..p]) && d[|d| - 1] == ')' && IsArguments(d[p + 1..|d| - 1])
  }

  /** `^random [A-z]+=[A-z]+\(arguments\)$` */
  predicate IsRandomLine(line: string)
  {
    HasPrefix(line, "random ") && IsAssignment(line[7..]) && IsDistribution(RightHandSide(line[7..]))
  }

  /** The calculated-variable term `[0-9]+|[A-z]+`: no decimal point and no sign. */
  predicate IsVarTerm(t: string)
  {
    IsDigits(t) || IsName(t)
  }

  /** Terms separated by single operator characters. */
  predicate IsVarExpression(x: string)
  {
    var ts := ExpressionParsing.Terms(x);
    forall k :: 0 <= k < |ts| ==> IsVarTerm(ts[k])
  }

  predicate IsVarBody(body: string)
  {
    IsAssignment(body) && IsVarExpression(RightHandSide(body))
  }

  /** `^(record )?var [A-z]+=term([+*\/\-%]term)*$` */
  predicate IsVarLine(line: string)
  {
    || (HasPrefix(line, "record var ") && IsVarBody(line[11..]))
    || (HasPrefix(line, "var ") && IsVarBody(line[4..]))
  }

  /** Whether a `var` line is recorded: it splits at its spaces into three parts, the first `record`. */
  predicate IsRecorded(line: string)
  {
    HasPrefix(line, "record var ")
  }

  /** The `name=expression` part of a `var` line. */
  function VarBody(line: string): (body: string)
    requires IsVarLine(line)
    ensures IsVarBody(body)
  {
    if IsRecorded(line) then
      assert line[0] == line[..11][0] == 'r';
      assert !HasPrefix(line, "var ") by { assert line[..4][0] == line[0]; }
      line[11..]
    else line[4..]
  }

  /** A line that is none of the five kinds. */
  predicate IsUnrecognised(line: string)
  {
    !IsBlank(line) && line[0] != '#' && !IsTrialsLine(line) && !IsRandomLine(line) && !IsVarLine(line)
  }

  // ------------------------------------------------------------ distributions

  /** The distribution name, `s.Split('(')[0]`. */
  function DistributionName(d: string): string
    requires IsDistribution(d)
  {
    d[..FindChar(d, '(')]
  }

  /** The argument texts, the part between the brackets split at its commas. */
  function Arguments(d: string): (args: seq<string>)
    requires IsDistribution(d)
    ensures forall k :: 0 <= k < |args| ==> IsNumeral(args[k])
  {
    SplitOn(d[FindChar(d, '(') + 1..|d| - 1], IsComma)
  }

  /** Argument `k` as a number (`double.Parse`, taken as exact). */
  function ArgumentValue(d: string, k: nat): real
    requires IsDistribution(d) && k < |Arguments(d)|
  {
    NumeralValue(Arguments(d)[k])
  }

  /**
   * `TryParseVariableDistribution`: `Range(a,b)` is a uniform variable with
   * the bounds rounded to `int`, `B(n,p)` a binomial one with `n` rounded to
   * `uint` and `p` in `[0, 1]`. Any other name, and any other number of
   * arguments, is refused; a bound that does not fit throws.
   */
  function ParseDistribution(d: string, name: string): Result<Kind, DefinitionError>
    requires IsDistribution(d)
  {
    var distributionName := DistributionName(d);
    var n := |Arguments(d)|;
    if distributionName == "Range" then
      if n != 2 then Err(DistributionFailed(name, RangeArity))
      else
        var lowerBound := ConvertToInt32(ArgumentValue(d, 0));
        var upperBound := ConvertToInt32(ArgumentValue(d, 1));
        if lowerBound.Err? then Err(Thrown(lowerBound.error))
        else if upperBound.Err? then Err(Thrown(upperBound.error))
        else Ok(Uniform(lowerBound.value, upperBound.value))
    else if distributionName == "B" then
      if n != 2 then Err(DistributionFailed(name, BinomialArity))
      else
        var trials := ConvertToUInt32(ArgumentValue(d, 0));
        var successProbability := ArgumentValue(d, 1);
        if trials.Err? then Err(Thrown(trials.error))
        else if successProbability < 0.0 || successProbability > 1.0 then
          Err(DistributionFailed(name, ProbabilityOutOfRange))
        else Ok(Binomial(trials.value, successProbability))
    else Err(DistributionFailed(name, UnknownDistribution(distributionName)))
  }

  /**
   * What an accepted distribution is (a `Range` with two rounded bounds, or a `B`
   * with a rounded trial count and a probability in `[0, 1]`), that every such
   * distribution is accepted, and which error each other case gives.
   */
  lemma ParseDistributionMeaning(d: string, name: string)
    requires IsDistribution(d)
    ensures var r := ParseDistribution(d, name);
      r.Ok? ==> !r.value.Expression? && |Arguments(d)| == 2
    ensures var r := ParseDistribution(d, name);
      r.Ok? && r.value.Uniform? ==>
        && DistributionName(d) == "Range"
        && r.value.lowerBound == RoundHalfEven(ArgumentValue(d, 0))
        && r.value.upperBound == RoundHalfEven(ArgumentValue(d, 1))
    ensures var r := ParseDistribution(d, name);
      r.Ok? && r.value.Binomial? ==>
        && DistributionName(d) == "B"
        && r.value.trials == RoundHalfEven(ArgumentValue(d, 0))
        && r.value.successProbability == ArgumentValue(d, 1)
        && 0.0 <= r.value.successProbability <= 1.0
    ensures var r := ParseDistribution(d, name);
      r.Err? ==> r.error == Thrown(Overflow) || (r.error.DistributionFailed? && r.error.name == name)
    ensures DistributionName(d) != "Range" && DistributionName(d) != "B" ==>
      ParseDistribution(d, name) == Err(DistributionFailed(name, UnknownDistribution(DistributionName(d))))
    ensures DistributionName(d) == "Range" && |Arguments(d)| != 2 ==>
      ParseDistribution(d, name) == Err(DistributionFailed(name, RangeArity))
    ensures DistributionName(d) == "B" && |Arguments(d)| != 2 ==>
      ParseDistribution(d, name) == Err(DistributionFailed(name, BinomialArity))
    ensures DistributionName(d) == "Range" && |Arguments(d)| == 2 ==>
      var lo, hi := RoundHalfEven(ArgumentValue(d, 0)), RoundHalfEven(ArgumentValue(d, 1));
      if IntMin <= lo <= IntMax && IntMin <= hi <= IntMax then ParseDistribution(d, name) == Ok(Uniform(lo, hi))
      else ParseDistribution(d, name) == Err(Thrown(Overflow))
    ensures DistributionName(d) == "B" && |Arguments(d)| == 2 ==>
      var n, p := RoundHalfEven(ArgumentValue(d, 0)), ArgumentValue(d, 1);
      if !(0 <= n < TwoTo32) then ParseDistribution(d, name) == Err(Thrown(Overflow))
      else if p < 0.0 || p > 1.0 then ParseDistribution(d, name) == Err(DistributionFailed(name, ProbabilityOutOfRange))
      else ParseDistribution(d, name) == Ok(Binomial(n, p))
  {
  }

  // ---------------------------------------------------------- the line loop

  /**
   * The locals of `TryParse` between two lines: the trial count and whether it
   * was set, the variables so far and the names declared so far.
   */
  datatype ParseState = ParseState(trialCount: uint32, trialCountDefined: bool,
                                   variables: seq<SimVar>, declared: seq<string>)

  /** Appends a variable and its name. */
  function Declare(st: ParseState, v: SimVar): ParseState
  {
    st.(variables := st.variables + [v], declared := st.declared + [v.name])
  }

  /** A `trials=` line: the count may be set only once, and must fit in a `uint`. */
  function ParseTrialsLine(st: ParseState, line: string): Result<ParseState, DefinitionError>
    requires IsTrialsLine(line)
  {
    if st.trialCountDefined then Err(MultipleTrialCountLines)
    else if DigitsValue(line[7..]) < TwoTo32 then
      Ok(st.(trialCount := DigitsValue(line[7..]), trialCountDefined := true))
    else Err(TrialCountUnparsable(line[7..]))
  }

  /** A `random` line: a fresh name and an accepted distribution give an unrecorded random variable. */
  function ParseRandomLine(st: ParseState, line: string): Result<ParseState, DefinitionError>
    requires IsRandomLine(line)
  {
    var name := AssignedName(line[7..]);
    if name in st.declared then Err(VariableNameUsedTwice(name))
    else
      var kind :- ParseDistribution(RightHandSide(line[7..]), name);
      Ok(Declare(st, SimVar(name, false, kind)))
  }

  /** A `var` line: a fresh name and an expression over the names declared so far. */
  function ParseVarLine(st: ParseState, line: string): Result<ParseState, DefinitionError>
    requires IsVarLine(line)
  {
    var body := VarBody(line);
    var name := AssignedName(body);
    if name in st.declared then Err(VariableNameUsedTwice(name))
    else
      match ExpressionParsing.ParseExpression(RightHandSide(body), st.declared)
      case Err(e) => Err(ExpressionFailed(name, e))
      case Ok(tree) => Ok(Declare(st, SimVar(name, IsRecorded(line), Expression(tree))))
  }

  /** One pass of the loop over lines, for the line with the given 1-based number. */
  function ParseLine(st: ParseState, line: string, lineNumber: nat): Result<ParseState, DefinitionError>
  {
    if IsBlank(line) || line[0] == '#' then Ok(st)
    else if IsTrialsLine(line) then ParseTrialsLine(st, line)
    else if IsRandomLine(line) then ParseRandomLine(st, line)
    else if IsVarLine(line) then ParseVarLine(st, line)
    else Err(InvalidLine(lineNumber))
  }

  /** The state after the given lines, or the error of the first bad one. */
  function ParseLines(lines: seq<string>): Result<ParseState, DefinitionError>
  {
    if lines == [] then Ok(ParseState(0, false, [], []))
    else
      var st :- ParseLines(lines[..|lines| - 1]);
      ParseLine(st, lines[|lines| - 1], |lines|)
  }

  /** The definition a text denotes, or why it is refused. */
  function ParseDefinition(s: string): Result<SimulationDefinition, DefinitionError>
  {
    var st :- ParseLines(Lines(s));
    if !st.trialCountDefined then Err(TrialCountNeverDefined)
    else Ok(SimulationDefinition(st.trialCount, st.variables))
  }

  /** Once a line is refused, the lines after it do not matter. */
  lemma {:induction false} ParseLinesFailurePersists(lines: seq<string>, i: nat)
    requires i <= |lines| && ParseLines(lines[..i]).Err?
    ensures ParseLines(lines) == ParseLines(lines[..i])
  {
    if i < |lines| {
      var init := lines[..|lines| - 1];
      assert init[..i] == lines[..i];
      ParseLinesFailurePersists(init, i);
    } else {
      assert lines[..i] == lines;
    }
  }

  /** One more line: the loop's state after it is that line's effect on the state before. */
  lemma ParseLinesStep(lines: seq<string>, i: nat, st: ParseState)
    requires i < |lines| && ParseLines(lines[..i]) == Ok(st)
    ensures ParseLines(lines[..i + 1]) == ParseLine(st, lines[i], i + 1)
  {
    assert lines[..i + 1][..i] == lines[..i];
  }

  /** A text whose first `i` lines hold a bad line is refused with that line's error. */
  lemma DefinitionFailsAt(s: string, i: nat)
    requires i <= |Lines(s)| && ParseLines(Lines(s)[..i]).Err?
    ensures ParseDefinition(s) == Err(ParseLines(Lines(s)[..i]).error)
  {
    ParseLinesFailurePersists(Lines(s), i);
  }

  /**
   * `SimulationDefinition.TryParse`: the loop over the lines, skipping blank
   * and comment lines, setting the trial count once, and appending one
   * variable per `random` or `var` line; it fails at the first bad line and,
   * after the loop, when there was no trial count.
   */
  method TryParse(s: string) returns (r: Result<SimulationDefinition, DefinitionError>)
    ensures r == ParseDefinition(s)
  {
    var lines := Lines(s);
    var trialCount: uint32 := 0;
    var variables: seq<SimVar> := [];
    var trialCountDefined := false;
    var declared: seq<string> := [];
    for lineIndex := 0 to |lines|
      invariant ParseLines(lines[..lineIndex]) ==
        Ok(ParseState(trialCount, trialCountDefined, variables, declared))
    {
      var line := lines[lineIndex];
      ghost var st := ParseState(trialCount, trialCountDefined, variables, declared);
      ParseLinesStep(lines, lineIndex, st);
      if IsBlank(line) {
        continue;
      } else if line[0] == '#' {
        continue;
      } else if IsTrialsLine(line) {
        if !trialCountDefined {
          var trialCountString := line[7..];
          if DigitsValue(trialCountString) < TwoTo32 {
            trialCount := DigitsValue(trialCountString);
            trialCountDefined := true;
            continue;
          } else {
            DefinitionFailsAt(s, lineIndex + 1);
            return Err(TrialCountUnparsable(trialCountString));
          }
        } else {
          DefinitionFailsAt(s, lineIndex + 1);
          return Err(MultipleTrialCountLines);
        }
      } else if IsRandomLine(line) {
        var definitionString := line[7..];
        var name := AssignedName(definitionString);
        var distribution := RightHandSide(definitionString);
        if name in declared {
          DefinitionFailsAt(s, lineIndex + 1);
          return Err(VariableNameUsedTwice(name));
        }
        var randomVariable := ParseDistribution(distribution, name);
        if randomVariable.Err? {
          DefinitionFailsAt(s, lineIndex + 1);
          return Err(randomVariable.error);
        }
        variables := variables + [SimVar(name, false, randomVariable.value)];
        declared := declared + [name];
        continue;
      } else if IsVarLine(line) {
        var recorded := IsRecorded(line);
        var definitionPart := VarBody(line);
        var name := AssignedName(definitionPart);
        var expressionPart := RightHandSide(definitionPart);
        if name in declared {
          DefinitionFailsAt(s, lineIndex + 1);
          return Err(VariableNameUsedTwice(name));
        }
        var expression := ExpressionParsing.TryParse(expressionPart, declared);
        if expression.Err? {
          DefinitionFailsAt(s, lineIndex + 1);
          return Err(ExpressionFailed(name, expression.error));
        }
        variables := variables + [SimVar(name, recorded, Expression(expression.value))];
        declared := declared + [name];
        continue;
      } else {
        DefinitionFailsAt(s, lineIndex + 1);
        return Err(InvalidLine(lineIndex + 1));
      }
    }
    assert lines[..|lines|] == lines;
    if !trialCountDefined {
      return Err(TrialCountNeverDefined);
    }
    r := Ok(SimulationDefinition(trialCount, variables));
  }

  // -------------------------------------------------------------- properties

  /** Random variables are never recorded: only a `var` line can carry `record`. */
  predicate RandomUnrecorded(vs: seq<SimVar>)
  {
    forall k :: 0 <= k < |vs| && !vs[k].kind.Expression? ==> !vs[k].recorded
  }

  /** Every binomial variable has a probability in `[0, 1]`. */
  predicate ProbabilitiesValid(vs: seq<SimVar>)
  {
    forall k :: 0 <= k < |vs| && vs[k].kind.Binomial? ==> 0.0 <= vs[k].kind.successProbability <= 1.0
  }

  /** What holds of the locals of `TryParse` between lines. */
  predicate Consistent(st: ParseState)
  {
    && st.declared == Names(st.variables)
    && DistinctNames(st.variables)
    && DeclaredBeforeUse(st.variables)
    && RandomUnrecorded(st.variables)
    && ProbabilitiesValid(st.variables)
  }

  lemma NamesAreNameSet(vs: seq<SimVar>)
    ensures (set n | n in Names(vs)) == NameSet(vs)
  {
    var ns := Names(vs);
    forall n | n in ns ensures n in NameSet(vs) {
      var i :| 0 <= i < |ns| && ns[i] == n;
    }
    forall n | n in NameSet(vs) ensures n in ns {
      var i :| 0 <= i < |vs| && vs[i].name == n;
      assert ns[i] == n;
    }
  }

  /** Declaring a fresh variable that only uses declared names keeps the locals consistent. */
  lemma DeclareConsistent(st: ParseState, v: SimVar)
    requires Consistent(st) && v.name !in st.declared
    requires v.kind.Expression? ==> Vars(v.kind.tree) <= NameSet(st.variables)
    requires !v.kind.Expression? ==> !v.recorded
    requires v.kind.Binomial? ==> 0.0 <= v.kind.successProbability <= 1.0
    ensures Consistent(Declare(st, v))
  {
    var vs := st.variables;
    var vs' := vs + [v];
    assert Names(vs') == Names(vs) + [v.name];
    forall k | 0 <= k < |vs| ensures vs'[..k] == vs[..k] {
    }
    assert vs'[..|vs|] == vs;
    forall i, j | 0 <= i < j < |vs'| ensures vs'[i].name != vs'[j].name {
      if j == |vs| {
        assert Names(vs)[i] == vs'[i].name;
      }
    }
  }

  /** Every line that is accepted keeps the locals consistent. */
  lemma ParseLineConsistent(st: ParseState, line: string, lineNumber: nat)
    requires Consistent(st) && ParseLine(st, line, lineNumber).Ok?
    ensures Consistent(ParseLine(st, line, lineNumber).value)
  {
    if IsBlank(line) || line[0] == '#' || IsTrialsLine(line) {
    } else if IsRandomLine(line) {
      var name := AssignedName(line[7..]);
      ParseDistributionMeaning(RightHandSide(line[7..]), name);
      var kind := ParseDistribution(RightHandSide(line[7..]), name).value;
      DeclareConsistent(st, SimVar(name, false, kind));
    } else {
      var body := VarBody(line);
      var name := AssignedName(body);
      var tree := ExpressionParsing.ParseExpression(RightHandSide(body), st.declared).value;
      ExpressionParsing.ParseExpressionVarsValid(RightHandSide(body), st.declared);
      NamesAreNameSet(st.variables);
      DeclareConsistent(st, SimVar(name, IsRecorded(line), Expression(tree)));
    }
  }

  lemma {:induction false} ParseLinesConsistent(lines: seq<string>)
    requires ParseLines(lines).Ok?
    ensures Consistent(ParseLines(lines).value)
  {
    if lines != [] {
      ParseLinesConsistent(lines[..|lines| - 1]);
      ParseLineConsistent(ParseLines(lines[..|lines| - 1]).value, lines[|lines| - 1], |lines|);
    }
  }

  /**
   * A parsed definition is well formed: its names are distinct, every
   * expression only uses variables declared on earlier lines (so self and
   * forward references are refused), random variables are not recorded and
   * every binomial probability lies in `[0, 1]`.
   */
  lemma DefinitionWellFormed(s: string)
    requires ParseDefinition(s).Ok?
    ensures var vs := ParseDefinition(s).value.variables;
      DistinctNames(vs) && DeclaredBeforeUse(vs) && RandomUnrecorded(vs) && ProbabilitiesValid(vs)
  {
    ParseLinesConsistent(Lines(s));
  }

  /** A line that declares a variable (tested in the order of the loop). */
  predicate IsDeclarationLine(line: string)
  {
    !IsBlank(line) && line[0] != '#' && !IsTrialsLine(line) && (IsRandomLine(line) || IsVarLine(line))
  }

  /** The name and the recorded flag that a declaration line gives its variable. */
  function Header(line: string): (string, bool)
    requires IsRandomLine(line) || IsVarLine(line)
  {
    if IsRandomLine(line) then (AssignedName(line[7..]), false)
    else (AssignedName(VarBody(line)), IsRecorded(line))
  }

  /** The headers of the declaration lines, in line order. */
  function Headers(lines: seq<string>): seq<(string, bool)>
  {
    if lines == [] then []
    else
      var line := lines[|lines| - 1];
      Headers(lines[..|lines| - 1]) + (if IsDeclarationLine(line) then [Header(line)] else [])
  }

  function VariableHeaders(vs: seq<SimVar>): seq<(string, bool)>
  {
    seq(|vs|, k requires 0 <= k < |vs| => (vs[k].name, vs[k].recorded))
  }

  /** An accepted line adds one variable with the line's header when it is a declaration, and none otherwise. */
  lemma ParseLineHeader(st: ParseState, line: string, lineNumber: nat)
    requires ParseLine(st, line, lineNumber).Ok?
    ensures var vs := ParseLine(st, line, lineNumber).value.variables;
      if IsDeclarationLine(line) then
        |vs| == |st.variables| + 1 && vs[..|st.variables|] == st.variables &&
        (vs[|st.variables|].name, vs[|st.variables|].recorded) == Header(line)
      else vs == st.variables
  {
    if IsDeclarationLine(line) {
      var vs := ParseLine(st, line, lineNumber).value.variables;
      assert vs[..|st.variables|] == st.variables;
    }
  }

  lemma VariableHeadersSnoc(vs: seq<SimVar>, v: SimVar)
    ensures VariableHeaders(vs + [v]) == VariableHeaders(vs) + [(v.name, v.recorded)]
  {
  }

  lemma {:induction false} ParseLinesHeaders(lines: seq<string>)
    requires ParseLines(lines).Ok?
    ensures VariableHeaders(ParseLines(lines).value.variables) == Headers(lines)
  {
    if lines != [] {
      var init := lines[..|lines| - 1];
      var line := lines[|lines| - 1];
      ParseLinesHeaders(init);
      var st := ParseLines(init).value;
      ParseLineHeader(st, line, |lines|);
      var vs' := ParseLines(lines).value.variables;
      if IsDeclarationLine(line) {
        assert vs' == st.variables + [vs'[|st.variables|]];
        VariableHeadersSnoc(st.variables, vs'[|st.variables|]);
      }
    }
  }

  /**
   * Every `random` and `var` line adds exactly one variable, in line order,
   * with the line's name; `record var` lines, and only they, give recorded variables.
   */
  lemma DefinitionFollowsLines(s: string)
    requires ParseDefinition(s).Ok?
    ensures VariableHeaders(ParseDefinition(s).value.variables) == Headers(Lines(s))
  {
    ParseLinesHeaders(Lines(s));
  }

  /** The number of `trials=` lines. */
  function TrialsLineCount(lines: seq<string>): nat
  {
    if lines == [] then 0
    else TrialsLineCount(lines[..|lines| - 1]) + (if IsTrialsLine(lines[|lines| - 1]) then 1 else 0)
  }

  lemma TrialsLineIsNotSkipped(line: string)
    requires IsTrialsLine(line)
    ensures !IsBlank(line) && line[0] == 't'
  {
    assert line[0] == line[..7][0];
  }

  /** Only a `trials=` line sets the trial count, and only when it was not set yet. */
  lemma ParseLineTrials(st: ParseState, line: string, lineNumber: nat)
    requires ParseLine(st, line, lineNumber).Ok?
    ensures var st' := ParseLine(st, line, lineNumber).value;
      if IsTrialsLine(line) then
        !st.trialCountDefined && st'.trialCountDefined && st'.trialCount == DigitsValue(line[7..])
      else st'.trialCountDefined == st.trialCountDefined && st'.trialCount == st.trialCount
  {
    if IsTrialsLine(line) {
      TrialsLineIsNotSkipped(line);
    }
  }

  lemma {:induction false} ParseLinesTrials(lines: seq<string>)
    requires ParseLines(lines).Ok?
    ensures var st := ParseLines(lines).value;
      && TrialsLineCount(lines) <= 1
      && (st.trialCountDefined <==> TrialsLineCount(lines) == 1)
      && (st.trialCountDefined ==>
            exists k :: 0 <= k < |lines| && IsTrialsLine(lines[k]) && st.trialCount == DigitsValue(lines[k][7..]))
  {
    if lines != [] {
      var init := lines[..|lines| - 1];
      var line := lines[|lines| - 1];
      ParseLinesTrials(init);
      var st := ParseLines(init).value;
      ParseLineTrials(st, line, |lines|);
      if !IsTrialsLine(line) && st.trialCountDefined {
        var k :| 0 <= k < |init| && IsTrialsLine(init[k]) && st.trialCount == DigitsValue(init[k][7..]);
        assert lines[k] == init[k];
      }
    }
  }

  /**
   * A parsed definition has exactly one `trials=` line, and its trial count is
   * that line's number; without such a line, or with two, the text is refused.
   */
  lemma DefinitionTrialCount(s: string)
    requires ParseDefinition(s).Ok?
    ensures TrialsLineCount(Lines(s)) == 1
    ensures exists k ::
      (0 <= k < |Lines(s)| && IsTrialsLine(Lines(s)[k]) &&
       ParseDefinition(s).value.trialCount == DigitsValue(Lines(s)[k][7..]))
  {
    ParseLinesTrials(Lines(s));
  }

  /** Only an unrecognised line gives InvalidLine, and with its own number. */
  lemma ParseLineInvalid(st: ParseState, line: string, lineNumber: nat, k: nat)
    ensures ParseLine(st, line, lineNumber) == Err(InvalidLine(k)) <==> IsUnrecognised(line) && k == lineNumber
  {
    if !IsBlank(line) && line[0] != '#' && !IsTrialsLine(line) && IsRandomLine(line) {
      var name := AssignedName(line[7..]);
      ParseDistributionMeaning(RightHandSide(line[7..]), name);
    }
  }

  /**
   * Line `k` (from 1) is reported invalid exactly when all lines before it are
   * accepted and it is none of the five kinds of line.
   */
  lemma {:induction false} ParseLinesInvalidLine(lines: seq<string>, k: nat)
    ensures ParseLines(lines) == Err(InvalidLine(k)) <==>
      1 <= k <= |lines| && ParseLines(lines[..k - 1]).Ok? && IsUnrecognised(lines[k - 1])
  {
    if lines != [] {
      var init := lines[..|lines| - 1];
      ParseLinesInvalidLine(init, k);
      if ParseLines(init).Ok? {
        ParseLineInvalid(ParseLines(init).value, lines[|lines| - 1], |lines|, k);
      }
      if 1 <= k < |lines| {
        assert init[..k - 1] == lines[..k - 1];
        assert init[k - 1] == lines[k - 1];
      }
      if ParseLines(init).Err? {
        assert ParseLines(lines) == ParseLines(init);
      } else if k == |lines| {
        assert lines[..k - 1] == init;
      }
    }
  }

  lemma DefinitionInvalidLine(s: string, k: nat)
    ensures ParseDefinition(s) == Err(InvalidLine(k)) <==>
      var lines := Lines(s);
      1 <= k <= |lines| && ParseLines(lines[..k - 1]).Ok? && IsUnrecognised(lines[k - 1])
  {
    ParseLinesInvalidLine(Lines(s), k);
  }

  // ------------------------------------------------------- the other line errors

  /** Line `i` (from 0) is the first refused one, with error `e`. */
  ghost predicate FailsOn(lines: seq<string>, i: nat, e: DefinitionError)
  {
    i < |lines| && ParseLines(lines[..i]).Ok? && ParseLine(ParseLines(lines[..i]).value, lines[i], i + 1) == Err(e)
  }

  /** A refused run of the loop was refused at some line, all lines before it accepted. */
  lemma {:induction false} FirstFailure(lines: seq<string>) returns (i: nat)
    requires ParseLines(lines).Err?
    ensures FailsOn(lines, i, ParseLines(lines).error)
  {
    var init := lines[..|lines| - 1];
    if ParseLines(init).Err? {
      i := FirstFailure(init);
      assert init[..i] == lines[..i];
    } else {
      i := |init|;
      assert lines[..i] == init;
    }
  }

  /** A line refused after accepted lines is the error of the whole loop. */
  lemma FailsOnIsError(lines: seq<string>, i: nat, e: DefinitionError)
    requires FailsOn(lines, i, e)
    ensures ParseLines(lines) == Err(e)
  {
    ParseLinesStep(lines, i, ParseLines(lines[..i]).value);
    ParseLinesFailurePersists(lines, i + 1);
  }

  /** A second `trials=` line, and only that, gives "multiple trial count definition lines". */
  lemma ParseLineMultipleTrials(st: ParseState, line: string, lineNumber: nat)
    ensures ParseLine(st, line, lineNumber) == Err(MultipleTrialCountLines) <==>
      IsTrialsLine(line) && st.trialCountDefined
  {
    if IsTrialsLine(line) {
      TrialsLineIsNotSkipped(line);
    } else if !IsBlank(line) && line[0] != '#' && IsRandomLine(line) {
      ParseDistributionMeaning(RightHandSide(line[7..]), AssignedName(line[7..]));
    }
  }

  /** The first `trials=` line with a number of 2^32 or more, and only that, gives "failed to parse trial count". */
  lemma ParseLineUnparsable(st: ParseState, line: string, lineNumber: nat, text: string)
    ensures ParseLine(st, line, lineNumber) == Err(TrialCountUnparsable(text)) <==>
      IsTrialsLine(line) && !st.trialCountDefined && text == line[7..] && DigitsValue(text) >= TwoTo32
  {
    if IsTrialsLine(line) {
      TrialsLineIsNotSkipped(line);
    } else if !IsBlank(line) && line[0] != '#' && IsRandomLine(line) {
      ParseDistributionMeaning(RightHandSide(line[7..]), AssignedName(line[7..]));
    }
  }

  /** A declaration of a name already declared, and only that, gives "variable name used twice". */
  lemma ParseLineNameUsedTwice(st: ParseState, line: string, lineNumber: nat, name: string)
    ensures ParseLine(st, line, lineNumber) == Err(VariableNameUsedTwice(name)) <==>
      IsDeclarationLine(line) && Header(line).0 == name && name in st.declared
  {
    if !IsBlank(line) && line[0] != '#' && !IsTrialsLine(line) && IsRandomLine(line) {
      ParseDistributionMeaning(RightHandSide(line[7..]), AssignedName(line[7..]));
    }
  }

  /**
   * "Multiple trial count definition lines": line `i` is a `trials=` line, the
   * lines before it are accepted and hold one `trials=` line already.
   */
  lemma DefinitionMultipleTrials(s: string)
    ensures ParseDefinition(s) == Err(MultipleTrialCountLines) <==>
      var lines := Lines(s);
      exists i :: 0 <= i < |lines| && ParseLines(lines[..i]).Ok? && IsTrialsLine(lines[i]) &&
        TrialsLineCount(lines[..i]) == 1
  {
    var lines := Lines(s);
    var e := MultipleTrialCountLines;
    if ParseDefinition(s) == Err(e) {
      var i := FirstFailure(lines);
      ParseLineMultipleTrials(ParseLines(lines[..i]).value, lines[i], i + 1);
      ParseLinesTrials(lines[..i]);
    }
    if exists i :: 0 <= i < |lines| && ParseLines(lines[..i]).Ok? && IsTrialsLine(lines[i]) &&
        TrialsLineCount(lines[..i]) == 1 {
      var i :| 0 <= i < |lines| && ParseLines(lines[..i]).Ok? && IsTrialsLine(lines[i]) &&
        TrialsLineCount(lines[..i]) == 1;
      ParseLineMultipleTrials(ParseLines(lines[..i]).value, lines[i], i + 1);
      ParseLinesTrials(lines[..i]);
      FailsOnIsError(lines, i, e);
    }
  }

  /**
   * "Failed to parse trial count (text)": line `i` is the first `trials=` line,
   * the lines before it are accepted, and its number `text` does not fit in a `uint`.
   */
  lemma DefinitionTrialCountUnparsable(s: string, text: string)
    ensures ParseDefinition(s) == Err(TrialCountUnparsable(text)) <==>
      var lines := Lines(s);
      exists i :: 0 <= i < |lines| && ParseLines(lines[..i]).Ok? && IsTrialsLine(lines[i]) &&
        TrialsLineCount(lines[..i]) == 0 && text == lines[i][7..] && DigitsValue(text) >= TwoTo32
  {
    var lines := Lines(s);
    var e := TrialCountUnparsable(text);
    if ParseDefinition(s) == Err(e) {
      var i := FirstFailure(lines);
      ParseLineUnparsable(ParseLines(lines[..i]).value, lines[i], i + 1, text);
      ParseLinesTrials(lines[..i]);
    }
    if exists i :: 0 <= i < |lines| && ParseLines(lines[..i]).Ok? && IsTrialsLine(lines[i]) &&
        TrialsLineCount(lines[..i]) == 0 && text == lines[i][7..] && DigitsValue(text) >= TwoTo32 {
      var i :| 0 <= i < |lines| && ParseLines(lines[..i]).Ok? && IsTrialsLine(lines[i]) &&
        TrialsLineCount(lines[..i]) == 0 && text == lines[i][7..] && DigitsValue(text) >= TwoTo32;
      ParseLineUnparsable(ParseLines(lines[..i]).value, lines[i], i + 1, text);
      ParseLinesTrials(lines[..i]);
      FailsOnIsError(lines, i, e);
    }
  }

  /** "Trial count never defined": every line is accepted and none is a `trials=` line. */
  lemma DefinitionTrialCountNeverDefined(s: string)
    ensures ParseDefinition(s) == Err(TrialCountNeverDefined) <==>
      ParseLines(Lines(s)).Ok? && TrialsLineCount(Lines(s)) == 0
  {
    var lines := Lines(s);
    if ParseLines(lines).Err? && ParseLines(lines).error == TrialCountNeverDefined {
      var i := FirstFailure(lines);
      var st := ParseLines(lines[..i]).value;
      if !IsBlank(lines[i]) && lines[i][0] != '#' && !IsTrialsLine(lines[i]) && IsRandomLine(lines[i]) {
        ParseDistributionMeaning(RightHandSide(lines[i][7..]), AssignedName(lines[i][7..]));
      }
      assert false;
    }
    if ParseLines(lines).Ok? {
      ParseLinesTrials(lines);
    }
  }

  /** The names the declaration headers give, in order. */
  function HeaderNames(hs: seq<(string, bool)>): (names: seq<string>)
    ensures |names| == |hs| && forall k :: 0 <= k < |hs| ==> names[k] == hs[k].0
  {
    seq(|hs|, k requires 0 <= k < |hs| => hs[k].0)
  }

  /** The names declared by accepted lines are the names their declaration lines give. */
  lemma DeclaredNames(lines: seq<string>)
    requires ParseLines(lines).Ok?
    ensures ParseLines(lines).value.declared == HeaderNames(Headers(lines))
  {
    ParseLinesConsistent(lines);
    ParseLinesHeaders(lines);
    var st := ParseLines(lines).value;
    assert st.declared == Names(st.variables);
    assert HeaderNames(VariableHeaders(st.variables)) == Names(st.variables);
  }

  /**
   * "Variable name used twice (name)": line `i` declares `name`, the lines
   * before it are accepted, and one of them declares `name` already.
   */
  lemma DefinitionNameUsedTwice(s: string, name: string)
    ensures ParseDefinition(s) == Err(VariableNameUsedTwice(name)) <==>
      var lines := Lines(s);
      exists i :: 0 <= i < |lines| && ParseLines(lines[..i]).Ok? && IsDeclarationLine(lines[i]) &&
        Header(lines[i]).0 == name && name in HeaderNames(Headers(lines[..i]))
  {
    var lines := Lines(s);
    var e := VariableNameUsedTwice(name);
    if ParseDefinition(s) == Err(e) {
      var i := FirstFailure(lines);
      ParseLineNameUsedTwice(ParseLines(lines[..i]).value, lines[i], i + 1, name);
      DeclaredNames(lines[..i]);
    }
    if exists i :: 0 <= i < |lines| && ParseLines(lines[..i]).Ok? && IsDeclarationLine(lines[i]) &&
        Header(lines[i]).0 == name && name in HeaderNames(Headers(lines[..i])) {
      var i :| 0 <= i < |lines| && ParseLines(lines[..i]).Ok? && IsDeclarationLine(lines[i]) &&
        Header(lines[i]).0 == name && name in HeaderNames(Headers(lines[..i]));
      ParseLineNameUsedTwice(ParseLines(lines[..i]).value, lines[i], i + 1, name);
      DeclaredNames(lines[..i]);
      FailsOnIsError(lines, i, e);
    }
  }

  /** Blank lines and comment lines change nothing. */
  lemma SkippedLine(lines: seq<string>, line: string)
    requires IsBlank(line) || line[0] == '#'
    ensures ParseLines(lines + [line]) == ParseLines(lines)
  {
    assert (lines + [line])[..|lines|] == lines;
  }

  /** The text `x=x` assigns the name `x` to the expression `x`. */
  lemma SelfAssignment(name: string)
    requires IsName(name)
    ensures IsAssignment(name + "=" + name)
    ensures AssignedName(name + "=" + name) == name && RightHandSide(name + "=" + name) == name
  {
    var body := name + "=" + name;
    assert body[|name|] == '=';
    assert forall i :: 0 <= i < |name| ==> body[i] == name[i] && IsNameChar(name[i]);
    assert FindChar(body, '=') == |name|;
    assert body[..|name|] == name && body[|name| + 1..] == name;
  }

  /** A name has no operator characters, so it is a single term. */
  lemma NameIsSingleTerm(name: string, validNames: seq<string>)
    requires IsName(name)
    ensures IsVarExpression(name)
    ensures ExpressionParsing.ParseExpression(name, validNames) == ExpressionParsing.ParseTerm(name, validNames)
  {
    forall i | 0 <= i < |name| ensures !ExpressionParsing.IsOperator(name[i]) {
      assert IsNameChar(name[i]);
    }
    SplitOnNoSeparator(name, ExpressionParsing.IsOperator);
    ExpressionParsing.ParseSingleTerm(name, validNames);
  }

  /** A line starting with `v` can only be a plain `var` line. */
  lemma StartsWithV(line: string)
    requires |line| > 0 && line[0] == 'v'
    ensures !IsBlank(line) && !IsTrialsLine(line) && !IsRandomLine(line) && !IsRecorded(line)
  {
    assert |line| >= 7 ==> line[..7][0] == 'v';
    assert |line| >= 11 ==> line[..11][0] == 'v';
  }

  /** The line `var x=x` is an unrecorded `var` line declaring `x` as the expression `x`. */
  lemma SelfReferenceLine(name: string)
    requires IsName(name)
    ensures var line := "var " + name + "=" + name;
      && !IsBlank(line) && line[0] != '#' && !IsTrialsLine(line) && !IsRandomLine(line)
      && IsVarLine(line) && !IsRecorded(line) && VarBody(line) == name + "=" + name
  {
    var body := name + "=" + name;
    var line := "var " + body;
    assert line == "var " + name + "=" + name;
    assert line[..4] == "var " && line[4..] == body;
    SelfAssignment(name);
    NameIsSingleTerm(name, []);
    assert IsVarBody(body);
    StartsWithV(line);
  }

  lemma SelfReferenceVarLine(st: ParseState, name: string, lineNumber: nat)
    requires IsName(name)
    ensures ParseLine(st, "var " + name + "=" + name, lineNumber) ==
      Err(if name in st.declared then VariableNameUsedTwice(name)
          else ExpressionFailed(name, ExpressionParsing.UndefinedVariable(name)))
  {
    SelfReferenceLine(name);
    SelfAssignment(name);
    NameIsSingleTerm(name, st.declared);
  }

  /**
   * A variable defined by its own name, `var x=x`, is refused: the name list
   * the expression is parsed against does not hold `x` yet.
   */
  lemma SelfReferenceRefused(lines: seq<string>, name: string)
    requires ParseLines(lines).Ok? && IsName(name)
    ensures var declared := ParseLines(lines).value.declared;
      ParseLines(lines + ["var " + name + "=" + name]) ==
        Err(if name in declared then VariableNameUsedTwice(name)
            else ExpressionFailed(name, ExpressionParsing.UndefinedVariable(name)))
  {
    var line := "var " + name + "=" + name;
    var st := ParseLines(lines).value;
    assert (lines + [line])[..|lines|] == lines;
    SelfReferenceVarLine(st, name, |lines| + 1);
  }
}
