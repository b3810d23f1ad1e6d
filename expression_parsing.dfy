/**
 * Parsing of the expression language: terms (variable names or decimal
 * numerals) separated by the operators `+ - * / %`, combined strictly left to
 * right with no precedence and no brackets.
 */
module ExpressionParsing {
  import opened Wrappers
  import opened Lexical
  import opened ExpressionTrees

  /** One of the operator characters `+ - * / %`. */
  predicate IsOperator(c: char) { c == '+' || c == '-' || c == '*' || c == '/' || c == '%' }

  /** Why a term was refused. */
  datatype TermError =
    | UndefinedVariable(name: string)
    | InvalidTerm

  /** The error message that `TryParse` reports for a refused term. */
  function Message(e: TermError): string
  {
    "Error occured when parsing expression term:\n" +
    match e
    case UndefinedVariable(n) => "Use of undefined variable name (" + n + ")"
    case InvalidTerm => "Invalid term provided"
  }

  /**
   * One term: a name matching `[A-z]+` becomes a variable leaf when it is one of
   * the valid names and an error otherwise; a numeral becomes a constant leaf;
   * anything else, the empty term included, is invalid.
   */
  function ParseTerm(s: string, validNames: seq<string>): (r: Result<Expr, TermError>)
    ensures r.Ok? ==> !r.value.IsBinary() && Vars(r.value) <= set n | n in validNames
    ensures r.Ok? && r.value.Variable? ==> r.value.name == s && IsName(s)
    ensures r.Ok? && r.value.Constant? ==> IsNumeral(s) && r.value.value == NumeralValue(s)
    ensures r.Err? && r.error.UndefinedVariable? ==> r.error.name == s && IsName(s) && s !in validNames
    ensures r == Err(InvalidTerm) <==> !IsName(s) && !IsNumeral(s)
    ensures s == [] ==> r == Err(InvalidTerm)
  {
    if IsName(s) then
      if s in validNames then Ok(Variable(s)) else Err(UndefinedVariable(s))
    else if IsNumeral(s) then Ok(Constant(NumeralValue(s)))
    else Err(InvalidTerm)
  }

  /** The operator node for `op` over the two operands. */
  function MakeNode(left: Expr, right: Expr, op: char): (e: Expr)
    requires IsOperator(op)
    ensures e.IsBinary() && e.left == left && e.right == right
  {
    match op
    case '+' => Sum(left, right)
    case '-' => Subtraction(left, right)
    case '*' => Product(left, right)
    case '/' => Quotient(left, right)
    case '%' => Modulo(left, right)
  }

  /** The operator character a binary node stands for. */
  function OperatorOf(e: Expr): (c: char)
    requires e.IsBinary()
    ensures IsOperator(c)
  {
    match e
    case Sum(_, _) => '+'
    case Subtraction(_, _) => '-'
    case Product(_, _) => '*'
    case Quotient(_, _) => '/'
    case Modulo(_, _) => '%'
  }

  /** Building a node and reading back its operator gives the operator character back. */
  lemma MakeNodeRoundTrip(left: Expr, right: Expr, op: char)
    requires IsOperator(op)
    ensures OperatorOf(MakeNode(left, right, op)) == op
  {
  }

  /** Reading a node's operator and building a node from it gives the node back. */
  lemma OperatorOfRoundTrip(e: Expr)
    requires e.IsBinary()
    ensures MakeNode(e.left, e.right, OperatorOf(e)) == e
  {
  }

  /** The terms of an expression text: the pieces between operator characters. */
  function Terms(s: string): seq<string>
  {
    SplitOn(s, IsOperator)
  }

  /** The operator characters of an expression text, in order. */
  function Operators(s: string): seq<char>
  {
    Separators(s, IsOperator)
  }

  /** Parses the terms in order, stopping at the first one that is refused. */
  function ParseTerms(ts: seq<string>, validNames: seq<string>): (r: Result<seq<Expr>, TermError>)
    ensures r.Ok? ==> |r.value| == |ts|
  {
    if ts == [] then Ok([])
    else
      var init :- ParseTerms(ts[..|ts| - 1], validNames);
      var last :- ParseTerm(ts[|ts| - 1], validNames);
      Ok(init + [last])
  }

  /** The left-nested tree `(((l0 op0 l1) op1 l2) ...)` over the leaves and operators. */
  function FoldLeft(leaves: seq<Expr>, ops: seq<char>): Expr
    requires |leaves| == |ops| + 1
    requires forall i :: 0 <= i < |ops| ==> IsOperator(ops[i])
  {
    if ops == [] then leaves[0]
    else MakeNode(FoldLeft(leaves[..|leaves| - 1], ops[..|ops| - 1]), leaves[|leaves| - 1], ops[|ops| - 1])
  }

  /** Every operator of a text is an operator character. */
  lemma OperatorsAreOperators(s: string)
    ensures forall i :: 0 <= i < |Operators(s)| ==> IsOperator(Operators(s)[i])
  {
    SeparatorsSatisfy(s, IsOperator);
  }

  /** The tree an expression text denotes, or the first refused term's error. */
  function ParseExpression(s: string, validNames: seq<string>): Result<Expr, TermError>
  {
    var leaves :- ParseTerms(Terms(s), validNames);
    OperatorsAreOperators(s);
    Ok(FoldLeft(leaves, Operators(s)))
  }

  /**
   * What `TryParse` knows after reading the prefix `p`: the current term is the
   * last, unfinished term of `p`, the complete terms before it were accepted as
   * `leaves`, the current operator is the last operator of `p`, and the tree
   * so far folds the accepted leaves with all operators but that last one.
   */
  ghost predicate Scanned(p: string, validNames: seq<string>, currentTerm: string, leaves: seq<Expr>,
                          prevNode: Option<Expr>, currentOperator: Option<char>)
  {
    ScannedParts(Terms(p), Operators(p), validNames, currentTerm, leaves, prevNode, currentOperator)
  }

  /** `Scanned`, stated over the terms `ts` and operators `os` of the prefix. */
  ghost predicate ScannedParts(ts: seq<string>, os: seq<char>, validNames: seq<string>, currentTerm: string,
                               leaves: seq<Expr>, prevNode: Option<Expr>, currentOperator: Option<char>)
  {
    && |ts| == |os| + 1
    && (forall i :: 0 <= i < |os| ==> IsOperator(os[i]))
    && currentTerm == ts[|ts| - 1]
    && ParseTerms(ts[..|ts| - 1], validNames) == Ok(leaves)
    && (currentOperator.None? <==> os == [])
    && (prevNode.None? <==> os == [])
    && (currentOperator.Some? ==> currentOperator.value == os[|os| - 1])
    && (prevNode.Some? ==> |leaves| == |os| && prevNode.value == FoldLeft(leaves, os[..|os| - 1]))
  }

  lemma ScannedStart(validNames: seq<string>)
    ensures Scanned("", validNames, "", [], None, None)
  {
  }

  /** Reading a character that is not an operator extends the current term. */
  lemma ScanTermChar(p: string, c: char, validNames: seq<string>, currentTerm: string, leaves: seq<Expr>,
                     prevNode: Option<Expr>, currentOperator: Option<char>)
    requires Scanned(p, validNames, currentTerm, leaves, prevNode, currentOperator)
    requires !IsOperator(c)
    ensures Scanned(p + [c], validNames, currentTerm + [c], leaves, prevNode, currentOperator)
  {
    SplitOnSnoc(p, c, IsOperator);
    var ts := Terms(p);
    var ts' := Terms(p + [c]);
    assert ts'[..|ts'| - 1] == ts[..|ts| - 1];
    assert Operators(p + [c]) == Operators(p);
  }

  /** Reading an operator after an accepted term folds that term into the tree. */
  lemma ScanOperator(p: string, c: char, validNames: seq<string>, currentTerm: string, leaves: seq<Expr>,
                     prevNode: Option<Expr>, currentOperator: Option<char>, term: Expr)
    requires Scanned(p, validNames, currentTerm, leaves, prevNode, currentOperator)
    requires IsOperator(c) && ParseTerm(currentTerm, validNames) == Ok(term)
    ensures Scanned(p + [c], validNames, "", leaves + [term],
                    Some(if prevNode.None? then term else MakeNode(prevNode.value, term, currentOperator.value)),
                    Some(c))
  {
    SplitOnSnoc(p, c, IsOperator);
    ScanOperatorParts(Terms(p), Operators(p), c, validNames, currentTerm, leaves, prevNode, currentOperator, term);
  }

  /** `ScanOperator` on the terms and operators: the operator closes the current term and opens an empty one. */
  lemma ScanOperatorParts(ts: seq<string>, os: seq<char>, c: char, validNames: seq<string>, currentTerm: string,
                          leaves: seq<Expr>, prevNode: Option<Expr>, currentOperator: Option<char>, term: Expr)
    requires ScannedParts(ts, os, validNames, currentTerm, leaves, prevNode, currentOperator)
    requires IsOperator(c) && ParseTerm(currentTerm, validNames) == Ok(term)
    ensures ScannedParts(ts + [""], os + [c], validNames, "", leaves + [term],
                         Some(if prevNode.None? then term else MakeNode(prevNode.value, term, currentOperator.value)),
                         Some(c))
  {
    var ts', os' := ts + [""], os + [c];
    var leaves' := leaves + [term];
    assert ts'[..|ts'| - 1] == ts == ts[..|ts| - 1] + [currentTerm];
    ParseTermsSnoc(ts[..|ts| - 1], currentTerm, validNames);
    assert os'[..|os'| - 1] == os;
    assert |leaves| == |os|;
    if prevNode.Some? {
      assert leaves'[..|leaves|] == leaves;
      assert FoldLeft(leaves', os) == MakeNode(prevNode.value, term, currentOperator.value);
    } else {
      assert FoldLeft(leaves', os) == term;
    }
  }

  /** A refused term just before an operator is the error of the whole text. */
  lemma ScanOperatorFails(s: string, i: nat, validNames: seq<string>, currentTerm: string, leaves: seq<Expr>,
                          prevNode: Option<Expr>, currentOperator: Option<char>)
    requires i < |s| && IsOperator(s[i])
    requires Scanned(s[..i], validNames, currentTerm, leaves, prevNode, currentOperator)
    requires ParseTerm(currentTerm, validNames).Err?
    ensures ParseExpression(s, validNames) == Err(ParseTerm(currentTerm, validNames).error)
  {
    var p := Terms(s[..i]);
    PendingTermFails(p, Operators(s[..i]), validNames, currentTerm, leaves, prevNode, currentOperator);
    var rest := TermsPrefix(s, i);
    ParseTermsAppendFailure(p, rest, validNames);
  }

  /** Up to an operator, the terms of a prefix are the first terms of the whole text. */
  lemma TermsPrefix(s: string, i: nat) returns (rest: seq<string>)
    requires i < |s| && IsOperator(s[i])
    ensures Terms(s) == Terms(s[..i]) + rest
  {
    SplitOnPrefix(s, i, IsOperator);
    var p, ts := Terms(s[..i]), Terms(s);
    rest := ts[|p|..];
    assert ts == ts[..|p|] + rest;
  }

  /** When the current term is refused, so are the terms read so far, with its error. */
  lemma PendingTermFails(ts: seq<string>, os: seq<char>, validNames: seq<string>, currentTerm: string,
                         leaves: seq<Expr>, prevNode: Option<Expr>, currentOperator: Option<char>)
    requires ScannedParts(ts, os, validNames, currentTerm, leaves, prevNode, currentOperator)
    requires ParseTerm(currentTerm, validNames).Err?
    ensures ParseTerms(ts, validNames) == Err(ParseTerm(currentTerm, validNames).error)
  {
    assert ts == ts[..|ts| - 1] + [currentTerm];
    ParseTermsSnoc(ts[..|ts| - 1], currentTerm, validNames);
  }

  /** At the end of the text the final term decides the outcome. */
  lemma ScanEnd(s: string, validNames: seq<string>, currentTerm: string, leaves: seq<Expr>,
                prevNode: Option<Expr>, currentOperator: Option<char>)
    requires Scanned(s, validNames, currentTerm, leaves, prevNode, currentOperator)
    ensures var f := ParseTerm(currentTerm, validNames);
      ParseExpression(s, validNames) ==
        if f.Err? then Err(f.error)
        else if currentOperator.Some? then Ok(MakeNode(prevNode.value, f.value, currentOperator.value))
        else Ok(f.value)
  {
    var ts := Terms(s);
    assert ts == ts[..|ts| - 1] + [currentTerm];
    var f := ParseTerm(currentTerm, validNames);
    if f.Ok? {
      assert (leaves + [f.value])[..|leaves|] == leaves;
    }
  }

  /**
   * `ExpressionTree.TryParse`: one pass over the characters accumulating the
   * current term; at each operator the term is parsed and combined with the
   * tree so far by the previous operator.
   */
  method TryParse(s: string, validNames: seq<string>) returns (r: Result<Expr, TermError>)
    ensures r == ParseExpression(s, validNames)
  {
    var currentTerm := "";
    var prevNode: Option<Expr> := None;
    var currentOperator: Option<char> := None;
    ghost var leaves: seq<Expr> := [];
    ScannedStart(validNames);
    for i := 0 to |s|
      invariant Scanned(s[..i], validNames, currentTerm, leaves, prevNode, currentOperator)
    {
      var c := s[i];
      assert s[..i + 1] == s[..i] + [c];
      if IsOperator(c) {
        var term := ParseTerm(currentTerm, validNames);
        if term.Err? {
          ScanOperatorFails(s, i, validNames, currentTerm, leaves, prevNode, currentOperator);
          return Err(term.error);
        }
        ScanOperator(s[..i], c, validNames, currentTerm, leaves, prevNode, currentOperator, term.value);
        if prevNode.None? {
          prevNode := Some(term.value);
        } else {
          prevNode := Some(MakeNode(prevNode.value, term.value, currentOperator.value));
        }
        leaves := leaves + [term.value];
        currentOperator := Some(c);
        currentTerm := "";
      } else {
        ScanTermChar(s[..i], c, validNames, currentTerm, leaves, prevNode, currentOperator);
        currentTerm := currentTerm + [c];
      }
    }
    assert s[..|s|] == s;
    ScanEnd(s, validNames, currentTerm, leaves, prevNode, currentOperator);
    var final := ParseTerm(currentTerm, validNames);
    if final.Err? {
      return Err(final.error);
    }
    if currentOperator.Some? {
      r := Ok(MakeNode(prevNode.value, final.value, currentOperator.value));
    } else {
      r := Ok(final.value);
    }
  }

  /** One more term: parsed after all the earlier ones. */
  lemma ParseTermsSnoc(ts: seq<string>, t: string, validNames: seq<string>)
    ensures ParseTerms(ts + [t], validNames) ==
      (var init :- ParseTerms(ts, validNames);
       var last :- ParseTerm(t, validNames);
       Ok(init + [last]))
  {
    assert (ts + [t])[..|ts|] == ts;
  }

  /** Parsing stops at the first refused term: what follows it is never looked at. */
  lemma {:induction false} ParseTermsAppendFailure(a: seq<string>, b: seq<string>, validNames: seq<string>)
    requires ParseTerms(a, validNames).Err?
    ensures ParseTerms(a + b, validNames) == ParseTerms(a, validNames)
  {
    if b == [] {
      assert a + b == a;
    } else {
      ParseTermsAppendFailure(a, b[..|b| - 1], validNames);
      assert (a + b)[..|a + b| - 1] == a + b[..|b| - 1];
      assert ParseTerms((a + b)[..|a + b| - 1], validNames).Err?;
      assert ParseTerms(a + b, validNames) == Err(ParseTerms(a, validNames).error);
    }
  }

  /** Term parsing succeeds exactly when every term is accepted, and then parses each one. */
  lemma {:induction false} ParseTermsSucceedsIff(ts: seq<string>, validNames: seq<string>)
    ensures ParseTerms(ts, validNames).Ok? <==> forall k :: 0 <= k < |ts| ==> ParseTerm(ts[k], validNames).Ok?
    ensures ParseTerms(ts, validNames).Ok? ==>
      forall k :: 0 <= k < |ts| ==> Ok(ParseTerms(ts, validNames).value[k]) == ParseTerm(ts[k], validNames)
  {
    if ts != [] {
      ParseTermsSucceedsIff(ts[..|ts| - 1], validNames);
    }
  }

  /** A failure is the error of the first refused term, all terms before it being accepted. */
  lemma {:induction false} ParseTermsFirstError(ts: seq<string>, validNames: seq<string>)
    requires ParseTerms(ts, validNames).Err?
    ensures exists k ::
      (0 <= k < |ts| && ParseTerm(ts[k], validNames) == Err(ParseTerms(ts, validNames).error) &&
       forall j :: 0 <= j < k ==> ParseTerm(ts[j], validNames).Ok?)
  {
    var init := ts[..|ts| - 1];
    if ParseTerms(init, validNames).Err? {
      ParseTermsFirstError(init, validNames);
      var k :| 0 <= k < |init| && ParseTerm(init[k], validNames) == Err(ParseTerms(init, validNames).error) &&
        forall j :: 0 <= j < k ==> ParseTerm(init[j], validNames).Ok?;
      assert ParseTerms(ts, validNames).error == ParseTerms(init, validNames).error;
      assert ts[k] == init[k];
      assert forall j :: 0 <= j < k ==> ts[j] == init[j];
    } else {
      ParseTermsSucceedsIff(init, validNames);
      var k := |ts| - 1;
      assert ParseTerm(ts[k], validNames) == Err(ParseTerms(ts, validNames).error);
      assert forall j :: 0 <= j < k ==> ParseTerm(ts[j], validNames).Ok? by {
        forall j | 0 <= j < k ensures ParseTerm(ts[j], validNames).Ok? {
          assert ts[j] == init[j];
        }
      }
    }
  }

  /** Whether every binary node has a leaf as its right operand (the shape left-to-right evaluation gives). */
  predicate LeftNested(e: Expr)
  {
    e.IsBinary() ==> !e.right.IsBinary() && LeftNested(e.left)
  }

  /** The operator characters of a tree's binary nodes, read left to right. */
  function NodeOperators(e: Expr): seq<char>
  {
    if e.IsBinary() then NodeOperators(e.left) + [OperatorOf(e)] + NodeOperators(e.right) else []
  }

  /** The left fold over leaves is left-nested and keeps the leaves and the operators in order. */
  lemma {:induction false} FoldLeftShape(leaves: seq<Expr>, ops: seq<char>)
    requires |leaves| == |ops| + 1
    requires forall i :: 0 <= i < |ops| ==> IsOperator(ops[i])
    requires forall i :: 0 <= i < |leaves| ==> !leaves[i].IsBinary()
    ensures LeftNested(FoldLeft(leaves, ops))
    ensures Leaves(FoldLeft(leaves, ops)) == leaves
    ensures NodeOperators(FoldLeft(leaves, ops)) == ops
    ensures BinaryCount(FoldLeft(leaves, ops)) == |ops|
  {
    if ops != [] {
      var l := leaves[..|leaves| - 1];
      var o := ops[..|ops| - 1];
      FoldLeftShape(l, o);
      MakeNodeRoundTrip(FoldLeft(l, o), leaves[|leaves| - 1], ops[|ops| - 1]);
      assert l + [leaves[|leaves| - 1]] == leaves;
      assert o + [ops[|ops| - 1]] == ops;
    }
  }

  /**
   * The tree of a parsed expression is left-nested, its leaves are the parsed
   * terms in order, and its operators are the text's operator characters in order.
   */
  lemma ParseExpressionShape(s: string, validNames: seq<string>)
    requires ParseExpression(s, validNames).Ok?
    ensures var e := ParseExpression(s, validNames).value;
      && LeftNested(e)
      && |Leaves(e)| == |Terms(s)|
      && (forall k :: 0 <= k < |Terms(s)| ==> Ok(Leaves(e)[k]) == ParseTerm(Terms(s)[k], validNames))
      && NodeOperators(e) == Operators(s)
      && BinaryCount(e) == |Operators(s)|
  {
    ParseTermsSucceedsIff(Terms(s), validNames);
    OperatorsAreOperators(s);
    FoldLeftShape(ParseTerms(Terms(s), validNames).value, Operators(s));
  }

  /** An expression parses exactly when each of its terms does. */
  lemma ParseExpressionSucceedsIff(s: string, validNames: seq<string>)
    ensures ParseExpression(s, validNames).Ok? <==>
      forall k :: 0 <= k < |Terms(s)| ==> ParseTerm(Terms(s)[k], validNames).Ok?
  {
    ParseTermsSucceedsIff(Terms(s), validNames);
  }

  /** A parsed expression only mentions valid variable names. */
  lemma ParseExpressionVarsValid(s: string, validNames: seq<string>)
    requires ParseExpression(s, validNames).Ok?
    ensures Vars(ParseExpression(s, validNames).value) <= set n | n in validNames
  {
    var e := ParseExpression(s, validNames).value;
    ParseExpressionShape(s, validNames);
    forall n | n in Vars(e) ensures n in validNames {
      var k := LeafOfVar(e, n);
      var t := Terms(s)[k];
      assert Ok(Leaves(e)[k]) == ParseTerm(t, validNames);
    }
  }

  /** Every variable of a tree appears as one of its leaves. */
  lemma {:induction false} LeafOfVar(e: Expr, n: string) returns (k: nat)
    requires n in Vars(e)
    ensures k < |Leaves(e)| && Leaves(e)[k] == Variable(n)
    decreases e, 1
  {
    match e
    case Variable(_) => k := 0;
    case Sum(l, r) => k := LeafOfBinary(e, n);
    case Subtraction(l, r) => k := LeafOfBinary(e, n);
    case Product(l, r) => k := LeafOfBinary(e, n);
    case Quotient(l, r) => k := LeafOfBinary(e, n);
    case Modulo(l, r) => k := LeafOfBinary(e, n);
  }

  lemma {:induction false} LeafOfBinary(e: Expr, n: string) returns (k: nat)
    requires e.IsBinary() && n in Vars(e.left) + Vars(e.right)
    ensures k < |Leaves(e)| && Leaves(e)[k] == Variable(n)
    decreases e, 0
  {
    if n in Vars(e.left) {
      k := LeafOfVar(e.left, n);
    } else {
      var j := LeafOfVar(e.right, n);
      k := |Leaves(e.left)| + j;
    }
  }

  /** A text without operator characters is a single term. */
  lemma ParseSingleTerm(s: string, validNames: seq<string>)
    requires forall i :: 0 <= i < |s| ==> !IsOperator(s[i])
    ensures ParseExpression(s, validNames) == ParseTerm(s, validNames)
  {
    SplitOnNoSeparator(s, IsOperator);
    assert Terms(s) == [s] && Operators(s) == [];
    assert [s][..0] == [];
    ParseTermsSnoc([], s, validNames);
    assert [] + [s] == [s];
  }

  /**
   * Since `-` is an operator, a term never starts with a minus sign: a leading
   * operator leaves an empty first term and the whole text is refused.
   */
  lemma LeadingOperatorRefused(s: string, validNames: seq<string>)
    requires |s| > 0 && IsOperator(s[0])
    ensures ParseExpression(s, validNames) == Err(InvalidTerm)
  {
    SplitOnPrefix(s, 0, IsOperator);
    assert s[..0] == [];
    var ts := Terms(s);
    assert ts == [""] + ts[1..];
    assert [""][..0] == [];
    ParseTermsAppendFailure([""], ts[1..], validNames);
  }

  /** Two operators in a row, or an operator at the end, leave an empty term: always refused. */
  lemma EmptyTermRefused(s: string, validNames: seq<string>)
    requires exists k :: 0 <= k < |Terms(s)| && Terms(s)[k] == ""
    ensures ParseExpression(s, validNames).Err?
  {
    ParseTermsSucceedsIff(Terms(s), validNames);
  }

  /** Negative constants cannot be written: every constant of a parsed tree is at least zero. */
  lemma ParsedConstantsNonNegative(s: string, validNames: seq<string>, k: nat)
    requires ParseExpression(s, validNames).Ok?
    requires k < |Leaves(ParseExpression(s, validNames).value)|
    requires Leaves(ParseExpression(s, validNames).value)[k].Constant?
    ensures Leaves(ParseExpression(s, validNames).value)[k].value >= 0.0
  {
    ParseExpressionShape(s, validNames);
    var e := ParseExpression(s, validNames).value;
    var t := Terms(s)[k];
    assert Ok(Leaves(e)[k]) == ParseTerm(t, validNames);
    if |t| > 0 {
      SplitOnPiecesHaveNoSeparator(s, IsOperator, k, 0);
    }
    assert Leaves(e)[k].value == UnsignedNumeralValue(t);
  }

  /** A single digit is the constant it denotes. */
  lemma DigitTerm(c: char, validNames: seq<string>)
    requires IsDigit(c)
    ensures ParseTerm([c], validNames) == Ok(Constant(DigitValue(c) as real))
  {
    assert FindChar([c], '.') == 1;
    assert DigitsValue([c]) == DigitValue(c) by { assert [c][..0] == []; }
  }

  lemma ThreeDigitTerms(a: char, b: char, c: char)
    requires IsDigit(a) && IsDigit(b) && IsDigit(c)
    ensures Terms([a, '+', b, '*', c]) == [[a], [b], [c]]
    ensures Operators([a, '+', b, '*', c]) == ['+', '*']
  {
    var p1 := [a];
    var p2 := p1 + ['+'];
    var p3 := p2 + [b];
    var p4 := p3 + ['*'];
    assert p4 + [c] == [a, '+', b, '*', c];
    ThreeDigitSplits(a, b, c);
    SplitOnSnoc(p4, c, IsOperator);
    assert [[a], [b], ""][..2] == [[a], [b]] && "" + [c] == [c];
  }

  /** The pieces of the prefix of `a+b*c` up to the second operator. */
  lemma ThreeDigitSplits(a: char, b: char, c: char)
    requires IsDigit(a) && IsDigit(b) && IsDigit(c)
    ensures Terms([a] + ['+'] + [b] + ['*']) == [[a], [b], ""]
    ensures Operators([a] + ['+'] + [b] + ['*']) == ['+', '*']
  {
    TwoDigitSplits(a, b);
    SplitOnSnoc([a] + ['+'] + [b], '*', IsOperator);
  }

  /** The pieces of the prefix `a+b`. */
  lemma TwoDigitSplits(a: char, b: char)
    requires IsDigit(a) && IsDigit(b)
    ensures Terms([a] + ['+'] + [b]) == [[a], [b]]
    ensures Operators([a] + ['+'] + [b]) == ['+']
  {
    var p2 := [a] + ['+'];
    DigitThenOperator(a);
    SplitOnSnoc(p2, b, IsOperator);
    assert [[a], ""][..1] == [[a]] && "" + [b] == [b];
  }

  /** The pieces of the prefix of `a+b` up to the operator. */
  lemma DigitThenOperator(a: char)
    requires IsDigit(a)
    ensures Terms([a] + ['+']) == [[a], ""]
    ensures Operators([a] + ['+']) == ['+']
  {
    SplitOnNoSeparator([a], IsOperator);
    SplitOnSnoc([a], '+', IsOperator);
  }

  lemma ThreeDigitLeaves(a: char, b: char, c: char, validNames: seq<string>)
    requires IsDigit(a) && IsDigit(b) && IsDigit(c)
    ensures ParseTerms([[a], [b], [c]], validNames) ==
      Ok([Constant(DigitValue(a) as real), Constant(DigitValue(b) as real), Constant(DigitValue(c) as real)])
  {
    DigitTerm(a, validNames);
    DigitTerm(b, validNames);
    DigitTerm(c, validNames);
    var x, y, z := Constant(DigitValue(a) as real), Constant(DigitValue(b) as real), Constant(DigitValue(c) as real);
    ParseTermsSnoc([], [a], validNames);
    assert [] + [[a]] == [[a]];
    assert ParseTerms([], validNames) == Ok([]);
    assert [] + [x] == [x] && [x] + [y] == [x, y] && [x, y] + [z] == [x, y, z];
    assert ParseTerms([[a]], validNames) == Ok([x]);
    ParseTermsSnoc([[a]], [b], validNames);
    assert [[a]] + [[b]] == [[a], [b]];
    assert ParseTerms([[a], [b]], validNames) == Ok([x, y]);
    ParseTermsSnoc([[a], [b]], [c], validNames);
    assert [[a], [b]] + [[c]] == [[a], [b], [c]];
  }

  /**
   * No precedence: `a+b*c` over digits is `(a+b)*c`, so for instance `1+2*3`
   * is the product of `1+2` and `3`.
   */
  lemma LeftToRightParse(a: char, b: char, c: char, validNames: seq<string>)
    requires IsDigit(a) && IsDigit(b) && IsDigit(c)
    ensures var x, y, z := Constant(DigitValue(a) as real), Constant(DigitValue(b) as real), Constant(DigitValue(c) as real);
      ParseExpression([a, '+', b, '*', c], validNames) == Ok(Product(Sum(x, y), z))
  {
    ThreeDigitTerms(a, b, c);
    ThreeDigitLeaves(a, b, c, validNames);
    FoldSumThenProduct(Constant(DigitValue(a) as real), Constant(DigitValue(b) as real), Constant(DigitValue(c) as real));
  }

  /** Folding three leaves with `+` then `*` nests the sum inside the product. */
  lemma FoldSumThenProduct(x: Expr, y: Expr, z: Expr)
    ensures FoldLeft([x, y, z], ['+', '*']) == Product(Sum(x, y), z)
  {
    var leaves, os := [x, y, z], ['+', '*'];
    assert leaves[..2] == [x, y] && os[..1] == ['+'];
    assert leaves[..2][..1] == [x] && os[..1][..0] == [];
    assert FoldLeft(leaves[..2], os[..1]) == Sum(x, y);
  }
}
