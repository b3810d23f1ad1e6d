/**
 * The expression engine's trees: a closed set of node kinds (one per C# node
 * class) and their recursive evaluation against a name-to-value mapping.
 */
module ExpressionTrees {
  import opened Wrappers
  import opened Exceptions

  /** The per-trial values of the variables, by name (`Dictionary<string, double>`). */
  type Mapping = map<string, real>

  /**
   * Division and remainder of two doubles. They are left uninterpreted so that
   * nothing is claimed about IEEE-754 behaviour (a zero divisor, NaN, infinities,
   * the sign rule of C#'s `%`): every lemma holds for every choice of the two.
   */
  datatype DivisionOps = DivisionOps(quotient: (real, real) -> real, remainder: (real, real) -> real)

  datatype Expr =
    | Constant(value: real)
    | Variable(name: string)
    | Sum(left: Expr, right: Expr)
    | Subtraction(left: Expr, right: Expr)
    | Product(left: Expr, right: Expr)
    | Quotient(left: Expr, right: Expr)
    | Modulo(left: Expr, right: Expr)
  {
    /** The node is one of the five binary operator nodes. */
    predicate IsBinary() { !Constant? && !Variable? }
  }

  /** The names of the variable leaves of a tree. */
  function Vars(e: Expr): set<string>
  {
    match e
    case Constant(_) => {}
    case Variable(n) => {n}
    case Sum(l, r) => Vars(l) + Vars(r)
    case Subtraction(l, r) => Vars(l) + Vars(r)
    case Product(l, r) => Vars(l) + Vars(r)
    case Quotient(l, r) => Vars(l) + Vars(r)
    case Modulo(l, r) => Vars(l) + Vars(r)
  }

  /**
   * `ExpressionTree.Evaluate`: leaves yield their constant or their variable's
   * value; a binary node evaluates its left operand, then its right one, and
   * combines them. An exception of the left operand propagates before the right
   * operand is looked at.
   */
  function Evaluate(e: Expr, m: Mapping, ops: DivisionOps): Result<real, Exception>
  {
    match e
    case Constant(v) => Ok(v)
    case Variable(n) => if n in m then Ok(m[n]) else Err(MissingVariable(n))
    case Sum(l, r) =>
      var a :- Evaluate(l, m, ops); var b :- Evaluate(r, m, ops); Ok(a + b)
    case Subtraction(l, r) =>
      var a :- Evaluate(l, m, ops); var b :- Evaluate(r, m, ops); Ok(a - b)
    case Product(l, r) =>
      var a :- Evaluate(l, m, ops); var b :- Evaluate(r, m, ops); Ok(a * b)
    case Quotient(l, r) =>
      var a :- Evaluate(l, m, ops); var b :- Evaluate(r, m, ops); Ok(ops.quotient(a, b))
    case Modulo(l, r) =>
      var a :- Evaluate(l, m, ops); var b :- Evaluate(r, m, ops); Ok(ops.remainder(a, b))
  }

  /**
   * How a binary node's outcome follows from its operands' outcomes: it succeeds
   * exactly when both do, with `f` of the two values; otherwise the left
   * operand's exception wins, then the right one's.
   */
  ghost predicate Combines(node: Result<real, Exception>, l: Result<real, Exception>,
                           r: Result<real, Exception>, f: (real, real) -> real)
  {
    && (node.Ok? <==> l.Ok? && r.Ok?)
    && (node.Ok? ==> node.value == f(l.value, r.value))
    && (l.Err? ==> node == l)
    && (l.Ok? && r.Err? ==> node == r)
  }

  lemma ConstantEvaluation(v: real, m: Mapping, ops: DivisionOps)
    ensures Evaluate(Constant(v), m, ops) == Ok(v)
  {
  }

  lemma VariableEvaluation(n: string, m: Mapping, ops: DivisionOps)
    ensures Evaluate(Variable(n), m, ops).Ok? <==> n in m
    ensures n in m ==> Evaluate(Variable(n), m, ops).value == m[n]
    ensures n !in m ==> Evaluate(Variable(n), m, ops) == Err(MissingVariable(n))
  {
  }

  lemma SumEvaluation(l: Expr, r: Expr, m: Mapping, ops: DivisionOps)
    ensures Combines(Evaluate(Sum(l, r), m, ops), Evaluate(l, m, ops), Evaluate(r, m, ops), (a, b) => a + b)
  {
  }

  lemma SubtractionEvaluation(l: Expr, r: Expr, m: Mapping, ops: DivisionOps)
    ensures Combines(Evaluate(Subtraction(l, r), m, ops), Evaluate(l, m, ops), Evaluate(r, m, ops), (a, b) => a - b)
  {
  }

  lemma ProductEvaluation(l: Expr, r: Expr, m: Mapping, ops: DivisionOps)
    ensures Combines(Evaluate(Product(l, r), m, ops), Evaluate(l, m, ops), Evaluate(r, m, ops), (a, b) => a * b)
  {
  }

  lemma QuotientEvaluation(l: Expr, r: Expr, m: Mapping, ops: DivisionOps)
    ensures Combines(Evaluate(Quotient(l, r), m, ops), Evaluate(l, m, ops), Evaluate(r, m, ops), ops.quotient)
  {
  }

  lemma ModuloEvaluation(l: Expr, r: Expr, m: Mapping, ops: DivisionOps)
    ensures Combines(Evaluate(Modulo(l, r), m, ops), Evaluate(l, m, ops), Evaluate(r, m, ops), ops.remainder)
  {
  }

  /** Evaluation succeeds exactly when every variable of the tree has a value. */
  lemma {:induction false} EvaluateSucceedsIff(e: Expr, m: Mapping, ops: DivisionOps)
    ensures Evaluate(e, m, ops).Ok? <==> Vars(e) <= m.Keys
  {
    match e
    case Constant(_) =>
    case Variable(_) =>
    case Sum(l, r) => EvaluateSucceedsIff(l, m, ops); EvaluateSucceedsIff(r, m, ops);
    case Subtraction(l, r) => EvaluateSucceedsIff(l, m, ops); EvaluateSucceedsIff(r, m, ops);
    case Product(l, r) => EvaluateSucceedsIff(l, m, ops); EvaluateSucceedsIff(r, m, ops);
    case Quotient(l, r) => EvaluateSucceedsIff(l, m, ops); EvaluateSucceedsIff(r, m, ops);
    case Modulo(l, r) => EvaluateSucceedsIff(l, m, ops); EvaluateSucceedsIff(r, m, ops);
  }

  /** The only failure is a missing variable, and it names a variable of the tree that the mapping lacks. */
  lemma {:induction false} EvaluateFailureNamesMissingVariable(e: Expr, m: Mapping, ops: DivisionOps)
    requires Evaluate(e, m, ops).Err?
    ensures Evaluate(e, m, ops).error.MissingVariable?
    ensures Evaluate(e, m, ops).error.name in Vars(e) - m.Keys
  {
    if e.IsBinary() {
      if Evaluate(e.left, m, ops).Err? {
        EvaluateFailureNamesMissingVariable(e.left, m, ops);
      } else {
        EvaluateFailureNamesMissingVariable(e.right, m, ops);
      }
    }
  }

  /** Whether two mappings agree on the names in `names` (same presence, same value). */
  ghost predicate AgreeOn(m1: Mapping, m2: Mapping, names: set<string>)
  {
    forall n :: n in names ==> (n in m1 <==> n in m2) && (n in m1 ==> m1[n] == m2[n])
  }

  /** The outcome depends only on the mapping's entries for the tree's own variables. */
  lemma {:induction false} EvaluateLocal(e: Expr, m1: Mapping, m2: Mapping, ops: DivisionOps)
    requires AgreeOn(m1, m2, Vars(e))
    ensures Evaluate(e, m1, ops) == Evaluate(e, m2, ops)
  {
    match e
    case Constant(_) =>
    case Variable(_) =>
    case Sum(l, r) => EvaluateLocal(l, m1, m2, ops); EvaluateLocal(r, m1, m2, ops);
    case Subtraction(l, r) => EvaluateLocal(l, m1, m2, ops); EvaluateLocal(r, m1, m2, ops);
    case Product(l, r) =>
      EvaluateLocal(l, m1, m2, ops); EvaluateLocal(r, m1, m2, ops);
      ProductEvaluation(l, r, m1, ops); ProductEvaluation(l, r, m2, ops);
    case Quotient(l, r) => EvaluateLocal(l, m1, m2, ops); EvaluateLocal(r, m1, m2, ops);
    case Modulo(l, r) => EvaluateLocal(l, m1, m2, ops); EvaluateLocal(r, m1, m2, ops);
  }

  /** A constant tree has the same value under every mapping, the empty one included. */
  lemma ConstantIgnoresMapping(v: real, m: Mapping, ops: DivisionOps)
    ensures Evaluate(Constant(v), m, ops) == Evaluate(Constant(v), map[], ops)
  {
  }

  /** Number of binary nodes. */
  function BinaryCount(e: Expr): nat
  {
    match e
    case Constant(_) => 0
    case Variable(_) => 0
    case Sum(l, r) => BinaryCount(l) + BinaryCount(r) + 1
    case Subtraction(l, r) => BinaryCount(l) + BinaryCount(r) + 1
    case Product(l, r) => BinaryCount(l) + BinaryCount(r) + 1
    case Quotient(l, r) => BinaryCount(l) + BinaryCount(r) + 1
    case Modulo(l, r) => BinaryCount(l) + BinaryCount(r) + 1
  }

  /** The leaves, left to right. */
  function Leaves(e: Expr): seq<Expr>
  {
    if e.IsBinary() then Leaves(e.left) + Leaves(e.right) else [e]
  }

  /** Every binary tree has one leaf more than it has binary nodes. */
  lemma {:induction false} LeavesOutnumberNodes(e: Expr)
    ensures |Leaves(e)| == BinaryCount(e) + 1
  {
    if e.IsBinary() {
      LeavesOutnumberNodes(e.left);
      LeavesOutnumberNodes(e.right);
    }
  }
}
