// The expressions the kernel recognisers compare (src/DavC310TargetRecipe.cpp:370-408), and their meaning.
module Expressions {
  import opened Primitives

  type Variable = nat

  datatype Binary = EQ | NE | LT | LE | GT | GE | OtherBinary(code: nat)

  datatype Unary = Plus | Minus | Complement | LogicalNot | OtherUnary(code: nat)

  // Pseudo is a reference to a member of an execution builtin, such as threadIdx.x: the member, when the
  // access is one the recogniser understands, and the variables it mentions.
  datatype Expr =
    | Literal(value: int)
    | Reference(variable: Variable)
    | Cast(target: nat, operand: Expr)
    | Operation(binary: Binary, left: Expr, right: Expr)
    | Prefix(unary: Unary, operand: Expr)
    | Member(base: Expr, member: nat)
    | Subscript(base: Expr, index: Expr)
    | Conditional(condition: Expr, whenTrue: Expr, whenFalse: Expr)
    | This(target: nat)
    | Pseudo(access: Option<nat>, objects: seq<Variable>, execution: bool)

  datatype Increment = Unit | By(subtract: bool, step: Expr)

  // The parts of a canonical for loop: index = initial; index < bound (or <=); increment.
  datatype Loop = Loop(initial: Expr, bound: Expr, inclusive: bool, increment: Increment)

  datatype Info = Index(loop: Loop) | Initialised(initial: Expr) | Plain

  // constants: the variables and enumerators the compiler can evaluate.
  datatype Program = Program(variables: map<Variable, Info>, constants: map<Variable, int>) {
    function InfoOf(v: Variable): Info {
      if v in variables then variables[v] else Plain
    }
  }

  // The meaning of what is not fixed here: arithmetic, casts, members, subscripts, this and builtins.
  datatype Meaning = Meaning(binary: (nat, int, int) -> int, unary: (Unary, int) -> int, cast: (nat, int) -> int,
                             member: (int, nat) -> int, subscript: (int, int) -> int, self: nat -> int,
                             pseudo: (Option<nat>, seq<Variable>) -> int)

  type Environment = Variable -> int

  function Truth(b: bool): int {
    if b then 1 else 0
  }

  function Apply(m: Meaning, op: Binary, a: int, b: int): int {
    match op
    case EQ => Truth(a == b)
    case NE => Truth(a != b)
    case LT => Truth(a < b)
    case LE => Truth(a <= b)
    case GT => Truth(a > b)
    case GE => Truth(a >= b)
    case OtherBinary(code) => m.binary(code, a, b)
  }

  function ApplyUnary(m: Meaning, op: Unary, a: int): int {
    if op.LogicalNot? then Truth(a == 0) else m.unary(op, a)
  }

  function Eval(m: Meaning, e: Expr, env: Environment): int {
    match e
    case Literal(value) => value
    case Reference(v) => env(v)
    case Cast(target, operand) => m.cast(target, Eval(m, operand, env))
    case Operation(op, left, right) => Apply(m, op, Eval(m, left, env), Eval(m, right, env))
    case Prefix(op, operand) => ApplyUnary(m, op, Eval(m, operand, env))
    case Member(base, member) => m.member(Eval(m, base, env), member)
    case Subscript(base, index) => m.subscript(Eval(m, base, env), Eval(m, index, env))
    case Conditional(c, t, f) => if Eval(m, c, env) != 0 then Eval(m, t, env) else Eval(m, f, env)
    case This(target) => m.self(target)
    case Pseudo(access, objects, _) => m.pseudo(access, objects)
  }

  // The value the compiler finds for an expression without running the program.
  function Fold(p: Program, m: Meaning, e: Expr): Option<int> {
    match e
    case Literal(value) => Some(value)
    case Reference(v) => if v in p.constants then Some(p.constants[v]) else None
    case Cast(target, operand) =>
      (match Fold(p, m, operand) case Some(a) => Some(m.cast(target, a)) case None => None)
    case Operation(op, left, right) =>
      var a, b := Fold(p, m, left), Fold(p, m, right);
      if a.Some? && b.Some? then Some(Apply(m, op, a.value, b.value)) else None
    case Prefix(op, operand) =>
      (match Fold(p, m, operand) case Some(a) => Some(ApplyUnary(m, op, a)) case None => None)
    case Conditional(c, t, f) =>
      (match Fold(p, m, c) case Some(a) => if a != 0 then Fold(p, m, t) else Fold(p, m, f) case None => None)
    case _ => None
  }

  // An environment the program can reach: constants have their values and unmodified initialised locals
  // those of their initialisers.
  ghost predicate Consistent(p: Program, m: Meaning, env: Environment) {
    && (forall v :: v in p.constants ==> env(v) == p.constants[v])
    && (forall v :: v in p.variables && p.variables[v].Initialised? ==> env(v) == Eval(m, p.variables[v].initial, env))
  }

  lemma {:induction false} FoldIsEval(p: Program, m: Meaning, e: Expr, env: Environment)
    requires Consistent(p, m, env) && Fold(p, m, e).Some?
    ensures Eval(m, e, env) == Fold(p, m, e).value
  {
    match e
    case Cast(_, operand) => FoldIsEval(p, m, operand, env);
    case Operation(_, left, right) =>
      FoldIsEval(p, m, left, env);
      FoldIsEval(p, m, right, env);
    case Prefix(_, operand) => FoldIsEval(p, m, operand, env);
    case Conditional(c, t, f) =>
      FoldIsEval(p, m, c, env);
      FoldIsEval(p, m, if Fold(p, m, c).value != 0 then t else f, env);
    case _ =>
  }

  // Built of literals, references, casts, operations, unary operators and conditionals alone.
  predicate Computed(e: Expr) {
    match e
    case Literal(_) => true
    case Reference(_) => true
    case Cast(_, operand) => Computed(operand)
    case Operation(_, left, right) => Computed(left) && Computed(right)
    case Prefix(_, operand) => Computed(operand)
    case Conditional(c, t, f) => Computed(c) && Computed(t) && Computed(f)
    case _ => false
  }

  // The compiler folds whatever is computed from what it can evaluate.
  lemma {:induction false} FoldFinds(p: Program, m: Meaning, e: Expr)
    requires Computed(e) && Mentions(e) <= p.constants.Keys
    ensures Fold(p, m, e).Some?
  {
    match e
    case Cast(_, operand) => FoldFinds(p, m, operand);
    case Operation(_, left, right) =>
      FoldFinds(p, m, left);
      FoldFinds(p, m, right);
    case Prefix(_, operand) => FoldFinds(p, m, operand);
    case Conditional(c, t, f) =>
      FoldFinds(p, m, c);
      FoldFinds(p, m, t);
      FoldFinds(p, m, f);
    case _ =>
  }

  // What a choice by a comparison of two numbers comes to, and what a negation does.
  lemma ComparisonValues(p: Program, m: Meaning, op: Binary, a: int, b: int, x: Expr, y: Expr)
    requires !op.OtherBinary?
    ensures
      Fold(p, m, Conditional(Operation(op, Literal(a), Literal(b)), x, y)) ==
      if (if a < b then op == LT || op == LE || op == NE
          else if a == b then op == LE || op == GE || op == EQ
          else op == GT || op == GE || op == NE)
      then Fold(p, m, x) else Fold(p, m, y)
    ensures Fold(p, m, Prefix(LogicalNot, Literal(a))) == Some(if a == 0 then 1 else 0)
  {
    assert Fold(p, m, Literal(a)) == Some(a) && Fold(p, m, Literal(b)) == Some(b);
    assert Fold(p, m, Operation(op, Literal(a), Literal(b))) == Some(Apply(m, op, a, b));
  }

  // The comparison by identity.
  predicate SameReference(l: Expr, r: Expr) {
    match l
    case Reference(v) => r == Reference(v)
    case Member(base, member) => r.Member? && r.member == member && SameReference(base, r.base)
    case Subscript(base, index) => r.Subscript? && SameReference(base, r.base) && SameReference(index, r.index)
    case Operation(op, left, right) => r.Operation? && r.binary == op && SameReference(left, r.left) && SameReference(right, r.right)
    case _ => false
  }

  function Mentions(e: Expr): set<Variable> {
    match e
    case Literal(_) => {}
    case Reference(v) => {v}
    case Cast(_, operand) => Mentions(operand)
    case Operation(_, left, right) => Mentions(left) + Mentions(right)
    case Prefix(_, operand) => Mentions(operand)
    case Member(base, _) => Mentions(base)
    case Subscript(base, index) => Mentions(base) + Mentions(index)
    case Conditional(c, t, f) => Mentions(c) + Mentions(t) + Mentions(f)
    case This(_) => {}
    case Pseudo(_, _, _) => {}
  }

  lemma {:induction false} SameReferenceIsEqual(l: Expr, r: Expr)
    requires SameReference(l, r)
    ensures l == r
  {
    match l
    case Reference(_) =>
    case Member(base, _) => SameReferenceIsEqual(base, r.base);
    case Subscript(base, index) =>
      SameReferenceIsEqual(base, r.base);
      SameReferenceIsEqual(index, r.index);
    case Operation(_, left, right) =>
      SameReferenceIsEqual(left, r.left);
      SameReferenceIsEqual(right, r.right);
  }

  // Only the variables an expression mentions matter to it.
  lemma {:induction false} EvalAgrees(m: Meaning, e: Expr, env1: Environment, env2: Environment)
    requires forall v :: v in Mentions(e) ==> env1(v) == env2(v)
    ensures Eval(m, e, env1) == Eval(m, e, env2)
  {
    match e
    case Cast(_, operand) => EvalAgrees(m, operand, env1, env2);
    case Operation(_, left, right) =>
      EvalAgrees(m, left, env1, env2);
      EvalAgrees(m, right, env1, env2);
    case Prefix(_, operand) => EvalAgrees(m, operand, env1, env2);
    case Member(base, _) => EvalAgrees(m, base, env1, env2);
    case Subscript(base, index) =>
      EvalAgrees(m, base, env1, env2);
      EvalAgrees(m, index, env1, env2);
    case Conditional(c, t, f) =>
      EvalAgrees(m, c, env1, env2);
      EvalAgrees(m, t, env1, env2);
      EvalAgrees(m, f, env1, env2);
    case _ =>
  }
}
