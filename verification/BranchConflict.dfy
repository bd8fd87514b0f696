// Requirements of enclosing branches (src/DavC310TargetRecipe.cpp:5913-6008, 7523-7560).
module BranchConflict {
  import opened Primitives
  import opened Expressions
  import opened AlphaEquivalence

  // The statement runs when condition is true (thenBranch) or false.
  datatype Branch = Branch(condition: Expr, thenBranch: bool)

  predicate Holds(m: Meaning, b: Branch, env: Environment) {
    (Eval(m, b.condition, env) != 0) == b.thenBranch
  }

  // ----- normalizedControlRequirement -----------------------------------------------------------

  // No negation or comparison with zero is left at the top.
  predicate Normal(s: Setting, e: Expr) {
    && !(e.Prefix? && e.unary == LogicalNot)
    && !(e.Operation? && (e.binary == EQ || e.binary == NE)
         && (Fold(s.program, s.meaning, e.left) == Some(0) || Fold(s.program, s.meaning, e.right) == Some(0)))
  }

  predicate IsZero(s: Setting, e: Expr) {
    Fold(s.program, s.meaning, e) == Some(0)
  }

  function Size(e: Expr): nat {
    match e
    case Prefix(_, operand) => Size(operand) + 1
    case Operation(_, left, right) => Size(left) + Size(right) + 1
    case _ => 0
  }

  // Peeling keeps the requirement in every environment the program can reach, and leaves none to peel.
  method NormalizedControlRequirement(s: Setting, original: Branch) returns (branch: Branch)
    ensures Normal(s, branch.condition)
    ensures forall env :: Consistent(s.program, s.meaning, env) ==> (Holds(s.meaning, branch, env) <==> Holds(s.meaning, original, env))
  {
    branch := original;
    var changed := true;
    while changed
      invariant changed || Normal(s, branch.condition)
      invariant forall env :: Consistent(s.program, s.meaning, env) ==>
                                (Holds(s.meaning, branch, env) <==> Holds(s.meaning, original, env))
      decreases Size(branch.condition), changed
    {
      changed := false;
      if branch.condition.Prefix? && branch.condition.unary == LogicalNot {
        branch := Branch(branch.condition.operand, !branch.thenBranch);
        changed := true;
        continue;
      }
      if !branch.condition.Operation? || (branch.condition.binary != EQ && branch.condition.binary != NE) {
        continue;
      }
      var atom;
      if IsZero(s, branch.condition.left) {
        atom := branch.condition.right;
      } else if IsZero(s, branch.condition.right) {
        atom := branch.condition.left;
      } else {
        continue;
      }
      ghost var before := branch;
      branch := Branch(atom, if branch.condition.binary == EQ then !branch.thenBranch else branch.thenBranch);
      changed := true;
      forall env | Consistent(s.program, s.meaning, env)
        ensures Holds(s.meaning, branch, env) <==> Holds(s.meaning, before, env)
      {
        ZeroCompared(s, before, env);
      }
    }
  }

  lemma ZeroCompared(s: Setting, b: Branch, env: Environment)
    requires Consistent(s.program, s.meaning, env)
    requires b.condition.Operation? && (b.condition.binary == EQ || b.condition.binary == NE)
    requires IsZero(s, b.condition.left) || IsZero(s, b.condition.right)
    ensures
      var atom := if IsZero(s, b.condition.left) then b.condition.right else b.condition.left;
      Holds(s.meaning, b, env) <==>
      Holds(s.meaning, Branch(atom, if b.condition.binary == EQ then !b.thenBranch else b.thenBranch), env)
  {
    FoldIsEval(s.program, s.meaning, if IsZero(s, b.condition.left) then b.condition.left else b.condition.right, env);
  }

  // ----- comparisonsConflict --------------------------------------------------------------------

  // OtherBinary(0) stands for the comma that marks an operator without an inverse.
  function InvertedComparison(op: Binary): (inverse: Option<Binary>)
    ensures inverse.Some? ==> forall m: Meaning, a, b :: Apply(m, inverse.value, a, b) == Truth(Apply(m, op, a, b) == 0)
    ensures inverse.None? <==> op.OtherBinary?
  {
    match op
    case EQ => Some(NE)
    case NE => Some(EQ)
    case LT => Some(GE)
    case LE => Some(GT)
    case GT => Some(LE)
    case GE => Some(LT)
    case OtherBinary(_) => None
  }

  datatype Comparison = Comparison(opcode: Binary, left: Expr, right: Expr)

  predicate Meets(m: Meaning, c: Comparison, env: Environment) {
    Apply(m, c.opcode, Eval(m, c.left, env), Eval(m, c.right, env)) != 0
  }

  // The comparison a requirement amounts to, when it is one under any number of negations.
  function Effective(b: Branch): Option<Comparison>
    decreases b.condition
  {
    match b.condition
    case Prefix(LogicalNot, operand) => Effective(Branch(operand, !b.thenBranch))
    case Operation(op, left, right) =>
      if InvertedComparison(op).None? then None
      else Some(Comparison(if b.thenBranch then op else InvertedComparison(op).value, left, right))
    case _ => None
  }

  lemma {:induction false} EffectiveMeans(m: Meaning, b: Branch, env: Environment)
    requires Effective(b).Some?
    ensures InvertedComparison(Effective(b).value.opcode).Some?
    ensures Meets(m, Effective(b).value, env) <==> Holds(m, b, env)
    decreases b.condition
  {
    if b.condition.Prefix? {
      EffectiveMeans(m, Branch(b.condition.operand, !b.thenBranch), env);
    }
  }

  // What stands under the negations.
  function Under(e: Expr): Expr {
    if e.Prefix? && e.unary == LogicalNot then Under(e.operand) else e
  }

  predicate Compares(op: Binary) {
    op == EQ || op == NE || op == LT || op == LE || op == GT || op == GE
  }

  // There is a comparison exactly if one stands under the negations, and it is of that one's operands.
  lemma {:induction false} EffectiveExists(b: Branch)
    ensures Effective(b).Some? <==> Under(b.condition).Operation? && Compares(Under(b.condition).binary)
    ensures Effective(b).Some? ==>
              Effective(b).value.left == Under(b.condition).left && Effective(b).value.right == Under(b.condition).right
    decreases b.condition
  {
    if b.condition.Prefix? && b.condition.unary == LogicalNot {
      EffectiveExists(Branch(b.condition.operand, !b.thenBranch));
    }
  }

  method EffectiveComparison(original: Branch) returns (r: Option<Comparison>)
    ensures r == Effective(original)
  {
    var branch := original;
    while branch.condition.Prefix? && branch.condition.unary == LogicalNot
      invariant Effective(branch) == Effective(original)
      decreases branch.condition
    {
      branch := Branch(branch.condition.operand, !branch.thenBranch);
    }
    if !branch.condition.Operation? || InvertedComparison(branch.condition.binary).None? {
      return None;
    }
    var opcode := branch.condition.binary;
    if !branch.thenBranch {
      opcode := InvertedComparison(opcode).value;
    }
    return Some(Comparison(opcode, branch.condition.left, branch.condition.right));
  }

  // The operands compare alike and the comparisons are opposite, or they ask one value to be two constants.
  ghost predicate Opposed(s: Setting, a: Comparison, b: Comparison)
    requires s.Acyclic()
  {
    && Equatable(s, a.left, b.left)
    && (|| (InvertedComparison(a.opcode) == Some(b.opcode) && Equatable(s, a.right, b.right))
        || (a.opcode == b.opcode == EQ && DifferentConstants(s, a.right, b.right)))
  }

  predicate DifferentConstants(s: Setting, l: Expr, r: Expr) {
    var a, b := Fold(s.program, s.meaning, l), Fold(s.program, s.meaning, r);
    a.Some? && b.Some? && a.value != b.value
  }

  // Of two comparisons of one pair of values exactly one holds, whatever they are.
  ghost predicate Inverse(a: Binary, b: Binary) {
    forall m: Meaning, x: int, y: int :: Apply(m, b, x, y) == Truth(Apply(m, a, x, y) == 0)
  }

  // Equal operands under inverse comparisons are opposed, and so are two constants that one operand is to equal.
  lemma OpposedPairs(s: Setting, a: Comparison, b: Comparison)
    requires s.Acyclic() && Compares(a.opcode) && Compares(b.opcode) && Equatable(s, a.left, b.left)
    ensures Inverse(a.opcode, b.opcode) && Equatable(s, a.right, b.right) ==> Opposed(s, a, b)
    ensures forall x: int, y: int ::
              x != y && a.opcode == EQ && b.opcode == EQ
              && Fold(s.program, s.meaning, a.right) == Some(x) && Fold(s.program, s.meaning, b.right) == Some(y) ==>
                Opposed(s, a, b)
  {
    var m := Zero();
    assert Inverse(a.opcode, b.opcode) ==>
        && Apply(m, b.opcode, 0, 0) == Truth(Apply(m, a.opcode, 0, 0) == 0)
        && Apply(m, b.opcode, 0, 1) == Truth(Apply(m, a.opcode, 0, 1) == 0)
        && Apply(m, b.opcode, 1, 0) == Truth(Apply(m, a.opcode, 1, 0) == 0);
  }

  function Zero(): Meaning {
    Meaning((_, _, _) => 0, (_, _) => 0, (_, _) => 0, (_, _) => 0, (_, _) => 0, _ => 0, (_, _) => 0)
  }

  // The indices renamed between the operands that a conflict rests on.
  ghost function Renamed(s: Setting, a: Comparison, b: Comparison): set<Renaming>
    requires s.Acyclic() && Opposed(s, a, b)
  {
    {Needed(s, a.left, b.left)}
    + if a.opcode == b.opcode == EQ && DifferentConstants(s, a.right, b.right) then {} else {Needed(s, a.right, b.right)}
  }

  // The environment gives renamed indices one value.
  ghost predicate SelfRelated(s: Setting, names: Renaming, env: Environment) {
    Consistent(s.program, s.meaning, env) && forall v :: v in names ==> env(v) == env(names[v])
  }

  // A conflict is reported exactly for opposed comparisons; no environment that gives the indices renamed for
  // it equal values then meets both requirements.
  method ComparisonsConflict(s: Setting, lhs: Branch, rhs: Branch) returns (conflict: bool)
    requires s.Acyclic()
    ensures conflict <==> Effective(lhs).Some? && Effective(rhs).Some? && Opposed(s, Effective(lhs).value, Effective(rhs).value)
    ensures conflict ==>
              forall env :: (forall names :: names in Renamed(s, Effective(lhs).value, Effective(rhs).value) ==>
                                               SelfRelated(s, names, env)) ==>
                              !(Holds(s.meaning, lhs, env) && Holds(s.meaning, rhs, env))
  {
    var left := EffectiveComparison(lhs);
    var right := EffectiveComparison(rhs);
    if left.None? || right.None? {
      return false;
    }
    var sameLeft, operands := Equivalent(s, left.value.left, right.value.left);
    var sameRight, values := Equivalent(s, left.value.right, right.value.right);
    if sameLeft && sameRight && InvertedComparison(left.value.opcode) == Some(right.value.opcode) {
      ConflictExcludes(s, lhs, rhs);
      return true;
    }
    if !sameLeft || left.value.opcode != EQ || right.value.opcode != EQ {
      return false;
    }
    conflict := DifferentConstants(s, left.value.right, right.value.right);
    if conflict {
      ConflictExcludes(s, lhs, rhs);
    }
  }

  // No environment meets both requirements while the renamed indices have equal values.
  lemma ConflictExcludes(s: Setting, lhs: Branch, rhs: Branch)
    requires s.Acyclic() && Effective(lhs).Some? && Effective(rhs).Some?
    requires Opposed(s, Effective(lhs).value, Effective(rhs).value)
    ensures forall env :: (forall names :: names in Renamed(s, Effective(lhs).value, Effective(rhs).value) ==>
                                             SelfRelated(s, names, env)) ==>
                            !(Holds(s.meaning, lhs, env) && Holds(s.meaning, rhs, env))
  {
    var a, b := Effective(lhs).value, Effective(rhs).value;
    var renamed := Renamed(s, a, b);
    forall env | forall names :: names in renamed ==> SelfRelated(s, names, env)
      ensures !(Holds(s.meaning, lhs, env) && Holds(s.meaning, rhs, env))
    {
      var operands := Needed(s, a.left, b.left);
      assert operands in renamed;
      if a.opcode == b.opcode == EQ && DifferentConstants(s, a.right, b.right) {
        ConstantsExclude(s, lhs, rhs, operands, env);
      } else {
        var values := Needed(s, a.right, b.right);
        assert values in renamed;
        OppositesExclude(s, lhs, rhs, operands, values, env);
      }
    }
  }

  lemma ConstantsExclude(s: Setting, lhs: Branch, rhs: Branch, operands: Renaming, env: Environment)
    requires s.Acyclic() && Effective(lhs).Some? && Effective(rhs).Some?
    requires
      var a, b := Effective(lhs).value, Effective(rhs).value;
      a.opcode == b.opcode == EQ && DifferentConstants(s, a.right, b.right) && Alike(s, operands, a.left, b.left)
    requires SelfRelated(s, operands, env)
    ensures !(Holds(s.meaning, lhs, env) && Holds(s.meaning, rhs, env))
  {
    var a, b := Effective(lhs).value, Effective(rhs).value;
    EffectiveMeans(s.meaning, lhs, env);
    EffectiveMeans(s.meaning, rhs, env);
    AlikeMeansEqual(s, operands, a.left, b.left, env, env);
    FoldIsEval(s.program, s.meaning, a.right, env);
    FoldIsEval(s.program, s.meaning, b.right, env);
  }

  lemma OppositesExclude(s: Setting, lhs: Branch, rhs: Branch, operands: Renaming, values: Renaming, env: Environment)
    requires s.Acyclic() && Effective(lhs).Some? && Effective(rhs).Some?
    requires
      var a, b := Effective(lhs).value, Effective(rhs).value;
      && InvertedComparison(a.opcode) == Some(b.opcode)
      && Alike(s, operands, a.left, b.left) && Alike(s, values, a.right, b.right)
    requires SelfRelated(s, operands, env) && SelfRelated(s, values, env)
    ensures !(Holds(s.meaning, lhs, env) && Holds(s.meaning, rhs, env))
  {
    var a, b := Effective(lhs).value, Effective(rhs).value;
    EffectiveMeans(s.meaning, lhs, env);
    EffectiveMeans(s.meaning, rhs, env);
    AlikeMeansEqual(s, operands, a.left, b.left, env, env);
    AlikeMeansEqual(s, values, a.right, b.right, env, env);
  }

  // ----- When no index is renamed ---------------------------------------------------------------

  lemma NothingNeeded(s: Setting, l: Expr, r: Expr)
    requires s.Acyclic() && Alike(s, map[], l, r)
    ensures Witness(s, map[], l, r) && Needed(s, l, r) == map[]
  {
    var none: Renaming := map[];
    assert Witness(s, none, l, r) && |none| == 0;
  }

  // A conflict for which no index is renamed is one in every environment.
  lemma ConflictIsReal(s: Setting, lhs: Branch, rhs: Branch, env: Environment)
    requires s.Acyclic() && Effective(lhs).Some? && Effective(rhs).Some?
    requires Opposed(s, Effective(lhs).value, Effective(rhs).value)
    requires Renamed(s, Effective(lhs).value, Effective(rhs).value) == {map[]}
    requires Consistent(s.program, s.meaning, env)
    ensures !(Holds(s.meaning, lhs, env) && Holds(s.meaning, rhs, env))
  {
    ConflictExcludes(s, lhs, rhs);
    assert forall names :: names in Renamed(s, Effective(lhs).value, Effective(rhs).value) ==> SelfRelated(s, names, env);
  }

  // No loop index occurs in the comparison, directly or through an initialiser.
  ghost predicate IndexFree(s: Setting, e: Expr)
    requires s.Acyclic()
    decreases s.Height(e), e
  {
    match e
    case Reference(v) =>
      !s.program.InfoOf(v).Index? && (s.program.InfoOf(v).Initialised? ==> IndexFree(s, s.program.InfoOf(v).initial))
    case Cast(_, operand) => IndexFree(s, operand)
    case Operation(_, left, right) => IndexFree(s, left) && IndexFree(s, right)
    case Prefix(_, operand) => IndexFree(s, operand)
    case Member(base, _) => IndexFree(s, base)
    case Subscript(base, index) => IndexFree(s, base) && IndexFree(s, index)
    case Conditional(c, t, f) => IndexFree(s, c) && IndexFree(s, t) && IndexFree(s, f)
    case _ => true
  }

  lemma {:induction false} NoRenamingNeeded(s: Setting, names: Renaming, l: Expr, r: Expr)
    requires s.Acyclic() && OfIndices(s, names) && Alike(s, names, l, r) && IndexFree(s, l)
    ensures Alike(s, map[], l, r)
    decreases s.Height(l), l
  {
    if !SameReference(l, r) {
      match l
      case Cast(_, operand) => NoRenamingNeeded(s, names, operand, r.operand);
      case Reference(v) =>
        if r.Reference? && !s.program.InfoOf(r.variable).Index? {
          NoRenamingNeeded(s, names, s.program.InfoOf(v).initial, s.program.InfoOf(r.variable).initial);
        }
      case Operation(_, left, right) =>
        NoRenamingNeeded(s, names, left, r.left);
        NoRenamingNeeded(s, names, right, r.right);
      case Member(base, _) => NoRenamingNeeded(s, names, base, r.base);
      case Subscript(base, index) =>
        NoRenamingNeeded(s, names, base, r.base);
        NoRenamingNeeded(s, names, index, r.index);
      case Prefix(_, operand) => NoRenamingNeeded(s, names, operand, r.operand);
      case Conditional(c, t, f) =>
        NoRenamingNeeded(s, names, c, r.condition);
        NoRenamingNeeded(s, names, t, r.whenTrue);
        NoRenamingNeeded(s, names, f, r.whenFalse);
      case _ =>
    }
  }

  // Without loop indices on the left-hand side nothing is renamed.
  lemma IndexFreeConflict(s: Setting, a: Comparison, b: Comparison)
    requires s.Acyclic() && Opposed(s, a, b) && IndexFree(s, a.left) && IndexFree(s, a.right)
    ensures Renamed(s, a, b) == {map[]}
  {
    NoRenamingNeeded(s, Needed(s, a.left, b.left), a.left, b.left);
    NothingNeeded(s, a.left, b.left);
    if !(a.opcode == b.opcode == EQ && DifferentConstants(s, a.right, b.right)) {
      NoRenamingNeeded(s, Needed(s, a.right, b.right), a.right, b.right);
      NothingNeeded(s, a.right, b.right);
    }
  }

  // ----- A bare index on the left ---------------------------------------------------------------

  // What the compiler evaluates does not depend on loop indices.
  ghost predicate FixedConstants(s: Setting)
    requires s.Acyclic()
  {
    forall v :: v in s.program.constants ==> IndexFree(s, Reference(v))
  }

  // The value of an expression whose locals have the values of their initialisers.
  ghost function Expanded(s: Setting, env: Environment, e: Expr): int
    requires s.Acyclic()
    decreases s.Height(e), e
  {
    var m := s.meaning;
    match e
    case Literal(value) => value
    case Reference(v) =>
      if s.program.InfoOf(v).Initialised? then Expanded(s, env, s.program.InfoOf(v).initial) else env(v)
    case Cast(target, operand) => m.cast(target, Expanded(s, env, operand))
    case Operation(op, left, right) => Apply(m, op, Expanded(s, env, left), Expanded(s, env, right))
    case Prefix(op, operand) => ApplyUnary(m, op, Expanded(s, env, operand))
    case Member(base, member) => m.member(Expanded(s, env, base), member)
    case Subscript(base, index) => m.subscript(Expanded(s, env, base), Expanded(s, env, index))
    case Conditional(c, t, f) => if Expanded(s, env, c) != 0 then Expanded(s, env, t) else Expanded(s, env, f)
    case This(target) => m.self(target)
    case Pseudo(access, objects, _) => m.pseudo(access, objects)
  }

  // The environment with the locals set from the other variables.
  ghost function Settled(s: Setting, env: Environment): Environment
    requires s.Acyclic()
  {
    (v: Variable) => Expanded(s, env, Reference(v))
  }

  lemma {:induction false} SettledIsExpanded(s: Setting, env: Environment, e: Expr, settled: Environment)
    requires s.Acyclic() && settled == Settled(s, env)
    ensures Eval(s.meaning, e, settled) == Expanded(s, env, e)
  {
    match e
    case Cast(_, operand) => SettledIsExpanded(s, env, operand, settled);
    case Operation(_, left, right) =>
      SettledIsExpanded(s, env, left, settled);
      SettledIsExpanded(s, env, right, settled);
    case Prefix(_, operand) => SettledIsExpanded(s, env, operand, settled);
    case Member(base, _) => SettledIsExpanded(s, env, base, settled);
    case Subscript(base, index) =>
      SettledIsExpanded(s, env, base, settled);
      SettledIsExpanded(s, env, index, settled);
    case Conditional(c, t, f) =>
      SettledIsExpanded(s, env, c, settled);
      SettledIsExpanded(s, env, t, settled);
      SettledIsExpanded(s, env, f, settled);
    case _ =>
  }

  // The environments differ in loop indices and what follows from them.
  ghost predicate IndicesMoved(s: Setting, env: Environment, env': Environment) {
    forall v :: !s.program.InfoOf(v).Index? ==> env'(v) == env(v)
  }

  lemma {:induction false} IndexFreeKept(s: Setting, e: Expr, env: Environment, env': Environment)
    requires s.Acyclic() && IndexFree(s, e) && Consistent(s.program, s.meaning, env) && IndicesMoved(s, env, env')
    ensures Expanded(s, env', e) == Eval(s.meaning, e, env)
    decreases s.Height(e), e
  {
    match e
    case Reference(v) =>
      if s.program.InfoOf(v).Initialised? {
        IndexFreeKept(s, s.program.InfoOf(v).initial, env, env');
      }
    case Cast(_, operand) => IndexFreeKept(s, operand, env, env');
    case Operation(_, left, right) =>
      IndexFreeKept(s, left, env, env');
      IndexFreeKept(s, right, env, env');
    case Prefix(_, operand) => IndexFreeKept(s, operand, env, env');
    case Member(base, _) => IndexFreeKept(s, base, env, env');
    case Subscript(base, index) =>
      IndexFreeKept(s, base, env, env');
      IndexFreeKept(s, index, env, env');
    case Conditional(c, t, f) =>
      IndexFreeKept(s, c, env, env');
      IndexFreeKept(s, t, env, env');
      IndexFreeKept(s, f, env, env');
    case _ =>
  }

  // Loop indices can have any values.
  lemma SettledConsistent(s: Setting, env: Environment, env': Environment, settled: Environment)
    requires s.Acyclic() && FixedConstants(s) && Consistent(s.program, s.meaning, env) && IndicesMoved(s, env, env')
    requires settled == Settled(s, env')
    ensures Consistent(s.program, s.meaning, settled)
  {
    forall v | v in s.program.constants
      ensures settled(v) == s.program.constants[v]
    {
      IndexFreeKept(s, Reference(v), env, env');
    }
    forall v | v in s.program.variables && s.program.variables[v].Initialised?
      ensures settled(v) == Eval(s.meaning, s.program.variables[v].initial, settled)
    {
      SettledIsExpanded(s, env', s.program.variables[v].initial, settled);
    }
  }

  // A value that compares so with another.
  function Meeting(op: Binary, value: int): int {
    match op
    case LT => value - 1
    case NE | GT => value + 1
    case _ => value
  }

  // The comparison has a loop index on the left and none on the right.
  ghost predicate OfIndex(s: Setting, c: Comparison, index: Variable)
    requires s.Acyclic()
  {
    c.left == Reference(index) && s.program.InfoOf(index).Index? && IndexFree(s, c.right)
  }

  lemma IndexMeets(m: Meaning, c: Comparison, index: Variable, value: int, met: Environment)
    requires c.left == Reference(index) && !c.opcode.OtherBinary?
    requires met(index) == Meeting(c.opcode, value) && Eval(m, c.right, met) == value
    ensures Meets(m, c, met)
  {
  }

  // The comparison is met once its index has the right value.
  lemma IndexSet(s: Setting, env: Environment, c: Comparison, index: Variable, moved: Environment, met: Environment)
    requires s.Acyclic() && Consistent(s.program, s.meaning, env) && IndicesMoved(s, env, moved) && met == Settled(s, moved)
    requires OfIndex(s, c, index) && !c.opcode.OtherBinary?
    requires moved(index) == Meeting(c.opcode, Eval(s.meaning, c.right, env))
    ensures Meets(s.meaning, c, met)
  {
    IndexFreeKept(s, c.right, env, moved);
    SettledIsExpanded(s, moved, c.right, met);
    IndexMeets(s.meaning, c, index, Eval(s.meaning, c.right, env), met);
  }

  ghost function Moved(s: Setting, env: Environment, i: Variable, x: int, j: Variable, y: int): (moved: Environment)
    requires s.program.InfoOf(i).Index? && s.program.InfoOf(j).Index? && i != j
    ensures IndicesMoved(s, env, moved) && moved(i) == x && moved(j) == y
  {
    (v: Variable) => if v == i then x else if v == j then y else env(v)
  }

  lemma BothMet(s: Setting, a: Comparison, b: Comparison, i: Variable, j: Variable, env: Environment) returns (met: Environment)
    requires s.Acyclic() && FixedConstants(s) && Consistent(s.program, s.meaning, env) && i != j
    requires OfIndex(s, a, i) && OfIndex(s, b, j) && !a.opcode.OtherBinary? && !b.opcode.OtherBinary?
    ensures Consistent(s.program, s.meaning, met) && Meets(s.meaning, a, met) && Meets(s.meaning, b, met)
  {
    var x := Meeting(a.opcode, Eval(s.meaning, a.right, env));
    var y := Meeting(b.opcode, Eval(s.meaning, b.right, env));
    var moved := Moved(s, env, i, x, j, y);
    met := Settled(s, moved);
    SettledConsistent(s, env, moved, met);
    IndexSet(s, env, a, i, moved, met);
    IndexSet(s, env, b, j, moved, met);
  }

  // A conflict between loop indices, each compared with something free of indices, excludes that both
  // requirements hold exactly when it is one and the same index.
  lemma IndexConflictIsReal(s: Setting, lhs: Branch, rhs: Branch, i: Variable, j: Variable, env: Environment)
    requires s.Acyclic() && FixedConstants(s) && Consistent(s.program, s.meaning, env)
    requires Effective(lhs).Some? && OfIndex(s, Effective(lhs).value, i)
    requires Effective(rhs).Some? && OfIndex(s, Effective(rhs).value, j)
    requires Opposed(s, Effective(lhs).value, Effective(rhs).value)
    ensures (forall met :: Consistent(s.program, s.meaning, met) ==>
                             !(Holds(s.meaning, lhs, met) && Holds(s.meaning, rhs, met))) <==> i == j
  {
    var a, b := Effective(lhs).value, Effective(rhs).value;
    if i == j {
      NothingNeeded(s, a.left, b.left);
      if !(a.opcode == b.opcode == EQ && DifferentConstants(s, a.right, b.right)) {
        NoRenamingNeeded(s, Needed(s, a.right, b.right), a.right, b.right);
        NothingNeeded(s, a.right, b.right);
      }
      assert Renamed(s, a, b) == {map[]};
      forall met | Consistent(s.program, s.meaning, met)
        ensures !(Holds(s.meaning, lhs, met) && Holds(s.meaning, rhs, met))
      {
        ConflictIsReal(s, lhs, rhs, met);
      }
    } else {
      EffectiveMeans(s.meaning, lhs, env);
      EffectiveMeans(s.meaning, rhs, env);
      var met := BothMet(s, a, b, i, j, env);
      EffectiveMeans(s.meaning, lhs, met);
      EffectiveMeans(s.meaning, rhs, met);
    }
  }

  // ----- What renaming lets through -------------------------------------------------------------

  // Loops over 0, 1, ..., 9 with three different indices.
  function ThreeLoops(m: Meaning): Setting {
    var loop := Index(Loop(Literal(0), Literal(10), false, Unit));
    Setting(Program(map[0 := loop, 1 := loop, 2 := loop], map[]), m, _ => 0)
  }

  // index < 5 for the first loop's index and not for the second's: reported as a conflict, though nothing
  // keeps the two indices equal.
  lemma ConflictAcrossLoops(m: Meaning)
    ensures
      var s := ThreeLoops(m);
      var lhs := Branch(Operation(LT, Reference(0), Literal(5)), true);
      var rhs := Branch(Operation(LT, Reference(1), Literal(5)), false);
      var env: Environment := v => if v == 1 then 7 else 0;
      && s.Acyclic()
      && Effective(lhs).Some? && Effective(rhs).Some? && Opposed(s, Effective(lhs).value, Effective(rhs).value)
      && Consistent(s.program, m, env) && Holds(m, lhs, env) && Holds(m, rhs, env)
  {
    var s := ThreeLoops(m);
    assert AlikeLoops(s, map[0 := 1], 0, 1);
    assert Witness(s, map[0 := 1], Reference(0), Reference(1));
    assert Witness(s, map[], Literal(5), Literal(5));
  }

  // Two indices may be renamed to one: the sum of the indices of two loops is found alike twice the index of
  // a third, which it can differ from whatever that index is.
  lemma RenamingMergesIndices(m: Meaning, plus: nat, env1: Environment, env2: Environment)
    requires forall a, b :: m.binary(plus, a, b) == a + b
    requires env1(0) == 0 && env1(1) == 1
    ensures
      var s := ThreeLoops(m);
      var sum, twice := Operation(OtherBinary(plus), Reference(0), Reference(1)), Operation(OtherBinary(plus), Reference(2), Reference(2));
      s.Acyclic() && Witness(s, map[0 := 2, 1 := 2], sum, twice) && Eval(m, sum, env1) != Eval(m, twice, env2)
  {
    var s, names := ThreeLoops(m), map[0 := 2, 1 := 2];
    assert AlikeLoops(s, names, 0, 2) && AlikeLoops(s, names, 1, 2);
    var a, b, c := Reference(0), Reference(1), Reference(2);
    assert Alike(s, names, a, c) && Alike(s, names, b, c);
    assert Alike(s, names, Operation(OtherBinary(plus), a, b), Operation(OtherBinary(plus), c, c));
    assert Eval(m, Operation(OtherBinary(plus), Reference(2), Reference(2)), env2) == 2 * env2(2);
  }
}
