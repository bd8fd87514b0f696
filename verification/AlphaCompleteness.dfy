// Which pairs of expressions the comparison of src/DavC310TargetRecipe.cpp:5691-5853 accepts, by their
// structure: every copy with other loop indices and other locals, and nothing of another shape.
module AlphaCompleteness {
  import opened Primitives
  import opened Expressions
  import opened AlphaEquivalence

  // ----- Copies ---------------------------------------------------------------------------------

  // The expression with other variables.
  function Renamed(copies: Renaming, e: Expr): Expr {
    match e
    case Reference(v) => Reference(if v in copies then copies[v] else v)
    case Cast(target, operand) => Cast(target, Renamed(copies, operand))
    case Operation(op, left, right) => Operation(op, Renamed(copies, left), Renamed(copies, right))
    case Prefix(op, operand) => Prefix(op, Renamed(copies, operand))
    case Member(base, member) => Member(Renamed(copies, base), member)
    case Subscript(base, index) => Subscript(Renamed(copies, base), Renamed(copies, index))
    case Conditional(c, t, f) => Conditional(Renamed(copies, c), Renamed(copies, t), Renamed(copies, f))
    case _ => e
  }

  function RenamedLoop(copies: Renaming, loop: Loop): Loop {
    Loop(Renamed(copies, loop.initial), Renamed(copies, loop.bound), loop.inclusive,
         if loop.increment.By? then By(loop.increment.subtract, Renamed(copies, loop.increment.step)) else Unit)
  }

  // Built from what the comparison looks into: the four unary operators, and members of execution builtins.
  predicate Comparable(e: Expr) {
    match e
    case Literal(_) => true
    case Reference(_) => true
    case Cast(_, operand) => Comparable(operand)
    case Operation(_, left, right) => Comparable(left) && Comparable(right)
    case Prefix(op, operand) => (op == Plus || op == Minus || op == Complement || op == LogicalNot) && Comparable(operand)
    case Member(base, _) => Comparable(base)
    case Subscript(base, index) => Comparable(base) && Comparable(index)
    case Conditional(c, t, f) => Comparable(c) && Comparable(t) && Comparable(f)
    case This(_) => true
    case Pseudo(access, objects, execution) => access.Some? && |objects| == 1 && execution
  }

  predicate ComparableLoop(loop: Loop) {
    Comparable(loop.initial) && Comparable(loop.bound) && (loop.increment.By? ==> Comparable(loop.increment.step))
  }

  // Each index stands for one of a loop copied in the same way, each initialised local for one with a copied
  // initialiser, and every other variable for itself.
  ghost predicate Copies(s: Setting, copies: Renaming) {
    forall v :: v in copies ==>
      match s.program.InfoOf(v)
      case Index(loop) => ComparableLoop(loop) && s.program.InfoOf(copies[v]) == Index(RenamedLoop(copies, loop))
      case Initialised(initial) => Comparable(initial) && s.program.InfoOf(copies[v]) == Initialised(Renamed(copies, initial))
      case Plain => copies[v] == v
  }

  function Indices(s: Setting, copies: Renaming): Renaming {
    map v | v in copies && s.program.InfoOf(v).Index? :: copies[v]
  }

  lemma {:induction false} RenamedIsAlike(s: Setting, copies: Renaming, e: Expr)
    requires s.Acyclic() && Copies(s, copies) && Comparable(e)
    ensures Alike(s, Indices(s, copies), e, Renamed(copies, e))
    decreases s.Height(e), e
  {
    match e
    case Reference(v) =>
      if v in copies && s.program.InfoOf(v).Initialised? {
        RenamedIsAlike(s, copies, s.program.InfoOf(v).initial);
      }
    case Cast(_, operand) => RenamedIsAlike(s, copies, operand);
    case Operation(_, left, right) =>
      RenamedIsAlike(s, copies, left);
      RenamedIsAlike(s, copies, right);
    case Prefix(_, operand) => RenamedIsAlike(s, copies, operand);
    case Member(base, _) => RenamedIsAlike(s, copies, base);
    case Subscript(base, index) =>
      RenamedIsAlike(s, copies, base);
      RenamedIsAlike(s, copies, index);
    case Conditional(c, t, f) =>
      RenamedIsAlike(s, copies, c);
      RenamedIsAlike(s, copies, t);
      RenamedIsAlike(s, copies, f);
    case _ =>
  }

  lemma RenamedLoopsAlike(s: Setting, copies: Renaming, v: Variable)
    requires s.Acyclic() && Copies(s, copies) && v in copies && s.program.InfoOf(v).Index?
    ensures AlikeLoops(s, Indices(s, copies), v, copies[v])
  {
    var loop := s.program.InfoOf(v).loop;
    RenamedIsAlike(s, copies, loop.initial);
    RenamedIsAlike(s, copies, loop.bound);
    if loop.increment.By? {
      RenamedIsAlike(s, copies, loop.increment.step);
    }
  }

  // Every such copy of an expression is accepted.
  lemma CopyIsAccepted(s: Setting, copies: Renaming, e: Expr)
    requires s.Acyclic() && Copies(s, copies) && Comparable(e)
    ensures Equatable(s, e, Renamed(copies, e))
  {
    var names := Indices(s, copies);
    forall v | v in names
      ensures AlikeLoops(s, names, v, names[v])
    {
      RenamedLoopsAlike(s, copies, v);
    }
    RenamedIsAlike(s, copies, e);
    assert Witness(s, names, e, Renamed(copies, e));
  }

  // ----- Shapes ---------------------------------------------------------------------------------

  lemma SameIsEquatable(s: Setting, l: Expr, r: Expr)
    requires s.Acyclic() && SameReference(l, r)
    ensures Equatable(s, l, r)
  {
    var none: Renaming := map[];
    assert Witness(s, none, l, r);
  }

  // Two values the compiler finds to be one.
  predicate SameConstant(s: Setting, l: Expr, r: Expr) {
    Fold(s.program, s.meaning, l).Some? && Fold(s.program, s.meaning, r) == Fold(s.program, s.meaning, l)
  }

  ghost predicate LoopsEquatable(s: Setting, a: Loop, b: Loop)
    requires s.Acyclic()
  {
    && a.inclusive == b.inclusive && Equatable(s, a.initial, b.initial) && Equatable(s, a.bound, b.bound)
    && match a.increment
       case Unit => b.increment == Unit
       case By(subtract, step) => b.increment.By? && b.increment.subtract == subtract && Equatable(s, step, b.increment.step)
  }

  // What accepted references have in common.
  ghost predicate ReferencesAgree(s: Setting, v: Variable, w: Variable)
    requires s.Acyclic()
  {
    match s.program.InfoOf(v)
    case Index(loop) => s.program.InfoOf(w).Index? && LoopsEquatable(s, loop, s.program.InfoOf(w).loop)
    case Initialised(initial) => s.program.InfoOf(w).Initialised? && Equatable(s, initial, s.program.InfoOf(w).initial)
    case Plain => false
  }

  // What accepted expressions have in common: constructor, operator, member and type, with accepted parts.
  ghost predicate ShapesAgree(s: Setting, l: Expr, r: Expr)
    requires s.Acyclic()
  {
    match l
    case Literal(_) => (r.Literal? || r.Reference? || r.Cast?) && SameConstant(s, l, r)
    case Reference(v) =>
      if r.Reference? then r.variable == v || ReferencesAgree(s, v, r.variable)
      else (r.Literal? || r.Cast?) && SameConstant(s, l, r)
    case Cast(target, operand) => r.Cast? && r.target == target && Equatable(s, operand, r.operand)
    case Operation(op, left, right) => r.Operation? && r.binary == op && Equatable(s, left, r.left) && Equatable(s, right, r.right)
    case Prefix(op, operand) =>
      && r.Prefix? && r.unary == op && (op == Plus || op == Minus || op == Complement || op == LogicalNot)
      && Equatable(s, operand, r.operand)
    case Member(base, member) => r.Member? && r.member == member && Equatable(s, base, r.base)
    case Subscript(base, index) => r.Subscript? && Equatable(s, base, r.base) && Equatable(s, index, r.index)
    case Conditional(c, t, f) =>
      r.Conditional? && Equatable(s, c, r.condition) && Equatable(s, t, r.whenTrue) && Equatable(s, f, r.whenFalse)
    case This(target) => r == This(target)
    case Pseudo(access, objects, execution) =>
      r.Pseudo? && access.Some? && r.access == access && |objects| == 1 && r.objects == objects && execution
  }

  lemma WitnessedLoops(s: Setting, names: Renaming, v: Variable, w: Variable)
    requires s.Acyclic() && Justified(s, map[], names) && v in names && names[v] == w
    ensures ReferencesAgree(s, v, w)
  {
    assert AlikeLoops(s, names, v, w);
    var a, b := s.program.InfoOf(v).loop, s.program.InfoOf(w).loop;
    assert Witness(s, names, a.initial, b.initial) && Witness(s, names, a.bound, b.bound);
    if a.increment.By? {
      assert Witness(s, names, a.increment.step, b.increment.step);
    }
  }

  lemma WitnessedReferences(s: Setting, names: Renaming, v: Variable, w: Variable)
    requires s.Acyclic() && v != w && Witness(s, names, Reference(v), Reference(w))
    ensures ReferencesAgree(s, v, w)
  {
    if s.program.InfoOf(v).Index? || s.program.InfoOf(w).Index? {
      WitnessedLoops(s, names, v, w);
    } else {
      assert Witness(s, names, s.program.InfoOf(v).initial, s.program.InfoOf(w).initial);
    }
  }

  lemma SameParts(s: Setting, l: Expr, r: Expr)
    requires s.Acyclic() && SameReference(l, r)
    ensures ShapesAgree(s, l, r)
  {
    match l
    case Member(base, _) => SameIsEquatable(s, base, r.base);
    case Subscript(base, index) =>
      SameIsEquatable(s, base, r.base);
      SameIsEquatable(s, index, r.index);
    case Operation(_, left, right) =>
      SameIsEquatable(s, left, r.left);
      SameIsEquatable(s, right, r.right);
    case _ =>
  }

  lemma WitnessedParts(s: Setting, names: Renaming, l: Expr, r: Expr)
    requires s.Acyclic() && !SameReference(l, r) && Witness(s, names, l, r)
    requires !l.Reference? && !l.Literal?
    ensures ShapesAgree(s, l, r)
  {
    match l
    case Cast(_, operand) => assert Witness(s, names, operand, r.operand);
    case Operation(_, left, right) => assert Witness(s, names, left, r.left) && Witness(s, names, right, r.right);
    case Prefix(_, operand) => assert Witness(s, names, operand, r.operand);
    case Member(base, _) => assert Witness(s, names, base, r.base);
    case Subscript(base, index) => assert Witness(s, names, base, r.base) && Witness(s, names, index, r.index);
    case Conditional(c, t, f) =>
      assert Witness(s, names, c, r.condition) && Witness(s, names, t, r.whenTrue) && Witness(s, names, f, r.whenFalse);
    case _ =>
  }

  // Expressions of different shapes are refused, and so are those with parts that are.
  lemma AcceptedShapes(s: Setting, l: Expr, r: Expr)
    requires s.Acyclic() && Equatable(s, l, r)
    ensures ShapesAgree(s, l, r)
  {
    var names :| Witness(s, names, l, r);
    if SameReference(l, r) {
      SameParts(s, l, r);
    } else if l.Reference? && r.Reference? {
      WitnessedReferences(s, names, l.variable, r.variable);
    } else if l.Reference? || l.Literal? {
      ConstantShapes(s, names, l, r);
    } else {
      WitnessedParts(s, names, l, r);
    }
  }

  lemma ConstantShapes(s: Setting, names: Renaming, l: Expr, r: Expr)
    requires s.Acyclic() && Alike(s, names, l, r) && (l.Literal? || (l.Reference? && !r.Reference?))
    ensures (r.Literal? || r.Reference? || r.Cast?) && SameConstant(s, l, r)
  {
  }

  // A literal is accepted against exactly the literals, casts and references that the compiler finds to have
  // its value.
  lemma LiteralIsAccepted(s: Setting, n: int, r: Expr)
    requires s.Acyclic()
    ensures Equatable(s, Literal(n), r) <==>
            (r.Literal? || r.Reference? || r.Cast?) && Fold(s.program, s.meaning, r) == Some(n)
  {
    var none: Renaming := map[];
    if (r.Literal? || r.Reference? || r.Cast?) && Fold(s.program, s.meaning, r) == Some(n) {
      assert Witness(s, none, Literal(n), r);
    }
    if names :| Witness(s, names, Literal(n), r) {
      assert AlikeConstants(s, Literal(n), r);
    }
  }
}
