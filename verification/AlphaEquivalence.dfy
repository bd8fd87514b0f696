// Equivalence of expressions up to the names of matched loop indices (src/DavC310TargetRecipe.cpp:5517-5632,
// 5691-5853).
module AlphaEquivalence {
  import opened Primitives
  import opened Expressions

  function Larger(a: nat, b: nat): nat {
    if a < b then b else a
  }

  // The program compared, and a rank for its initialised locals.
  datatype Setting = Setting(program: Program, meaning: Meaning, rank: Variable -> nat) {
    // One more than the highest rank an expression mentions.
    function Height(e: Expr): nat {
      match e
      case Literal(_) => 0
      case Reference(v) => if program.InfoOf(v).Initialised? then rank(v) + 1 else 0
      case Cast(_, operand) => Height(operand)
      case Operation(_, left, right) => Larger(Height(left), Height(right))
      case Prefix(_, operand) => Height(operand)
      case Member(base, _) => Height(base)
      case Subscript(base, index) => Larger(Height(base), Height(index))
      case Conditional(c, t, f) => Larger(Height(c), Larger(Height(t), Height(f)))
      case This(_) => 0
      case Pseudo(_, _, _) => 0
    }

    // The initialisers of locals do not go round in a circle: each has a rank above those it mentions.
    ghost predicate Acyclic() {
      forall v :: v in program.variables && program.variables[v].Initialised? ==> Height(program.variables[v].initial) <= rank(v)
    }
  }

  type Renaming = map<Variable, Variable>

  ghost predicate Extends(names: Renaming, names': Renaming) {
    forall v :: v in names ==> v in names' && names'[v] == names[v]
  }

  // ----- What is accepted -----------------------------------------------------------------------

  predicate AlikePseudo(l: Expr, r: Expr) {
    l.Pseudo? && r.Pseudo? && l.access.Some? && l.access == r.access && |l.objects| == 1 && l.objects == r.objects && l.execution
  }

  predicate AlikeConstants(s: Setting, l: Expr, r: Expr) {
    Fold(s.program, s.meaning, l).Some? && Fold(s.program, s.meaning, l) == Fold(s.program, s.meaning, r)
  }

  // r is l with its loop indices renamed and its locals replaced by equally initialised ones.
  ghost predicate Alike(s: Setting, names: Renaming, l: Expr, r: Expr)
    requires s.Acyclic()
    decreases s.Height(l), l
  {
    || SameReference(l, r)
    || (if l.Pseudo? || r.Pseudo? then AlikePseudo(l, r)
        else if l.Cast? then r.Cast? && l.target == r.target && Alike(s, names, l.operand, r.operand)
        else if l.Reference? && r.Reference? then
          if s.program.InfoOf(l.variable).Index? || s.program.InfoOf(r.variable).Index? then
            l.variable in names && names[l.variable] == r.variable
          else
            && s.program.InfoOf(l.variable).Initialised? && s.program.InfoOf(r.variable).Initialised?
            && Alike(s, names, s.program.InfoOf(l.variable).initial, s.program.InfoOf(r.variable).initial)
        else if l.Operation? || r.Operation? then
          l.Operation? && r.Operation? && l.binary == r.binary && Alike(s, names, l.left, r.left) && Alike(s, names, l.right, r.right)
        else if l.Member? || r.Member? then
          l.Member? && r.Member? && l.member == r.member && Alike(s, names, l.base, r.base)
        else if l.Subscript? || r.Subscript? then
          l.Subscript? && r.Subscript? && Alike(s, names, l.base, r.base) && Alike(s, names, l.index, r.index)
        else if l.Prefix? || r.Prefix? then
          l.Prefix? && r.Prefix? && l.unary == r.unary && !l.unary.OtherUnary? && Alike(s, names, l.operand, r.operand)
        else if l.Conditional? || r.Conditional? then
          && l.Conditional? && r.Conditional? && Alike(s, names, l.condition, r.condition)
          && Alike(s, names, l.whenTrue, r.whenTrue) && Alike(s, names, l.whenFalse, r.whenFalse)
        else if l.This? || r.This? then l.This? && r.This? && l.target == r.target
        else AlikeConstants(s, l, r))
  }

  predicate SameShape(l: Loop, r: Loop) {
    && l.inclusive == r.inclusive
    && l.increment.By? == r.increment.By?
    && (l.increment.By? ==> l.increment.subtract == r.increment.subtract)
  }

  // Two loops alike in all their parts.
  ghost predicate AlikeLoops(s: Setting, names: Renaming, l: Variable, r: Variable)
    requires s.Acyclic()
  {
    && s.program.InfoOf(l).Index? && s.program.InfoOf(r).Index?
    && var a, b := s.program.InfoOf(l).loop, s.program.InfoOf(r).loop;
       && SameShape(a, b)
       && Alike(s, names, a.initial, b.initial)
       && Alike(s, names, a.bound, b.bound)
       && (a.increment.By? ==> Alike(s, names, a.increment.step, b.increment.step))
  }

  // Every index renamed names, except those of before, has a loop alike its new name's.
  ghost predicate Justified(s: Setting, before: Renaming, names: Renaming)
    requires s.Acyclic()
  {
    forall v :: v in names && v !in before ==> AlikeLoops(s, names, v, names[v])
  }

  // names contains only indices.
  ghost predicate OfIndices(s: Setting, names: Renaming) {
    forall v :: v in names ==> s.program.InfoOf(v).Index?
  }

  lemma {:induction false} AlikeGrows(s: Setting, names: Renaming, names': Renaming, l: Expr, r: Expr)
    requires s.Acyclic() && Alike(s, names, l, r) && Extends(names, names')
    ensures Alike(s, names', l, r)
    decreases s.Height(l), l
  {
    if !SameReference(l, r) {
      match l
      case Cast(_, operand) => AlikeGrows(s, names, names', operand, r.operand);
      case Reference(v) =>
        if r.Reference? && !s.program.InfoOf(v).Index? && !s.program.InfoOf(r.variable).Index? {
          AlikeGrows(s, names, names', s.program.InfoOf(v).initial, s.program.InfoOf(r.variable).initial);
        }
      case Operation(_, left, right) =>
        AlikeGrows(s, names, names', left, r.left);
        AlikeGrows(s, names, names', right, r.right);
      case Member(base, _) => AlikeGrows(s, names, names', base, r.base);
      case Subscript(base, index) =>
        AlikeGrows(s, names, names', base, r.base);
        AlikeGrows(s, names, names', index, r.index);
      case Prefix(_, operand) => AlikeGrows(s, names, names', operand, r.operand);
      case Conditional(c, t, f) =>
        AlikeGrows(s, names, names', c, r.condition);
        AlikeGrows(s, names, names', t, r.whenTrue);
        AlikeGrows(s, names, names', f, r.whenFalse);
      case _ =>
    }
  }

  lemma AlikeLoopsGrows(s: Setting, names: Renaming, names': Renaming, l: Variable, r: Variable)
    requires s.Acyclic() && AlikeLoops(s, names, l, r) && Extends(names, names')
    ensures AlikeLoops(s, names', l, r)
  {
    var a, b := s.program.InfoOf(l).loop, s.program.InfoOf(r).loop;
    AlikeGrows(s, names, names', a.initial, b.initial);
    AlikeGrows(s, names, names', a.bound, b.bound);
    if a.increment.By? {
      AlikeGrows(s, names, names', a.increment.step, b.increment.step);
    }
  }

  lemma JustifiedTrans(s: Setting, a: Renaming, b: Renaming, c: Renaming)
    requires s.Acyclic() && Justified(s, a, b) && Justified(s, b, c) && Extends(b, c)
    ensures Justified(s, a, c)
  {
    forall v | v in c && v !in a
      ensures AlikeLoops(s, c, v, c[v])
    {
      if v in b {
        AlikeLoopsGrows(s, b, c, v, b[v]);
      }
    }
  }

  // ----- The comparison -------------------------------------------------------------------------

  // A renaming that contains the one given and is justified beyond it.
  ghost predicate Admits(s: Setting, before: Renaming, names: Renaming)
    requires s.Acyclic()
  {
    Extends(before, names) && Justified(s, before, names)
  }

  // A renaming is justified beyond an index once that index's loops are alike.
  lemma LoopJustified(s: Setting, before: Renaming, after: Renaming, lhs: Variable, rhs: Variable)
    requires s.Acyclic() && Extends(before[lhs := rhs], after)
    requires Justified(s, before[lhs := rhs], after) && AlikeLoops(s, after, lhs, rhs)
    ensures Justified(s, before, after)
  {
    assert after[lhs] == rhs;
  }

  class AlphaContext {
    const setting: Setting
    var variables: Renaming
    var activeLoops: set<(Variable, Variable)>

    ghost predicate Valid()
      reads this
    {
      && setting.Acyclic()
      && OfIndices(setting, variables)
      && (forall pair :: pair in activeLoops ==> pair.0 in variables)
    }

    // The variables the renaming does not have yet.
    ghost function Unmapped(): set<Variable>
      reads this
    {
      setting.program.variables.Keys - variables.Keys
    }

    constructor (setting: Setting)
      requires setting.Acyclic()
      ensures Valid() && variables == map[] && this.setting == setting
    {
      this.setting, variables, activeLoops := setting, map[], {};
    }

    // names stands for any renaming the caller may have in mind: the comparison finds no more than it needs.
    method LoopIndices(lhs: Variable, rhs: Variable, ghost names: Renaming) returns (same: bool)
      requires Valid()
      modifies this
      ensures Valid() && activeLoops == old(activeLoops) && Extends(old(variables), variables)
      ensures same ==> Justified(setting, old(variables), variables) && lhs in variables && variables[lhs] == rhs
      ensures old(Admits(setting, variables, names)) && lhs in names && names[lhs] == rhs ==>
                same && Extends(variables, names)
      decreases Unmapped(), setting.Height(Reference(lhs)), Reference(lhs), 1
    {
      if lhs in variables {
        return variables[lhs] == rhs;
      }
      if !setting.program.InfoOf(lhs).Index? || !setting.program.InfoOf(rhs).Index? {
        return false;
      }
      // A pair still being compared has its left index in the map, so it never gets this far.
      assert (lhs, rhs) !in activeLoops;
      ghost var names0, active0 := variables, activeLoops;
      activeLoops := activeLoops + {(lhs, rhs)};
      variables := variables[lhs := rhs];
      assert Unmapped() + {lhs} == old(Unmapped());
      same := LoopParts(lhs, rhs, names);
      if same {
        LoopJustified(setting, names0, variables, lhs, rhs);
      }
      activeLoops := activeLoops - {(lhs, rhs)};
      assert activeLoops == active0;
    }

    method LoopParts(lhs: Variable, rhs: Variable, ghost names: Renaming) returns (same: bool)
      requires Valid() && lhs in variables
      requires setting.program.InfoOf(lhs).Index? && setting.program.InfoOf(rhs).Index?
      modifies this
      ensures Valid() && activeLoops == old(activeLoops) && Extends(old(variables), variables)
      ensures same ==> Justified(setting, old(variables), variables) && AlikeLoops(setting, variables, lhs, rhs)
      ensures old(Admits(setting, variables, names)) && AlikeLoops(setting, names, lhs, rhs) ==> same && Extends(variables, names)
      decreases Unmapped() + {lhs}, setting.Height(Reference(lhs)), Reference(lhs), 0
    {
      var l, r := setting.program.InfoOf(lhs).loop, setting.program.InfoOf(rhs).loop;
      assert lhs !in Unmapped();
      var initial := Expression(l.initial, r.initial, names);
      ghost var names1 := variables;
      assert lhs !in Unmapped();
      var bound := Expression(l.bound, r.bound, names);
      ghost var names2 := variables;
      var step := l.increment.Unit?;
      if l.increment.By? && r.increment.By? {
        assert lhs !in Unmapped();
        step := Expression(l.increment.step, r.increment.step, names);
      }
      same := SameShape(l, r) && initial && bound && step;
      if same {
        AlikeGrows(setting, names1, variables, l.initial, r.initial);
        AlikeGrows(setting, names2, variables, l.bound, r.bound);
        JustifiedTrans(setting, old(variables), names1, names2);
        JustifiedTrans(setting, old(variables), names2, variables);
      }
    }

    method Expression(l: Expr, r: Expr, ghost names: Renaming) returns (same: bool)
      requires Valid()
      modifies this
      ensures Valid() && activeLoops == old(activeLoops) && Extends(old(variables), variables)
      ensures same ==> Justified(setting, old(variables), variables) && Alike(setting, variables, l, r)
      ensures old(Admits(setting, variables, names)) && Alike(setting, names, l, r) ==> same && Extends(variables, names)
      decreases Unmapped(), setting.Height(l), l, 3
    {
      if SameReference(l, r) {
        return true;
      }
      if l.Pseudo? || r.Pseudo? {
        return AlikePseudo(l, r);
      }
      if l.Cast? {
        if !r.Cast? || l.target != r.target {
          return false;
        }
        same := Expression(l.operand, r.operand, names);
        return;
      }
      if l.Reference? && r.Reference? {
        same := References(l.variable, r.variable, names);
        return;
      }
      if l.Operation? || r.Operation? {
        if !l.Operation? || !r.Operation? || l.binary != r.binary {
          return false;
        }
        same := Both(l, l.left, r.left, l.right, r.right, names);
        return;
      }
      if l.Member? || r.Member? {
        if !l.Member? || !r.Member? || l.member != r.member {
          return false;
        }
        same := Expression(l.base, r.base, names);
        return;
      }
      if l.Subscript? || r.Subscript? {
        if !l.Subscript? || !r.Subscript? {
          return false;
        }
        same := Both(l, l.base, r.base, l.index, r.index, names);
        return;
      }
      if l.Prefix? || r.Prefix? {
        if !l.Prefix? || !r.Prefix? || l.unary != r.unary || l.unary.OtherUnary? {
          return false;
        }
        same := Expression(l.operand, r.operand, names);
        return;
      }
      if l.Conditional? || r.Conditional? {
        if !l.Conditional? || !r.Conditional? {
          return false;
        }
        same := Expression(l.condition, r.condition, names);
        if same {
          ghost var names1 := variables;
          same := Both(l, l.whenTrue, r.whenTrue, l.whenFalse, r.whenFalse, names);
          if same {
            AlikeGrows(setting, names1, variables, l.condition, r.condition);
            JustifiedTrans(setting, old(variables), names1, variables);
          }
        }
        return;
      }
      if l.This? || r.This? {
        return l.This? && r.This? && l.target == r.target;
      }
      var a, b := Fold(setting.program, setting.meaning, l), Fold(setting.program, setting.meaning, r);
      return a.Some? && b.Some? && a.value == b.value;
    }

    // Two references to different variables.
    method References(lhs: Variable, rhs: Variable, ghost names: Renaming) returns (same: bool)
      requires Valid()
      modifies this
      ensures Valid() && activeLoops == old(activeLoops) && Extends(old(variables), variables)
      requires lhs != rhs
      ensures same ==> Justified(setting, old(variables), variables) && Alike(setting, variables, Reference(lhs), Reference(rhs))
      ensures old(Admits(setting, variables, names)) && Alike(setting, names, Reference(lhs), Reference(rhs)) ==>
                same && Extends(variables, names)
      decreases Unmapped(), setting.Height(Reference(lhs)), Reference(lhs), 2
    {
      if lhs in variables {
        return variables[lhs] == rhs;
      }
      if setting.program.InfoOf(lhs).Index? || setting.program.InfoOf(rhs).Index? {
        same := LoopIndices(lhs, rhs, names);
      } else if setting.program.InfoOf(lhs).Initialised? && setting.program.InfoOf(rhs).Initialised? {
        same := Expression(setting.program.InfoOf(lhs).initial, setting.program.InfoOf(rhs).initial, names);
      } else {
        same := false;
      }
    }

    // Two pairs of operands of one expression; the second is compared only when the first is alike.
    method Both(ghost whole: Expr, l1: Expr, r1: Expr, l2: Expr, r2: Expr, ghost names: Renaming) returns (same: bool)
      requires Valid()
      modifies this
      ensures Valid() && activeLoops == old(activeLoops) && Extends(old(variables), variables)
      requires l1 < whole && l2 < whole
      requires setting.Height(l1) <= setting.Height(whole) && setting.Height(l2) <= setting.Height(whole)
      ensures same ==> && Justified(setting, old(variables), variables)
                       && Alike(setting, variables, l1, r1) && Alike(setting, variables, l2, r2)
      ensures old(Admits(setting, variables, names)) && Alike(setting, names, l1, r1) && Alike(setting, names, l2, r2) ==>
                same && Extends(variables, names)
      decreases Unmapped(), setting.Height(whole), whole, 2
    {
      same := Expression(l1, r1, names);
      if same {
        ghost var names1 := variables;
        same := Expression(l2, r2, names);
        if same {
          AlikeGrows(setting, names1, variables, l1, r1);
          JustifiedTrans(setting, old(variables), names1, variables);
        }
      }
    }
  }

  // A justified renaming that makes the expressions alike.
  ghost predicate Witness(s: Setting, names: Renaming, l: Expr, r: Expr)
    requires s.Acyclic()
  {
    Justified(s, map[], names) && Alike(s, names, l, r)
  }

  ghost predicate Equatable(s: Setting, l: Expr, r: Expr)
    requires s.Acyclic()
  {
    exists names :: Witness(s, names, l, r)
  }

  ghost predicate Smallest(s: Setting, names: Renaming, l: Expr, r: Expr)
    requires s.Acyclic()
  {
    Witness(s, names, l, r) && forall other :: Witness(s, other, l, r) ==> |names| <= |other|
  }

  // The smallest renaming that does: the one the comparison computes.
  ghost function Needed(s: Setting, l: Expr, r: Expr): (names: Renaming)
    requires s.Acyclic() && Equatable(s, l, r)
    ensures Smallest(s, names, l, r)
  {
    var names :| Witness(s, names, l, r);
    NeededBelow(s, l, r, names)
  }

  ghost function NeededBelow(s: Setting, l: Expr, r: Expr, names: Renaming): (needed: Renaming)
    requires s.Acyclic() && Witness(s, names, l, r)
    ensures Smallest(s, needed, l, r)
    decreases |names|
  {
    if exists other :: Witness(s, other, l, r) && |other| < |names| then
      var other :| Witness(s, other, l, r) && |other| < |names|;
      NeededBelow(s, l, r, other)
    else names
  }

  lemma ExtendsAsLarge(a: Renaming, b: Renaming)
    requires Extends(a, b) && |b| <= |a|
    ensures a == b
  {
    assert a.Keys <= b.Keys;
    assert |b.Keys - a.Keys| == |b.Keys| - |a.Keys|;
  }

  // With a fresh context two expressions are accepted exactly when some justified renaming makes them alike,
  // and the context then has the smallest one.
  method Equivalent(s: Setting, l: Expr, r: Expr) returns (same: bool, variables: Renaming)
    requires s.Acyclic()
    ensures same <==> Equatable(s, l, r)
    ensures same ==> variables == Needed(s, l, r)
  {
    var alpha := new AlphaContext(s);
    ghost var names := if Equatable(s, l, r) then Needed(s, l, r) else map[];
    same := alpha.Expression(l, r, names);
    variables := alpha.variables;
    if same {
      NeededIs(s, l, r, variables);
    }
  }

  lemma NeededIs(s: Setting, l: Expr, r: Expr, variables: Renaming)
    requires s.Acyclic() && Witness(s, variables, l, r)
    requires Equatable(s, l, r) ==> Extends(variables, Needed(s, l, r))
    ensures Equatable(s, l, r) && variables == Needed(s, l, r)
  {
    ExtendsAsLarge(variables, Needed(s, l, r));
  }

  // ----- What it means --------------------------------------------------------------------------

  // The variables that are compared by identity.
  ghost function Shared(s: Setting, l: Expr, r: Expr): set<Variable>
    requires s.Acyclic()
    decreases s.Height(l), l
  {
    if SameReference(l, r) then Mentions(l)
    else if l.Cast? && r.Cast? then Shared(s, l.operand, r.operand)
    else if l.Reference? && r.Reference? then
      if s.program.InfoOf(l.variable).Initialised? && s.program.InfoOf(r.variable).Initialised? then
        Shared(s, s.program.InfoOf(l.variable).initial, s.program.InfoOf(r.variable).initial)
      else {}
    else if l.Operation? && r.Operation? then Shared(s, l.left, r.left) + Shared(s, l.right, r.right)
    else if l.Member? && r.Member? then Shared(s, l.base, r.base)
    else if l.Subscript? && r.Subscript? then Shared(s, l.base, r.base) + Shared(s, l.index, r.index)
    else if l.Prefix? && r.Prefix? then Shared(s, l.operand, r.operand)
    else if l.Conditional? && r.Conditional? then
      Shared(s, l.condition, r.condition) + Shared(s, l.whenTrue, r.whenTrue) + Shared(s, l.whenFalse, r.whenFalse)
    else {}
  }

  // Renamed indices have equal values, and so have the shared variables.
  ghost predicate Related(s: Setting, names: Renaming, shared: set<Variable>, env1: Environment, env2: Environment) {
    && Consistent(s.program, s.meaning, env1) && Consistent(s.program, s.meaning, env2)
    && (forall v :: v in names ==> env1(v) == env2(names[v]))
    && (forall v :: v in shared ==> env1(v) == env2(v))
  }

  lemma {:induction false} AlikeMeansEqual(s: Setting, names: Renaming, l: Expr, r: Expr, env1: Environment, env2: Environment)
    requires s.Acyclic() && Alike(s, names, l, r) && Related(s, names, Shared(s, l, r), env1, env2)
    ensures Eval(s.meaning, l, env1) == Eval(s.meaning, r, env2)
    decreases s.Height(l), l
  {
    if SameReference(l, r) {
      SameReferenceIsEqual(l, r);
      EvalAgrees(s.meaning, l, env1, env2);
    } else if l.Cast? {
      AlikeMeansEqual(s, names, l.operand, r.operand, env1, env2);
    } else if l.Reference? && r.Reference? {
      if !s.program.InfoOf(l.variable).Index? && !s.program.InfoOf(r.variable).Index? {
        AlikeMeansEqual(s, names, s.program.InfoOf(l.variable).initial, s.program.InfoOf(r.variable).initial, env1, env2);
      }
    } else if l.Operation? {
      AlikeMeansEqual(s, names, l.left, r.left, env1, env2);
      AlikeMeansEqual(s, names, l.right, r.right, env1, env2);
    } else if l.Member? {
      AlikeMeansEqual(s, names, l.base, r.base, env1, env2);
    } else if l.Subscript? {
      AlikeMeansEqual(s, names, l.base, r.base, env1, env2);
      AlikeMeansEqual(s, names, l.index, r.index, env1, env2);
    } else if l.Prefix? {
      AlikeMeansEqual(s, names, l.operand, r.operand, env1, env2);
    } else if l.Conditional? {
      AlikeMeansEqual(s, names, l.condition, r.condition, env1, env2);
      AlikeMeansEqual(s, names, l.whenTrue, r.whenTrue, env1, env2);
      AlikeMeansEqual(s, names, l.whenFalse, r.whenFalse, env1, env2);
    } else if AlikeConstants(s, l, r) {
      FoldIsEval(s.program, s.meaning, l, env1);
      FoldIsEval(s.program, s.meaning, r, env2);
    }
  }

  // ----- Matched loops count alike --------------------------------------------------------------

  ghost function SharedByLoops(s: Setting, l: Loop, r: Loop): set<Variable>
    requires s.Acyclic()
  {
    Shared(s, l.initial, r.initial) + Shared(s, l.bound, r.bound)
    + if l.increment.By? && r.increment.By? then Shared(s, l.increment.step, r.increment.step) else {}
  }

  predicate Continues(m: Meaning, loop: Loop, v: Variable, env: Environment) {
    if loop.inclusive then env(v) <= Eval(m, loop.bound, env) else env(v) < Eval(m, loop.bound, env)
  }

  function Next(m: Meaning, loop: Loop, v: Variable, env: Environment): int {
    match loop.increment
    case Unit => env(v) + 1
    case By(subtract, step) => if subtract then env(v) - Eval(m, step, env) else env(v) + Eval(m, step, env)
  }

  // The environments at the loop's successive tests, the last of which fails.
  ghost predicate RunOf(m: Meaning, loop: Loop, v: Variable, before: Environment, run: seq<Environment>) {
    && run != [] && run[0](v) == Eval(m, loop.initial, before)
    && (forall k :: 0 <= k < |run| - 1 ==> Continues(m, loop, v, run[k]) && run[k + 1](v) == Next(m, loop, v, run[k]))
    && !Continues(m, loop, v, run[|run| - 1])
  }

  // Runs of the two loops in surroundings that stay related while the indices are equal.
  datatype Runs = Runs(l: Variable, r: Variable, before1: Environment, run1: seq<Environment>,
                       before2: Environment, run2: seq<Environment>) {
    ghost predicate Valid(s: Setting, names: Renaming)
      requires s.Acyclic()
    {
      && l in names && names[l] == r && AlikeLoops(s, names, l, r)
      && var a, b := s.program.InfoOf(l).loop, s.program.InfoOf(r).loop;
         && RunOf(s.meaning, a, l, before1, run1) && RunOf(s.meaning, b, r, before2, run2)
         && Related(s, names, SharedByLoops(s, a, b), before1, before2)
         && (forall k :: 0 <= k < |run1| && k < |run2| && run1[k](l) == run2[k](r) ==>
                           Related(s, names, SharedByLoops(s, a, b), run1[k], run2[k]))
    }
  }

  lemma RelatedFewer(s: Setting, names: Renaming, shared: set<Variable>, fewer: set<Variable>, env1: Environment, env2: Environment)
    requires Related(s, names, shared, env1, env2) && fewer <= shared
    ensures Related(s, names, fewer, env1, env2)
  {
  }

  // One test and one increment of two loops that are alike.
  lemma LoopsStep(s: Setting, names: Renaming, l: Variable, r: Variable, env1: Environment, env2: Environment)
    requires s.Acyclic() && AlikeLoops(s, names, l, r) && env1(l) == env2(r)
    requires Related(s, names, SharedByLoops(s, s.program.InfoOf(l).loop, s.program.InfoOf(r).loop), env1, env2)
    ensures
      var a, b := s.program.InfoOf(l).loop, s.program.InfoOf(r).loop;
      && Continues(s.meaning, a, l, env1) == Continues(s.meaning, b, r, env2)
      && Next(s.meaning, a, l, env1) == Next(s.meaning, b, r, env2)
  {
    var a, b := s.program.InfoOf(l).loop, s.program.InfoOf(r).loop;
    var shared := SharedByLoops(s, a, b);
    RelatedFewer(s, names, shared, Shared(s, a.bound, b.bound), env1, env2);
    AlikeMeansEqual(s, names, a.bound, b.bound, env1, env2);
    if a.increment.By? {
      RelatedFewer(s, names, shared, Shared(s, a.increment.step, b.increment.step), env1, env2);
      AlikeMeansEqual(s, names, a.increment.step, b.increment.step, env1, env2);
    }
  }

  lemma {:induction false} SameIndexAt(s: Setting, names: Renaming, runs: Runs, k: nat)
    requires s.Acyclic() && runs.Valid(s, names) && k < |runs.run1| && k < |runs.run2|
    ensures runs.run1[k](runs.l) == runs.run2[k](runs.r)
    decreases k
  {
    var a, b := s.program.InfoOf(runs.l).loop, s.program.InfoOf(runs.r).loop;
    if k == 0 {
      RelatedFewer(s, names, SharedByLoops(s, a, b), Shared(s, a.initial, b.initial), runs.before1, runs.before2);
      AlikeMeansEqual(s, names, a.initial, b.initial, runs.before1, runs.before2);
    } else {
      SameIndexAt(s, names, runs, k - 1);
      LoopsStep(s, names, runs.l, runs.r, runs.run1[k - 1], runs.run2[k - 1]);
    }
  }

  // Matched loops run the same number of times, with the same index values in the same order.
  lemma SameIndices(s: Setting, names: Renaming, runs: Runs)
    requires s.Acyclic() && runs.Valid(s, names)
    ensures |runs.run1| == |runs.run2|
    ensures forall k :: 0 <= k < |runs.run1| ==> runs.run1[k](runs.l) == runs.run2[k](runs.r)
  {
    forall k | 0 <= k < |runs.run1| && k < |runs.run2|
      ensures runs.run1[k](runs.l) == runs.run2[k](runs.r)
    {
      SameIndexAt(s, names, runs, k);
    }
    var last := if |runs.run1| < |runs.run2| then |runs.run1| - 1 else |runs.run2| - 1;
    LoopsStep(s, names, runs.l, runs.r, runs.run1[last], runs.run2[last]);
  }
}
