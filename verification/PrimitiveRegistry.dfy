// The memoised classifier of forwarding functions (src/DavC310TargetRecipe.cpp:2455-2621), over a fixed
// table of template kinds.
module PrimitiveRegistryModel {
  import opened Primitives

  // ----- Functions as the classifier sees them --------------------------------------------------

  // A function stands for its canonical declaration.
  type Function(==) = nat

  // An argument or operand: a direct reference to a parameter of the enclosing function, or anything else.
  datatype Argument = Parameter(index: nat) | OtherArgument

  // unresolved lists the lookup's declarations, None for one that is not a function.
  datatype Callee = Direct(declared: Function) | Reference(declared: Function)
                  | Unresolved(declarations: seq<Option<Function>>, requiresADL: bool) | OtherCallee

  datatype Value = Division(left: Argument, right: Argument) | Call(callee: Callee, arguments: seq<Argument>) | OtherValue

  datatype Statement = Return(value: Value) | OtherStatement

  // floating: result and parameters are one real floating type.  complete: the verdict of the source scan.
  datatype Definition = Definition(parameters: nat, floating: bool, device: bool, body: Option<seq<Statement>>,
                                   complete: map<Kind, bool>)

  datatype Declaration = Declaration(parameters: nat, floating: bool, annotated: Option<Kind>, standard: Option<Kind>,
                                     definition: Option<Definition>)

  datatype Program = Program(declarations: map<Function, Declaration>, templateKinds: map<Function, Option<Kind>>,
                             allowAnnotated: bool)

  predicate Signature(parameters: nat, floating: bool, kind: Kind) {
    parameters == Arity(kind) && floating
  }

  function Signed(kind: Option<Kind>, parameters: nat, floating: bool): Option<Kind> {
    if kind.Some? && Signature(parameters, floating, kind.value) then kind else None
  }

  // The kind a function has without looking at its body.
  function Base(p: Program, f: Function): Option<Kind> {
    if f !in p.declarations then None
    else
      var d := p.declarations[f];
      var annotated := Signed(if p.allowAnnotated then d.annotated else None, d.parameters, d.floating);
      if annotated.Some? then annotated else Signed(d.standard, d.parameters, d.floating)
  }

  // The statements of the body the classifier may look into.
  function Body(p: Program, f: Function): Option<seq<Statement>> {
    if Base(p, f).None? && f in p.declarations && p.declarations[f].definition.Some? && p.declarations[f].definition.value.device
    then p.declarations[f].definition.value.body
    else None
  }

  predicate Complete(p: Program, d: Definition, kind: Kind) {
    p.allowAnnotated || (kind in d.complete && d.complete[kind])
  }

  predicate InOrder(arguments: seq<Argument>) {
    forall i :: 0 <= i < |arguments| ==> arguments[i] == Parameter(i)
  }

  // ----- Forwarding chains ----------------------------------------------------------------------

  // f forwards its parameters in order to kind through a chain of at most n calls.
  ghost predicate Derives(p: Program, f: Function, kind: Kind, n: nat)
    decreases n, 0
  {
    || Base(p, f) == Some(kind)
    || (&& n > 0 && Body(p, f).Some? && Body(p, f).value != []
        && var d := p.declarations[f].definition.value;
           && Signature(d.parameters, d.floating, kind) && Complete(p, d, kind)
           && forall i :: 0 <= i < |Body(p, f).value| ==> Forwards(p, d.parameters, Body(p, f).value[i], kind, n - 1))
  }

  ghost predicate Forwards(p: Program, parameters: nat, statement: Statement, kind: Kind, n: nat)
    decreases n, 3
  {
    && statement.Return?
    && match statement.value
       case Division(left, right) => kind == Divide && parameters == 2 && left == Parameter(0) && right == Parameter(1)
       case Call(callee, arguments) =>
         |arguments| == Arity(kind) == parameters && InOrder(arguments) && CalleeDerives(p, callee, kind, n)
       case OtherValue => false
  }

  ghost predicate CalleeDerives(p: Program, callee: Callee, kind: Kind, n: nat)
    decreases n, 2
  {
    match callee
    case Direct(f) => Derives(p, f, kind, n)
    case Reference(f) => NamedDerives(p, f, kind, n)
    case Unresolved(declarations, _) =>
      && (exists i :: 0 <= i < |declarations| && declarations[i].Some?)
      && (forall i :: 0 <= i < |declarations| && declarations[i].Some? ==> NamedDerives(p, declarations[i].value, kind, n))
    case OtherCallee => false
  }

  // A name stands for the template it was instantiated from when the table has one.
  ghost predicate NamedDerives(p: Program, f: Function, kind: Kind, n: nat)
    decreases n, 1
  {
    if f in p.templateKinds then p.templateKinds[f] == Some(kind) else Derives(p, f, kind, n)
  }

  // A longer allowance does not lose a chain.
  lemma {:induction false} DerivesLonger(p: Program, f: Function, kind: Kind, n: nat)
    requires Derives(p, f, kind, n)
    ensures Derives(p, f, kind, n + 1)
    decreases n, 0
  {
    if Base(p, f) != Some(kind) {
      var d := p.declarations[f].definition.value;
      forall i | 0 <= i < |Body(p, f).value|
        ensures Forwards(p, d.parameters, Body(p, f).value[i], kind, n)
      {
        ForwardsLonger(p, d.parameters, Body(p, f).value[i], kind, n - 1);
      }
    }
  }

  lemma {:induction false} NamedLonger(p: Program, f: Function, kind: Kind, n: nat)
    requires NamedDerives(p, f, kind, n)
    ensures NamedDerives(p, f, kind, n + 1)
    decreases n, 1
  {
    if f !in p.templateKinds {
      DerivesLonger(p, f, kind, n);
    }
  }

  lemma {:induction false} CalleeLonger(p: Program, callee: Callee, kind: Kind, n: nat)
    requires CalleeDerives(p, callee, kind, n)
    ensures CalleeDerives(p, callee, kind, n + 1)
    decreases n, 2
  {
    match callee
    case Direct(f) => DerivesLonger(p, f, kind, n);
    case Reference(f) => NamedLonger(p, f, kind, n);
    case Unresolved(declarations, _) =>
      forall i | 0 <= i < |declarations| && declarations[i].Some?
        ensures NamedDerives(p, declarations[i].value, kind, n + 1)
      {
        NamedLonger(p, declarations[i].value, kind, n);
      }
    case OtherCallee =>
  }

  lemma {:induction false} ForwardsLonger(p: Program, parameters: nat, statement: Statement, kind: Kind, n: nat)
    requires Forwards(p, parameters, statement, kind, n)
    ensures Forwards(p, parameters, statement, kind, n + 1)
    decreases n, 3
  {
    if statement.value.Call? {
      CalleeLonger(p, statement.value.callee, kind, n);
    }
  }

  lemma {:induction false} ForwardsMonotone(p: Program, parameters: nat, statement: Statement, kind: Kind, n: nat, m: nat)
    requires Forwards(p, parameters, statement, kind, n) && n <= m
    ensures Forwards(p, parameters, statement, kind, m)
    decreases m - n
  {
    if n < m {
      ForwardsLonger(p, parameters, statement, kind, n);
      ForwardsMonotone(p, parameters, statement, kind, n + 1, m);
    }
  }

  // ----- A function has at most one kind --------------------------------------------------------

  lemma {:induction false} OneKind(p: Program, f: Function, k: Kind, n: nat, l: Kind, m: nat)
    requires Derives(p, f, k, n) && Derives(p, f, l, m)
    ensures k == l
    decreases n, 0
  {
    if Base(p, f).None? {
      var d := p.declarations[f].definition.value;
      ForwardsOneKind(p, d.parameters, Body(p, f).value[0], k, n - 1, l, m - 1);
    }
  }

  lemma {:induction false} NamedOneKind(p: Program, f: Function, k: Kind, n: nat, l: Kind, m: nat)
    requires NamedDerives(p, f, k, n) && NamedDerives(p, f, l, m)
    ensures k == l
    decreases n, 1
  {
    if f !in p.templateKinds {
      OneKind(p, f, k, n, l, m);
    }
  }

  lemma {:induction false} CalleeOneKind(p: Program, callee: Callee, k: Kind, n: nat, l: Kind, m: nat)
    requires CalleeDerives(p, callee, k, n) && CalleeDerives(p, callee, l, m)
    ensures k == l
    decreases n, 2
  {
    match callee
    case Direct(f) => OneKind(p, f, k, n, l, m);
    case Reference(f) => NamedOneKind(p, f, k, n, l, m);
    case Unresolved(declarations, _) =>
      var i :| 0 <= i < |declarations| && declarations[i].Some?;
      NamedOneKind(p, declarations[i].value, k, n, l, m);
    case OtherCallee =>
  }

  lemma {:induction false} ForwardsOneKind(p: Program, parameters: nat, statement: Statement, k: Kind, n: nat, l: Kind, m: nat)
    requires Forwards(p, parameters, statement, k, n) && Forwards(p, parameters, statement, l, m)
    ensures k == l
    decreases n, 3
  {
    if statement.value.Call? {
      CalleeOneKind(p, statement.value.callee, k, n, l, m);
    }
  }

  // ----- Exact answers --------------------------------------------------------------------------

  // answer is the kind of a chain from f, and there is no chain when it is None.
  ghost predicate KindIs(p: Program, f: Function, answer: Option<Kind>) {
    if answer.Some? then exists n: nat :: Derives(p, f, answer.value, n) else forall kind, n: nat :: !Derives(p, f, kind, n)
  }

  lemma OneAnswer(p: Program, f: Function, a: Option<Kind>, b: Option<Kind>)
    requires KindIs(p, f, a) && KindIs(p, f, b)
    ensures a == b
  {
    if a.Some? {
      var n: nat :| Derives(p, f, a.value, n);
      if b.Some? {
        var m: nat :| Derives(p, f, b.value, m);
        OneKind(p, f, a.value, n, b.value, m);
      }
    }
  }

  ghost predicate NamedKindIs(p: Program, f: Function, answer: Option<Kind>) {
    if answer.Some? then exists n: nat :: NamedDerives(p, f, answer.value, n) else forall kind, n: nat :: !NamedDerives(p, f, kind, n)
  }

  ghost predicate CalleeKindIs(p: Program, callee: Callee, answer: Option<Kind>) {
    if answer.Some? then exists n: nat :: CalleeDerives(p, callee, answer.value, n)
    else forall kind, n: nat :: !CalleeDerives(p, callee, kind, n)
  }

  ghost predicate StatementKindIs(p: Program, parameters: nat, statement: Statement, answer: Option<Kind>) {
    if answer.Some? then exists n: nat :: Forwards(p, parameters, statement, answer.value, n)
    else forall kind, n: nat :: !Forwards(p, parameters, statement, kind, n)
  }

  // ----- The registry ---------------------------------------------------------------------------

  // Every chain from an active function runs through f and is longer than the chain from f.
  ghost predicate Waiting(p: Program, active: set<Function>, f: Function) {
    forall a, kind, n: nat :: a in active && Derives(p, a, kind, n) ==> n > 0 && Derives(p, f, kind, n - 1)
  }

  ghost predicate NamedWaiting(p: Program, active: set<Function>, f: Function) {
    forall a, kind, n: nat :: a in active && Derives(p, a, kind, n) ==> n > 0 && NamedDerives(p, f, kind, n - 1)
  }

  ghost predicate CalleeWaiting(p: Program, active: set<Function>, callee: Callee) {
    forall a, kind, n: nat :: a in active && Derives(p, a, kind, n) ==> n > 0 && CalleeDerives(p, callee, kind, n - 1)
  }

  ghost predicate StatementWaiting(p: Program, active: set<Function>, parameters: nat, statement: Statement) {
    forall a, kind, n: nat :: a in active && Derives(p, a, kind, n) ==> n > 0 && Forwards(p, parameters, statement, kind, n - 1)
  }

  // The active functions also wait on every statement of a body they wait on, and so does its function.
  lemma WaitingEnters(p: Program, active: set<Function>, f: Function, i: nat)
    requires Waiting(p, active, f) && Body(p, f).Some? && i < |Body(p, f).value|
    ensures StatementWaiting(p, active + {f}, p.declarations[f].definition.value.parameters, Body(p, f).value[i])
  {
    var parameters, statement := p.declarations[f].definition.value.parameters, Body(p, f).value[i];
    forall a, kind, n: nat | a in active + {f} && Derives(p, a, kind, n)
      ensures n > 0 && Forwards(p, parameters, statement, kind, n - 1)
    {
      if a in active {
        assert Derives(p, f, kind, n - 1);
        ForwardsLonger(p, parameters, statement, kind, n - 2);
      }
    }
  }

  // A function that waits on itself has no chain.
  lemma {:induction false} CycleHasNoChain(p: Program, active: set<Function>, f: Function, kind: Kind, n: nat)
    requires f in active && Waiting(p, active, f)
    ensures !Derives(p, f, kind, n)
  {
    if Derives(p, f, kind, n) {
      CycleHasNoChain(p, active, f, kind, n - 1);
    }
  }

  // No statement of a body can be left out of a chain.
  ghost predicate BodyKindIs(p: Program, f: Function, answer: Option<Kind>)
    requires Body(p, f).Some?
  {
    var statements, parameters := Body(p, f).value, p.declarations[f].definition.value.parameters;
    if answer.Some? then statements != [] && exists n: nat :: AllForward(p, parameters, statements, answer.value, n)
    else statements == [] || forall kind, n: nat :: !AllForward(p, parameters, statements, kind, n)
  }

  ghost predicate AllForward(p: Program, parameters: nat, statements: seq<Statement>, kind: Kind, n: nat) {
    forall i :: 0 <= i < |statements| ==> Forwards(p, parameters, statements[i], kind, n)
  }

  lemma AllForwardExtend(p: Program, parameters: nat, statements: seq<Statement>, i: nat, kind: Kind, n: nat, m: nat)
    returns (most: nat)
    requires i < |statements|
    requires AllForward(p, parameters, statements[..i], kind, n) && Forwards(p, parameters, statements[i], kind, m)
    ensures AllForward(p, parameters, statements[..i + 1], kind, most)
  {
    most := if n < m then m else n;
    var taken := statements[..i + 1];
    forall j | 0 <= j < |taken|
      ensures Forwards(p, parameters, taken[j], kind, most)
    {
      if j < i {
        assert statements[..i][j] == statements[j];
        ForwardsMonotone(p, parameters, statements[j], kind, n, most);
      } else {
        ForwardsMonotone(p, parameters, statements[i], kind, m, most);
      }
    }
  }

  lemma BodyDecides(p: Program, f: Function, answer: Option<Kind>)
    requires Body(p, f).Some? && BodyKindIs(p, f, answer)
    ensures
      var d := p.declarations[f].definition.value;
      KindIs(p, f, if answer.Some? && Signature(d.parameters, d.floating, answer.value) && Complete(p, d, answer.value)
                   then answer else None)
  {
    var statements, d := Body(p, f).value, p.declarations[f].definition.value;
    if answer.Some? {
      var n: nat :| AllForward(p, d.parameters, statements, answer.value, n);
      if Signature(d.parameters, d.floating, answer.value) && Complete(p, d, answer.value) {
        assert Derives(p, f, answer.value, n + 1);
      }
      forall k, m: nat | Derives(p, f, k, m)
        ensures k == answer.value
      {
        ForwardsOneKind(p, d.parameters, statements[0], k, m - 1, answer.value, n);
      }
    } else {
      forall k, m: nat
        ensures !Derives(p, f, k, m)
      {
        assert m > 0 ==> statements == [] || !AllForward(p, d.parameters, statements, k, m - 1);
      }
    }
  }

  lemma BaseDecides(p: Program, f: Function)
    requires Body(p, f).None?
    ensures KindIs(p, f, Base(p, f))
  {
    forall k, n: nat
      ensures Derives(p, f, k, n) <==> Base(p, f) == Some(k)
    {
    }
    if Base(p, f).Some? {
      var n: nat :| Derives(p, f, Base(p, f).value, n);
    }
  }

  // A disagreement between two declarations or statements rules out a chain.
  lemma NoBodyChain(p: Program, f: Function, i: nat, earlier: Option<Kind>, found: Option<Kind>)
    requires Body(p, f).Some? && i < |Body(p, f).value|
    requires StatementKindIs(p, p.declarations[f].definition.value.parameters, Body(p, f).value[i], found)
    requires
      var parameters := p.declarations[f].definition.value.parameters;
      earlier.Some? ==> i > 0 && exists n: nat :: Forwards(p, parameters, Body(p, f).value[0], earlier.value, n)
    requires found.None? || (earlier.Some? && earlier != found)
    ensures BodyKindIs(p, f, None)
  {
    var statements, parameters := Body(p, f).value, p.declarations[f].definition.value.parameters;
    forall k, n: nat
      ensures !AllForward(p, parameters, statements, k, n)
    {
      if AllForward(p, parameters, statements, k, n) {
        assert Forwards(p, parameters, statements[i], k, n);
        if found.Some? {
          var m: nat :| Forwards(p, parameters, statements[i], found.value, m);
          var l: nat :| Forwards(p, parameters, statements[0], earlier.value, l);
          ForwardsOneKind(p, parameters, statements[i], k, n, found.value, m);
          ForwardsOneKind(p, parameters, statements[0], k, n, earlier.value, l);
        }
      }
    }
  }

  lemma NoCalleeChain(p: Program, declarations: seq<Option<Function>>, requiresADL: bool, i: nat, first: nat,
                      earlier: Option<Kind>, found: Option<Kind>)
    requires i < |declarations| && declarations[i].Some? && NamedKindIs(p, declarations[i].value, found)
    requires earlier.Some? ==> first < |declarations| && declarations[first].Some? && NamedKindIs(p, declarations[first].value, earlier)
    requires found.None? || (earlier.Some? && earlier != found)
    ensures CalleeKindIs(p, Unresolved(declarations, requiresADL), None)
  {
    forall k, n: nat
      ensures !CalleeDerives(p, Unresolved(declarations, requiresADL), k, n)
    {
      if CalleeDerives(p, Unresolved(declarations, requiresADL), k, n) {
        assert NamedDerives(p, declarations[i].value, k, n);
        if found.Some? {
          var m: nat :| NamedDerives(p, declarations[i].value, found.value, m);
          var l: nat :| NamedDerives(p, declarations[first].value, earlier.value, l);
          NamedOneKind(p, declarations[i].value, k, n, found.value, m);
          NamedOneKind(p, declarations[first].value, k, n, earlier.value, l);
        }
      }
    }
  }

  lemma {:induction false} NamedMonotone(p: Program, f: Function, kind: Kind, n: nat, m: nat)
    requires NamedDerives(p, f, kind, n) && n <= m
    ensures NamedDerives(p, f, kind, m)
    decreases m - n
  {
    if n < m {
      NamedLonger(p, f, kind, n);
      NamedMonotone(p, f, kind, n + 1, m);
    }
  }

  // All functions among the declarations have chains to one kind of length at most n.
  ghost predicate AllNamed(p: Program, declarations: seq<Option<Function>>, kind: Kind, n: nat) {
    forall i :: 0 <= i < |declarations| && declarations[i].Some? ==> NamedDerives(p, declarations[i].value, kind, n)
  }

  lemma AllNamedExtend(p: Program, declarations: seq<Option<Function>>, i: nat, kind: Kind, n: nat, m: nat)
    returns (most: nat)
    requires i < |declarations| && declarations[i].Some?
    requires AllNamed(p, declarations[..i], kind, n) && NamedDerives(p, declarations[i].value, kind, m)
    ensures AllNamed(p, declarations[..i + 1], kind, most)
  {
    most := if n < m then m else n;
    var taken := declarations[..i + 1];
    forall j | 0 <= j < |taken| && taken[j].Some?
      ensures NamedDerives(p, taken[j].value, kind, most)
    {
      if j < i {
        assert declarations[..i][j] == declarations[j];
        NamedMonotone(p, declarations[j].value, kind, n, most);
      } else {
        NamedMonotone(p, declarations[i].value, kind, m, most);
      }
    }
  }

  lemma CallDecides(p: Program, parameters: nat, callee: Callee, arguments: seq<Argument>, called: Option<Kind>)
    requires CalleeKindIs(p, callee, called)
    ensures StatementKindIs(p, parameters, Return(Call(callee, arguments)),
                            if called.Some? && |arguments| == Arity(called.value) == parameters && InOrder(arguments)
                            then called else None)
  {
    var statement := Return(Call(callee, arguments));
    if called.Some? {
      var n: nat :| CalleeDerives(p, callee, called.value, n);
      forall k, m: nat | CalleeDerives(p, callee, k, m)
        ensures k == called.value
      {
        CalleeOneKind(p, callee, k, m, called.value, n);
      }
      if |arguments| == Arity(called.value) == parameters && InOrder(arguments) {
        assert Forwards(p, parameters, statement, called.value, n);
      }
    }
    forall k, m: nat
      ensures Forwards(p, parameters, statement, k, m) <==>
              |arguments| == Arity(k) == parameters && InOrder(arguments) && CalleeDerives(p, callee, k, m)
    {
    }
  }

  lemma DirectWaits(p: Program, active: set<Function>, f: Function)
    requires CalleeWaiting(p, active, Direct(f))
    ensures Waiting(p, active, f)
  {
    forall a, kind, n: nat | a in active && Derives(p, a, kind, n)
      ensures n > 0 && Derives(p, f, kind, n - 1)
    {
      assert CalleeDerives(p, Direct(f), kind, n - 1);
    }
  }

  lemma DirectDecides(p: Program, f: Function, kind: Option<Kind>)
    requires KindIs(p, f, kind)
    ensures CalleeKindIs(p, Direct(f), kind)
  {
    forall k, n: nat
      ensures CalleeDerives(p, Direct(f), k, n) <==> Derives(p, f, k, n)
    {
    }
  }

  lemma ReferenceWaits(p: Program, active: set<Function>, f: Function)
    requires CalleeWaiting(p, active, Reference(f))
    ensures NamedWaiting(p, active, f)
  {
    forall a, kind, n: nat | a in active && Derives(p, a, kind, n)
      ensures n > 0 && NamedDerives(p, f, kind, n - 1)
    {
      assert CalleeDerives(p, Reference(f), kind, n - 1);
    }
  }

  lemma ReferenceDecides(p: Program, f: Function, kind: Option<Kind>)
    requires NamedKindIs(p, f, kind)
    ensures CalleeKindIs(p, Reference(f), kind)
  {
    forall k, n: nat
      ensures CalleeDerives(p, Reference(f), k, n) <==> NamedDerives(p, f, k, n)
    {
    }
  }

  lemma NamedWaits(p: Program, active: set<Function>, f: Function)
    requires NamedWaiting(p, active, f) && f !in p.templateKinds
    ensures Waiting(p, active, f)
  {
    forall a, kind, n: nat | a in active && Derives(p, a, kind, n)
      ensures n > 0 && Derives(p, f, kind, n - 1)
    {
      assert NamedDerives(p, f, kind, n - 1);
    }
  }

  lemma NamedDecides(p: Program, f: Function, kind: Option<Kind>)
    requires KindIs(p, f, kind) && f !in p.templateKinds
    ensures NamedKindIs(p, f, kind)
  {
    forall k, n: nat
      ensures NamedDerives(p, f, k, n) <==> Derives(p, f, k, n)
    {
    }
  }

  lemma OverloadWaits(p: Program, active: set<Function>, declarations: seq<Option<Function>>, requiresADL: bool, i: nat)
    requires CalleeWaiting(p, active, Unresolved(declarations, requiresADL)) && i < |declarations| && declarations[i].Some?
    ensures NamedWaiting(p, active, declarations[i].value)
  {
    forall a, kind, n: nat | a in active && Derives(p, a, kind, n)
      ensures n > 0 && NamedDerives(p, declarations[i].value, kind, n - 1)
    {
      assert CalleeDerives(p, Unresolved(declarations, requiresADL), kind, n - 1);
    }
  }

  // ----- What decides a kind ----------------------------------------------------------------------

  // A call's callee has the kind, whichever of the functions it may be is called.
  ghost predicate HasKind(p: Program, callee: Callee, kind: Kind) {
    match callee
    case Direct(f) => KindIs(p, f, Some(kind))
    case Reference(f) => NameHasKind(p, f, kind)
    case Unresolved(declarations, _) =>
      && (exists i :: 0 <= i < |declarations| && declarations[i].Some?)
      && (forall i :: 0 <= i < |declarations| && declarations[i].Some? ==> NameHasKind(p, declarations[i].value, kind))
    case OtherCallee => false
  }

  ghost predicate NameHasKind(p: Program, f: Function, kind: Kind) {
    if f in p.templateKinds then p.templateKinds[f] == Some(kind) else KindIs(p, f, Some(kind))
  }

  // The statement returns the kind of the function's parameters in order.
  ghost predicate Returns(p: Program, statement: Statement, kind: Kind) {
    && statement.Return?
    && match statement.value
       case Division(left, right) => kind == Divide && left == Parameter(0) && right == Parameter(1)
       case Call(callee, arguments) =>
         arguments == (if kind == Divide then [Parameter(0), Parameter(1)] else [Parameter(0)]) && HasKind(p, callee, kind)
       case OtherValue => false
  }

  ghost predicate Fits(parameters: nat, floating: bool, kind: Kind) {
    parameters == (if kind == Divide then 2 else 1) && floating
  }

  ghost predicate ByAnnotation(p: Program, d: Declaration, kind: Kind) {
    p.allowAnnotated && d.annotated == Some(kind) && Fits(d.parameters, d.floating, kind)
  }

  ghost predicate ByStandard(d: Declaration, kind: Kind) {
    d.standard == Some(kind) && Fits(d.parameters, d.floating, kind)
  }

  // A device definition all of whose statements return the kind, and whose text, if it counts, is complete.
  ghost predicate ByBody(p: Program, d: Declaration, kind: Kind) {
    && d.definition.Some?
    && var e := d.definition.value;
       && e.device && Fits(e.parameters, e.floating, kind) && (p.allowAnnotated || (kind in e.complete && e.complete[kind]))
       && e.body.Some? && e.body.value != []
       && forall i :: 0 <= i < |e.body.value| ==> Returns(p, e.body.value[i], kind)
  }

  lemma CalleeHasKind(p: Program, callee: Callee, kind: Kind)
    ensures HasKind(p, callee, kind) <==> CalleeKindIs(p, callee, Some(kind))
  {
    match callee
    case Direct(f) => DirectHasKind(p, f, kind);
    case Reference(f) => ReferenceHasKind(p, f, kind);
    case Unresolved(declarations, adl) =>
      if HasKind(p, callee, kind) {
        var n := CommonLength(p, declarations, |declarations|, kind);
        assert declarations[..|declarations|] == declarations;
        assert CalleeDerives(p, callee, kind, n);
      }
      if n: nat :| CalleeDerives(p, callee, kind, n) {
        forall i | 0 <= i < |declarations| && declarations[i].Some?
          ensures NameHasKind(p, declarations[i].value, kind)
        {
          NamedKind(p, declarations[i].value, kind, n);
        }
      }
    case OtherCallee =>
  }

  lemma DirectHasKind(p: Program, f: Function, kind: Kind)
    ensures KindIs(p, f, Some(kind)) <==> CalleeKindIs(p, Direct(f), Some(kind))
  {
    forall n: nat
      ensures CalleeDerives(p, Direct(f), kind, n) <==> Derives(p, f, kind, n)
    {
    }
    if n: nat :| Derives(p, f, kind, n) {
      assert CalleeDerives(p, Direct(f), kind, n);
    }
  }

  lemma ReferenceHasKind(p: Program, f: Function, kind: Kind)
    ensures NameHasKind(p, f, kind) <==> CalleeKindIs(p, Reference(f), Some(kind))
  {
    forall n: nat
      ensures CalleeDerives(p, Reference(f), kind, n) <==> NamedDerives(p, f, kind, n)
    {
    }
    if NameHasKind(p, f, kind) {
      var n := NamedLength(p, f, kind);
      assert CalleeDerives(p, Reference(f), kind, n);
    }
    if n: nat :| NamedDerives(p, f, kind, n) {
      NamedKind(p, f, kind, n);
    }
  }

  lemma NamedKind(p: Program, f: Function, kind: Kind, n: nat)
    requires NamedDerives(p, f, kind, n)
    ensures NameHasKind(p, f, kind)
  {
    if f !in p.templateKinds {
      assert Derives(p, f, kind, n);
    }
  }

  lemma NamedLength(p: Program, f: Function, kind: Kind) returns (n: nat)
    requires NameHasKind(p, f, kind)
    ensures NamedDerives(p, f, kind, n)
  {
    n := 0;
    if f !in p.templateKinds {
      n :| Derives(p, f, kind, n);
    }
  }

  lemma {:induction false} CommonLength(p: Program, declarations: seq<Option<Function>>, k: nat, kind: Kind) returns (n: nat)
    requires k <= |declarations|
    requires forall i :: 0 <= i < |declarations| && declarations[i].Some? ==> NameHasKind(p, declarations[i].value, kind)
    ensures AllNamed(p, declarations[..k], kind, n)
  {
    n := 0;
    if k > 0 {
      n := CommonLength(p, declarations, k - 1, kind);
      if declarations[k - 1].Some? {
        var m := NamedLength(p, declarations[k - 1].value, kind);
        n := AllNamedExtend(p, declarations, k - 1, kind, n, m);
      }
    }
  }

  lemma InOrderIs(arguments: seq<Argument>, kind: Kind)
    ensures |arguments| == Arity(kind) && InOrder(arguments) <==>
            arguments == (if kind == Divide then [Parameter(0), Parameter(1)] else [Parameter(0)])
  {
  }

  lemma CallReturns(p: Program, parameters: nat, callee: Callee, arguments: seq<Argument>, kind: Kind)
    requires parameters == Arity(kind)
    ensures
      var statement := Return(Call(callee, arguments));
      Returns(p, statement, kind) <==> StatementKindIs(p, parameters, statement, Some(kind))
  {
    var statement := Return(Call(callee, arguments));
    InOrderIs(arguments, kind);
    CalleeHasKind(p, callee, kind);
    forall n: nat
      ensures Forwards(p, parameters, statement, kind, n) <==>
              |arguments| == Arity(kind) && InOrder(arguments) && CalleeDerives(p, callee, kind, n)
    {
    }
    if Returns(p, statement, kind) {
      var n: nat :| CalleeDerives(p, callee, kind, n);
      assert Forwards(p, parameters, statement, kind, n);
    }
    if n: nat :| Forwards(p, parameters, statement, kind, n) {
      assert CalleeDerives(p, callee, kind, n);
    }
  }

  lemma StatementReturns(p: Program, parameters: nat, statement: Statement, kind: Kind)
    requires parameters == Arity(kind)
    ensures Returns(p, statement, kind) <==> StatementKindIs(p, parameters, statement, Some(kind))
  {
    if statement.Return? && statement.value.Call? {
      CallReturns(p, parameters, statement.value.callee, statement.value.arguments, kind);
    } else {
      forall n: nat
        ensures Forwards(p, parameters, statement, kind, n) <==> Returns(p, statement, kind)
      {
      }
      var none: nat := 0;
      assert Forwards(p, parameters, statement, kind, none) <==> Returns(p, statement, kind);
    }
  }

  lemma {:induction false} StatementsForward(p: Program, parameters: nat, statements: seq<Statement>, k: nat, kind: Kind) returns (n: nat)
    requires k <= |statements| && parameters == Arity(kind)
    requires forall i :: 0 <= i < |statements| ==> Returns(p, statements[i], kind)
    ensures AllForward(p, parameters, statements[..k], kind, n)
  {
    n := 0;
    if k > 0 {
      n := StatementsForward(p, parameters, statements, k - 1, kind);
      StatementReturns(p, parameters, statements[k - 1], kind);
      var m: nat :| Forwards(p, parameters, statements[k - 1], kind, m);
      n := AllForwardExtend(p, parameters, statements, k - 1, kind, n, m);
    }
  }

  lemma BodyReturns(p: Program, f: Function, kind: Kind)
    requires f in p.declarations && Base(p, f).None?
    ensures KindIs(p, f, Some(kind)) <==> ByBody(p, p.declarations[f], kind)
  {
    var d := p.declarations[f];
    if KindIs(p, f, Some(kind)) {
      var n: nat :| Derives(p, f, kind, n);
      var e := d.definition.value;
      forall i | 0 <= i < |e.body.value|
        ensures Returns(p, e.body.value[i], kind)
      {
        var statement := Body(p, f).value[i];
        assert Forwards(p, e.parameters, statement, kind, n - 1);
        assert StatementKindIs(p, e.parameters, statement, Some(kind));
        StatementReturns(p, e.parameters, statement, kind);
      }
    } else if ByBody(p, d, kind) {
      var e := d.definition.value;
      var n := StatementsForward(p, e.parameters, e.body.value, |e.body.value|, kind);
      assert e.body.value[..|e.body.value|] == e.body.value;
      assert AllForward(p, e.parameters, Body(p, f).value, kind, n);
      assert Derives(p, f, kind, n + 1);
    }
  }

  // A kind is given for an annotation, where those count; failing that, for a standard declaration; failing
  // that, for a device definition that returns the kind of its parameters in order, in each of its statements.
  lemma KindGiven(p: Program, f: Function, kind: Kind)
    ensures KindIs(p, f, Some(kind)) <==>
            && f in p.declarations
            && var d := p.declarations[f];
               if d.annotated.Some? && ByAnnotation(p, d, d.annotated.value) then d.annotated == Some(kind)
               else if d.standard.Some? && ByStandard(d, d.standard.value) then d.standard == Some(kind)
               else ByBody(p, d, kind)
  {
    if f in p.declarations {
      if Base(p, f).None? {
        BodyReturns(p, f, kind);
      } else {
        BaseAlone(p, f, kind);
      }
    } else {
      forall n: nat
        ensures !Derives(p, f, kind, n)
      {
      }
    }
  }

  lemma BaseAlone(p: Program, f: Function, kind: Kind)
    requires Base(p, f).Some?
    ensures KindIs(p, f, Some(kind)) <==> Base(p, f) == Some(kind)
  {
    forall n: nat
      ensures Derives(p, f, kind, n) <==> Base(p, f) == Some(kind)
    {
    }
    var none: nat := 0;
    assert Derives(p, f, kind, none) <==> Base(p, f) == Some(kind);
  }

  // ----- The functions a body can lead to -------------------------------------------------------

  ghost predicate CalleeWithin(callee: Callee, reach: iset<Function>) {
    match callee
    case Direct(f) => f in reach
    case Reference(f) => f in reach
    case Unresolved(declarations, _) => forall i :: 0 <= i < |declarations| && declarations[i].Some? ==> declarations[i].value in reach
    case OtherCallee => true
  }

  ghost predicate StatementWithin(statement: Statement, reach: iset<Function>) {
    statement.Return? && statement.value.Call? ==> CalleeWithin(statement.value.callee, reach)
  }

  // The bodies of the functions call, by whatever kind of callee, only functions among them.
  ghost predicate Closed(p: Program, reach: iset<Function>) {
    forall f, i :: f in reach && Body(p, f).Some? && 0 <= i < |Body(p, f).value| ==> StatementWithin(Body(p, f).value[i], reach)
  }

  // Whether the lookup behind a callee is one the classifier searches.
  predicate Searched(callee: Callee, handledFundamentalOnly: bool) {
    callee.Unresolved? && callee.requiresADL ==> handledFundamentalOnly
  }

  class PrimitiveRegistry {
    const program: Program
    var functionKinds: map<Function, Option<Kind>>
    var active: set<Function>

    // Every remembered kind is exact, whatever was being classified when it was remembered.
    ghost predicate Valid()
      reads this
    {
      forall f :: f in functionKinds ==> KindIs(program, f, functionKinds[f])
    }

    // The kinds remembered since then are those of functions that were reached.
    twostate predicate Remembers(reach: iset<Function>)
      reads this
    {
      forall f :: f in functionKinds ==> f in old(functionKinds) || f in reach
    }

    constructor (program: Program)
      ensures this.program == program && functionKinds == map[] && active == {}
      ensures Valid()
    {
      this.program := program;
      functionKinds := map[];
      active := {};
    }

    // With kinds that have been remembered.
    constructor With(program: Program, kinds: map<Function, Option<Kind>>)
      requires forall f :: f in kinds ==> KindIs(program, f, kinds[f])
      ensures this.program == program && functionKinds == kinds && active == {}
      ensures Valid()
    {
      this.program := program;
      functionKinds := kinds;
      active := {};
    }

    method Classify(f: Function, ghost reach: iset<Function>) returns (kind: Option<Kind>)
      requires Valid() && Waiting(program, active, f)
      requires Closed(program, reach) && f in reach
      modifies this
      ensures Valid() && active == old(active) && Remembers(reach)
      ensures KindIs(program, f, kind)
      decreases program.declarations.Keys - active, 0
    {
      if f in functionKinds {
        return functionKinds[f];
      }
      if f in active {
        forall k, n: nat
          ensures !Derives(program, f, k, n)
        {
          CycleHasNoChain(program, active, f, k, n);
        }
        return None;
      }
      ghost var outer := active;
      active := active + {f};
      kind := Base(program, f);
      if kind.None? && Body(program, f).Some? {
        EnterBody(f, outer);
        kind := ClassifyBody(f, reach);
        BodyDecides(program, f, kind);
        var definition := program.declarations[f].definition.value;
        if kind.Some? && (!Signature(definition.parameters, definition.floating, kind.value)
                          || !Complete(program, definition, kind.value)) {
          kind := None;
        }
      } else {
        BaseDecides(program, f);
      }
      active := active - {f};
      assert active == outer;
      functionKinds := functionKinds[f := kind];
    }

    // Whether every statement of the body returns the same primitive of the parameters in order.
    method ClassifyBody(f: Function, ghost reach: iset<Function>) returns (kind: Option<Kind>)
      requires Valid() && Body(program, f).Some? && BodyWaiting(f)
      requires Closed(program, reach) && f in reach
      modifies this
      ensures Valid() && active == old(active) && Remembers(reach)
      ensures BodyKindIs(program, f, kind)
      decreases program.declarations.Keys - active, 5
    {
      var statements, parameters := Body(program, f).value, program.declarations[f].definition.value.parameters;
      kind := None;
      ghost var n: nat := 0;
      for i := 0 to |statements|
        invariant Valid() && active == old(active) && Remembers(reach) && BodyWaiting(f)
        invariant kind.Some? <==> i > 0
        invariant kind.Some? ==> AllForward(program, parameters, statements[..i], kind.value, n)
      {
        assert StatementWaiting(program, active, parameters, statements[i]);
        var candidate := ClassifyStatement(parameters, statements[i], reach);
        assert i > 0 ==> statements[..i][0] == statements[0];
        if candidate.None? || (kind.Some? && kind != candidate) {
          NoBodyChain(program, f, i, kind, candidate);
          return None;
        }
        ghost var m: nat :| Forwards(program, parameters, statements[i], candidate.value, m);
        n := AllForwardExtend(program, parameters, statements, i, candidate.value, n, m);
        kind := candidate;
      }
      assert statements[..|statements|] == statements;
    }

    method ClassifyStatement(parameters: nat, statement: Statement, ghost reach: iset<Function>) returns (kind: Option<Kind>)
      requires Valid() && StatementWaiting(program, active, parameters, statement)
      requires Closed(program, reach) && StatementWithin(statement, reach)
      modifies this
      ensures Valid() && active == old(active) && Remembers(reach)
      ensures StatementKindIs(program, parameters, statement, kind)
      decreases program.declarations.Keys - active, 4
    {
      if statement.OtherStatement? {
        return None;
      }
      match statement.value
      case Division(left, right) =>
        kind := if parameters == 2 && left == Parameter(0) && right == Parameter(1) then Some(Divide) else None;
        assert kind.Some? ==> Forwards(program, parameters, statement, Divide, 0);
      case Call(callee, arguments) =>
        var called := ClassifyCall(callee, true, reach);
        kind := if called.Some? && |arguments| == Arity(called.value) == parameters && InOrder(arguments) then called else None;
        CallDecides(program, parameters, callee, arguments, called);
      case OtherValue =>
        return None;
    }

    // handledFundamentalOnly: the caller knows that argument-dependent lookup finds nothing more.
    method ClassifyCall(callee: Callee, handledFundamentalOnly: bool, ghost reach: iset<Function>) returns (kind: Option<Kind>)
      requires Valid() && CalleeWaiting(program, active, callee)
      requires Closed(program, reach) && CalleeWithin(callee, reach)
      modifies this
      ensures Valid() && active == old(active) && Remembers(reach)
      ensures Searched(callee, handledFundamentalOnly) ==> CalleeKindIs(program, callee, kind)
      ensures !Searched(callee, handledFundamentalOnly) ==> kind.None?
      decreases program.declarations.Keys - active, 3
    {
      match callee
      case Direct(f) =>
        DirectWaits(program, active, f);
        kind := Classify(f, reach);
        DirectDecides(program, f, kind);
      case Reference(f) =>
        ReferenceWaits(program, active, f);
        kind := ClassifyFunctionOrTemplate(f, reach);
        ReferenceDecides(program, f, kind);
      case Unresolved(declarations, requiresADL) =>
        if requiresADL && !handledFundamentalOnly {
          return None;
        }
        kind := ClassifyOverloads(declarations, requiresADL, reach);
      case OtherCallee =>
        return None;
    }

    // Whether all the declarations of an unresolved lookup are one primitive; those that are not functions
    // are passed over.
    method ClassifyOverloads(declarations: seq<Option<Function>>, requiresADL: bool, ghost reach: iset<Function>)
      returns (kind: Option<Kind>)
      requires Valid() && CalleeWaiting(program, active, Unresolved(declarations, requiresADL))
      requires Closed(program, reach) && CalleeWithin(Unresolved(declarations, requiresADL), reach)
      modifies this
      ensures Valid() && active == old(active) && Remembers(reach)
      ensures CalleeKindIs(program, Unresolved(declarations, requiresADL), kind)
      decreases program.declarations.Keys - active, 2
    {
      kind := None;
      ghost var n, first: nat := 0, 0;
      for i := 0 to |declarations|
        invariant Valid() && active == old(active) && Remembers(reach)
        invariant CalleeWaiting(program, active, Unresolved(declarations, requiresADL))
        invariant kind.None? ==> forall j :: 0 <= j < i ==> declarations[j].None?
        invariant kind.Some? ==> AllNamed(program, declarations[..i], kind.value, n)
        invariant kind.Some? ==> first < i && declarations[first].Some? && NamedKindIs(program, declarations[first].value, kind)
      {
        if declarations[i].Some? {
          OverloadWaits(program, active, declarations, requiresADL, i);
          var candidate := ClassifyFunctionOrTemplate(declarations[i].value, reach);
          if candidate.None? || (kind.Some? && kind != candidate) {
            NoCalleeChain(program, declarations, requiresADL, i, first, kind, candidate);
            return None;
          }
          ghost var m: nat :| NamedDerives(program, declarations[i].value, candidate.value, m);
          if kind.None? {
            first := i;
          }
          n := AllNamedExtend(program, declarations, i, candidate.value, n, m);
          kind := candidate;
        }
      }
      assert declarations[..|declarations|] == declarations;
      if kind.Some? {
        assert CalleeDerives(program, Unresolved(declarations, requiresADL), kind.value, n);
      }
    }

    method ClassifyFunctionOrTemplate(f: Function, ghost reach: iset<Function>) returns (kind: Option<Kind>)
      requires Valid() && NamedWaiting(program, active, f)
      requires Closed(program, reach) && f in reach
      modifies this
      ensures Valid() && active == old(active) && Remembers(reach)
      ensures NamedKindIs(program, f, kind)
      decreases program.declarations.Keys - active, 1
    {
      if f in program.templateKinds {
        kind := program.templateKinds[f];
        assert kind.Some? ==> NamedDerives(program, f, kind.value, 0);
      } else {
        NamedWaits(program, active, f);
        kind := Classify(f, reach);
        NamedDecides(program, f, kind);
      }
    }

    // Each active function has its chain, if any, through every statement of f's body.
    ghost predicate BodyWaiting(f: Function)
      requires Body(program, f).Some?
      reads this
    {
      var statements, parameters := Body(program, f).value, program.declarations[f].definition.value.parameters;
      forall i :: 0 <= i < |statements| ==> StatementWaiting(program, active, parameters, statements[i])
    }

    lemma EnterBody(f: Function, outer: set<Function>)
      requires Body(program, f).Some? && Waiting(program, outer, f) && active == outer + {f}
      ensures BodyWaiting(f)
    {
      forall i | 0 <= i < |Body(program, f).value|
        ensures StatementWaiting(program, active, program.declarations[f].definition.value.parameters, Body(program, f).value[i])
      {
        WaitingEnters(program, outer, f, i);
      }
    }
  }

  // ----- What a chain means ---------------------------------------------------------------------

  // Values and primitives are abstract.  resolve is overload resolution: the declaration a lookup picks.
  // instance is the specialization that a call of a template in the table runs.
  datatype Semantics<!V> = Semantics(primitive: (Kind, seq<V>) -> V, resolve: seq<Function> -> Function,
                                     instance: Function -> Function) {
    ghost predicate Valid() {
      forall candidates :: candidates != [] ==> resolve(candidates) in candidates
    }
  }

  function Functions(declarations: seq<Option<Function>>): (r: seq<Function>)
    ensures forall f :: f in r <==> Some(f) in declarations
  {
    if declarations == [] then []
    else
      var rest := Functions(declarations[1..]);
      if declarations[0].Some? then [declarations[0].value] + rest else rest
  }

  // The result of calling f in device code, when it is reached within the given depth of calls.  A function
  // with a base kind is that primitive; any other runs the first statement of its body.
  function Run<V>(p: Program, m: Semantics<V>, f: Function, arguments: seq<V>, depth: nat): Option<V>
    decreases depth, 0
  {
    if Base(p, f).Some? then Some(m.primitive(Base(p, f).value, arguments))
    else if depth == 0 || Body(p, f).None? || Body(p, f).value == [] || Body(p, f).value[0].OtherStatement? then None
    else RunValue(p, m, Body(p, f).value[0].value, arguments, depth - 1)
  }

  function RunValue<V>(p: Program, m: Semantics<V>, value: Value, arguments: seq<V>, depth: nat): Option<V>
    decreases depth, 2
  {
    match value
    case Division(left, right) =>
      var operands := Pass([left, right], arguments);
      if operands.None? then None else Some(m.primitive(Divide, operands.value))
    case Call(callee, passed) =>
      var values := Pass(passed, arguments);
      if values.None? then None
      else (match callee
            case Direct(f) => Run(p, m, f, values.value, depth)
            case Reference(f) => RunNamed(p, m, f, values.value, depth)
            case Unresolved(declarations, _) =>
              if Functions(declarations) == [] then None
              else RunNamed(p, m, m.resolve(Functions(declarations)), values.value, depth)
            case OtherCallee => None)
    case OtherValue => None
  }

  function RunNamed<V>(p: Program, m: Semantics<V>, f: Function, arguments: seq<V>, depth: nat): Option<V>
    decreases depth, 1
  {
    Run(p, m, if f in p.templateKinds then m.instance(f) else f, arguments, depth)
  }

  // The instance of every template in the table is the table's primitive, at a depth of at least limit.
  ghost predicate InstancesRun<V(!new)>(p: Program, m: Semantics<V>, limit: nat) {
    forall t, arguments: seq<V>, depth: nat ::
      t in p.templateKinds && p.templateKinds[t].Some? && |arguments| == Arity(p.templateKinds[t].value) && limit <= depth ==>
        Run(p, m, m.instance(t), arguments, depth) == Some(m.primitive(p.templateKinds[t].value, arguments))
  }

  // The values of the operands that are parameters.
  function Pass<V>(operands: seq<Argument>, arguments: seq<V>): (r: Option<seq<V>>)
    ensures r.Some? ==> |r.value| == |operands|
    ensures r.Some? ==> forall i :: 0 <= i < |operands| ==>
                                      operands[i].Parameter? && operands[i].index < |arguments| && r.value[i] == arguments[operands[i].index]
    ensures (forall i :: 0 <= i < |operands| ==> operands[i].Parameter? && operands[i].index < |arguments|) ==> r.Some?
  {
    if operands == [] then Some([])
    else if operands[0].OtherArgument? || operands[0].index >= |arguments| then None
    else
      var rest := Pass(operands[1..], arguments);
      if rest.None? then None else Some([arguments[operands[0].index]] + rest.value)
  }

  lemma PassInOrder<V>(operands: seq<Argument>, arguments: seq<V>)
    requires InOrder(operands) && |operands| == |arguments|
    ensures Pass(operands, arguments) == Some(arguments)
  {
    assert Pass(operands, arguments).value == arguments;
  }

  // A chain runs to the primitive on every argument list, whichever overloads are picked.
  lemma {:induction false} ChainRuns<V(!new)>(p: Program, m: Semantics<V>, limit: nat, f: Function, kind: Kind, n: nat,
                                              arguments: seq<V>, depth: nat)
    requires m.Valid() && InstancesRun(p, m, limit) && Derives(p, f, kind, n) && n + limit <= depth && |arguments| == Arity(kind)
    ensures Run(p, m, f, arguments, depth) == Some(m.primitive(kind, arguments))
    decreases n, 0
  {
    if Base(p, f).None? {
      var d, first := p.declarations[f].definition.value, Body(p, f).value[0];
      assert Forwards(p, d.parameters, first, kind, n - 1);
      ValueRuns(p, m, limit, d.parameters, first, kind, n - 1, arguments, depth - 1);
    }
  }

  lemma {:induction false} NamedRuns<V(!new)>(p: Program, m: Semantics<V>, limit: nat, f: Function, kind: Kind, n: nat,
                                              arguments: seq<V>, depth: nat)
    requires m.Valid() && InstancesRun(p, m, limit) && NamedDerives(p, f, kind, n) && n + limit <= depth && |arguments| == Arity(kind)
    ensures RunNamed(p, m, f, arguments, depth) == Some(m.primitive(kind, arguments))
    decreases n, 1
  {
    if f !in p.templateKinds {
      ChainRuns(p, m, limit, f, kind, n, arguments, depth);
    }
  }

  lemma {:induction false} ValueRuns<V(!new)>(p: Program, m: Semantics<V>, limit: nat, parameters: nat, statement: Statement, kind: Kind,
                                              n: nat, arguments: seq<V>, depth: nat)
    requires m.Valid() && InstancesRun(p, m, limit) && Forwards(p, parameters, statement, kind, n)
    requires n + limit <= depth && |arguments| == Arity(kind)
    ensures RunValue(p, m, statement.value, arguments, depth) == Some(m.primitive(kind, arguments))
    decreases n, 3
  {
    match statement.value
    case Division(left, right) =>
      PassInOrder([left, right], arguments);
    case Call(callee, passed) =>
      PassInOrder(passed, arguments);
      match callee {
        case Direct(f) => ChainRuns(p, m, limit, f, kind, n, arguments, depth);
        case Reference(f) => NamedRuns(p, m, limit, f, kind, n, arguments, depth);
        case Unresolved(declarations, _) =>
          var i :| 0 <= i < |declarations| && declarations[i].Some?;
          assert declarations[i].value in Functions(declarations);
          var picked := m.resolve(Functions(declarations));
          assert Some(picked) in declarations;
          NamedRuns(p, m, limit, picked, kind, n, arguments, depth);
        case OtherCallee =>
      }
  }

  // A function the registry gives a kind is that primitive on all arguments, at the end of a chain of calls
  // whose length depends on the function and the instances of the templates alone.
  lemma KindIsMeaning<V(!new)>(p: Program, f: Function, kind: Kind, limit: nat)
    requires KindIs(p, f, Some(kind))
    ensures exists n: nat :: ComputesWithin<V>(p, f, kind, n, limit)
  {
    var n: nat :| Derives(p, f, kind, n);
    assert ComputesWithin<V>(p, f, kind, n + limit, limit) by {
      forall m: Semantics<V>, arguments: seq<V> | m.Valid() && InstancesRun(p, m, limit) && |arguments| == Arity(kind)
        ensures Run(p, m, f, arguments, n + limit) == Some(m.primitive(kind, arguments))
      {
        ChainRuns(p, m, limit, f, kind, n, arguments, n + limit);
      }
    }
  }

  ghost predicate ComputesWithin<V(!new)>(p: Program, f: Function, kind: Kind, n: nat, limit: nat) {
    forall m: Semantics<V>, arguments: seq<V> :: m.Valid() && InstancesRun(p, m, limit) && |arguments| == Arity(kind) ==>
      Run(p, m, f, arguments, n) == Some(m.primitive(kind, arguments))
  }

  // Unless annotations are allowed, a kind rests on the function's own signature and either its standard name
  // or a complete source body.
  lemma RestsOn(p: Program, f: Function, kind: Kind)
    requires !p.allowAnnotated && KindIs(p, f, Some(kind))
    ensures f in p.declarations
    ensures
      var declared := p.declarations[f];
      ByStandard(declared, kind) || ByBody(p, declared, kind)
  {
    KindGiven(p, f, kind);
  }

  // Functions whose bodies call the next one round a cycle, directly, by its name or as one of the functions of
  // a lookup, never get a kind.
  lemma CyclicForwarders(p: Program, cycle: seq<Function>, i: nat, kind: Option<Kind>)
    requires i < |cycle| && KindIs(p, cycle[i], kind)
    requires Cycle(p, cycle)
    ensures kind.None?
  {
    if kind.Some? {
      var n: nat :| Derives(p, cycle[i], kind.value, n);
      CycleDescends(p, cycle, i, kind.value, n);
    }
  }

  // The callee is g or may be g.  A name in the table stands for its template instead.
  ghost predicate MayCall(p: Program, callee: Callee, g: Function) {
    match callee
    case Direct(f) => f == g
    case Reference(f) => f == g && g !in p.templateKinds
    case Unresolved(declarations, _) => Some(g) in declarations && g !in p.templateKinds
    case OtherCallee => false
  }

  ghost predicate Reaches(p: Program, statement: Statement, g: Function) {
    statement.Return? && statement.value.Call? && MayCall(p, statement.value.callee, g)
  }

  ghost predicate ForwardsTo(p: Program, f: Function, g: Function) {
    Body(p, f).Some? && exists i :: 0 <= i < |Body(p, f).value| && Reaches(p, Body(p, f).value[i], g)
  }

  ghost predicate Cycle(p: Program, cycle: seq<Function>) {
    forall j :: 0 <= j < |cycle| ==> ForwardsTo(p, cycle[j], cycle[if j + 1 < |cycle| then j + 1 else 0])
  }

  lemma ReachedDerives(p: Program, parameters: nat, statement: Statement, g: Function, kind: Kind, n: nat)
    requires Reaches(p, statement, g) && Forwards(p, parameters, statement, kind, n)
    ensures Derives(p, g, kind, n)
  {
    assert CalleeDerives(p, statement.value.callee, kind, n);
    match statement.value.callee
    case Direct(_) =>
    case Reference(_) =>
      assert NamedDerives(p, g, kind, n);
    case Unresolved(declarations, _) =>
      var i :| 0 <= i < |declarations| && declarations[i] == Some(g);
      assert NamedDerives(p, declarations[i].value, kind, n);
  }

  lemma {:induction false} CycleDescends(p: Program, cycle: seq<Function>, i: nat, kind: Kind, n: nat)
    requires i < |cycle|
    requires Cycle(p, cycle)
    ensures !Derives(p, cycle[i], kind, n)
    decreases n
  {
    if Derives(p, cycle[i], kind, n) {
      var next := if i + 1 < |cycle| then i + 1 else 0;
      assert ForwardsTo(p, cycle[i], cycle[next]);
      var at :| 0 <= at < |Body(p, cycle[i]).value| && Reaches(p, Body(p, cycle[i]).value[at], cycle[next]);
      ReachedDerives(p, p.declarations[cycle[i]].definition.value.parameters, Body(p, cycle[i]).value[at], cycle[next], kind, n - 1);
      CycleDescends(p, cycle, next, kind, n - 1);
    }
  }
}
