// What the returns that the source scan counts compute (src/DavC310TargetRecipe.cpp:2137-2161): their tokens
// read as the statements that the registry classifies, with standard functions named as in lines 2406-2416.
module ReturnMeaning {
  import opened Primitives
  import opened ReturnTokens
  import opened ConditionalReturns
  import opened SourceBody
  import opened PrimitiveRegistryModel

  // ----- Reading the tokens ---------------------------------------------------------------------

  // The primitive that a function of a system header is by its name.
  function StandardKind(name: Token): Option<Kind> {
    if name == "exp" || name == "expf" || name == "__expf" then Some(Exp)
    else if name == "rsqrt" || name == "rsqrtf" || name == "__frsqrt_rn" then Some(Rsqrt)
    else if name == "__fdividef" then Some(Divide)
    else None
  }

  // What names stand for: the standard ones, and no others, for functions with a kind.
  ghost predicate Named(p: Program, named: Token -> Function) {
    forall name :: KindIs(p, named(name), StandardKind(name))
  }

  function ArgumentOf(names: seq<Token>, token: Token): (a: Argument)
    ensures a.Parameter? ==> a.index < |names| && names[a.index] == token
    ensures a.OtherArgument? ==> token !in names
  {
    if names == [] then OtherArgument
    else if names[|names| - 1] == token then Parameter(|names| - 1)
    else ArgumentOf(names[..|names| - 1], token)
  }

  // Tokens with commas between them.
  function ReadArguments(names: seq<Token>, s: seq<Token>): Option<seq<Argument>> {
    if s == [] then None
    else if |s| == 1 then Some([ArgumentOf(names, s[0])])
    else if s[1] != "," then None
    else match ReadArguments(names, s[2..])
      case None => None
      case Some(rest) => Some([ArgumentOf(names, s[0])] + rest)
  }

  // A parameter hides the function of its name.
  function CalleeOf(names: seq<Token>, named: Token -> Function, token: Token): PrimitiveRegistryModel.Callee {
    if token in names then OtherCallee else Direct(named(token))
  }

  // return x / y ; and return f ( x , ... ) ; as the registry's values.
  function ReadReturn(names: seq<Token>, named: Token -> Function, s: seq<Token>): Option<Value> {
    if |s| < 5 || s[0] != "return" || s[|s| - 1] != ";" then None
    else if |s| == 5 && s[2] == "/" then Some(Division(ArgumentOf(names, s[1]), ArgumentOf(names, s[3])))
    else if s[2] != "(" || s[|s| - 2] != ")" then None
    else match ReadArguments(names, s[3..|s| - 2])
      case None => None
      case Some(arguments) => Some(Call(CalleeOf(names, named, s[1]), arguments))
  }

  // The tokens are a statement that returns the kind of the parameters in order.
  ghost predicate ReadsAs(p: Program, named: Token -> Function, target: Target, s: seq<Token>) {
    && ReadReturn(target.parameters, named, s).Some?
    && Returns(p, Return(ReadReturn(target.parameters, named, s).value), target.kind)
  }

  ghost predicate Distinct(names: seq<Token>) {
    forall i, j :: 0 <= i < j < |names| ==> names[i] != names[j]
  }

  // No parameter has the name of a standard function of the kind.
  ghost predicate Unhidden(target: Target) {
    forall i :: 0 <= i < |target.parameters| ==> StandardKind(target.parameters[i]) != Some(target.kind)
  }

  // ----- Returns are forwarding statements ------------------------------------------------------

  lemma ArgumentIs(names: seq<Token>, token: Token, i: nat)
    requires Distinct(names) && i < |names|
    ensures ArgumentOf(names, token) == Parameter(i) <==> token == names[i]
  {
  }

  lemma CalleeIs(p: Program, named: Token -> Function, target: Target, token: Token)
    requires Named(p, named) && Unhidden(target)
    ensures HasKind(p, CalleeOf(target.parameters, named, token), target.kind) <==>
            StandardKind(token) == Some(target.kind) && token !in target.parameters
    ensures StandardKind(token) == Some(target.kind) ==> token !in target.parameters
  {
    var f := named(token);
    assert KindIs(p, f, StandardKind(token));
    if KindIs(p, f, Some(target.kind)) {
      OneAnswer(p, f, Some(target.kind), StandardKind(token));
    }
  }

  lemma CalleeSpelling(kind: Kind, token: Token)
    ensures ReturnTokens.Callee(kind, token) <==> StandardKind(token) == Some(kind)
  {
  }

  // A call with one argument or two.
  lemma ReadCall(names: seq<Token>, named: Token -> Function, s: seq<Token>, callee: PrimitiveRegistryModel.Callee, arguments: seq<Argument>)
    requires |s| == 6 || |s| == 8
    ensures ReadReturn(names, named, s) == Some(Call(callee, arguments)) && |arguments| == (|s| - 4) / 2 <==>
            && s[0] == "return" && s[2] == "(" && s[|s| - 2] == ")" && s[|s| - 1] == ";" && callee == CalleeOf(names, named, s[1])
            && if |s| == 6 then arguments == [ArgumentOf(names, s[3])]
               else s[4] == "," && arguments == [ArgumentOf(names, s[3]), ArgumentOf(names, s[5])]
  {
    var inner := s[3..|s| - 2];
    assert inner[0] == s[3];
    if |s| == 8 {
      assert inner[1] == s[4] && inner[2..] == [s[5]];
      assert ReadArguments(names, inner[2..]) == Some([ArgumentOf(names, s[5])]);
      assert [ArgumentOf(names, s[3])] + [ArgumentOf(names, s[5])] == [ArgumentOf(names, s[3]), ArgumentOf(names, s[5])];
    }
  }

  // Arguments and the commas between them.
  lemma {:induction false} ArgumentsLength(names: seq<Token>, s: seq<Token>)
    requires ReadArguments(names, s).Some?
    ensures |s| == 2 * |ReadArguments(names, s).value| - 1
    decreases |s|
  {
    if |s| > 1 {
      ArgumentsLength(names, s[2..]);
    }
  }

  lemma ReadsAsCall(p: Program, named: Token -> Function, target: Target, s: seq<Token>)
    requires target.Valid() && Distinct(target.parameters) && Named(p, named) && Unhidden(target)
    requires |s| == if target.kind.Divide? then 8 else 6
    ensures ReadsAs(p, named, target, s) <==>
            var p := target.parameters;
            && StandardKind(s[1]) == Some(target.kind)
            && s == if target.kind.Divide? then ["return", s[1], "(", p[0], ",", p[1], ")", ";"] else ["return", s[1], "(", p[0], ")", ";"]
  {
    var names := target.parameters;
    CalleeIs(p, named, target, s[1]);
    ArgumentIs(names, s[3], 0);
    if target.kind.Divide? {
      ArgumentIs(names, s[5], 1);
      ReadCall(names, named, s, CalleeOf(names, named, s[1]), [ArgumentOf(names, s[3]), ArgumentOf(names, s[5])]);
    } else {
      ReadCall(names, named, s, CalleeOf(names, named, s[1]), [ArgumentOf(names, s[3])]);
    }
  }

  // What is read as the kind has the length of one of the kind's returns.
  lemma ReadLength(p: Program, named: Token -> Function, target: Target, s: seq<Token>)
    requires target.Valid() && ReadsAs(p, named, target, s)
    ensures |s| == (if target.kind.Divide? then 8 else 6) || (target.kind.Divide? && |s| == 5 && s[2] == "/")
  {
    if !(|s| == 5 && s[2] == "/") {
      ArgumentsLength(target.parameters, s[3..|s| - 2]);
    }
  }

  lemma ReadsAsDivision(p: Program, named: Token -> Function, target: Target, s: seq<Token>)
    requires target.Valid() && Distinct(target.parameters) && target.kind.Divide? && |s| == 5
    ensures ReadsAs(p, named, target, s) <==> s == ["return", target.parameters[0], "/", target.parameters[1], ";"]
  {
    ArgumentIs(target.parameters, s[1], 0);
    ArgumentIs(target.parameters, s[3], 1);
    if s[2] != "/" {
      assert s[3..|s| - 2] == [];
    }
  }

  // The scan's returns are exactly the texts of statements that return the kind of the parameters in order.
  lemma ReturnIsForwarding(p: Program, named: Token -> Function, target: Target, s: seq<Token>)
    requires target.Valid() && Distinct(target.parameters) && Named(p, named) && Unhidden(target)
    ensures IsReturn(target, s) <==> ReadsAs(p, named, target, s)
  {
    if |s| == if target.kind.Divide? then 8 else 6 {
      ReadsAsCall(p, named, target, s);
      CalleeSpelling(target.kind, s[1]);
    } else if target.kind.Divide? && |s| == 5 {
      ReadsAsDivision(p, named, target, s);
    } else if ReadsAs(p, named, target, s) {
      ReadLength(p, named, target, s);
    }
  }

  // They are that for all texts exactly when no parameter hides a standard function of the kind.
  lemma UnhiddenIsExact(p: Program, named: Token -> Function, target: Target)
    requires target.Valid() && Distinct(target.parameters) && Named(p, named)
    ensures Unhidden(target) <==> forall s :: IsReturn(target, s) <==> ReadsAs(p, named, target, s)
  {
    if Unhidden(target) {
      forall s
        ensures IsReturn(target, s) <==> ReadsAs(p, named, target, s)
      {
        ReturnIsForwarding(p, named, target, s);
      }
    } else {
      var i :| 0 <= i < |target.parameters| && StandardKind(target.parameters[i]) == Some(target.kind);
      HiddenCallee(p, named, target, target.parameters[i]);
    }
  }

  // A call by the name of a parameter is counted, and calls the parameter.
  lemma HiddenCallee(p: Program, named: Token -> Function, target: Target, name: Token)
    requires target.Valid() && name in target.parameters && StandardKind(name) == Some(target.kind)
    ensures exists s :: IsReturn(target, s) && !ReadsAs(p, named, target, s)
  {
    var x := target.parameters;
    var s := if target.kind.Divide? then ["return", name, "(", x[0], ",", x[1], ")", ";"] else ["return", name, "(", x[0], ")", ";"];
    CalleeSpelling(target.kind, name);
    assert s[1] == name && s[2] == "(";
    assert IsReturn(target, s) && !ReadsAs(p, named, target, s);
  }

  // ----- What they compute ----------------------------------------------------------------------

  ghost predicate ValueComputes<V(!new)>(p: Program, value: Value, kind: Kind, n: nat, limit: nat) {
    forall m: Semantics<V>, arguments: seq<V> :: m.Valid() && InstancesRun(p, m, limit) && |arguments| == Arity(kind) ==>
      RunValue(p, m, value, arguments, n) == Some(m.primitive(kind, arguments))
  }

  // Running a counted return gives the primitive of the parameters in order.
  lemma ReturnComputes<V(!new)>(p: Program, named: Token -> Function, target: Target, s: seq<Token>, limit: nat)
    requires target.Valid() && Distinct(target.parameters) && Named(p, named) && Unhidden(target) && IsReturn(target, s)
    ensures
      var value := ReadReturn(target.parameters, named, s);
      value.Some? && exists n: nat :: ValueComputes<V>(p, value.value, target.kind, n, limit)
  {
    ReturnIsForwarding(p, named, target, s);
    var value, parameters := ReadReturn(target.parameters, named, s).value, |target.parameters|;
    StatementReturns(p, parameters, Return(value), target.kind);
    var n: nat :| Forwards(p, parameters, Return(value), target.kind, n);
    forall m: Semantics<V>, arguments: seq<V> | m.Valid() && InstancesRun(p, m, limit) && |arguments| == Arity(target.kind)
      ensures RunValue(p, m, value, arguments, n + limit) == Some(m.primitive(target.kind, arguments))
    {
      ValueRuns(p, m, limit, parameters, Return(value), target.kind, n, arguments, n + limit);
    }
    assert ValueComputes<V>(p, value, target.kind, n + limit, limit);
  }

  ghost predicate StartsWith<V(!new)>(p: Program, named: Token -> Function, target: Target, output: seq<Token>, k: nat, n: nat, limit: nat) {
    && k <= |output| && ReadReturn(target.parameters, named, output[..k]).Some?
    && ValueComputes<V>(p, ReadReturn(target.parameters, named, output[..k]).value, target.kind, n, limit)
  }

  // What an accepted body leaves in a configuration starts with a statement that computes the primitive.
  lemma ConfigurationComputes<V(!new)>(p: Program, named: Token -> Function, target: Target, items: seq<Item>, conditions: seq<bool>, limit: nat)
    requires target.Valid() && Distinct(target.parameters) && Named(p, named) && Unhidden(target)
    requires WellFormed(ReturnTokens.Statement(target), items) && NeverEmpty(items) && |conditions| == |items|
    ensures Preprocess(items, conditions).Some?
    ensures exists k: nat, n: nat :: StartsWith<V>(p, named, target, Preprocess(items, conditions).value.output, k, n, limit)
  {
    AcceptedReturns(target, items);
    var output := Preprocess(items, conditions).value.output;
    var statement := ReturnTokens.Statement(target);
    var many: nat :| many > 0 && Sequence(statement, output, many);
    var k: nat :| 0 < k <= |output| && statement(output[..k]) && Sequence(statement, output[k..], many - 1);
    ReturnComputes<V>(p, named, target, output[..k], limit);
    var n: nat :| ValueComputes<V>(p, ReadReturn(target.parameters, named, output[..k]).value, target.kind, n, limit);
    assert StartsWith<V>(p, named, target, output, k, n, limit);
  }
}
