// The registry's table of template kinds (src/DavC310TargetRecipe.cpp:2437-2452), built by classifying float
// specializations while the table grows.
module TemplateTable {
  import opened Primitives
  import opened PrimitiveRegistryModel

  // A specialization over float with a body, and the function its template declares.
  datatype Specialization = Specialization(instance: Function, template: Function)

  type Table = map<Function, Option<Kind>>

  function WithTable(p: Program, table: Table): Program {
    p.(templateKinds := table)
  }

  // ----- When the table does not matter ---------------------------------------------------------

  ghost predicate Names(callee: Callee, f: Function) {
    match callee
    case Direct(_) => false
    case Reference(declared) => declared == f
    case Unresolved(declarations, _) => Some(f) in declarations
    case OtherCallee => false
  }

  ghost predicate StatementDirect(statement: Statement, templates: set<Function>) {
    statement.Return? && statement.value.Call? ==> forall t :: t in templates ==> !Names(statement.value.callee, t)
  }

  // The functions call only each other, and by no name of a template: calls of its instances are direct.
  ghost predicate Instantiated(p: Program, reach: iset<Function>, templates: set<Function>) {
    && Closed(p, reach)
    && forall f, i :: f in reach && Body(p, f).Some? && 0 <= i < |Body(p, f).value| ==>
                        StatementDirect(Body(p, f).value[i], templates)
  }

  // Between tables of the templates.
  ghost predicate Between(p: Program, reach: iset<Function>, templates: set<Function>, a: Table, b: Table) {
    Instantiated(p, reach, templates) && a.Keys <= templates && b.Keys <= templates
  }

  lemma {:induction false} SameDerives(p: Program, reach: iset<Function>, templates: set<Function>, a: Table, b: Table, f: Function,
                                       kind: Kind, n: nat)
    requires Between(p, reach, templates, a, b) && f in reach
    requires Derives(WithTable(p, a), f, kind, n)
    ensures Derives(WithTable(p, b), f, kind, n)
    decreases n, 0
  {
    var pa, pb := WithTable(p, a), WithTable(p, b);
    assert Base(pa, f) == Base(pb, f) == Base(p, f) && Body(pa, f) == Body(pb, f) == Body(p, f);
    if Base(p, f) != Some(kind) {
      var d, statements := p.declarations[f].definition.value, Body(p, f).value;
      forall i | 0 <= i < |statements|
        ensures Forwards(pb, d.parameters, statements[i], kind, n - 1)
      {
        assert Forwards(pa, d.parameters, statements[i], kind, n - 1);
        SameForwards(p, reach, templates, a, b, d.parameters, statements[i], kind, n - 1);
      }
    }
  }

  lemma {:induction false} SameForwards(p: Program, reach: iset<Function>, templates: set<Function>, a: Table, b: Table, parameters: nat,
                                        statement: Statement, kind: Kind, n: nat)
    requires Between(p, reach, templates, a, b) && StatementWithin(statement, reach) && StatementDirect(statement, templates)
    requires Forwards(WithTable(p, a), parameters, statement, kind, n)
    ensures Forwards(WithTable(p, b), parameters, statement, kind, n)
    decreases n, 3
  {
    if statement.value.Call? {
      var callee := statement.value.callee;
      match callee {
        case Direct(f) => SameDerives(p, reach, templates, a, b, f, kind, n);
        case Reference(f) => SameNamed(p, reach, templates, a, b, f, kind, n);
        case Unresolved(declarations, _) =>
          forall i | 0 <= i < |declarations| && declarations[i].Some?
            ensures NamedDerives(WithTable(p, b), declarations[i].value, kind, n)
          {
            assert Some(declarations[i].value) in declarations;
            SameNamed(p, reach, templates, a, b, declarations[i].value, kind, n);
          }
        case OtherCallee =>
      }
    }
  }

  lemma {:induction false} SameNamed(p: Program, reach: iset<Function>, templates: set<Function>, a: Table, b: Table, f: Function,
                                     kind: Kind, n: nat)
    requires Between(p, reach, templates, a, b) && f in reach && f !in templates
    requires NamedDerives(WithTable(p, a), f, kind, n)
    ensures NamedDerives(WithTable(p, b), f, kind, n)
    decreases n, 1
  {
    SameDerives(p, reach, templates, a, b, f, kind, n);
  }

  // What has been remembered of such functions stays exact whatever the table holds.
  lemma KindKept(p: Program, reach: iset<Function>, templates: set<Function>, a: Table, b: Table, f: Function, kind: Option<Kind>)
    requires Between(p, reach, templates, a, b) && f in reach
    requires KindIs(WithTable(p, a), f, kind)
    ensures KindIs(WithTable(p, b), f, kind)
  {
    if kind.Some? {
      var n: nat :| Derives(WithTable(p, a), f, kind.value, n);
      SameDerives(p, reach, templates, a, b, f, kind.value, n);
    } else {
      forall k, n: nat
        ensures !Derives(WithTable(p, b), f, k, n)
      {
        if Derives(WithTable(p, b), f, k, n) {
          SameDerives(p, reach, templates, b, a, f, k, n);
        }
      }
    }
  }

  // ----- The table ------------------------------------------------------------------------------

  function Templates(specializations: seq<Specialization>): set<Function> {
    set s | s in specializations :: s.template
  }

  // All the specializations of a template have the kind.
  ghost predicate AllAre(p: Program, specializations: seq<Specialization>, template: Function, kind: Kind) {
    forall s :: s in specializations && s.template == template ==> KindIs(p, s.instance, Some(kind))
  }

  // The table has the templates of the specializations, each with the kind they all have, or none.
  ghost predicate TableOf(p: Program, specializations: seq<Specialization>, table: Table) {
    && table.Keys == Templates(specializations)
    && forall template, kind :: template in table ==> (table[template] == Some(kind) <==> AllAre(p, specializations, template, kind))
  }

  function Entered(table: Table, template: Function, kind: Option<Kind>): Table {
    if template !in table then table[template := kind]
    else if table[template] != kind then table[template := None]
    else table
  }

  lemma TableGrows(p: Program, before: seq<Specialization>, table: Table, s: Specialization, kind: Option<Kind>)
    requires TableOf(p, before, table) && KindIs(p, s.instance, kind)
    ensures TableOf(p, before + [s], Entered(table, s.template, kind))
  {
    var after, entered := before + [s], Entered(table, s.template, kind);
    assert s in after && forall x :: x in before ==> x in after;
    assert entered.Keys == Templates(after);
    forall template, k | template in entered
      ensures entered[template] == Some(k) <==> AllAre(p, after, template, k)
    {
      AllAreMore(p, before, s, template, k);
      if template == s.template {
        if KindIs(p, s.instance, Some(k)) {
          OneAnswer(p, s.instance, kind, Some(k));
        }
        if template !in table {
          assert forall x :: x in before ==> x.template in Templates(before);
        }
      }
    }
  }

  lemma AllAreMore(p: Program, before: seq<Specialization>, s: Specialization, template: Function, kind: Kind)
    ensures AllAre(p, before + [s], template, kind) <==>
            AllAre(p, before, template, kind) && (s.template == template ==> KindIs(p, s.instance, Some(kind)))
  {
    var after := before + [s];
    assert s in after && forall x :: x in before ==> x in after;
  }

  // The specializations and what their bodies lead to, in which no template is named.
  ghost predicate Covers(p: Program, reach: iset<Function>, specializations: seq<Specialization>) {
    Instantiated(p, reach, Templates(specializations)) && forall s :: s in specializations ==> s.instance in reach
  }

  // The kinds are exact, of functions that were reached, whichever the table.
  ghost predicate Exact(p: Program, reach: iset<Function>, kinds: Table, table: Table) {
    forall f :: f in kinds ==> f in reach && KindIs(WithTable(p, table), f, kinds[f])
  }

  lemma ExactKept(p: Program, reach: iset<Function>, templates: set<Function>, kinds: Table, a: Table, b: Table)
    requires Between(p, reach, templates, a, b) && Exact(p, reach, kinds, a)
    ensures Exact(p, reach, kinds, b)
  {
    forall f | f in kinds
      ensures KindIs(WithTable(p, b), f, kinds[f])
    {
      KindKept(p, reach, templates, a, b, f, kinds[f]);
    }
  }

  lemma ClosedKept(p: Program, reach: iset<Function>, table: Table)
    requires Closed(p, reach)
    ensures Closed(WithTable(p, table), reach)
  {
    var q := WithTable(p, table);
    forall f, i | f in reach && Body(q, f).Some? && 0 <= i < |Body(q, f).value|
      ensures StatementWithin(Body(q, f).value[i], reach)
    {
      assert Body(q, f) == Body(p, f);
    }
  }

  // The constructor's loop.  The table is part of the program the registry knows, so that each entry makes a
  // registry with the kinds remembered so far; they stay exact, and so does the table.
  method RegisterTemplates(p: Program, specializations: seq<Specialization>, ghost reach: iset<Function>)
    returns (registry: PrimitiveRegistry)
    requires p.templateKinds == map[] && Covers(p, reach, specializations)
    ensures fresh(registry) && registry.Valid() && registry.active == {}
    ensures registry.program == WithTable(p, registry.program.templateKinds)
    ensures TableOf(p, specializations, registry.program.templateKinds)
    ensures TableOf(registry.program, specializations, registry.program.templateKinds)
  {
    var table: Table, kinds: Table := map[], map[];
    ghost var templates, none: Table := Templates(specializations), map[];
    assert WithTable(p, none) == p;
    for i := 0 to |specializations|
      invariant TableOf(p, specializations[..i], table) && table.Keys <= templates
      invariant Exact(p, reach, kinds, none)
    {
      var s := specializations[i];
      assert s in specializations && specializations[..i + 1] == specializations[..i] + [s];
      ExactKept(p, reach, templates, kinds, none, table);
      ClosedKept(p, reach, table);
      registry := new PrimitiveRegistry.With(WithTable(p, table), kinds);
      var kind := registry.Classify(s.instance, reach);
      KindKept(p, reach, templates, table, none, s.instance, kind);
      TableGrows(p, specializations[..i], table, s, kind);
      ExactKept(p, reach, templates, registry.functionKinds, table, none);
      table, kinds := Entered(table, s.template, kind), registry.functionKinds;
    }
    assert specializations[..|specializations|] == specializations;
    ExactKept(p, reach, templates, kinds, none, table);
    TableKept(p, reach, specializations, table, none);
    registry := new PrimitiveRegistry.With(WithTable(p, table), kinds);
  }

  lemma TableKept(p: Program, reach: iset<Function>, specializations: seq<Specialization>, table: Table, none: Table)
    requires none == map[] && p.templateKinds == none && Covers(p, reach, specializations) && TableOf(p, specializations, table)
    ensures TableOf(WithTable(p, table), specializations, table)
  {
    var templates, q := Templates(specializations), WithTable(p, table);
    assert WithTable(p, none) == p;
    forall s, kind | s in specializations
      ensures KindIs(p, s.instance, kind) <==> KindIs(q, s.instance, kind)
    {
      if KindIs(p, s.instance, kind) {
        KindKept(p, reach, templates, none, table, s.instance, kind);
      }
      if KindIs(q, s.instance, kind) {
        KindKept(p, reach, templates, table, none, s.instance, kind);
      }
    }
    forall template, kind | template in table
      ensures AllAre(p, specializations, template, kind) <==> AllAre(q, specializations, template, kind)
    {
    }
  }

  // ----- What the table means -------------------------------------------------------------------

  // Such functions run alike whatever the table holds.
  lemma {:induction false} SameRun<V>(p: Program, reach: iset<Function>, templates: set<Function>, a: Table, b: Table, m: Semantics<V>,
                                      f: Function, arguments: seq<V>, depth: nat)
    requires m.Valid() && Between(p, reach, templates, a, b) && f in reach
    ensures Run(WithTable(p, a), m, f, arguments, depth) == Run(WithTable(p, b), m, f, arguments, depth)
    decreases depth, 0
  {
    var pa, pb := WithTable(p, a), WithTable(p, b);
    assert Base(pa, f) == Base(pb, f) == Base(p, f) && Body(pa, f) == Body(pb, f) == Body(p, f);
    if depth > 0 && Body(p, f).Some? && Body(p, f).value != [] && Body(p, f).value[0].Return? {
      SameValue(p, reach, templates, a, b, m, Body(p, f).value[0], arguments, depth - 1);
    }
  }

  lemma {:induction false} SameValue<V>(p: Program, reach: iset<Function>, templates: set<Function>, a: Table, b: Table, m: Semantics<V>,
                                        statement: Statement, arguments: seq<V>, depth: nat)
    requires m.Valid() && Between(p, reach, templates, a, b)
    requires statement.Return? && StatementWithin(statement, reach) && StatementDirect(statement, templates)
    ensures RunValue(WithTable(p, a), m, statement.value, arguments, depth) == RunValue(WithTable(p, b), m, statement.value, arguments, depth)
    decreases depth, 3
  {
    if statement.value.Call? {
      var values := Pass(statement.value.arguments, arguments);
      if values.Some? {
        match statement.value.callee {
          case Direct(f) => SameRun(p, reach, templates, a, b, m, f, values.value, depth);
          case Reference(f) => SameRun(p, reach, templates, a, b, m, f, values.value, depth);
          case Unresolved(declarations, _) =>
            if Functions(declarations) != [] {
              var picked := m.resolve(Functions(declarations));
              assert Some(picked) in declarations;
              var i :| 0 <= i < |declarations| && declarations[i] == Some(picked);
              SameRun(p, reach, templates, a, b, m, picked, values.value, depth);
            }
          case OtherCallee =>
        }
      }
    }
  }

  // Each template in the table runs one of its specializations.
  ghost predicate Instances<V(!new)>(specializations: seq<Specialization>, m: Semantics<V>) {
    m.Valid() && forall t :: t in Templates(specializations) ==> Specialization(m.instance(t), t) in specializations
  }

  // A number of calls that is enough for every specialization with a kind.
  ghost predicate Enough(p: Program, specializations: seq<Specialization>, limit: nat) {
    forall s, kind :: s in specializations && KindIs(p, s.instance, Some(kind)) ==> Derives(p, s.instance, kind, limit)
  }

  lemma {:induction false} DerivesMonotone(p: Program, f: Function, kind: Kind, n: nat, m: nat)
    requires Derives(p, f, kind, n) && n <= m
    ensures Derives(p, f, kind, m)
    decreases m - n
  {
    if n < m {
      DerivesLonger(p, f, kind, n);
      DerivesMonotone(p, f, kind, n + 1, m);
    }
  }

  lemma {:induction false} SomeEnough(p: Program, specializations: seq<Specialization>) returns (limit: nat)
    ensures Enough(p, specializations, limit)
    decreases |specializations|
  {
    if specializations == [] {
      limit := 0;
    } else {
      var s := specializations[0];
      var rest := SomeEnough(p, specializations[1..]);
      var own := EnoughFor(p, s.instance);
      limit := if own < rest then rest else own;
      forall t, kind | t in specializations && KindIs(p, t.instance, Some(kind))
        ensures Derives(p, t.instance, kind, limit)
      {
        if t == s {
          DerivesMonotone(p, s.instance, kind, own, limit);
        } else {
          assert t in specializations[1..];
          DerivesMonotone(p, t.instance, kind, rest, limit);
        }
      }
    }
  }

  lemma EnoughFor(p: Program, f: Function) returns (n: nat)
    ensures forall kind :: KindIs(p, f, Some(kind)) ==> Derives(p, f, kind, n)
  {
    n := 0;
    if kind :| KindIs(p, f, Some(kind)) {
      n :| Derives(p, f, kind, n);
      forall other | KindIs(p, f, Some(other))
        ensures other == kind
      {
        OneAnswer(p, f, Some(other), Some(kind));
      }
    }
  }

  // A template's kind is what a call of it runs, whichever of its specializations that is.
  lemma TableRuns<V(!new)>(p: Program, reach: iset<Function>, specializations: seq<Specialization>, table: Table, m: Semantics<V>, limit: nat)
    requires p.templateKinds == map[] && Covers(p, reach, specializations) && TableOf(p, specializations, table)
    requires Enough(p, specializations, limit) && Instances(specializations, m)
    ensures InstancesRun(WithTable(p, table), m, limit)
  {
    var templates, none, q := Templates(specializations), p.templateKinds, WithTable(p, table);
    assert WithTable(p, none) == p;
    forall t, arguments: seq<V>, depth: nat |
      t in table && table[t].Some? && |arguments| == Arity(table[t].value) && limit <= depth
      ensures Run(q, m, m.instance(t), arguments, depth) == Some(m.primitive(table[t].value, arguments))
    {
      var kind, s := table[t].value, Specialization(m.instance(t), t);
      assert AllAre(p, specializations, t, kind) && s in specializations;
      assert InstancesRun(p, m, 0);
      DerivesMonotone(p, s.instance, kind, limit, depth);
      ChainRuns(p, m, 0, s.instance, kind, depth, arguments, depth);
      SameRun(p, reach, templates, none, table, m, s.instance, arguments, depth);
    }
  }

  ghost predicate Computes<V(!new)>(p: Program, specializations: seq<Specialization>, f: Function, kind: Kind, n: nat) {
    forall m: Semantics<V>, arguments: seq<V> :: Instances(specializations, m) && |arguments| == Arity(kind) ==>
      Run(p, m, f, arguments, n) == Some(m.primitive(kind, arguments))
  }

  // With the table the constructor builds, every function that has a kind computes it, by running the bodies
  // of the templates' specializations.
  lemma RegisteredKind<V(!new)>(p: Program, reach: iset<Function>, specializations: seq<Specialization>, table: Table, f: Function, kind: Kind)
    requires p.templateKinds == map[] && Covers(p, reach, specializations) && TableOf(p, specializations, table)
    requires KindIs(WithTable(p, table), f, Some(kind))
    ensures exists n: nat :: Computes<V>(WithTable(p, table), specializations, f, kind, n)
  {
    var q := WithTable(p, table);
    var limit := SomeEnough(p, specializations);
    KindIsMeaning<V>(q, f, kind, limit);
    var n: nat :| ComputesWithin<V>(q, f, kind, n, limit);
    forall m: Semantics<V>, arguments: seq<V> | Instances(specializations, m) && |arguments| == Arity(kind)
      ensures Run(q, m, f, arguments, n) == Some(m.primitive(kind, arguments))
    {
      TableRuns(p, reach, specializations, table, m, limit);
    }
    assert Computes<V>(q, specializations, f, kind, n);
  }
}
