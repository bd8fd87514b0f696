// What the registry's kinds say about the texts of the functions (src/DavC310TargetRecipe.cpp:2101-2118,
// 2167-2212 and 2564-2572).
module RegistrySources {
  import opened Primitives
  import opened ReturnTokens
  import opened BodyText
  import opened PhaseExactness
  import opened SourceBody
  import opened SourceText
  import opened PrimitiveRegistryModel

  // The names of a definition's parameters, and the spliced text of its body when that is one piece of a file.
  datatype Spelling = Spelling(names: seq<Option<Token>>, source: Option<string>)

  // What the scan looks for, when the parameters are as many as the kind has and each has a name.
  function Sought(text: Spelling, kind: Kind): (t: Option<Target>)
    ensures t.Some? ==> t.value.Valid()
  {
    if |text.names| == Arity(kind) && (forall i :: 0 <= i < |text.names| ==> text.names[i].Some?)
    then Some(Target(kind, seq(|text.names|, i requires 0 <= i < |text.names| => text.names[i].value)))
    else None
  }

  ghost predicate Scanned(text: Spelling, kind: Kind) {
    text.source.Some? && Sought(text, kind).Some? && Accepted(Sought(text, kind).value, Lex(text.source.value, true))
  }

  method ScanText(text: Spelling, kind: Kind) returns (complete: bool)
    ensures complete <==> Scanned(text, kind)
  {
    var target := Sought(text, kind);
    if text.source.None? || target.None? {
      return false;
    }
    complete := CheckSource(target.value, text.source.value);
  }

  // The verdicts in the registry's program are those of the scan on the functions' texts.
  ghost predicate FromTexts(p: Program, texts: map<Function, Spelling>) {
    forall f, kind :: f in p.declarations && p.declarations[f].definition.Some? ==>
      var d := p.declarations[f].definition.value;
      f in texts && (kind in d.complete && d.complete[kind] <==> Scanned(texts[f], kind))
  }

  // The verdicts on one text.
  method ScanKinds(text: Spelling) returns (complete: map<Kind, bool>)
    ensures forall kind :: kind in complete && complete[kind] <==> Scanned(text, kind)
  {
    var exp := ScanText(text, Exp);
    var divide := ScanText(text, Divide);
    var rsqrt := ScanText(text, Rsqrt);
    complete := map[Exp := exp, Divide := divide, Rsqrt := rsqrt];
    forall kind
      ensures kind in complete && complete[kind] <==> Scanned(text, kind)
    {
      assert kind == Exp || kind == Divide || kind == Rsqrt;
    }
  }

  function Judged(declared: Declaration, complete: map<Kind, bool>): Declaration {
    if declared.definition.None? then declared
    else declared.(definition := Some(declared.definition.value.(complete := complete)))
  }

  // The program with the verdicts on the texts of all its definitions.
  method ScanProgram(p: Program, texts: map<Function, Spelling>) returns (q: Program)
    requires p.declarations.Keys <= texts.Keys
    ensures FromTexts(q, texts)
    ensures q == p.(declarations := q.declarations) && q.declarations.Keys == p.declarations.Keys
    ensures forall f :: f in p.declarations ==> exists complete :: q.declarations[f] == Judged(p.declarations[f], complete)
  {
    var left, declarations: map<Function, Declaration> := p.declarations.Keys, map[];
    while left != {}
      invariant left <= p.declarations.Keys && declarations.Keys == p.declarations.Keys - left
      invariant FromTexts(p.(declarations := declarations), texts)
      invariant forall f :: f in declarations ==> exists complete :: declarations[f] == Judged(p.declarations[f], complete)
    {
      var f :| f in left;
      var complete := ScanKinds(texts[f]);
      declarations := declarations[f := Judged(p.declarations[f], complete)];
      left := left - {f};
    }
    q := p.(declarations := declarations);
  }

  // The kind, and the parameters by their names.
  ghost predicate Asks(target: Target, text: Spelling, kind: Kind) {
    && target.kind == kind && target.Valid() && |text.names| == |target.parameters|
    && forall i :: 0 <= i < |text.names| ==> text.names[i] == Some(target.parameters[i])
  }

  // What the scan finds is at least one return of the target, and nothing else, in every configuration; when the
  // text is regular, that is what the translation phases leave of it.
  ghost predicate TextReturns(text: string, target: Target)
    requires target.Valid()
  {
    && Lex(text, true).Some?
    && (forall conditions :: |conditions| == |Lex(text, true).value| ==> LeavesReturns(target, Lex(text, true).value, conditions))
    && (Regular(text, true) ==> AlwaysReturns(target, text))
  }

  // The text returns the kind, applied to the parameters in order, in every configuration.
  ghost predicate AlwaysReturnsKind(text: Spelling, kind: Kind) {
    text.source.Some? && exists target :: Asks(target, text, kind) && TextReturns(text.source.value, target)
  }

  lemma ScannedReturns(text: Spelling, kind: Kind)
    requires Scanned(text, kind)
    ensures AlwaysReturnsKind(text, kind)
  {
    var target := Sought(text, kind).value;
    AcceptedReturns(target, Lex(text.source.value, true).value);
    SourceIsExact(text.source.value);
    assert Asks(target, text, kind);
  }

  // Unless annotations are allowed, a kind rests on the function's own signature and either its standard name
  // or a device definition whose text returns the kind in every configuration, not only in the one compiled.
  lemma KindIsJustified(p: Program, texts: map<Function, Spelling>, f: Function, kind: Kind)
    requires FromTexts(p, texts) && !p.allowAnnotated && KindIs(p, f, Some(kind))
    ensures f in p.declarations
    ensures
      var declared := p.declarations[f];
      var arity := if kind == Divide then 2 else 1;
      || (declared.standard == Some(kind) && declared.parameters == arity && declared.floating)
      || (&& declared.definition.Some? && declared.definition.value.device
          && declared.definition.value.parameters == arity && declared.definition.value.floating
          && f in texts && AlwaysReturnsKind(texts[f], kind))
  {
    RestsOn(p, f, kind);
    if f in texts && Scanned(texts[f], kind) {
      ScannedReturns(texts[f], kind);
    }
  }
}
