// The search for cooperative-group types in the type graph (src/DynamicWarpGroups.cpp:48-96).
module TypeGraph {
  import opened Primitives

  type Type(==) = nat

  // Expressions and declarations count through their types.
  datatype Argument = OfType(mentioned: Option<Type>) | Pack(elements: seq<Argument>) | NoType

  // group: the type is a group, or the record type of the greater tag.  greater: it is a specialization of
  // the greater template.  parts: pointee, element, class and signature types; members: field and base types;
  // None is a null type.  The two argument lists are those the type is written with and those of its record.
  datatype Info = Info(canonical: Type, group: bool, greater: bool, parts: seq<Option<Type>>,
                       written: seq<Argument>, recorded: seq<Argument>, members: seq<Option<Type>>)

  type Graph = map<Type, Info>

  // ----- Template arguments ---------------------------------------------------------------------

  // The types in the arguments, at any depth of packs.
  ghost predicate Mentions(arguments: seq<Argument>, t: Type) {
    exists i :: 0 <= i < |arguments| && MentionedBy(arguments[i], t)
  }

  ghost predicate MentionedBy(argument: Argument, t: Type) {
    match argument
    case OfType(mentioned) => mentioned == Some(t)
    case Pack(elements) => exists i :: 0 <= i < |elements| && MentionedBy(elements[i], t)
    case NoType => false
  }

  // The order in which the inner worklist pushes the types: last argument first, packs opened in place.
  function PushOrder(arguments: seq<Argument>): seq<Option<Type>>
    decreases arguments, |arguments|
  {
    if arguments == [] then []
    else PushOf(arguments[|arguments| - 1]) + PushOrder(arguments[..|arguments| - 1])
  }

  function PushOf(argument: Argument): seq<Option<Type>>
    decreases argument
  {
    match argument
    case OfType(t) => [t]
    case Pack(elements) => PushOrder(elements)
    case NoType => []
  }

  function Size(arguments: seq<Argument>): nat
    decreases arguments, |arguments|
  {
    if arguments == [] then 0 else SizeOf(arguments[|arguments| - 1]) + Size(arguments[..|arguments| - 1])
  }

  function SizeOf(argument: Argument): nat
    decreases argument
  {
    1 + if argument.Pack? then Size(argument.elements) else 0
  }

  lemma Reassociate<T>(x: seq<T>, y: seq<T>, z: seq<T>)
    ensures x + (y + z) == (x + y) + z
  {
  }

  lemma LastPushedFirst(arguments: seq<Argument>, rest: seq<Argument>, last: Argument)
    requires arguments == rest + [last]
    ensures PushOrder(arguments) == PushOf(last) + PushOrder(rest) && Size(arguments) == SizeOf(last) + Size(rest)
  {
    assert arguments[..|arguments| - 1] == rest;
  }

  lemma {:induction false} PushOrderConcat(a: seq<Argument>, b: seq<Argument>)
    ensures PushOrder(a + b) == PushOrder(b) + PushOrder(a) && Size(a + b) == Size(b) + Size(a)
    decreases |b|
  {
    if b == [] {
      assert a + b == a;
    } else {
      var last, rest := b[|b| - 1], b[..|b| - 1];
      PushOrderConcat(a, rest);
      LastPushedFirst(b, rest, last);
      LastPushedFirst(a + b, a + rest, last);
      Reassociate(PushOf(last), PushOrder(rest), PushOrder(a));
    }
  }

  lemma MentionsLast(rest: seq<Argument>, last: Argument, arguments: seq<Argument>, t: Type)
    requires arguments == rest + [last]
    ensures Mentions(arguments, t) <==> Mentions(rest, t) || MentionedBy(last, t)
  {
    if Mentions(rest, t) {
      var i :| 0 <= i < |rest| && MentionedBy(rest[i], t);
      assert arguments[i] == rest[i];
    }
    assert arguments[|rest|] == last;
  }

  // Exactly the mentioned types are pushed.
  lemma {:induction false} PushedAreMentioned(arguments: seq<Argument>, t: Type)
    ensures Some(t) in PushOrder(arguments) <==> Mentions(arguments, t)
    decreases arguments, |arguments|
  {
    if arguments != [] {
      var last, rest := arguments[|arguments| - 1], arguments[..|arguments| - 1];
      PushedAreMentioned(rest, t);
      PushOfIsMentioned(last, t);
      MentionsLast(rest, last, arguments, t);
    }
  }

  lemma {:induction false} PushOfIsMentioned(argument: Argument, t: Type)
    ensures Some(t) in PushOf(argument) <==> MentionedBy(argument, t)
    decreases argument
  {
    if argument.Pack? {
      PushedAreMentioned(argument.elements, t);
    }
  }

  // The inner worklist.
  method PushArguments(work: seq<Option<Type>>, arguments: seq<Argument>) returns (pushed: seq<Option<Type>>)
    ensures pushed == work + PushOrder(arguments)
  {
    pushed := work;
    var pending := arguments;
    while |pending| > 0
      invariant pushed + PushOrder(pending) == work + PushOrder(arguments)
      decreases Size(pending)
    {
      var argument, rest := pending[|pending| - 1], pending[..|pending| - 1];
      assert Size(pending) == SizeOf(argument) + Size(rest);
      match argument
      case OfType(t) =>
        pushed, pending := pushed + [t], rest;
      case Pack(elements) =>
        PushOrderConcat(rest, elements);
        pending := rest + elements;
      case NoType =>
        pending := rest;
    }
  }

  // ----- The search -----------------------------------------------------------------------------

  function Pushes(info: Info): seq<Option<Type>> {
    info.parts + PushOrder(info.written) + PushOrder(info.recorded) + info.members
  }

  ghost predicate Component(info: Info, t: Type) {
    Some(t) in info.parts || Mentions(info.written, t) || Mentions(info.recorded, t) || Some(t) in info.members
  }

  ghost predicate Valid(g: Graph) {
    forall t, u :: t in g && Some(u) in Pushes(g[t]) ==> u in g
  }

  ghost predicate Within(g: Graph, work: seq<Option<Type>>) {
    forall t :: Some(t) in work ==> t in g
  }

  function Canonicals(g: Graph): set<Type> {
    set t | t in g :: g[t].canonical
  }

  lemma PushedBehind(rest: seq<Option<Type>>, info: Info)
    ensures (((rest + info.parts) + PushOrder(info.written)) + PushOrder(info.recorded)) + info.members == rest + Pushes(info)
  {
    Reassociate(rest, info.parts, PushOrder(info.written));
    Reassociate(rest, info.parts + PushOrder(info.written), PushOrder(info.recorded));
    Reassociate(rest, info.parts + PushOrder(info.written) + PushOrder(info.recorded), info.members);
  }

  // The outer worklist, by what is left to do and the canonical types seen.
  ghost predicate Search(g: Graph, work: seq<Option<Type>>, seen: set<Type>)
    requires Valid(g) && Within(g, work)
    decreases Canonicals(g) - seen, |work|
  {
    if work == [] then false
    else
      var last, rest := work[|work| - 1], work[..|work| - 1];
      if last.None? then Search(g, rest, seen)
      else
        var info := g[last.value];
        if info.group then true
        else if info.canonical in seen then Search(g, rest, seen)
        else if info.greater then true
        else Search(g, rest + Pushes(info), seen + {info.canonical})
  }

  method FindRelated(g: Graph, first: Option<Type>) returns (found: bool)
    requires Valid(g) && Within(g, [first])
    ensures found == Search(g, [first], {})
    ensures first.Some? && found ==> Related(g, first.value)
    ensures first.Some? && !found ==> exists choice :: Choice(g, first.value, choice)
  {
    if first.Some? {
      SearchMeans(g, first.value);
    }
    var work: seq<Option<Type>>, seen: set<Type> := [first], {};
    while |work| > 0
      invariant Within(g, work) && Search(g, work, seen) == Search(g, [first], {})
      decreases Canonicals(g) - seen, |work|
    {
      var t := work[|work| - 1];
      work := work[..|work| - 1];
      if t.None? {
        continue;
      }
      var info := g[t.value];
      if info.group {
        return true;
      }
      if info.canonical in seen {
        continue;
      }
      seen := seen + {info.canonical};
      ghost var rest := work;
      work := work + info.parts;
      if info.greater {
        return true;
      }
      work := PushArguments(work, info.written);
      work := PushArguments(work, info.recorded);
      work := work + info.members;
      PushedBehind(rest, info);
    }
    return false;
  }

  // ----- Reachability ---------------------------------------------------------------------------

  predicate IsGroup(info: Info) {
    info.group || info.greater
  }

  ghost predicate Path(g: Graph, p: seq<Type>) {
    && p != [] && (forall i :: 0 <= i < |p| ==> p[i] in g)
    && forall i :: 0 <= i < |p| - 1 ==> Some(p[i + 1]) in Pushes(g[p[i]])
  }

  // A group type is a component of first, at some depth.
  ghost predicate Related(g: Graph, first: Type) {
    exists p :: Path(g, p) && p[0] == first && IsGroup(g[p[|p| - 1]])
  }

  // What is pushed for a type is its components.
  lemma PushesAreComponents(info: Info, t: Type)
    ensures Some(t) in Pushes(info) <==> Component(info, t)
  {
    PushedAreMentioned(info.written, t);
    PushedAreMentioned(info.recorded, t);
  }

  lemma RelatedStep(g: Graph, t: Type, u: Type)
    requires t in g && Some(u) in Pushes(g[t]) && Related(g, u)
    ensures Related(g, t)
  {
    var p :| Path(g, p) && p[0] == u && IsGroup(g[p[|p| - 1]]);
    var q := [t] + p;
    forall i | 0 <= i < |q| - 1
      ensures Some(q[i + 1]) in Pushes(g[q[i]])
    {
      if i > 0 {
        assert q[i] == p[i - 1] && q[i + 1] == p[i];
      }
    }
    assert q[|q| - 1] == p[|p| - 1];
  }

  // The search finds nothing that is not there.
  lemma {:induction false} SearchSound(g: Graph, work: seq<Option<Type>>, seen: set<Type>) returns (t: Type)
    requires Valid(g) && Within(g, work) && Search(g, work, seen)
    ensures Some(t) in work && Related(g, t)
    decreases Canonicals(g) - seen, |work|
  {
    var last, rest := work[|work| - 1], work[..|work| - 1];
    if last.None? {
      t := SearchSound(g, rest, seen);
    } else {
      var info := g[last.value];
      t := last.value;
      if IsGroup(info) && (info.group || info.canonical !in seen) {
        assert Path(g, [t]);
      } else if info.canonical in seen {
        t := SearchSound(g, rest, seen);
      } else {
        var u := SearchSound(g, rest + Pushes(info), seen + {info.canonical});
        if Some(u) in rest {
          t := u;
        } else {
          RelatedStep(g, t, u);
        }
      }
    }
  }

  // A group on the worklist is found.
  lemma {:induction false} GroupOnWork(g: Graph, work: seq<Option<Type>>, seen: set<Type>, u: Type)
    requires Valid(g) && Within(g, work) && Some(u) in work && g[u].group
    ensures Search(g, work, seen)
    decreases Canonicals(g) - seen, |work|
  {
    var last, rest := work[|work| - 1], work[..|work| - 1];
    if last != Some(u) {
      assert Some(u) in rest;
      if last.None? || g[last.value].canonical in seen {
        GroupOnWork(g, rest, seen, u);
      } else if !g[last.value].group && !g[last.value].greater {
        assert forall v :: Some(v) in rest + Pushes(g[last.value]) ==> v in g;
        GroupOnWork(g, rest + Pushes(g[last.value]), seen + {g[last.value].canonical}, u);
      }
    }
  }

  // A group is found, and the greater template, and a group among the pointees, elements, classes and signature
  // types of a type, the arguments it is written with or its record has, its fields and its bases.
  lemma DirectGroupFound(g: Graph, t: Type, u: Type)
    requires Valid(g) && t in g && u in g
    requires
      || IsGroup(g[t])
      || (g[u].group && (Some(u) in g[t].parts || Mentions(g[t].written, u) || Mentions(g[t].recorded, u) || Some(u) in g[t].members))
    ensures Search(g, [Some(t)], {})
  {
    if IsGroup(g[t]) {
      FirstIsGroup(g, t, [Some(t)], {});
    } else {
      PushesAreComponents(g[t], u);
      GroupBehindFirst(g, t, u, [Some(t)], {});
    }
  }

  lemma FirstIsGroup(g: Graph, t: Type, work: seq<Option<Type>>, seen: set<Type>)
    requires Valid(g) && t in g && IsGroup(g[t]) && work == [Some(t)] && seen == {}
    ensures Search(g, work, seen)
  {
  }

  lemma GroupBehindFirst(g: Graph, t: Type, u: Type, work: seq<Option<Type>>, seen: set<Type>)
    requires Valid(g) && t in g && !IsGroup(g[t]) && Some(u) in Pushes(g[t]) && g[u].group && work == [Some(t)] && seen == {}
    ensures Search(g, work, seen)
  {
    var rest := work[..|work| - 1];
    assert rest + Pushes(g[t]) == Pushes(g[t]);
    GroupOnWork(g, Pushes(g[t]), seen + {g[t].canonical}, u);
  }

  // ----- Any order of the worklist --------------------------------------------------------------

  // Some order of taking types from the worklist ends without a group.
  ghost predicate CanMiss(g: Graph, work: seq<Option<Type>>, seen: set<Type>)
    requires Valid(g) && Within(g, work)
    decreases Canonicals(g) - seen, |work|, 1
  {
    work == [] || exists i :: 0 <= i < |work| && TakingMisses(g, work, seen, i)
  }

  ghost predicate TakingMisses(g: Graph, work: seq<Option<Type>>, seen: set<Type>, i: nat)
    requires Valid(g) && Within(g, work) && i < |work|
    decreases Canonicals(g) - seen, |work|, 0
  {
    var rest := work[..i] + work[i + 1..];
    if work[i].None? then CanMiss(g, rest, seen)
    else
      var info := g[work[i].value];
      && !info.group
      && if info.canonical in seen then CanMiss(g, rest, seen)
         else !info.greater && CanMiss(g, rest + Pushes(info), seen + {info.canonical})
  }

  // The search takes the last type of the worklist.
  lemma {:induction false} LastTaken(g: Graph, work: seq<Option<Type>>, seen: set<Type>)
    requires Valid(g) && Within(g, work) && !Search(g, work, seen)
    ensures CanMiss(g, work, seen)
    decreases Canonicals(g) - seen, |work|
  {
    if work != [] {
      var last, rest := |work| - 1, work[..|work| - 1];
      assert work[..last] + work[last + 1..] == rest;
      if work[last].None? || g[work[last].value].canonical in seen {
        LastTaken(g, rest, seen);
      } else {
        LastTaken(g, rest + Pushes(g[work[last].value]), seen + {g[work[last].value].canonical});
      }
      assert TakingMisses(g, work, seen, last);
    }
  }

  // ----- One type per canonical type ------------------------------------------------------------

  ghost function CanonicalsOf(g: Graph, types: seq<Type>): set<Type>
    requires forall t :: t in types ==> t in g
  {
    set t | t in types :: g[t].canonical
  }

  ghost predicate Pushed(g: Graph, types: seq<Type>, x: Type)
    requires forall t :: t in types ==> t in g
  {
    exists j :: 0 <= j < |types| && Some(x) in Pushes(g[types[j]])
  }

  // Types with different canonical types and no group among them, from first on, each later one pushed by an
  // earlier one.
  ghost predicate Opening(g: Graph, first: Type, types: seq<Type>) {
    && (forall t :: t in types ==> t in g && !IsGroup(g[t]))
    && (forall i, j :: 0 <= i < j < |types| ==> g[types[i]].canonical != g[types[j]].canonical)
    && (types != [] ==> types[0] == first)
    && (forall k :: 0 < k < |types| ==> Pushed(g, types[..k], types[k]))
  }

  // Nothing the types push is a group or of another canonical type.
  ghost predicate Choice(g: Graph, first: Type, types: seq<Type>)
    requires Valid(g)
  {
    && Opening(g, first, types) && types != []
    && forall x: Type :: Pushed(g, types, x) ==> !g[x].group && g[x].canonical in CanonicalsOf(g, types)
  }

  // ----- From a run that misses to a choice -----------------------------------------------------

  // The types opened so far: what they push waits or has been passed over, and nothing else waits.
  ghost predicate Opened(g: Graph, first: Type, types: seq<Type>, work: seq<Option<Type>>)
    requires Valid(g)
  {
    && Opening(g, first, types)
    && (forall x: Type :: Pushed(g, types, x) ==> Some(x) in work || (!g[x].group && g[x].canonical in CanonicalsOf(g, types)))
    && (if types == [] then work == [Some(first)] else forall x: Type :: Some(x) in work ==> Pushed(g, types, x))
  }

  // An entry that a run without a group takes first, and what is left.
  lemma FirstTaken(g: Graph, work: seq<Option<Type>>, seen: set<Type>) returns (taken: Option<Type>, rest: seq<Option<Type>>)
    requires Valid(g) && Within(g, work) && CanMiss(g, work, seen) && work != []
    ensures taken in work && Takes(work, taken, rest) && |rest| == |work| - 1 && Within(g, rest)
    ensures taken.None? || g[taken.value].canonical in seen ==> CanMiss(g, rest, seen) && (taken.Some? ==> !g[taken.value].group)
    ensures taken.Some? && g[taken.value].canonical !in seen ==>
              !IsGroup(g[taken.value]) && CanMiss(g, rest + Pushes(g[taken.value]), seen + {g[taken.value].canonical})
  {
    var i :| 0 <= i < |work| && TakingMisses(g, work, seen, i);
    taken, rest := work[i], work[..i] + work[i + 1..];
    TakenAt(work, i);
  }

  lemma {:induction false} MissIsChoice(g: Graph, first: Type, types: seq<Type>, work: seq<Option<Type>>, seen: set<Type>)
    returns (choice: seq<Type>)
    requires Valid(g) && Within(g, work) && Opened(g, first, types, work)
    requires CanMiss(g, work, seen) && seen == CanonicalsOf(g, types)
    ensures Choice(g, first, choice)
    decreases Canonicals(g) - seen, |work|
  {
    if work == [] {
      return types;
    }
    var taken, rest := FirstTaken(g, work, seen);
    if taken.None? || g[taken.value].canonical in seen {
      PassedOver(g, first, types, work, taken, rest);
      choice := MissIsChoice(g, first, types, rest, seen);
    } else {
      var t := taken.value;
      var next := rest + Pushes(g[t]);
      OneMore(g, first, types, work, t, rest, next);
      choice := MissIsChoice(g, first, types + [t], next, seen + {g[t].canonical});
    }
  }

  // The worklist without one of its entries; others equal to it may stay.
  ghost predicate Takes(work: seq<Option<Type>>, taken: Option<Type>, rest: seq<Option<Type>>) {
    forall x: Option<Type> :: x in work <==> x == taken || x in rest
  }

  lemma TakenAt(work: seq<Option<Type>>, i: nat)
    requires i < |work|
    ensures Takes(work, work[i], work[..i] + work[i + 1..])
  {
    assert work == work[..i] + [work[i]] + work[i + 1..];
  }

  lemma PassedOver(g: Graph, first: Type, types: seq<Type>, work: seq<Option<Type>>, taken: Option<Type>, rest: seq<Option<Type>>)
    requires Valid(g) && Within(g, work) && Opened(g, first, types, work) && Takes(work, taken, rest) && taken in work
    requires taken.Some? ==> !g[taken.value].group && g[taken.value].canonical in CanonicalsOf(g, types)
    ensures Opened(g, first, types, rest)
  {
    assert types != [];
    assert forall x: Type :: Some(x) in rest ==> Some(x) in work;
    forall x: Type | Pushed(g, types, x) && Some(x) !in rest
      ensures !g[x].group && g[x].canonical in CanonicalsOf(g, types)
    {
      assert Some(x) in work ==> Some(x) == taken;
    }
  }

  lemma PushedMore(g: Graph, types: seq<Type>, t: Type, x: Type)
    requires t in g && forall u :: u in types ==> u in g
    ensures Pushed(g, types + [t], x) <==> Pushed(g, types, x) || Some(x) in Pushes(g[t])
  {
    var more := types + [t];
    if Pushed(g, types, x) {
      var j :| 0 <= j < |types| && Some(x) in Pushes(g[types[j]]);
      assert Some(x) in Pushes(g[more[j]]);
    }
    if Some(x) in Pushes(g[t]) {
      assert more[|types|] == t;
    }
  }

  lemma OneLonger<T>(s: seq<T>, k: nat)
    requires k < |s|
    ensures s[..k + 1] == s[..k] + [s[k]]
  {
  }

  lemma CanonicalsMore(g: Graph, types: seq<Type>, t: Type)
    requires t in g && forall u :: u in types ==> u in g
    ensures CanonicalsOf(g, types + [t]) == CanonicalsOf(g, types) + {g[t].canonical}
  {
    var more := types + [t];
    assert t in more && forall u :: u in types ==> u in more;
  }

  lemma PushedInOrder(g: Graph, first: Type, types: seq<Type>, t: Type, more: seq<Type>)
    requires Opening(g, first, types) && t in g && (types != [] ==> Pushed(g, types, t)) && more == types + [t]
    ensures forall u :: u in more ==> u in g
    ensures forall k :: 0 < k < |more| ==> Pushed(g, more[..k], more[k])
  {
    forall k | 0 < k < |more|
      ensures Pushed(g, more[..k], more[k])
    {
      assert more[..k] == types[..k] && types[..|types|] == types;
    }
  }

  lemma NewCanonical(g: Graph, types: seq<Type>, t: Type, more: seq<Type>)
    requires t in g && (forall u :: u in types ==> u in g) && g[t].canonical !in CanonicalsOf(g, types) && more == types + [t]
    requires forall i, j :: 0 <= i < j < |types| ==> g[types[i]].canonical != g[types[j]].canonical
    ensures forall u :: u in more ==> u in g
    ensures forall i, j :: 0 <= i < j < |more| ==> g[more[i]].canonical != g[more[j]].canonical
  {
    forall i, j | 0 <= i < j < |more|
      ensures g[more[i]].canonical != g[more[j]].canonical
    {
      assert types[i] in types;
    }
  }

  lemma OpeningMore(g: Graph, first: Type, types: seq<Type>, t: Type)
    requires Opening(g, first, types) && t in g && !IsGroup(g[t]) && g[t].canonical !in CanonicalsOf(g, types)
    requires if types == [] then t == first else Pushed(g, types, t)
    ensures Opening(g, first, types + [t])
  {
    PushedInOrder(g, first, types, t, types + [t]);
    NewCanonical(g, types, t, types + [t]);
  }

  // What is pushed once one more type has been opened.
  ghost predicate Grows(g: Graph, types: seq<Type>, t: Type, more: seq<Type>)
    requires t in g && (forall u :: u in types ==> u in g) && forall u :: u in more ==> u in g
  {
    forall x: Type :: Pushed(g, more, x) <==> Pushed(g, types, x) || Some(x) in Pushes(g[t])
  }

  lemma GrowsBy(g: Graph, types: seq<Type>, t: Type)
    requires t in g && forall u :: u in types ==> u in g
    ensures Grows(g, types, t, types + [t])
  {
    forall x: Type
      ensures Pushed(g, types + [t], x) <==> Pushed(g, types, x) || Some(x) in Pushes(g[t])
    {
      PushedMore(g, types, t, x);
    }
  }

  lemma OneMore(g: Graph, first: Type, types: seq<Type>, work: seq<Option<Type>>, t: Type, rest: seq<Option<Type>>, next: seq<Option<Type>>)
    requires Valid(g) && Within(g, work) && Opened(g, first, types, work) && Takes(work, Some(t), rest) && Some(t) in work
    requires !IsGroup(g[t]) && g[t].canonical !in CanonicalsOf(g, types) && next == rest + Pushes(g[t])
    requires |rest| == |work| - 1
    ensures Opened(g, first, types + [t], next)
    ensures CanonicalsOf(g, types + [t]) == CanonicalsOf(g, types) + {g[t].canonical}
  {
    OpeningMore(g, first, types, t);
    CanonicalsMore(g, types, t);
    GrowsBy(g, types, t);
    MoreWaits(g, types, work, t, rest, next, types + [t]);
  }

  lemma MoreWaits(g: Graph, types: seq<Type>, work: seq<Option<Type>>, t: Type, rest: seq<Option<Type>>, next: seq<Option<Type>>, more: seq<Type>)
    requires Valid(g) && t in g && (forall u :: u in types ==> u in g) && forall u :: u in more ==> u in g
    requires Takes(work, Some(t), rest) && next == rest + Pushes(g[t]) && Grows(g, types, t, more)
    requires CanonicalsOf(g, more) == CanonicalsOf(g, types) + {g[t].canonical} && !g[t].group
    requires forall x: Type :: Pushed(g, types, x) ==> Some(x) in work || (!g[x].group && g[x].canonical in CanonicalsOf(g, types))
    requires rest == [] || forall x: Type :: Some(x) in work ==> Pushed(g, types, x)
    ensures forall x: Type :: Pushed(g, more, x) ==> Some(x) in next || (!g[x].group && g[x].canonical in CanonicalsOf(g, more))
    ensures forall x: Type :: Some(x) in next ==> Pushed(g, more, x)
  {
    forall x: Type | Pushed(g, more, x) && Some(x) !in next
      ensures !g[x].group && g[x].canonical in CanonicalsOf(g, more)
    {
      assert Some(x) in work ==> x == t;
    }
    forall x: Type | Some(x) in next
      ensures Pushed(g, more, x)
    {
      assert Some(x) in rest ==> Some(x) in work;
    }
  }

  // ----- From a choice to a run that misses -----------------------------------------------------

  // Everything that waits has been seen: nothing more is opened.
  lemma {:induction false} NothingLeft(g: Graph, work: seq<Option<Type>>, seen: set<Type>)
    requires Valid(g) && Within(g, work)
    requires forall x: Type :: Some(x) in work ==> !g[x].group && g[x].canonical in seen
    ensures CanMiss(g, work, seen)
    decreases |work|
  {
    if work != [] {
      assert work[..0] + work[1..] == work[1..];
      NothingLeft(g, work[1..], seen);
      assert TakingMisses(g, work, seen, 0);
    }
  }

  // The first k types of the choice have been opened, and the others wait where they have been pushed.
  ghost predicate Following(g: Graph, choice: seq<Type>, k: nat, work: seq<Option<Type>>)
    requires Valid(g) && (forall t :: t in choice ==> t in g) && k <= |choice|
  {
    && (forall x: Type :: Some(x) in work ==> x in g && !g[x].group && g[x].canonical in CanonicalsOf(g, choice))
    && (forall m :: k <= m < |choice| && (m == 0 || Pushed(g, choice[..k], choice[m])) ==> Some(choice[m]) in work)
  }

  lemma {:induction false} ChoiceIsMissed(g: Graph, first: Type, choice: seq<Type>, k: nat, work: seq<Option<Type>>)
    requires Valid(g) && Within(g, work) && Choice(g, first, choice) && k <= |choice| && Following(g, choice, k, work)
    ensures CanMiss(g, work, CanonicalsOf(g, choice[..k]))
    decreases |choice| - k
  {
    var seen := CanonicalsOf(g, choice[..k]);
    if k == |choice| {
      assert choice[..k] == choice;
      NothingLeft(g, work, seen);
    } else {
      var t := choice[k];
      ChosenWaits(g, first, choice, k, work);
      var i :| 0 <= i < |work| && work[i] == Some(t);
      var rest := work[..i] + work[i + 1..];
      TakenAt(work, i);
      ChosenIsNew(g, first, choice, k);
      FollowingMore(g, first, choice, k, work, rest, rest + Pushes(g[t]));
      ChoiceIsMissed(g, first, choice, k + 1, rest + Pushes(g[t]));
      assert TakingMisses(g, work, seen, i);
    }
  }

  lemma ChosenWaits(g: Graph, first: Type, choice: seq<Type>, k: nat, work: seq<Option<Type>>)
    requires Valid(g) && Opening(g, first, choice) && k < |choice| && Following(g, choice, k, work)
    ensures Some(choice[k]) in work
  {
  }

  lemma ChosenIsNew(g: Graph, first: Type, choice: seq<Type>, k: nat)
    requires Opening(g, first, choice) && k < |choice|
    ensures forall t :: t in choice[..k] || t in choice[..k + 1] ==> t in g
    ensures
      var t, seen := choice[k], CanonicalsOf(g, choice[..k]);
      !IsGroup(g[t]) && g[t].canonical !in seen && CanonicalsOf(g, choice[..k + 1]) == seen + {g[t].canonical}
  {
    OneLonger(choice, k);
    CanonicalsMore(g, choice[..k], choice[k]);
  }

  lemma FollowingMore(g: Graph, first: Type, choice: seq<Type>, k: nat, work: seq<Option<Type>>, rest: seq<Option<Type>>, next: seq<Option<Type>>)
    requires Valid(g) && Within(g, work) && Choice(g, first, choice) && k < |choice| && Following(g, choice, k, work)
    requires Takes(work, Some(choice[k]), rest) && next == rest + Pushes(g[choice[k]])
    ensures Within(g, next) && Following(g, choice, k + 1, next)
  {
    var t, before, after := choice[k], choice[..k], choice[..k + 1];
    OneLonger(choice, k);
    GrowsBy(g, before, t);
    forall x: Type | Some(x) in next
      ensures x in g && !g[x].group && g[x].canonical in CanonicalsOf(g, choice)
    {
      assert Some(x) in rest ==> Some(x) in work;
      assert Some(x) in Pushes(g[t]) ==> Pushed(g, choice, x);
    }
    forall m | k + 1 <= m < |choice| && (m == 0 || Pushed(g, after, choice[m]))
      ensures Some(choice[m]) in next
    {
      assert choice[m] != t;
      assert Some(choice[m]) in work ==> Some(choice[m]) in rest;
    }
  }

  // Some order misses exactly when one type can be chosen for each canonical type, none of them a group and
  // each pushed by another, such that what they push is no group and of a canonical type chosen.
  lemma MissedExactly(g: Graph, first: Type)
    requires Valid(g) && first in g
    ensures CanMiss(g, [Some(first)], {}) <==> exists choice :: Choice(g, first, choice)
  {
    if CanMiss(g, [Some(first)], {}) {
      var none: seq<Type> := [];
      assert CanonicalsOf(g, none) == {} && forall x: Type :: !Pushed(g, none, x);
      var choice := MissIsChoice(g, first, none, [Some(first)], {});
    }
    if choice :| Choice(g, first, choice) {
      var none: seq<Type> := [];
      assert choice[0] in choice && choice[..0] == none && forall x: Type :: !Pushed(g, none, x);
      ChoiceIsMissed(g, first, choice, 0, [Some(first)]);
      assert CanonicalsOf(g, choice[..0]) == {};
    }
  }

  // ----- When no order misses -------------------------------------------------------------------

  ghost predicate Leads(g: Graph, first: Type, t: Type) {
    exists p :: Path(g, p) && p[0] == first && p[|p| - 1] == t
  }

  // Of the types that first leads to, those with one canonical type are all groups or all not, and their
  // components have the same canonical types.
  ghost predicate Uniform(g: Graph, first: Type)
    requires Valid(g)
  {
    forall t, u :: Leads(g, first, t) && Leads(g, first, u) && g[t].canonical == g[u].canonical ==> Interchangeable(g, t, u)
  }

  ghost predicate Interchangeable(g: Graph, t: Type, u: Type)
    requires Valid(g) && t in g && u in g
  {
    && IsGroup(g[t]) == IsGroup(g[u])
    && forall x: Type :: Some(x) in Pushes(g[t]) ==> HasComponent(g, u, g[x].canonical)
  }

  ghost predicate HasComponent(g: Graph, u: Type, canonical: Type)
    requires Valid(g) && u in g
  {
    exists y :: Some(y) in Pushes(g[u]) && g[y].canonical == canonical
  }

  lemma LeadsOn(g: Graph, first: Type, t: Type, x: Type)
    requires Valid(g) && Leads(g, first, t) && Some(x) in Pushes(g[t])
    ensures Leads(g, first, x)
  {
    var p :| Path(g, p) && p[0] == first && p[|p| - 1] == t;
    var q := p + [x];
    forall i | 0 <= i < |q| - 1
      ensures Some(q[i + 1]) in Pushes(g[q[i]])
    {
      if i < |p| - 1 {
        assert q[i] == p[i] && q[i + 1] == p[i + 1];
      }
    }
    assert Path(g, q);
  }

  lemma {:induction false} ChosenAreLedTo(g: Graph, first: Type, choice: seq<Type>, k: nat)
    requires Valid(g) && Opening(g, first, choice) && k < |choice|
    ensures Leads(g, first, choice[k])
    decreases k
  {
    if k == 0 {
      assert Path(g, [first]);
    } else {
      assert Pushed(g, choice[..k], choice[k]);
      var j :| 0 <= j < k && Some(choice[k]) in Pushes(g[choice[..k][j]]);
      ChosenAreLedTo(g, first, choice, j);
      LeadsOn(g, first, choice[j], choice[k]);
    }
  }

  lemma {:induction false} PathKept(g: Graph, first: Type, choice: seq<Type>, p: seq<Type>, i: nat) returns (k: nat)
    requires Valid(g) && Uniform(g, first) && Choice(g, first, choice) && Path(g, p) && p[0] == first && i < |p|
    ensures k < |choice| && g[choice[k]].canonical == g[p[i]].canonical && Leads(g, first, p[i]) && !IsGroup(g[p[i]])
    decreases i
  {
    if i == 0 {
      k := 0;
      assert Path(g, [first]);
    } else {
      var j := PathKept(g, first, choice, p, i - 1);
      assert Some(p[i - 1 + 1]) in Pushes(g[p[i - 1]]);
      LeadsOn(g, first, p[i - 1], p[i]);
      ChosenAreLedTo(g, first, choice, j);
      assert Interchangeable(g, p[i - 1], choice[j]);
      assert HasComponent(g, choice[j], g[p[i]].canonical);
      var y :| Some(y) in Pushes(g[choice[j]]) && g[y].canonical == g[p[i]].canonical;
      assert Pushed(g, choice, y);
      var t :| t in choice && g[t].canonical == g[p[i]].canonical;
      k :| 0 <= k < |choice| && choice[k] == t;
    }
    ChosenAreLedTo(g, first, choice, k);
    assert Interchangeable(g, p[i], choice[k]);
  }

  // The search finds a group only when one is a component at some depth, and then always when no such choice
  // exists; in particular when types of one canonical type are interchangeable.
  lemma SearchIsExact(g: Graph, first: Type)
    requires Valid(g) && first in g
    ensures Search(g, [Some(first)], {}) ==> Related(g, first)
    ensures !CanMiss(g, [Some(first)], {}) ==> Search(g, [Some(first)], {})
    ensures Uniform(g, first) && Related(g, first) ==> !CanMiss(g, [Some(first)], {})
  {
    if Search(g, [Some(first)], {}) {
      var t := SearchSound(g, [Some(first)], {});
    } else {
      LastTaken(g, [Some(first)], {});
    }
    if Uniform(g, first) && Related(g, first) && CanMiss(g, [Some(first)], {}) {
      var p :| Path(g, p) && p[0] == first && IsGroup(g[p[|p| - 1]]);
      MissedExactly(g, first);
      var choice :| Choice(g, first, choice);
      var k := PathKept(g, first, choice, p, |p| - 1);
    }
  }

  lemma SearchMeans(g: Graph, first: Type)
    requires Valid(g) && first in g
    ensures Search(g, [Some(first)], {}) ==> Related(g, first)
    ensures !Search(g, [Some(first)], {}) ==> exists choice :: Choice(g, first, choice)
  {
    SearchIsExact(g, first);
    MissedExactly(g, first);
  }

  // ----- Where it misses ------------------------------------------------------------------------

  // A function type with two parameters: int, and an alias of int whose written argument is a group.
  function AliasGraph(aliasLast: bool): Graph {
    var plain, written := Info(1, false, false, [], [], [], []), Info(1, false, false, [], [OfType(Some(3))], [], []);
    map[0 := Info(0, false, false, if aliasLast then [Some(1), Some(2)] else [Some(2), Some(1)], [], [], []),
        1 := plain, 2 := written, 3 := Info(3, true, false, [], [], [], [])]
  }

  lemma AliasPushes(aliasLast: bool)
    ensures
      var g := AliasGraph(aliasLast);
      Pushes(g[0]) == g[0].parts && Pushes(g[1]) == [] && Pushes(g[2]) == [Some(3)] && Pushes(g[3]) == []
  {
    var written := [OfType(Some(3))];
    assert written[..0] == [];
    assert PushOrder(written) == PushOf(written[0]) + PushOrder(written[..0]);
  }

  lemma AliasHasGroup(aliasLast: bool)
    ensures Valid(AliasGraph(aliasLast)) && Related(AliasGraph(aliasLast), 0)
  {
    var g := AliasGraph(aliasLast);
    AliasPushes(aliasLast);
    var p := [0, 2, 3];
    assert Path(g, p) && IsGroup(g[p[|p| - 1]]);
  }

  // One turn of the search.
  lemma Turn(g: Graph, rest: seq<Option<Type>>, t: Type, seen: set<Type>)
    requires Valid(g) && Within(g, rest) && t in g
    ensures
      Search(g, rest + [Some(t)], seen) ==
      if g[t].group then true
      else if g[t].canonical in seen then Search(g, rest, seen)
      else g[t].greater || Search(g, rest + Pushes(g[t]), seen + {g[t].canonical})
  {
    var work := rest + [Some(t)];
    assert work[..|work| - 1] == rest;
  }

  lemma AliasOpened(aliasLast: bool)
    ensures Valid(AliasGraph(aliasLast))
    ensures Search(AliasGraph(aliasLast), [Some(0)], {}) == Search(AliasGraph(aliasLast), AliasGraph(aliasLast)[0].parts, {} + {0})
  {
    var g, none: seq<Option<Type>> := AliasGraph(aliasLast), [];
    AliasHasGroup(aliasLast);
    AliasPushes(aliasLast);
    Turn(g, none, 0, {});
    assert none + [Some(0)] == [Some(0)] && none + g[0].parts == g[0].parts;
  }

  lemma AliasOpenedFirst(seen: set<Type>)
    requires 1 !in seen && 3 !in seen
    ensures Valid(AliasGraph(true)) && Search(AliasGraph(true), [Some(1)] + [Some(2)], seen)
  {
    var g := AliasGraph(true);
    AliasHasGroup(true);
    AliasPushes(true);
    Turn(g, [Some(1)], 2, seen);
    Turn(g, [Some(1)], 3, seen + {1});
  }

  lemma AliasOpenedSecond(seen: set<Type>)
    requires 1 !in seen
    ensures Valid(AliasGraph(false)) && !Search(AliasGraph(false), [Some(2)] + [Some(1)], seen)
  {
    var g, none: seq<Option<Type>> := AliasGraph(false), [];
    AliasHasGroup(false);
    AliasPushes(false);
    Turn(g, [Some(2)], 1, seen);
    assert [Some(2)] + none == none + [Some(2)];
    Turn(g, none, 2, seen + {1});
  }

  // The group is found or missed by which of the two parameters is opened first: they have one canonical type.
  lemma AliasHidesGroup(aliasLast: bool)
    ensures Valid(AliasGraph(aliasLast)) && Related(AliasGraph(aliasLast), 0)
    ensures Search(AliasGraph(aliasLast), [Some(0)], {}) <==> aliasLast
  {
    AliasHasGroup(aliasLast);
    AliasOpened(aliasLast);
    var parts := AliasGraph(aliasLast)[0].parts;
    if aliasLast {
      AliasOpenedFirst({} + {0});
      assert parts == [Some(1)] + [Some(2)];
    } else {
      AliasOpenedSecond({} + {0});
      assert parts == [Some(2)] + [Some(1)];
    }
  }
}
