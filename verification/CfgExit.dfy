// The search for successful exits that skip the grid write (src/DavC310TargetRecipe.cpp:11099-11181).
module CfgExit {
  type Block(==) = nat

  // What a statement of a block is to the search.  failure: proven to report an error.  zero: a zero value.
  datatype Element = Write | Return(failure: bool, zero: bool) | Other

  // A successor is missing when its edge is known not to be taken.
  datatype Body = Body(elements: seq<Element>, successors: seq<Edge>)
  datatype Edge = To(block: Block) | Unreachable

  datatype Cfg = Cfg(blocks: map<Block, Body>, entry: Block, exit: Block) {
    ghost predicate Valid() {
      && entry in blocks && exit in blocks
      && forall b, e :: b in blocks && e in blocks[b].successors && e.To? ==> e.block in blocks
    }
  }

  // ----- One block ------------------------------------------------------------------------------

  datatype End = Falls | Failed | Succeeded | Wrong

  // followsWrite after the block, whether it held the write, and how it ended.
  datatype Outcome = Outcome(followsWrite: bool, wrote: bool, end: End)

  function EndOf(element: Element, followsWrite: bool): End
    requires element.Return?
  {
    if element.failure then Failed else if element.zero && followsWrite then Succeeded else Wrong
  }

  // The index of the first return, or the number of elements.
  function FirstReturn(elements: seq<Element>): (k: nat)
    ensures k <= |elements|
    ensures k < |elements| ==> elements[k].Return?
    ensures forall i :: 0 <= i < k ==> !elements[i].Return?
  {
    if elements == [] || elements[0].Return? then 0 else 1 + FirstReturn(elements[1..])
  }

  function Scan(elements: seq<Element>, followsWrite: bool): Outcome {
    var k := FirstReturn(elements);
    var wrote := Write in elements[..k];
    Outcome(followsWrite || wrote, wrote,
            if k == |elements| then Falls else EndOf(elements[k], followsWrite || wrote))
  }

  method ScanBlock(elements: seq<Element>, followsWrite: bool) returns (outcome: Outcome)
    ensures outcome == Scan(elements, followsWrite)
  {
    var follows, wrote := followsWrite, false;
    for i := 0 to |elements|
      invariant i <= FirstReturn(elements)
      invariant wrote == (Write in elements[..i]) && follows == (followsWrite || wrote)
    {
      if elements[i] == Write {
        follows, wrote := true, true;
      }
      if elements[i].Return? {
        return Outcome(follows, wrote, EndOf(elements[i], follows));
      }
    }
    return Outcome(follows, wrote, Falls);
  }

  // ----- Runs -----------------------------------------------------------------------------------

  // The blocks of an execution from the entry: each but the last runs off its end into the next.
  ghost predicate Run(g: Cfg, p: seq<Block>)
    requires g.Valid()
  {
    && p != [] && p[0] == g.entry && (forall i :: 0 <= i < |p| ==> p[i] in g.blocks)
    && forall i :: 0 <= i < |p| - 1 ==> Follows(g, p[i], p[i + 1])
  }

  ghost predicate Follows(g: Cfg, a: Block, b: Block)
    requires a in g.blocks
  {
    (forall e :: e in g.blocks[a].elements ==> !e.Return?) && To(b) in g.blocks[a].successors
  }

  // The elements executed by the blocks before the last.
  function Executed(g: Cfg, p: seq<Block>): seq<Element>
    requires p != [] && forall i :: 0 <= i < |p| ==> p[i] in g.blocks
  {
    if |p| == 1 then [] else Executed(g, p[..|p| - 1]) + g.blocks[p[|p| - 2]].elements
  }

  type State = (Block, bool)

  // A run that ends in the block, with the write among the elements executed before it or not.
  ghost predicate Reaches(g: Cfg, p: seq<Block>, s: State)
    requires g.Valid()
  {
    Run(g, p) && p[|p| - 1] == s.0 && (Write in Executed(g, p)) == s.1
  }

  ghost predicate Reachable(g: Cfg, s: State)
    requires g.Valid()
  {
    exists p :: Reaches(g, p, s)
  }

  function OutcomeAt(g: Cfg, s: State): Outcome
    requires s.0 in g.blocks
  {
    Scan(g.blocks[s.0].elements, s.1)
  }

  ghost predicate Next(g: Cfg, s: State, t: State)
    requires s.0 in g.blocks
  {
    OutcomeAt(g, s).end == Falls && To(t.0) in g.blocks[s.0].successors && t.1 == OutcomeAt(g, s).followsWrite
  }

  lemma NextReachable(g: Cfg, s: State, t: State)
    requires g.Valid() && s.0 in g.blocks && Reachable(g, s) && Next(g, s, t)
    ensures Reachable(g, t)
  {
    var p :| Reaches(g, p, s);
    var elements := g.blocks[s.0].elements;
    var q := p + [t.0];
    assert elements[..|elements|] == elements;
    assert Follows(g, s.0, t.0);
    assert q[..|q| - 1] == p;
    forall i | 0 <= i < |q| - 1
      ensures Follows(g, q[i], q[i + 1])
    {
      if i < |p| - 1 {
        assert Follows(g, p[i], p[i + 1]);
      }
    }
    assert Executed(g, q) == Executed(g, p) + elements;
    assert Reaches(g, q, t);
  }

  // A set of states closed under Next that has the entry state has every reachable state.
  lemma {:induction false} ClosedHasReachable(g: Cfg, states: set<State>, p: seq<Block>, s: State)
    requires g.Valid() && Reaches(g, p, s)
    requires (g.entry, false) in states
    requires forall a, b :: a in states && a.0 in g.blocks && Next(g, a, b) ==> b in states
    ensures s in states
    decreases |p|
  {
    if |p| > 1 {
      var q := p[..|p| - 1];
      var before := (q[|q| - 1], Write in Executed(g, q));
      forall i | 0 <= i < |q| - 1
        ensures Follows(g, q[i], q[i + 1])
      {
        assert Follows(g, p[i], p[i + 1]);
      }
      ClosedHasReachable(g, states, q, before);
      assert Follows(g, p[|p| - 2], p[|p| - 2 + 1]);
      var elements := g.blocks[before.0].elements;
      assert FirstReturn(elements) == |elements| && elements[..|elements|] == elements;
      assert Next(g, before, s);
    }
  }

  // ----- The search -----------------------------------------------------------------------------

  // The state ends in an unproven return, a success without the write, or the exit without a return.
  predicate Faulty(g: Cfg, s: State)
    requires s.0 in g.blocks
  {
    OutcomeAt(g, s).end == Wrong || (OutcomeAt(g, s).end == Falls && s.0 == g.exit)
  }

  ghost predicate SucceedsAt(g: Cfg, s: State)
    requires g.Valid()
  {
    Reachable(g, s) && s.0 in g.blocks && OutcomeAt(g, s).end == Succeeded
  }

  ghost predicate WritesAt(g: Cfg, s: State)
    requires g.Valid()
  {
    Reachable(g, s) && s.0 in g.blocks && OutcomeAt(g, s).wrote
  }

  // One reachable state alone succeeds.
  ghost predicate OneState(g: Cfg, s: State)
    requires g.Valid()
  {
    SucceedsAt(g, s) && forall t :: SucceedsAt(g, t) ==> t == s
  }

  // No reachable state is faulty, the write is reachable, and one reachable state alone succeeds.
  ghost predicate Safe(g: Cfg)
    requires g.Valid()
  {
    && (forall s :: Reachable(g, s) && s.0 in g.blocks ==> !Faulty(g, s))
    && (exists s :: WritesAt(g, s))
    && (exists s :: OneState(g, s))
  }

  // Where the search stands: the visited states are reachable and not faulty, and what they lead to has
  // been visited or is pending.
  ghost predicate Progress(g: Cfg, pending: seq<State>, visited: set<State>)
    requires g.Valid()
  {
    && (forall s :: s in pending || s in visited ==> Reachable(g, s) && s.0 in g.blocks)
    && (forall s :: s in visited ==> !Faulty(g, s))
    && ((g.entry, false) in visited || (g.entry, false) in pending)
    && (forall a, b :: a in visited && Next(g, a, b) ==> b in visited || b in pending)
  }

  function Successes(g: Cfg, visited: set<State>): set<State>
    requires forall s :: s in visited ==> s.0 in g.blocks
  {
    set s | s in visited && OutcomeAt(g, s).end == Succeeded
  }

  function States(g: Cfg): (all: set<State>)
    ensures forall s: State :: s in all <==> s.0 in g.blocks
  {
    var all := (set b | b in g.blocks :: (b, false)) + (set b | b in g.blocks :: (b, true));
    assert forall s: State :: s == if s.1 then (s.0, true) else (s.0, false);
    all
  }

  // The states reached by running off the end of a block.
  method Successors(g: Cfg, s: State, followsWrite: bool) returns (next: seq<State>)
    requires g.Valid() && s.0 in g.blocks
    ensures forall t: State :: t in next <==> To(t.0) in g.blocks[s.0].successors && t.1 == followsWrite
  {
    var edges := g.blocks[s.0].successors;
    next := [];
    for i := 0 to |edges|
      invariant forall t: State :: t in next <==> To(t.0) in edges[..i] && t.1 == followsWrite
    {
      if edges[i].To? {
        next := next + [(edges[i].block, followsWrite)];
      }
    }
    assert edges[..|edges|] == edges;
  }

  lemma EntryReachable(g: Cfg)
    requires g.Valid()
    ensures Reachable(g, (g.entry, false))
  {
    assert Reaches(g, [g.entry], (g.entry, false));
  }

  lemma Visit(g: Cfg, pending: seq<State>, visited: set<State>, s: State, next: seq<State>)
    requires g.Valid() && pending != [] && s == pending[|pending| - 1] && Progress(g, pending, visited) && !Faulty(g, s)
    requires forall t: State :: t in next <==> Next(g, s, t)
    ensures Progress(g, pending[..|pending| - 1] + next, visited + {s})
  {
    var rest := pending[..|pending| - 1];
    assert pending == rest + [s];
    forall t | t in next
      ensures Reachable(g, t) && t.0 in g.blocks
    {
      NextReachable(g, s, t);
    }
  }

  lemma Revisit(g: Cfg, pending: seq<State>, visited: set<State>)
    requires g.Valid() && pending != [] && pending[|pending| - 1] in visited && Progress(g, pending, visited)
    ensures Progress(g, pending[..|pending| - 1], visited)
  {
    assert pending == pending[..|pending| - 1] + [pending[|pending| - 1]];
  }

  lemma Finished(g: Cfg, visited: set<State>)
    requires g.Valid() && Progress(g, [], visited)
    ensures forall s :: Reachable(g, s) <==> s in visited
  {
    forall s | Reachable(g, s)
      ensures s in visited
    {
      var p :| Reaches(g, p, s);
      ClosedHasReachable(g, visited, p, s);
    }
  }

  ghost predicate Sole<T>(a: set<T>, s: T) {
    s in a && forall t :: t in a ==> t == s
  }

  lemma SingleElement<T>(a: set<T>)
    ensures |a| == 1 <==> exists s :: Sole(a, s)
  {
    if s :| Sole(a, s) {
      assert a == {s};
    }
    if |a| == 1 {
      var s :| s in a;
      assert |a - {s}| == 0;
      assert forall t :: t in a ==> t == s;
      assert Sole(a, s);
    }
  }

  lemma SoleSuccess(g: Cfg, visited: set<State>, s: State)
    requires g.Valid() && Progress(g, [], visited)
    ensures OneState(g, s) <==> Sole(Successes(g, visited), s)
  {
    Finished(g, visited);
    assert forall t :: SucceedsAt(g, t) <==> t in Successes(g, visited);
  }

  lemma OneSuccess(g: Cfg, visited: set<State>)
    requires g.Valid() && Progress(g, [], visited)
    ensures |Successes(g, visited)| == 1 <==> exists s :: OneState(g, s)
  {
    SingleElement(Successes(g, visited));
    forall s
      ensures OneState(g, s) <==> Sole(Successes(g, visited), s)
    {
      SoleSuccess(g, visited, s);
    }
  }

  // What the search has counted in the states visited.
  ghost predicate Counted(g: Cfg, visited: set<State>, sawWrite: bool, successes: nat) {
    && (forall s :: s in visited ==> s.0 in g.blocks)
    && (sawWrite <==> exists s :: s in visited && OutcomeAt(g, s).wrote)
    && successes == |Successes(g, visited)|
  }

  lemma SuccessesAdd(g: Cfg, visited: set<State>, s: State)
    requires (forall t :: t in visited ==> t.0 in g.blocks) && s.0 in g.blocks && s !in visited
    ensures |Successes(g, visited + {s})| == |Successes(g, visited)| + if OutcomeAt(g, s).end == Succeeded then 1 else 0
  {
    var added := if OutcomeAt(g, s).end == Succeeded then {s} else {};
    assert Successes(g, visited + {s}) == Successes(g, visited) + added;
  }

  lemma CountNext(g: Cfg, visited: set<State>, sawWrite: bool, successes: nat, s: State)
    requires Counted(g, visited, sawWrite, successes) && s.0 in g.blocks && s !in visited
    ensures Counted(g, visited + {s}, sawWrite || OutcomeAt(g, s).wrote, successes + if OutcomeAt(g, s).end == Succeeded then 1 else 0)
  {
    SuccessesAdd(g, visited, s);
  }

  lemma FaultFound(g: Cfg, pending: seq<State>, visited: set<State>, s: State)
    requires g.Valid() && s in pending && Progress(g, pending, visited) && Faulty(g, s)
    ensures !Safe(g)
  {
  }

  lemma Verdict(g: Cfg, visited: set<State>, sawWrite: bool, successes: nat)
    requires g.Valid() && Progress(g, [], visited) && Counted(g, visited, sawWrite, successes)
    ensures sawWrite && successes == 1 <==> Safe(g)
  {
    Finished(g, visited);
    OneSuccess(g, visited);
    assert forall s :: WritesAt(g, s) <==> s in visited && OutcomeAt(g, s).wrote;
  }

  // The search proves exactly the safe graphs.
  method EverySuccessfulCfgExitFollowsWrite(g: Cfg) returns (proven: bool)
    requires g.Valid()
    ensures proven <==> Safe(g)
  {
    EntryReachable(g);
    var pending: seq<State>, visited: set<State> := [(g.entry, false)], {};
    var sawReachableWrite, successfulReturns := false, 0;
    while |pending| > 0
      invariant Progress(g, pending, visited) && Counted(g, visited, sawReachableWrite, successfulReturns)
      decreases States(g) - visited, |pending|
    {
      var state := pending[|pending| - 1];
      if state in visited {
        Revisit(g, pending, visited);
        pending := pending[..|pending| - 1];
        continue;
      }
      var outcome := ScanBlock(g.blocks[state.0].elements, state.1);
      if outcome.end == Wrong || (outcome.end == Falls && state.0 == g.exit) {
        FaultFound(g, pending, visited, state);
        return false;
      }
      var next := [];
      if outcome.end == Falls {
        next := Successors(g, state, outcome.followsWrite);
      }
      Visit(g, pending, visited, state, next);
      CountNext(g, visited, sawReachableWrite, successfulReturns, state);
      assert state in States(g);
      pending, visited := pending[..|pending| - 1] + next, visited + {state};
      sawReachableWrite := sawReachableWrite || outcome.wrote;
      successfulReturns := successfulReturns + if outcome.end == Succeeded then 1 else 0;
    }
    Verdict(g, visited, sawReachableWrite, successfulReturns);
    return sawReachableWrite && successfulReturns == 1;
  }

  // ----- What safety says of every path ---------------------------------------------------------

  // In a safe graph every return on every run is a proven failure or a zero return with the write among
  // the elements executed before it, and no run ends at the exit without a return.
  lemma SafePaths(g: Cfg, p: seq<Block>)
    requires g.Valid() && Safe(g) && Run(g, p)
    ensures
      var elements := g.blocks[p[|p| - 1]].elements;
      var k := FirstReturn(elements);
      if k < |elements| then
        elements[k].failure || (elements[k].zero && Write in Executed(g, p) + elements[..k])
      else p[|p| - 1] != g.exit
  {
    var s := (p[|p| - 1], Write in Executed(g, p));
    assert Reaches(g, p, s);
    assert !Faulty(g, s);
  }

  // All its runs that succeed do so in one block, at one return, after the write.
  lemma OneSuccessfulReturn(g: Cfg, p: seq<Block>, q: seq<Block>)
    requires g.Valid() && Safe(g) && Run(g, p) && Run(g, q)
    requires OutcomeAt(g, (p[|p| - 1], Write in Executed(g, p))).end == Succeeded
    requires OutcomeAt(g, (q[|q| - 1], Write in Executed(g, q))).end == Succeeded
    ensures p[|p| - 1] == q[|q| - 1]
    ensures Write in Executed(g, p) <==> Write in Executed(g, q)
  {
    var s, t := (p[|p| - 1], Write in Executed(g, p)), (q[|q| - 1], Write in Executed(g, q));
    assert Reaches(g, p, s) && Reaches(g, q, t);
    assert SucceedsAt(g, s) && SucceedsAt(g, t);
  }

  // What a run has executed when it comes to the first return of its last block, or to the block's end.
  function Before(g: Cfg, p: seq<Block>): seq<Element>
    requires p != [] && forall i :: 0 <= i < |p| ==> p[i] in g.blocks
  {
    Executed(g, p) + g.blocks[p[|p| - 1]].elements[..FirstReturn(g.blocks[p[|p| - 1]].elements)]
  }

  // The run ends in a return that is neither a proven failure nor a zero after the write, or at the exit without
  // a return.
  ghost predicate Fails(g: Cfg, p: seq<Block>)
    requires g.Valid() && Run(g, p)
  {
    var elements := g.blocks[p[|p| - 1]].elements;
    var k := FirstReturn(elements);
    if k < |elements| then !elements[k].failure && !(elements[k].zero && Write in Before(g, p)) else p[|p| - 1] == g.exit
  }

  // The run ends in a return that is no failure, and zero after the write.
  ghost predicate Succeeds(g: Cfg, p: seq<Block>)
    requires g.Valid() && Run(g, p)
  {
    var elements := g.blocks[p[|p| - 1]].elements;
    var k := FirstReturn(elements);
    k < |elements| && !elements[k].failure && elements[k].zero && Write in Before(g, p)
  }

  // The state a run ends in.
  function StateOf(g: Cfg, p: seq<Block>): State
    requires p != [] && forall i :: 0 <= i < |p| ==> p[i] in g.blocks
  {
    (p[|p| - 1], Write in Executed(g, p))
  }

  ghost predicate WritesLast(g: Cfg, p: seq<Block>)
    requires g.Valid() && Run(g, p)
  {
    var elements := g.blocks[p[|p| - 1]].elements;
    Write in elements[..FirstReturn(elements)]
  }

  lemma RunOutcome(g: Cfg, p: seq<Block>)
    requires g.Valid() && Run(g, p)
    ensures Reachable(g, StateOf(g, p)) && StateOf(g, p).0 in g.blocks
    ensures Faulty(g, StateOf(g, p)) <==> Fails(g, p)
    ensures (OutcomeAt(g, StateOf(g, p)).end == Succeeded) <==> Succeeds(g, p)
    ensures OutcomeAt(g, StateOf(g, p)).wrote <==> WritesLast(g, p)
  {
    assert Reaches(g, p, StateOf(g, p));
  }

  lemma ReachableByRun(g: Cfg, s: State) returns (p: seq<Block>)
    requires g.Valid() && Reachable(g, s)
    ensures Run(g, p) && StateOf(g, p) == s
  {
    p :| Reaches(g, p, s);
  }

  ghost predicate NoRunFails(g: Cfg)
    requires g.Valid()
  {
    forall p :: Run(g, p) ==> !Fails(g, p)
  }

  ghost predicate SomeRunWrites(g: Cfg)
    requires g.Valid()
  {
    exists p :: Run(g, p) && WritesLast(g, p)
  }

  // Some run succeeds, and all that do end in one block and alike in having written before it or not.
  ghost predicate RunsSucceedAlike(g: Cfg)
    requires g.Valid()
  {
    exists p :: Run(g, p) && SucceedsAlone(g, p)
  }

  ghost predicate SucceedsAlone(g: Cfg, p: seq<Block>)
    requires g.Valid() && Run(g, p)
  {
    Succeeds(g, p) && forall q :: Run(g, q) && Succeeds(g, q) ==> StateOf(g, q) == StateOf(g, p)
  }

  lemma FaultlessRuns(g: Cfg)
    requires g.Valid()
    ensures NoRunFails(g) <==> forall s :: Reachable(g, s) && s.0 in g.blocks ==> !Faulty(g, s)
  {
    forall p | Run(g, p)
      ensures Reachable(g, StateOf(g, p)) && (Faulty(g, StateOf(g, p)) <==> Fails(g, p))
    {
      RunOutcome(g, p);
    }
    forall s | Reachable(g, s) && s.0 in g.blocks
      ensures NoRunFails(g) ==> !Faulty(g, s)
    {
      var p := ReachableByRun(g, s);
      RunOutcome(g, p);
    }
  }

  lemma WritingRuns(g: Cfg)
    requires g.Valid()
    ensures SomeRunWrites(g) <==> exists s :: WritesAt(g, s)
  {
    if p :| Run(g, p) && WritesLast(g, p) {
      RunOutcome(g, p);
      assert WritesAt(g, StateOf(g, p));
    }
    if s :| WritesAt(g, s) {
      var p := ReachableByRun(g, s);
      RunOutcome(g, p);
      assert Run(g, p) && WritesLast(g, p);
    }
  }

  lemma SucceedingRuns(g: Cfg, p: seq<Block>)
    requires g.Valid() && Run(g, p)
    ensures SucceedsAlone(g, p) <==> OneState(g, StateOf(g, p))
  {
    forall q | Run(g, q)
      ensures Succeeds(g, q) <==> SucceedsAt(g, StateOf(g, q))
    {
      RunOutcome(g, q);
    }
    forall t | SucceedsAt(g, t)
      ensures SucceedsAlone(g, p) ==> t == StateOf(g, p)
    {
      var q := ReachableByRun(g, t);
      assert Succeeds(g, q);
    }
  }

  lemma AlikeRuns(g: Cfg)
    requires g.Valid()
    ensures RunsSucceedAlike(g) <==> exists s :: OneState(g, s)
  {
    if s :| OneState(g, s) {
      var p := ReachableByRun(g, s);
      SucceedingRuns(g, p);
      assert Run(g, p) && SucceedsAlone(g, p);
    }
    if p :| Run(g, p) && SucceedsAlone(g, p) {
      SucceedingRuns(g, p);
      assert OneState(g, StateOf(g, p));
    }
  }

  // The graphs proven are exactly those in which no run fails, some run writes, and those that succeed do so
  // alike.
  lemma SafeRuns(g: Cfg)
    requires g.Valid()
    ensures Safe(g) <==> NoRunFails(g) && SomeRunWrites(g) && RunsSucceedAlike(g)
  {
    FaultlessRuns(g);
    WritingRuns(g);
    AlikeRuns(g);
  }
}
