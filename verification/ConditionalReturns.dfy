// The scan of a primitive's source body (src/DavC310TargetRecipe.cpp:2167-2319): a stack machine over the
// conditional groups bounds the number of returns left in every configuration.  The reference is the
// conditional inclusion of section 19.1 of ISO/IEC 14882:2017.
module ConditionalReturns {
  import opened Primitives
  import opened ReturnTokens

  datatype Directive = If | Elif | Else | Endif

  datatype Item = Word(token: Token) | Line(directive: Directive)

  // How many returns a run of tokens is, when it is one.
  type Counter = seq<Token> -> Option<nat>

  // ----- The stack machine ----------------------------------------------------------------------

  // alternative is None while no alternative has ended: the machine's largest number.
  datatype Frame = Frame(prefixMinimum: nat, alternative: Option<nat>, sawElse: bool)

  datatype Scan = Scan(tokens: seq<Token>, frames: seq<Frame>, minimum: nat)

  function Least(a: Option<nat>, b: nat): nat {
    if a.Some? && a.value < b then a.value else b
  }

  function Enter(directive: Directive, frames: seq<Frame>, minimum: nat): Option<Scan> {
    if directive.If? then Some(Scan([], frames + [Frame(minimum, None, false)], 0))
    else if frames == [] then None
    else
      var outer, top := frames[..|frames| - 1], frames[|frames| - 1];
      var least := Least(top.alternative, minimum);
      if directive.Endif? then Some(Scan([], outer, top.prefixMinimum + if top.sawElse then least else 0))
      else if top.sawElse then None
      else Some(Scan([], outer + [top.(alternative := Some(least), sawElse := directive.Else?)], 0))
  }

  function ScanStep(count: Counter, s: Scan, item: Item): Option<Scan>
  {
    match item
    case Word(t) => Some(s.(tokens := s.tokens + [t]))
    case Line(d) =>
      match count(s.tokens)
      case None => None
      case Some(n) => Enter(d, s.frames, s.minimum + n)
  }

  function ScanAll(count: Counter, items: seq<Item>): Option<Scan>
    decreases |items|
  {
    if items == [] then Some(Scan([], [], 0))
    else match ScanAll(count, items[..|items| - 1])
      case None => None
      case Some(s) => ScanStep(count, s, items[|items| - 1])
  }

  // The minimum the machine ends with, when it accepts the groups and every run of tokens.
  function Minimum(count: Counter, items: seq<Item>): Option<nat>
  {
    match ScanAll(count, items)
    case None => None
    case Some(s) =>
      match count(s.tokens)
      case None => None
      case Some(n) => if s.frames == [] then Some(s.minimum + n) else None
  }

  // ----- Conditional inclusion ------------------------------------------------------------------

  // One open group: has an alternative been taken, is the current one, has #else been seen.
  datatype Group = Group(taken: bool, active: bool, sawElse: bool)

  datatype Text = Text(groups: seq<Group>, output: seq<Token>)

  predicate Active(groups: seq<Group>) {
    ActiveTo(groups, |groups|)
  }

  predicate ActiveTo(groups: seq<Group>, k: nat)
    requires k <= |groups|
  {
    forall i :: 0 <= i < k ==> groups[i].active
  }

  // condition is the value of the directive's own condition.
  function Change(directive: Directive, groups: seq<Group>, condition: bool): Option<seq<Group>> {
    if directive.If? then Some(groups + [Group(condition, condition, false)])
    else if groups == [] then None
    else
      var outer, top := groups[..|groups| - 1], groups[|groups| - 1];
      match directive
      case Elif => if top.sawElse then None else Some(outer + [Group(top.taken || condition, !top.taken && condition, false)])
      case Else => if top.sawElse then None else Some(outer + [Group(true, !top.taken, true)])
      case _ => Some(outer)
  }

  function Append(text: Text, t: Token): Text {
    if Active(text.groups) then text.(output := text.output + [t]) else text
  }

  function Include(text: Text, item: Item, condition: bool): Option<Text> {
    match item
    case Word(t) => Some(Append(text, t))
    case Line(d) =>
      match Change(d, text.groups, condition)
      case None => None
      case Some(groups) => Some(text.(groups := groups))
  }

  // The text left by one configuration, which gives the value of the condition at every item.
  function Preprocess(items: seq<Item>, conditions: seq<bool>): Option<Text>
    requires |conditions| == |items|
    decreases |items|
  {
    if items == [] then Some(Text([], []))
    else match Preprocess(items[..|items| - 1], conditions[..|items| - 1])
      case None => None
      case Some(text) => Include(text, items[|items| - 1], conditions[|items| - 1])
  }

  // ----- What the machine checks besides the minimum --------------------------------------------

  // The open groups after an item, each with whether it has seen #else; None when directives do not nest.
  function Nest(open: seq<bool>, item: Item): Option<seq<bool>> {
    if item.Word? then Some(open)
    else if item.directive.If? then Some(open + [false])
    else if open == [] then None
    else
      var outer, sawElse := open[..|open| - 1], open[|open| - 1];
      if item.directive.Endif? then Some(outer)
      else if sawElse then None
      else Some(outer + [item.directive.Else?])
  }

  function Nesting(items: seq<Item>): Option<seq<bool>>
    decreases |items|
  {
    if items == [] then Some([])
    else match Nesting(items[..|items| - 1])
      case None => None
      case Some(open) => Nest(open, items[|items| - 1])
  }

  // The tokens after the last directive.
  function LastRun(items: seq<Item>): seq<Token> {
    if items == [] || items[|items| - 1].Line? then []
    else LastRun(items[..|items| - 1]) + [items[|items| - 1].token]
  }

  ghost predicate AreReturns(statement: seq<Token> -> bool, tokens: seq<Token>) {
    exists n: nat :: Sequence(statement, tokens, n)
  }

  ghost predicate RunsBefore(statement: seq<Token> -> bool, items: seq<Item>) {
    forall i :: 0 <= i < |items| && items[i].Line? ==> AreReturns(statement, LastRun(items[..i]))
  }

  // The groups are complete and no statement straddles a directive.
  ghost predicate WellFormed(statement: seq<Token> -> bool, items: seq<Item>) {
    && Nesting(items) == Some([])
    && RunsBefore(statement, items)
    && AreReturns(statement, LastRun(items))
  }

  // ----- The bound holds in every configuration -------------------------------------------------

  // The returns the machine credits to a configuration, when it counts some more inside the first k groups.
  function Floor(frames: seq<Frame>, groups: seq<Group>, k: nat, minimum: nat): nat
    requires k <= |frames| && k <= |groups|
  {
    if k == 0 then minimum
    else Floor(frames, groups, k - 1, frames[k - 1].prefixMinimum + Own(frames[k - 1], groups[k - 1], minimum))
  }

  // What is credited inside one group.
  function Own(f: Frame, g: Group, minimum: nat): nat {
    if g.active then minimum else if g.taken && f.alternative.Some? then f.alternative.value else 0
  }

  // What the machine's frames and a configuration's groups agree on.
  ghost predicate Agree(frames: seq<Frame>, groups: seq<Group>) {
    && |frames| == |groups|
    && (forall i :: 0 <= i < |groups| ==> Fits(frames[i], groups[i]))
  }

  predicate Fits(f: Frame, g: Group) {
    && f.sawElse == g.sawElse
    && (g.active || g.sawElse ==> g.taken)
    && (g.taken && !g.active ==> f.alternative.Some?)
  }

  lemma {:induction false} FloorMonotone(frames: seq<Frame>, groups: seq<Group>, k: nat, a: nat, b: nat)
    requires k <= |frames| && k <= |groups| && a <= b
    ensures Floor(frames, groups, k, a) <= Floor(frames, groups, k, b)
  {
    if k > 0 && groups[k - 1].active {
      FloorMonotone(frames, groups, k - 1, frames[k - 1].prefixMinimum + a, frames[k - 1].prefixMinimum + b);
    }
  }

  lemma {:induction false} FloorAdds(frames: seq<Frame>, groups: seq<Group>, k: nat, a: nat, n: nat)
    requires k <= |frames| && k <= |groups|
    ensures Floor(frames, groups, k, a + n) == Floor(frames, groups, k, a) + if ActiveTo(groups, k) then n else 0
  {
    if k > 0 && groups[k - 1].active {
      FloorAdds(frames, groups, k - 1, frames[k - 1].prefixMinimum + a, n);
    }
  }

  // Only the first k frames and groups matter.
  lemma {:induction false} FloorPrefix(frames: seq<Frame>, groups: seq<Group>, frames': seq<Frame>, groups': seq<Group>, k: nat, a: nat)
    requires k <= |frames| && k <= |groups| && k <= |frames'| && k <= |groups'|
    requires forall i :: 0 <= i < k ==> frames'[i] == frames[i] && groups'[i] == groups[i]
    ensures Floor(frames', groups', k, a) == Floor(frames, groups, k, a)
  {
    if k > 0 {
      FloorPrefix(frames, groups, frames', groups', k - 1, frames[k - 1].prefixMinimum + Own(frames[k - 1], groups[k - 1], a));
    }
  }

  // Under an inactive group nothing is credited.
  lemma FloorSame(frames: seq<Frame>, groups: seq<Group>, k: nat, a: nat, b: nat)
    requires k <= |frames| && k <= |groups| && !ActiveTo(groups, k)
    ensures Floor(frames, groups, k, a) == Floor(frames, groups, k, b)
  {
    FloorAdds(frames, groups, k, 0, a);
    FloorAdds(frames, groups, k, 0, b);
  }

  // A directive that the machine accepts nests in every configuration.
  lemma ChangeAgrees(d: Directive, frames: seq<Frame>, groups: seq<Group>, minimum: nat, condition: bool)
    requires Agree(frames, groups) && Enter(d, frames, minimum).Some?
    ensures Change(d, groups, condition).Some? && Enter(d, frames, minimum).value.tokens == []
    ensures Agree(Enter(d, frames, minimum).value.frames, Change(d, groups, condition).value)
  {
    if !d.If? {
      assert Fits(frames[|frames| - 1], groups[|groups| - 1]);
    }
  }

  // No directive raises the credit.
  lemma {:induction false} ChangeKeepsFloor(d: Directive, frames: seq<Frame>, groups: seq<Group>, minimum: nat, condition: bool,
                         s: Scan, after: seq<Group>)
    requires Agree(frames, groups) && Enter(d, frames, minimum) == Some(s) && Change(d, groups, condition) == Some(after)
    requires |s.frames| == |after|
    ensures Floor(s.frames, after, |after|, s.minimum) <= Floor(frames, groups, |groups|, minimum)
  {
    if d.If? {
      FloorPrefix(frames, groups, s.frames, after, |groups|, minimum);
    } else {
      var top := |groups| - 1;
      var f, g := frames[top], groups[top];
      assert Fits(f, g);
      var inner, inner' := f.prefixMinimum + Own(f, g, minimum), s.minimum;
      if |after| == |groups| {
        inner' := f.prefixMinimum + Own(s.frames[top], after[top], 0);
      }
      FloorPrefix(frames, groups, s.frames, after, top, inner');
      FloorMonotone(frames, groups, top, inner', inner);
    }
  }

  // The output is returns that the machine has counted, then the run it is still reading.
  ghost predicate Emitted(statement: seq<Token> -> bool, output: seq<Token>, pending: seq<Token>, n: nat) {
    exists done :: output == done + pending && Sequence(statement, done, n)
  }

  function Pending(s: Scan, groups: seq<Group>): seq<Token> {
    if Active(groups) then s.tokens else []
  }

  lemma EmitWord(statement: seq<Token> -> bool, output: seq<Token>, pending: seq<Token>, n: nat, t: Token)
    requires Emitted(statement, output, pending, n)
    ensures Emitted(statement, output + [t], pending + [t], n)
  {
    var done :| output == done + pending && Sequence(statement, done, n);
    assert output + [t] == done + (pending + [t]);
  }

  lemma EmitRun(statement: seq<Token> -> bool, output: seq<Token>, pending: seq<Token>, n: nat, m: nat)
    requires Emitted(statement, output, pending, n) && Sequence(statement, pending, m)
    ensures Sequence(statement, output, n + m) && Emitted(statement, output, [], n + m)
  {
    var done :| output == done + pending && Sequence(statement, done, n);
    SequenceConcat(statement, done, n, pending, m);
    assert output == output + [];
  }

  // At a directive the run being read is counted in the configurations that keep it.
  lemma Flush(statement: seq<Token> -> bool, s: Scan, text: Text, n: nat, m: nat)
    requires Sequence(statement, s.tokens, m)
    requires Emitted(statement, text.output, Pending(s, text.groups), n)
    ensures Sequence(statement, text.output, n + if Active(text.groups) then m else 0)
    ensures Emitted(statement, text.output, [], n + if Active(text.groups) then m else 0)
  {
    EmitRun(statement, text.output, Pending(s, text.groups), n, if Active(text.groups) then m else 0);
  }

  // statement recognises the returns that the matcher counts.
  ghost predicate Sound(count: Counter, statement: seq<Token> -> bool) {
    forall tokens :: count(tokens).Some? ==> Sequence(statement, tokens, count(tokens).value)
  }

  // The machine's state describes a configuration that has emitted n returns outside the current run.
  ghost predicate Describes(statement: seq<Token> -> bool, s: Scan, text: Text, n: nat) {
    && Emitted(statement, text.output, Pending(s, text.groups), n)
    && Agree(s.frames, text.groups)
    && n >= Floor(s.frames, text.groups, |text.groups|, s.minimum)
  }

  lemma WordKept(statement: seq<Token> -> bool, s: Scan, text: Text, n: nat, t: Token, s': Scan, text': Text)
    requires Describes(statement, s, text, n)
    requires s' == s.(tokens := s.tokens + [t]) && text' == Append(text, t)
    ensures Describes(statement, s', text', n)
  {
    if Active(text.groups) {
      EmitWord(statement, text.output, s.tokens, n, t);
    }
  }

  // A directive credits the run to the configurations that keep it, and asks for no more than that.
  lemma LineCredit(s: Scan, groups: seq<Group>, n: nat, d: Directive, m: nat, condition: bool, s': Scan, after: seq<Group>)
    requires Agree(s.frames, groups) && n >= Floor(s.frames, groups, |groups|, s.minimum)
    requires Enter(d, s.frames, s.minimum + m) == Some(s') && Change(d, groups, condition) == Some(after)
    requires |s'.frames| == |after|
    ensures n + (if Active(groups) then m else 0) >= Floor(s'.frames, after, |after|, s'.minimum)
  {
    FloorAdds(s.frames, groups, |groups|, s.minimum, m);
    ChangeKeepsFloor(d, s.frames, groups, s.minimum + m, condition, s', after);
  }

  lemma LineKept(statement: seq<Token> -> bool, s: Scan, text: Text, n: nat, d: Directive, m: nat, condition: bool,
                 s': Scan, text': Text)
    requires Describes(statement, s, text, n) && Sequence(statement, s.tokens, m)
    requires Enter(d, s.frames, s.minimum + m) == Some(s')
    requires Change(d, text.groups, condition) == Some(text'.groups) && text'.output == text.output
    ensures Describes(statement, s', text', n + if Active(text.groups) then m else 0)
  {
    ChangeAgrees(d, s.frames, text.groups, s.minimum + m, condition);
    LineCredit(s, text.groups, n, d, m, condition, s', text'.groups);
    Flush(statement, s, text, n, m);
  }

  // A directive the machine accepts nests in every configuration.
  lemma Includes(count: Counter, s: Scan, text: Text, item: Item, condition: bool)
    requires Agree(s.frames, text.groups) && ScanStep(count, s, item).Some?
    ensures Include(text, item, condition).Some?
  {
  }

  lemma ItemKept(count: Counter, statement: seq<Token> -> bool, s: Scan, text: Text, n: nat, item: Item, condition: bool,
                 s': Scan, text': Text)
    returns (n': nat)
    requires Sound(count, statement) && Describes(statement, s, text, n)
    requires ScanStep(count, s, item) == Some(s') && Include(text, item, condition) == Some(text')
    ensures Describes(statement, s', text', n')
  {
    if item.Word? {
      n' := n;
      WordKept(statement, s, text, n, item.token, s', text');
    } else {
      var m := count(s.tokens).value;
      n' := n + if Active(text.groups) then m else 0;
      LineKept(statement, s, text, n, item.directive, m, condition, s', text');
    }
  }

  // The machine's bound after any prefix of the body, in any configuration.
  lemma {:induction false} Bounded(count: Counter, statement: seq<Token> -> bool, items: seq<Item>, conditions: seq<bool>)
    returns (n: nat)
    requires Sound(count, statement)
    requires |conditions| == |items| && ScanAll(count, items).Some?
    ensures Preprocess(items, conditions).Some?
    ensures Describes(statement, ScanAll(count, items).value, Preprocess(items, conditions).value, n)
    decreases |items|
  {
    if items == [] {
      Start(statement);
      n := 0;
    } else {
      var last := |items| - 1;
      n := Bounded(count, statement, items[..last], conditions[..last]);
      var s, text := ScanAll(count, items[..last]).value, Preprocess(items[..last], conditions[..last]).value;
      Includes(count, s, text, items[last], conditions[last]);
      n := ItemKept(count, statement, s, text, n, items[last], conditions[last],
                    ScanAll(count, items).value, Preprocess(items, conditions).value);
    }
  }

  lemma Start(statement: seq<Token> -> bool)
    ensures Describes(statement, Scan([], [], 0), Text([], []), 0)
  {
    var none: seq<Token> := [];
    assert none + none == none && Sequence(statement, none, 0);
  }

  // Every configuration leaves returns of the primitive and nothing else, at least as many as the minimum.
  lemma MinimumBounds(count: Counter, statement: seq<Token> -> bool, items: seq<Item>, conditions: seq<bool>)
    returns (n: nat)
    requires Sound(count, statement)
    requires |conditions| == |items| && Minimum(count, items).Some?
    ensures Preprocess(items, conditions).Some? && Preprocess(items, conditions).value.groups == []
    ensures Sequence(statement, Preprocess(items, conditions).value.output, n)
    ensures n >= Minimum(count, items).value
  {
    n := Bounded(count, statement, items, conditions);
    var s, text := ScanAll(count, items).value, Preprocess(items, conditions).value;
    var m := count(s.tokens).value;
    Flush(statement, s, text, n, m);
    n := n + m;
  }

  // ----- Some configuration meets the bound -----------------------------------------------------

  // A configuration to look for: every group active, or the groups inside level active and the one at
  // level in an alternative after the taken one, or not taken at all.
  datatype Goal = Every | After(level: nat) | Without(level: nat)

  ghost predicate Reachable(goal: Goal, frames: seq<Frame>) {
    match goal
    case Every => true
    case After(j) => j < |frames| && frames[j].alternative.Some?
    case Without(j) => j < |frames| && !frames[j].sawElse
  }

  ghost predicate Meets(goal: Goal, groups: seq<Group>) {
    match goal
    case Every => Active(groups)
    case After(j) => j < |groups| && ActiveTo(groups, j) && groups[j].taken && !groups[j].active
    case Without(j) => j < |groups| && ActiveTo(groups, j) && !groups[j].taken
  }

  // The configuration to look for before a directive, and the value its condition then takes.
  function Before(d: Directive, frames: seq<Frame>, minimum: nat, goal: Goal): (Goal, bool) {
    var top := |frames| - 1;
    match d
    case If =>
      if goal == Every then (Every, true)
      else if goal == Without(|frames|) then (Every, false)
      else (goal, false)
    case Endif =>
      if goal != Every || top < 0 then (goal, false)
      else if !frames[top].sawElse then (Without(top), false)
      else if Least(frames[top].alternative, minimum) == minimum then (Every, false)
      else (After(top), false)
    case _ =>
      if top < 0 then (goal, false)
      else if goal == Every then (Without(top), true)
      else if goal == After(top) && Least(frames[top].alternative, minimum) == minimum then (Every, false)
      else (goal, false)
  }

  lemma BeforeReachable(d: Directive, frames: seq<Frame>, minimum: nat, goal: Goal)
    requires Enter(d, frames, minimum).Some? && Reachable(goal, Enter(d, frames, minimum).value.frames)
    ensures Reachable(Before(d, frames, minimum, goal).0, frames)
  {
  }

  // What holds of a configuration found before a directive once the directive is read.
  ghost predicate Led(frames: seq<Frame>, groups: seq<Group>, minimum: nat, goal: Goal, s: Scan, after: seq<Group>) {
    && |frames| == |groups| && |s.frames| == |after| && Meets(goal, after)
    && Floor(s.frames, after, |after|, s.minimum) == Floor(frames, groups, |groups|, minimum)
  }

  lemma OpenLeads(frames: seq<Frame>, groups: seq<Group>, minimum: nat, goal: Goal, s: Scan, after: seq<Group>)
    requires Agree(frames, groups) && Enter(If, frames, minimum) == Some(s)
    requires Change(If, groups, Before(If, frames, minimum, goal).1) == Some(after)
    requires Reachable(goal, s.frames) && Meets(Before(If, frames, minimum, goal).0, groups)
    ensures Led(frames, groups, minimum, goal, s, after)
  {
    FloorPrefix(frames, groups, s.frames, after, |groups|, minimum);
  }

  lemma CloseLeads(frames: seq<Frame>, groups: seq<Group>, minimum: nat, goal: Goal, s: Scan, after: seq<Group>)
    requires Agree(frames, groups) && Enter(Endif, frames, minimum) == Some(s)
    requires Change(Endif, groups, Before(Endif, frames, minimum, goal).1) == Some(after)
    requires Reachable(goal, s.frames) && Meets(Before(Endif, frames, minimum, goal).0, groups)
    ensures Led(frames, groups, minimum, goal, s, after)
  {
    var top := |groups| - 1;
    var f, g := frames[top], groups[top];
    assert Fits(f, g);
    FloorPrefix(frames, groups, s.frames, after, top, s.minimum);
    if goal != Every {
      FloorSame(frames, groups, top, s.minimum, f.prefixMinimum + Own(f, g, minimum));
    }
  }

  lemma AlternativeLeads(d: Directive, frames: seq<Frame>, groups: seq<Group>, minimum: nat, goal: Goal, s: Scan, after: seq<Group>)
    requires d.Elif? || d.Else?
    requires Agree(frames, groups) && Enter(d, frames, minimum) == Some(s)
    requires Change(d, groups, Before(d, frames, minimum, goal).1) == Some(after)
    requires Reachable(goal, s.frames) && Meets(Before(d, frames, minimum, goal).0, groups)
    ensures Led(frames, groups, minimum, goal, s, after)
  {
    var top := |groups| - 1;
    var f, g, f', g' := frames[top], groups[top], s.frames[top], after[top];
    assert Fits(f, g);
    FloorPrefix(frames, groups, s.frames, after, top, f.prefixMinimum + Own(f', g', 0));
    if goal != Every && goal.level < top {
      FloorSame(frames, groups, top, f.prefixMinimum + Own(f', g', 0), f.prefixMinimum + Own(f, g, minimum));
    }
  }

  lemma DirectiveLeads(d: Directive, frames: seq<Frame>, groups: seq<Group>, minimum: nat, goal: Goal, s: Scan, after: seq<Group>)
    requires Agree(frames, groups) && Enter(d, frames, minimum) == Some(s)
    requires Change(d, groups, Before(d, frames, minimum, goal).1) == Some(after)
    requires Reachable(goal, s.frames) && Meets(Before(d, frames, minimum, goal).0, groups)
    ensures Led(frames, groups, minimum, goal, s, after)
  {
    match d
    case If => OpenLeads(frames, groups, minimum, goal, s, after);
    case Endif => CloseLeads(frames, groups, minimum, goal, s, after);
    case _ => AlternativeLeads(d, frames, groups, minimum, goal, s, after);
  }

  // The machine's state describes a configuration, whose returns are exactly those credited to it.
  ghost predicate Exactly(statement: seq<Token> -> bool, s: Scan, text: Text, n: nat) {
    Describes(statement, s, text, n) && n == Floor(s.frames, text.groups, |text.groups|, s.minimum)
  }

  // The configuration to look for before an item, and the value of the item's condition.
  function Preceding(count: Counter, s: Scan, item: Item, goal: Goal): (Goal, bool)
    requires ScanStep(count, s, item).Some?
  {
    if item.Word? then (goal, false) else Before(item.directive, s.frames, s.minimum + count(s.tokens).value, goal)
  }

  lemma PrecedingReachable(count: Counter, s: Scan, item: Item, goal: Goal)
    requires ScanStep(count, s, item).Some? && Reachable(goal, ScanStep(count, s, item).value.frames)
    ensures Reachable(Preceding(count, s, item, goal).0, s.frames)
  {
    if item.Line? {
      BeforeReachable(item.directive, s.frames, s.minimum + count(s.tokens).value, goal);
    }
  }

  lemma LineExact(s: Scan, groups: seq<Group>, d: Directive, m: nat, goal: Goal, s': Scan, after: seq<Group>)
    requires Agree(s.frames, groups) && Enter(d, s.frames, s.minimum + m) == Some(s')
    requires Change(d, groups, Before(d, s.frames, s.minimum + m, goal).1) == Some(after)
    requires Reachable(goal, s'.frames) && Meets(Before(d, s.frames, s.minimum + m, goal).0, groups)
    ensures |s'.frames| == |after| && Meets(goal, after)
    ensures Floor(s'.frames, after, |after|, s'.minimum)
            == Floor(s.frames, groups, |groups|, s.minimum) + if Active(groups) then m else 0
  {
    FloorAdds(s.frames, groups, |groups|, s.minimum, m);
    DirectiveLeads(d, s.frames, groups, s.minimum + m, goal, s', after);
  }

  lemma WordAttained(statement: seq<Token> -> bool, s: Scan, text: Text, n: nat, t: Token, s': Scan, text': Text)
    requires Exactly(statement, s, text, n)
    requires s' == s.(tokens := s.tokens + [t]) && text' == Append(text, t)
    ensures Exactly(statement, s', text', n) && text'.groups == text.groups
  {
    WordKept(statement, s, text, n, t, s', text');
  }

  lemma LineAttained(statement: seq<Token> -> bool, s: Scan, text: Text, n: nat, d: Directive, m: nat, goal: Goal,
                     before: Goal, condition: bool, s': Scan, text': Text)
    requires Exactly(statement, s, text, n) && Sequence(statement, s.tokens, m)
    requires Before(d, s.frames, s.minimum + m, goal) == (before, condition)
    requires Enter(d, s.frames, s.minimum + m) == Some(s')
    requires Change(d, text.groups, condition) == Some(text'.groups) && text'.output == text.output
    requires Reachable(goal, s'.frames) && Meets(before, text.groups)
    ensures Exactly(statement, s', text', n + if Active(text.groups) then m else 0) && Meets(goal, text'.groups)
  {
    LineKept(statement, s, text, n, d, m, condition, s', text');
    LineExact(s, text.groups, d, m, goal, s', text'.groups);
  }

  lemma WordItemAttained(count: Counter, statement: seq<Token> -> bool, s: Scan, text: Text, n: nat, item: Item, goal: Goal,
                         before: Goal, condition: bool, s': Scan, text': Text)
    requires item.Word? && Exactly(statement, s, text, n)
    requires ScanStep(count, s, item) == Some(s') && Include(text, item, condition) == Some(text')
    requires Preceding(count, s, item, goal) == (before, condition) && Meets(before, text.groups)
    ensures Exactly(statement, s', text', n) && Meets(goal, text'.groups)
  {
    WordAttained(statement, s, text, n, item.token, s', text');
  }

  lemma LineItemAttained(count: Counter, statement: seq<Token> -> bool, s: Scan, text: Text, n: nat, item: Item, goal: Goal,
                         before: Goal, condition: bool, s': Scan, text': Text)
    returns (n': nat)
    requires item.Line? && Sound(count, statement) && Exactly(statement, s, text, n)
    requires ScanStep(count, s, item) == Some(s') && Include(text, item, condition) == Some(text')
    requires Preceding(count, s, item, goal) == (before, condition)
    requires Reachable(goal, s'.frames) && Meets(before, text.groups)
    ensures Exactly(statement, s', text', n') && Meets(goal, text'.groups)
  {
    var m := count(s.tokens).value;
    n' := n + if Active(text.groups) then m else 0;
    LineAttained(statement, s, text, n, item.directive, m, goal, before, condition, s', text');
  }

  // Some configuration of any prefix of the body meets the goal with exactly the returns credited.
  lemma {:induction false} Attained(count: Counter, statement: seq<Token> -> bool, items: seq<Item>, goal: Goal)
    returns (conditions: seq<bool>, n: nat)
    requires Sound(count, statement) && ScanAll(count, items).Some?
    requires Reachable(goal, ScanAll(count, items).value.frames)
    ensures |conditions| == |items| && Preprocess(items, conditions).Some?
    ensures Exactly(statement, ScanAll(count, items).value, Preprocess(items, conditions).value, n)
    ensures Meets(goal, Preprocess(items, conditions).value.groups)
    decreases |items|
  {
    if items == [] {
      Start(statement);
      conditions, n := [], 0;
    } else {
      var last := |items| - 1;
      var s := ScanAll(count, items[..last]).value;
      var (before, condition) := Preceding(count, s, items[last], goal);
      PrecedingReachable(count, s, items[last], goal);
      var earlier;
      earlier, n := Attained(count, statement, items[..last], before);
      var text := Preprocess(items[..last], earlier).value;
      Includes(count, s, text, items[last], condition);
      conditions := earlier + [condition];
      assert conditions[..last] == earlier;
      var s', text' := ScanAll(count, items).value, Preprocess(items, conditions).value;
      if items[last].Word? {
        WordItemAttained(count, statement, s, text, n, items[last], goal, before, condition, s', text');
      } else {
        n := LineItemAttained(count, statement, s, text, n, items[last], goal, before, condition, s', text');
      }
    }
  }

  // Some configuration leaves exactly the minimum.
  lemma MinimumAttained(count: Counter, statement: seq<Token> -> bool, items: seq<Item>) returns (conditions: seq<bool>)
    requires Sound(count, statement) && Minimum(count, items).Some?
    ensures |conditions| == |items| && Preprocess(items, conditions).Some?
    ensures Preprocess(items, conditions).value.groups == []
    ensures Sequence(statement, Preprocess(items, conditions).value.output, Minimum(count, items).value)
  {
    var n;
    conditions, n := Attained(count, statement, items, Every);
    var s, text := ScanAll(count, items).value, Preprocess(items, conditions).value;
    Flush(statement, s, text, n, count(s.tokens).value);
  }

  // ----- What the machine accepts ---------------------------------------------------------------

  ghost predicate Exact(count: Counter, statement: seq<Token> -> bool) {
    Sound(count, statement) && forall tokens :: AreReturns(statement, tokens) ==> count(tokens).Some?
  }

  ghost predicate Mirrors(s: Scan, run: seq<Token>, open: seq<bool>) {
    && s.tokens == run
    && |s.frames| == |open|
    && (forall i :: 0 <= i < |open| ==> s.frames[i].sawElse == open[i])
  }

  lemma StepMirrors(count: Counter, s: Scan, run: seq<Token>, open: seq<bool>, item: Item)
    requires Mirrors(s, run, open)
    ensures ScanStep(count, s, item).Some? <==> Nest(open, item).Some? && (item.Line? ==> count(run).Some?)
    ensures ScanStep(count, s, item).Some? ==>
              Mirrors(ScanStep(count, s, item).value, if item.Word? then run + [item.token] else [], Nest(open, item).value)
  {
  }

  lemma RunsExtend(statement: seq<Token> -> bool, items: seq<Item>)
    requires items != []
    ensures
      var last := |items| - 1;
      RunsBefore(statement, items) <==>
      RunsBefore(statement, items[..last]) && (items[last].Line? ==> AreReturns(statement, LastRun(items[..last])))
  {
    var last := |items| - 1;
    forall i | 0 <= i < last
      ensures items[..last][..i] == items[..i] && items[..last][i] == items[i]
    {
    }
    if RunsBefore(statement, items) {
      forall i | 0 <= i < last && items[..last][i].Line?
        ensures AreReturns(statement, LastRun(items[..last][..i]))
      {
        assert items[i].Line?;
      }
    }
  }

  // The machine gets through a prefix exactly when its directives nest and its finished runs are returns.
  lemma {:induction false} ScanSucceeds(count: Counter, statement: seq<Token> -> bool, items: seq<Item>)
    requires Exact(count, statement)
    ensures ScanAll(count, items).Some? <==> Nesting(items).Some? && RunsBefore(statement, items)
    ensures ScanAll(count, items).Some? ==> Mirrors(ScanAll(count, items).value, LastRun(items), Nesting(items).value)
    decreases |items|
  {
    if items != [] {
      var last := |items| - 1;
      var earlier := ScanAll(count, items[..last]);
      ScanSucceeds(count, statement, items[..last]);
      RunsExtend(statement, items);
      if earlier.Some? {
        StepMirrors(count, earlier.value, LastRun(items[..last]), Nesting(items[..last]).value, items[last]);
      }
    }
  }

  lemma MinimumExists(count: Counter, statement: seq<Token> -> bool, items: seq<Item>)
    requires Exact(count, statement)
    ensures Minimum(count, items).Some? <==> WellFormed(statement, items)
  {
    ScanSucceeds(count, statement, items);
  }

  // Every configuration leaves some text.
  ghost predicate NeverEmpty(items: seq<Item>) {
    forall conditions :: |conditions| == |items| && Preprocess(items, conditions).Some? ==>
                           Preprocess(items, conditions).value.output != []
  }

  lemma PositiveMinimum(count: Counter, statement: seq<Token> -> bool, items: seq<Item>)
    requires Exact(count, statement) && Minimum(count, items).Some?
    ensures Minimum(count, items).value > 0 <==> NeverEmpty(items)
  {
    if Minimum(count, items).value > 0 {
      forall conditions | |conditions| == |items| && Preprocess(items, conditions).Some?
        ensures Preprocess(items, conditions).value.output != []
      {
        var n := MinimumBounds(count, statement, items, conditions);
      }
    } else {
      var conditions := MinimumAttained(count, statement, items);
    }
  }
}
