// The complete check of a primitive's source body (src/DavC310TargetRecipe.cpp:2213-2319), once the body
// has been split into tokens and conditional directives.
module SourceBody {
  import opened Primitives
  import opened ReturnTokens
  import opened ConditionalReturns

  function Matcher(target: Target): Counter
    requires target.Valid()
  {
    tokens => Count(target, tokens)
  }

  lemma MatcherIsExact(target: Target)
    requires target.Valid()
    ensures Exact(Matcher(target), Statement(target))
  {
    forall tokens
      ensures Count(target, tokens).Some? ==> Sequence(Statement(target), tokens, Count(target, tokens).value)
      ensures AreReturns(Statement(target), tokens) ==> Count(target, tokens).Some?
    {
      CountIsExact(target, tokens);
    }
  }

  // An item the machine rejects is never made good by a later one.
  lemma {:induction false} RejectionStays(count: Counter, items: seq<Item>, i: nat)
    requires i <= |items| && ScanAll(count, items[..i]).None?
    ensures ScanAll(count, items).None?
    decreases |items|
  {
    if i < |items| {
      assert items[..|items| - 1][..i] == items[..i];
      RejectionStays(count, items[..|items| - 1], i);
    } else {
      assert items[..i] == items;
    }
  }

  method EnterDirective(directive: Directive, frames: seq<Frame>, minimumReturns: nat)
    returns (accepted: bool, newFrames: seq<Frame>, newMinimum: nat)
    ensures Enter(directive, frames, minimumReturns) == if accepted then Some(Scan([], newFrames, newMinimum)) else None
  {
    if directive == If {
      return true, frames + [Frame(minimumReturns, None, false)], 0;
    }
    if |frames| == 0 {
      return false, frames, minimumReturns;
    }
    var frame := frames[|frames| - 1];
    if directive == Elif || directive == Else {
      if frame.sawElse {
        return false, frames, minimumReturns;
      }
      frame := frame.(alternative := Some(Least(frame.alternative, minimumReturns)));
      if directive == Else {
        frame := frame.(sawElse := true);
      }
      return true, frames[..|frames| - 1] + [frame], 0;
    }
    frame := frame.(alternative := Some(Least(frame.alternative, minimumReturns)));
    if !frame.sawElse {
      frame := frame.(alternative := Some(0));
    }
    return true, frames[..|frames| - 1], frame.prefixMinimum + frame.alternative.value;
  }

  method FlushTokens(target: Target, ghost count: Counter, tokens: seq<Token>, minimumReturns: nat)
    returns (accepted: bool, newMinimum: nat)
    requires target.Valid() && count == Matcher(target)
    ensures count(tokens) == if accepted then Some(newMinimum - minimumReturns) else None
  {
    var returned := CountReturns(target, tokens);
    accepted := returned.Some?;
    newMinimum := minimumReturns + if accepted then returned.value else 0;
  }

  // The scan's loop, over an arbitrary counter that the flush agrees with.
  method ScanBody(target: Target, ghost count: Counter, items: seq<Item>) returns (minimum: Option<nat>)
    requires target.Valid() && count == Matcher(target)
    ensures minimum == Minimum(count, items)
  {
    var tokens: seq<Token>, conditionals: seq<Frame>, minimumReturns := [], [], 0;
    for i := 0 to |items|
      invariant ScanAll(count, items[..i]) == Some(Scan(tokens, conditionals, minimumReturns))
    {
      assert items[..i + 1][..i] == items[..i];
      if items[i].Word? {
        tokens := tokens + [items[i].token];
      } else {
        var accepted;
        accepted, minimumReturns := FlushTokens(target, count, tokens, minimumReturns);
        if !accepted {
          RejectionStays(count, items, i + 1);
          return None;
        }
        tokens := [];
        accepted, conditionals, minimumReturns := EnterDirective(items[i].directive, conditionals, minimumReturns);
        if !accepted {
          RejectionStays(count, items, i + 1);
          return None;
        }
      }
    }
    assert items[..|items|] == items;
    var flushed;
    flushed, minimumReturns := FlushTokens(target, count, tokens, minimumReturns);
    return if flushed && |conditionals| == 0 then Some(minimumReturns) else None;
  }

  // A body is accepted exactly when its groups are complete, every run of tokens between directives is
  // returns of the target, and no configuration of the groups is left without one.
  method CompleteSourcePrimitiveBody(target: Target, items: seq<Item>) returns (accepted: bool)
    requires target.Valid()
    ensures accepted <==> WellFormed(Statement(target), items) && NeverEmpty(items)
    ensures accepted ==> forall conditions :: |conditions| == |items| ==> LeavesReturns(target, items, conditions)
  {
    var minimum := ScanBody(target, Matcher(target), items);
    accepted := minimum.Some? && minimum.value != 0;
    AcceptedReturns(target, items);
  }

  // What is left of the body in one configuration is at least one complete return and nothing else.
  ghost predicate LeavesReturns(target: Target, items: seq<Item>, conditions: seq<bool>)
    requires target.Valid() && |conditions| == |items|
  {
    && Preprocess(items, conditions).Some?
    && Preprocess(items, conditions).value.groups == []
    && exists n :: n > 0 && Sequence(Statement(target), Preprocess(items, conditions).value.output, n)
  }

  lemma AcceptedReturns(target: Target, items: seq<Item>)
    requires target.Valid()
    ensures
      var minimum := Minimum(Matcher(target), items);
      var accepted := minimum.Some? && minimum.value != 0;
      && (accepted <==> WellFormed(Statement(target), items) && NeverEmpty(items))
      && (accepted ==> forall conditions :: |conditions| == |items| ==> LeavesReturns(target, items, conditions))
  {
    var count, statement := Matcher(target), Statement(target);
    MatcherIsExact(target);
    MinimumExists(count, statement, items);
    if Minimum(count, items).Some? {
      PositiveMinimum(count, statement, items);
      if Minimum(count, items).value > 0 {
        forall conditions | |conditions| == |items|
          ensures LeavesReturns(target, items, conditions)
        {
          var n := MinimumBounds(count, statement, items, conditions);
        }
      }
    }
  }

  // The number of returns in a configuration.
  ghost predicate Leaves(target: Target, items: seq<Item>, conditions: seq<bool>, n: nat)
    requires target.Valid() && |conditions| == |items|
  {
    Preprocess(items, conditions).Some? && Sequence(Statement(target), Preprocess(items, conditions).value.output, n)
  }

  // minimumReturns is the least number of returns over all configurations.
  lemma MinimumIsLeast(target: Target, items: seq<Item>)
    requires target.Valid() && Minimum(Matcher(target), items).Some?
    ensures forall conditions, n: nat :: |conditions| == |items| && Leaves(target, items, conditions, n) ==>
                                           n >= Minimum(Matcher(target), items).value
    ensures exists conditions :: |conditions| == |items| && Leaves(target, items, conditions, Minimum(Matcher(target), items).value)
  {
    var count, statement := Matcher(target), Statement(target);
    MatcherIsExact(target);
    forall conditions, n: nat | |conditions| == |items| && Leaves(target, items, conditions, n)
      ensures n >= Minimum(count, items).value
    {
      var m := MinimumBounds(count, statement, items, conditions);
      ReturnsAreCounted(target, Preprocess(items, conditions).value.output, n);
      ReturnsAreCounted(target, Preprocess(items, conditions).value.output, m);
    }
    var conditions := MinimumAttained(count, statement, items);
    assert Leaves(target, items, conditions, Minimum(count, items).value);
  }
}
