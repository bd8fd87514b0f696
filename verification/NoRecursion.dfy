// The check that a device helper does not recurse (src/DeviceAggregateInlining.cpp:371-385).
module NoRecursion {
  type Function(==) = nat

  // A call site: no direct callee; a call the target provides; the implicit block barrier; a compiler
  // builtin, memory copies being the only ones allowed; or a function, defined in the sources or not.
  datatype Call = Indirect | Provided | Barrier | Builtin(copies: bool) | To(callee: Function, defined: bool)

  // sound: there is a body, and nothing in it observes its identity.
  datatype Info = Info(calls: seq<Call>, sound: bool)

  type Graph = map<Function, Info>

  predicate Allowed(call: Call) {
    !call.Indirect? && (call.Builtin? ==> call.copies) && (call.To? ==> call.defined)
  }

  // f and all it calls are acceptable, in chains of at most n calls.
  ghost predicate Clean(g: Graph, f: Function, n: nat)
    decreases n
  {
    && f in g && g[f].sound
    && forall i :: 0 <= i < |g[f].calls| ==>
                     var call := g[f].calls[i];
                     Allowed(call) && (call.To? ==> n > 0 && Clean(g, call.callee, n - 1))
  }

  ghost predicate Accepted(g: Graph, f: Function) {
    exists n: nat :: Clean(g, f, n)
  }

  lemma {:induction false} CleanLonger(g: Graph, f: Function, n: nat, m: nat)
    requires Clean(g, f, n) && n <= m
    ensures Clean(g, f, m)
    decreases n
  {
    forall i | 0 <= i < |g[f].calls| && g[f].calls[i].To?
      ensures Clean(g, g[f].calls[i].callee, m - 1)
    {
      CleanLonger(g, g[f].calls[i].callee, n - 1, m - 1);
    }
  }

  // ----- The search -----------------------------------------------------------------------------

  // Every clean chain from an active function goes through f.
  ghost predicate Waiting(g: Graph, active: set<Function>, f: Function) {
    forall a, n: nat :: a in active && Clean(g, a, n) ==> n > 0 && Clean(g, f, n - 1)
  }

  lemma {:induction false} ActiveIsNotClean(g: Graph, active: set<Function>, f: Function, n: nat)
    requires f in active && Waiting(g, active, f)
    ensures !Clean(g, f, n)
    decreases n
  {
    if Clean(g, f, n) {
      ActiveIsNotClean(g, active, f, n - 1);
    }
  }

  lemma CalleeWaits(g: Graph, active: set<Function>, f: Function, i: nat)
    requires f in g && i < |g[f].calls| && g[f].calls[i].To? && Waiting(g, active, f)
    ensures Waiting(g, active + {f}, g[f].calls[i].callee)
  {
    forall a, n: nat | a in active + {f} && Clean(g, a, n)
      ensures n > 0 && Clean(g, g[f].calls[i].callee, n - 1)
    {
      if a in active {
        assert Clean(g, f, n - 1);
        CleanLonger(g, g[f].calls[i].callee, n - 2, n - 1);
      }
    }
  }

  lemma CalleeAccepted(g: Graph, f: Function, i: nat)
    requires f in g && i < |g[f].calls| && g[f].calls[i].To? && Accepted(g, f)
    ensures Accepted(g, g[f].calls[i].callee)
  {
    var n: nat :| Clean(g, f, n);
    assert Clean(g, g[f].calls[i].callee, n - 1);
  }

  // The calls before i are acceptable, in chains of at most n calls.
  ghost predicate CleanCalls(g: Graph, f: Function, i: nat, n: nat) {
    && f in g && i <= |g[f].calls|
    && forall j :: 0 <= j < i ==>
                     var call := g[f].calls[j];
                     Allowed(call) && (call.To? ==> n > 0 && Clean(g, call.callee, n - 1))
  }

  lemma NextCallClean(g: Graph, f: Function, i: nat, n: nat) returns (m: nat)
    requires CleanCalls(g, f, i, n) && i < |g[f].calls| && Allowed(g[f].calls[i])
    requires g[f].calls[i].To? ==> Accepted(g, g[f].calls[i].callee)
    ensures CleanCalls(g, f, i + 1, m)
  {
    m := n;
    if g[f].calls[i].To? {
      var l: nat :| Clean(g, g[f].calls[i].callee, l);
      m := if n < l + 1 then l + 1 else n;
      CleanLonger(g, g[f].calls[i].callee, l, m - 1);
      forall j | 0 <= j < i && g[f].calls[j].To?
        ensures Clean(g, g[f].calls[j].callee, m - 1)
      {
        CleanLonger(g, g[f].calls[j].callee, n - 1, m - 1);
      }
    }
  }

  // The functions called round to from f.
  ghost predicate Path(g: Graph, p: seq<Function>) {
    && p != []
    && forall i :: 0 <= i < |p| - 1 ==> p[i] in g && Calls(g[p[i]], p[i + 1])
  }

  predicate Calls(info: Info, callee: Function) {
    exists call <- info.calls :: call.To? && call.callee == callee
  }

  predicate HasBarrier(g: Graph, f: Function) {
    f in g && Barrier in g[f].calls
  }

  class RecursionSearch {
    const graph: Graph
    var active: set<Function>
    var done: set<Function>
    var usesCompilerBlockBarrier: bool

    // What is done was accepted, and so was all that it calls; a barrier has been noticed exactly when some
    // function done or under way has one.
    ghost predicate Valid()
      reads this
    {
      && (forall f :: f in done ==> Accepted(graph, f) && f in graph)
      && (forall f, h :: f in done && Calls(graph[f], h) ==> h in done)
      && (forall f :: f in done && Barrier in graph[f].calls ==> usesCompilerBlockBarrier)
      && (usesCompilerBlockBarrier ==> exists f :: f in done + active && HasBarrier(graph, f))
    }

    constructor (graph: Graph)
      ensures Valid() && this.graph == graph && active == {} && done == {} && !usesCompilerBlockBarrier
    {
      this.graph, active, done, usesCompilerBlockBarrier := graph, {}, {}, false;
    }

    method Visit(f: Function) returns (clean: bool)
      requires Valid() && Waiting(graph, active, f)
      modifies this
      ensures clean ==> Valid() && active == old(active) && f in done && old(done) <= done
      ensures old(usesCompilerBlockBarrier) ==> usesCompilerBlockBarrier
      ensures clean <==> Accepted(graph, f)
      decreases graph.Keys - active
    {
      if f in done {
        return true;
      }
      if f in active {
        forall n: nat
          ensures !Clean(graph, f, n)
        {
          ActiveIsNotClean(graph, active, f, n);
        }
        return false;
      }
      if f !in graph {
        return false;
      }
      ghost var outer := active;
      active := active + {f};
      ghost var n: nat := 0;
      for i := 0 to |graph[f].calls|
        invariant Valid() && active == outer + {f} && old(done) <= done
        invariant CleanCalls(graph, f, i, n)
        invariant forall j :: 0 <= j < i && graph[f].calls[j].To? ==> graph[f].calls[j].callee in done
        invariant old(usesCompilerBlockBarrier) ==> usesCompilerBlockBarrier
        invariant Barrier in graph[f].calls[..i] ==> usesCompilerBlockBarrier
      {
        var call := graph[f].calls[i];
        if !Allowed(call) {
          return false;
        }
        if call.Barrier? {
          usesCompilerBlockBarrier := true;
          assert HasBarrier(graph, f);
        }
        if call.To? {
          CalleeWaits(graph, outer, f, i);
          var reached := Visit(call.callee);
          if !reached {
            if Accepted(graph, f) {
              CalleeAccepted(graph, f, i);
            }
            return false;
          }
        }
        n := NextCallClean(graph, f, i, n);
      }
      if !graph[f].sound {
        return false;
      }
      assert Clean(graph, f, n);
      assert graph[f].calls[..|graph[f].calls|] == graph[f].calls;
      active := active - {f};
      assert active == outer;
      done := done + {f};
      return true;
    }
  }

  // ----- What acceptance means ------------------------------------------------------------------

  // Every function on a chain of calls from f is acceptable by itself.
  ghost predicate Acceptable(g: Graph, p: seq<Function>) {
    && p != [] && var f := p[|p| - 1];
       f in g && g[f].sound && forall call :: call in g[f].calls ==> Allowed(call)
  }

  ghost predicate Repeats(p: seq<Function>) {
    exists i, j :: 0 <= i < j < |p| && p[i] == p[j]
  }

  lemma {:induction false} CleanAlong(g: Graph, p: seq<Function>, n: nat, i: nat)
    requires Path(g, p) && Clean(g, p[0], n) && i < |p|
    ensures i <= n && Clean(g, p[i], n - i)
    decreases i
  {
    if i > 0 {
      CleanAlong(g, p, n, i - 1);
      assert Calls(g[p[i - 1]], p[i - 1 + 1]);
    }
  }

  lemma {:induction false} NoReturn(g: Graph, p: seq<Function>, n: nat)
    requires Path(g, p) && |p| > 1 && p[|p| - 1] == p[0]
    ensures !Clean(g, p[0], n)
    decreases n
  {
    if Clean(g, p[0], n) {
      CleanAlong(g, p, n, |p| - 1);
      NoReturn(g, p, n - (|p| - 1));
    }
  }

  lemma PathPart(g: Graph, p: seq<Function>, i: nat, j: nat)
    requires Path(g, p) && i < j <= |p|
    ensures Path(g, p[i..j])
  {
    var q := p[i..j];
    forall k | 0 <= k < |q| - 1
      ensures q[k] in g && Calls(g[q[k]], q[k + 1])
    {
      assert q[k] == p[i + k] && q[k + 1] == p[i + k + 1];
    }
  }

  // In a graph where no chain from f has an unacceptable function, f either is clean or starts a chain of any
  // length.
  lemma {:induction false} LongChain(g: Graph, f: Function, n: nat) returns (p: seq<Function>)
    requires forall q :: Path(g, q) && q[0] == f ==> Acceptable(g, q)
    requires !Clean(g, f, n)
    ensures Path(g, p) && p[0] == f && |p| == n + 2
    decreases n
  {
    assert Path(g, [f]);
    assert Acceptable(g, [f]);
    var i :| 0 <= i < |g[f].calls| && g[f].calls[i].To? && (n == 0 || !Clean(g, g[f].calls[i].callee, n - 1));
    var next := g[f].calls[i].callee;
    assert Calls(g[f], next);
    if n == 0 {
      p := [f, next];
    } else {
      forall q | Path(g, q) && q[0] == next
        ensures Acceptable(g, q)
      {
        Prepend(g, f, q);
        assert ([f] + q)[|q|] == q[|q| - 1];
      }
      var rest := LongChain(g, next, n - 1);
      Prepend(g, f, rest);
      p := [f] + rest;
    }
  }

  lemma Prepend(g: Graph, f: Function, p: seq<Function>)
    requires Path(g, p) && f in g && Calls(g[f], p[0])
    ensures Path(g, [f] + p)
  {
    var q := [f] + p;
    forall i | 0 <= i < |q| - 1
      ensures q[i] in g && Calls(g[q[i]], q[i + 1])
    {
      if i > 0 {
        assert q[i] == p[i - 1] && q[i + 1] == p[i];
      }
    }
  }

  // A sequence longer than a set it is drawn from repeats an element.
  lemma {:induction false} Pigeonhole(p: seq<Function>, s: set<Function>)
    requires |p| > |s| && forall i :: 0 <= i < |p| ==> p[i] in s
    ensures Repeats(p)
    decreases |s|
  {
    var last := p[|p| - 1];
    assert p[|p| - 1] in s;
    var rest := p[..|p| - 1];
    if last in rest {
      var i :| 0 <= i < |rest| && rest[i] == last;
      assert p[i] == p[|p| - 1];
    } else {
      forall i | 0 <= i < |rest|
        ensures rest[i] in s - {last}
      {
        assert rest[i] == p[i];
      }
      Pigeonhole(rest, s - {last});
      var i, j :| 0 <= i < j < |rest| && rest[i] == rest[j];
      assert p[i] == p[j];
    }
  }

  // A helper is accepted exactly when every function it leads to is acceptable and no chain of calls from it
  // comes to the same function twice.
  lemma AcceptedMeansNoRecursion(g: Graph, f: Function)
    ensures Accepted(g, f) <==> forall p :: Path(g, p) && p[0] == f ==> Acceptable(g, p) && !Repeats(p)
  {
    if Accepted(g, f) {
      var n: nat :| Clean(g, f, n);
      forall p | Path(g, p) && p[0] == f
        ensures Acceptable(g, p) && !Repeats(p)
      {
        CleanAlong(g, p, n, |p| - 1);
        if i, j :| 0 <= i < j < |p| && p[i] == p[j] {
          PathPart(g, p, i, j + 1);
          CleanAlong(g, p, n, i);
          NoReturn(g, p[i..j + 1], n - i);
        }
      }
    } else if forall p :: Path(g, p) && p[0] == f ==> Acceptable(g, p) && !Repeats(p) {
      assert !Clean(g, f, |g.Keys|);
      var p := LongChain(g, f, |g.Keys|);
      var q := p[..|p| - 1];
      PathPart(g, p, 0, |p| - 1);
      assert p[0..|p| - 1] == q;
      forall i | 0 <= i < |q|
        ensures q[i] in g.Keys
      {
        assert p[i] in g;
      }
      Pigeonhole(q, g.Keys);
    }
  }

  // Which calls are acceptable: a function that calls no other is accepted exactly if it is sound, each call has
  // a direct callee, and of the builtins it calls memory copies alone; a function not defined in the sources is
  // never acceptable.
  lemma LeafAccepted(g: Graph, f: Function)
    requires f in g && forall call :: call in g[f].calls ==> !call.To?
    ensures Accepted(g, f) <==> g[f].sound && Indirect !in g[f].calls && Builtin(false) !in g[f].calls
  {
    if g[f].sound && Indirect !in g[f].calls && Builtin(false) !in g[f].calls {
      forall i | 0 <= i < |g[f].calls|
        ensures Allowed(g[f].calls[i])
      {
        assert g[f].calls[i] in g[f].calls;
      }
      var none: nat := 0;
      assert Clean(g, f, none);
    }
    if n: nat :| Clean(g, f, n) {
      forall call | call in g[f].calls
        ensures Allowed(call)
      {
      }
    }
  }

  lemma UndefinedRefused(g: Graph, f: Function, callee: Function)
    requires f in g && To(callee, false) in g[f].calls
    ensures !Accepted(g, f)
  {
    var i :| 0 <= i < |g[f].calls| && g[f].calls[i] == To(callee, false);
    assert !Allowed(g[f].calls[i]);
  }
}
