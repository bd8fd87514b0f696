// The proof that inlining a family of device templates is bounded
// (src/BoundedDeviceTemplateInlining.cpp:15-16, 294-353).
module BoundedInlining {
  import opened Primitives

  type Node(==) = nat

  // The calls in each instance's body, in order.
  type Graph = map<Node, seq<Node>>

  const MAX_NODES: nat := 256
  const MAX_DEPTH: nat := 64

  // ----- Paths ----------------------------------------------------------------------------------

  // Successive calls, from an instance of the graph; the last callee may lie outside it.
  ghost predicate Path(g: Graph, p: seq<Node>) {
    p != [] && p[0] in g && forall i :: 0 <= i < |p| - 1 ==> p[i] in g && p[i + 1] in g[p[i]]
  }

  // A path that leaves the graph or is too deep.
  ghost predicate Escapes(g: Graph, p: seq<Node>) {
    Path(g, p) && (p[|p| - 1] !in g || |p| > MAX_DEPTH)
  }

  ghost predicate Bounded(g: Graph) {
    forall p :: !Escapes(g, p)
  }

  // The longest path from n has h nodes, and no path from n leaves the graph.
  ghost predicate HasHeight(g: Graph, n: Node, h: nat) {
    && (exists p :: Path(g, p) && p[0] == n && |p| == h)
    && (forall p :: Path(g, p) && p[0] == n ==> |p| <= h && p[|p| - 1] in g)
  }

  lemma PathExtends(g: Graph, p: seq<Node>, n: Node)
    requires Path(g, p) && p[|p| - 1] in g && n in g[p[|p| - 1]]
    ensures Path(g, p + [n])
  {
    var q := p + [n];
    forall i | 0 <= i < |q| - 1
      ensures q[i] in g && q[i + 1] in g[q[i]]
    {
      if i < |p| - 1 {
        assert q[i] == p[i] && q[i + 1] == p[i + 1];
      }
    }
  }

  lemma PathPrepends(g: Graph, n: Node, p: seq<Node>)
    requires Path(g, p) && n in g && p[0] in g[n]
    ensures Path(g, [n] + p)
  {
    var q := [n] + p;
    forall i | 0 <= i < |q| - 1
      ensures q[i] in g && q[i + 1] in g[q[i]]
    {
      if i > 0 {
        assert q[i] == p[i - 1] && q[i + 1] == p[i];
      }
    }
  }

  lemma PathTail(g: Graph, p: seq<Node>)
    requires Path(g, p) && |p| > 1 && p[1] in g
    ensures Path(g, p[1..])
  {
    var q := p[1..];
    forall i | 0 <= i < |q| - 1
      ensures q[i] in g && q[i + 1] in g[q[i]]
    {
      assert q[i] == p[i + 1] && q[i + 1] == p[i + 2];
    }
  }

  // Going round a cycle gives a path of any length.
  lemma {:induction false} CycleIsUnbounded(g: Graph, cycle: seq<Node>, i: nat, n: nat) returns (p: seq<Node>)
    requires Path(g, cycle) && cycle[|cycle| - 1] in g && cycle[0] in g[cycle[|cycle| - 1]]
    requires i < |cycle| && n > 0
    ensures Path(g, p) && |p| == n && p[0] == cycle[i]
    decreases n
  {
    assert cycle[i] in g;
    if n == 1 {
      p := [cycle[i]];
    } else {
      var next := if i + 1 < |cycle| then i + 1 else 0;
      var rest := CycleIsUnbounded(g, cycle, next, n - 1);
      PathPrepends(g, cycle[i], rest);
      p := [cycle[i]] + rest;
    }
  }

  // ----- The height search ----------------------------------------------------------------------

  class HeightSearch {
    const graph: Graph
    var height: map<Node, nat>
    var visiting: set<Node>

    // Remembered heights are exact, by whatever route the node was first reached.
    ghost predicate Valid()
      reads this
    {
      forall n :: n in height ==> n in graph && 0 < height[n] <= MAX_DEPTH && HasHeight(graph, n, height[n])
    }

    constructor (graph: Graph)
      ensures Valid() && this.graph == graph && visiting == {} && height == map[]
    {
      this.graph, height, visiting := graph, map[], {};
    }

    // trail is the chain of calls being visited; zero means that some path escapes.
    method Visit(node: Node, depth: nat, ghost trail: seq<Node>) returns (result: nat)
      requires Valid() && visiting == set n | n in trail
      requires depth == |trail| + 1 <= MAX_DEPTH + 1
      requires if trail == [] then node in graph else Path(graph, trail + [node])
      modifies this
      ensures Valid()
      ensures result > 0 ==> visiting == old(visiting) && node in graph && result <= MAX_DEPTH && HasHeight(graph, node, result)
      ensures result == 0 ==> exists p :: Escapes(graph, p)
      decreases graph.Keys - visiting
    {
      ghost var p := trail + [node];
      assert Path(graph, p);
      if depth > MAX_DEPTH || node !in graph {
        assert Escapes(graph, p);
        return 0;
      }
      if node in visiting {
        CycleEscapes(graph, trail, node);
        return 0;
      }
      if node in height {
        return height[node];
      }
      visiting := visiting + {node};
      result := 1;
      FirstProgress(graph, node);
      for i := 0 to |graph[node]|
        invariant Valid() && visiting == set n | n in p
        invariant Progress(graph, node, i, result)
      {
        PathExtends(graph, p, graph[node][i]);
        var child := Visit(graph[node][i], depth + 1, p);
        if child == 0 {
          return 0;
        }
        if child >= MAX_DEPTH {
          TallChildEscapes(graph, node, graph[node][i], child);
          return 0;
        }
        NextProgress(graph, node, i, result, child);
        result := if child + 1 > result then child + 1 else result;
      }
      HeightFromChildren(graph, node, result);
      visiting := visiting - {node};
      assert visiting == old(visiting);
      height := height[node := result];
    }
  }

  // Every path from n is shorter than h and stays in the graph.
  ghost predicate Below(g: Graph, n: Node, h: nat) {
    n in g && forall p :: Path(g, p) && p[0] == n ==> |p| < h && p[|p| - 1] in g
  }

  // After i children, h is one more than the height of the tallest.
  ghost predicate Progress(g: Graph, n: Node, i: nat, h: nat) {
    && n in g && i <= |g[n]| && 0 < h <= MAX_DEPTH
    && (exists p :: Path(g, p) && p[0] == n && |p| == h)
    && (forall j :: 0 <= j < i ==> Below(g, g[n][j], h))
  }

  lemma FirstProgress(g: Graph, n: Node)
    requires n in g
    ensures Progress(g, n, 0, 1)
  {
    assert Path(g, [n]);
  }

  lemma NextProgress(g: Graph, n: Node, i: nat, h: nat, child: nat)
    requires Progress(g, n, i, h) && i < |g[n]| && HasHeight(g, g[n][i], child) && 0 < child < MAX_DEPTH && g[n][i] in g
    ensures Progress(g, n, i + 1, if child + 1 > h then child + 1 else h)
  {
    var most := if child + 1 > h then child + 1 else h;
    forall j | 0 <= j < i + 1
      ensures Below(g, g[n][j], most)
    {
      if j < i {
        assert Below(g, g[n][j], h);
      }
    }
    if child + 1 > h {
      var q :| Path(g, q) && q[0] == g[n][i] && |q| == child;
      PathPrepends(g, n, q);
      assert ([n] + q)[0] == n && |[n] + q| == most;
    }
  }

  lemma TallChildEscapes(g: Graph, n: Node, next: Node, child: nat)
    requires n in g && next in g[n] && HasHeight(g, next, child) && child >= MAX_DEPTH
    ensures exists p :: Escapes(g, p)
  {
    var q :| Path(g, q) && q[0] == next && |q| == child;
    PathPrepends(g, n, q);
    assert Escapes(g, [n] + q);
  }

  lemma HeightFromChildren(g: Graph, n: Node, h: nat)
    requires Progress(g, n, if n in g then |g[n]| else 0, h)
    ensures HasHeight(g, n, h)
  {
    forall p | Path(g, p) && p[0] == n
      ensures |p| <= h && p[|p| - 1] in g
    {
      if |p| > 1 {
        var j :| 0 <= j < |g[n]| && g[n][j] == p[1];
        assert Below(g, g[n][j], h);
        PathTail(g, p);
        assert p[1..][|p| - 2] == p[|p| - 1];
      }
    }
  }

  lemma CycleEscapes(g: Graph, trail: seq<Node>, node: Node)
    requires node in trail && node in g && Path(g, trail + [node])
    ensures exists p :: Escapes(g, p)
  {
    var i :| 0 <= i < |trail| && trail[i] == node;
    var cycle, whole := trail[i..], trail + [node];
    forall k | 0 <= k < |cycle|
      ensures cycle[k] == whole[i + k] && cycle[k] in g && whole[i + k + 1] in g[cycle[k]]
    {
    }
    forall k | 0 <= k < |cycle| - 1
      ensures cycle[k] in g && cycle[k + 1] in g[cycle[k]]
    {
      assert cycle[k + 1] == whole[i + k + 1];
    }
    assert whole[i + |cycle|] == node;
    var p := CycleIsUnbounded(g, cycle, 0, MAX_DEPTH + 1);
    assert Escapes(g, p);
  }

  // ----- The family proof -----------------------------------------------------------------------

  datatype Specialization = Implicit | Explicit | OtherSpecialization

  // One specialization of the family.  sound: its argument, signature, declarations and, when explicit, its
  // insertion point are acceptable.  calls: the recursive calls of its body, when the body is acceptable.
  datatype Instance = Instance(id: Node, kind: Specialization, sound: bool, calls: Option<seq<Node>>)

  ghost predicate Distinct(instances: seq<Instance>) {
    forall i, j :: 0 <= i < j < |instances| ==> instances[i].id != instances[j].id
  }

  // A terminal calls nothing; an implicit instance makes exactly one call.
  predicate Link(instance: Instance) {
    && !instance.kind.OtherSpecialization? && instance.sound && instance.calls.Some?
    && |instance.calls.value| == if instance.kind.Explicit? then 0 else 1
  }

  function Count(instances: seq<Instance>, kind: Specialization): nat {
    if instances == [] then 0
    else Count(instances[..|instances| - 1], kind) + if instances[|instances| - 1].kind == kind then 1 else 0
  }

  function GraphOf(instances: seq<Instance>): Graph {
    if instances == [] then map[]
    else
      var last := instances[|instances| - 1];
      GraphOf(instances[..|instances| - 1])[last.id := if last.calls.Some? then last.calls.value else []]
  }

  // patternCalls: the recursive calls of the pattern's body, when that is acceptable.
  ghost predicate Acceptable(patternCalls: Option<nat>, instances: seq<Instance>) {
    && patternCalls == Some(1)
    && |instances| <= MAX_NODES
    && Links(instances)
    && Count(instances, Explicit) > 0 && Count(instances, Implicit) > 0
    && Bounded(GraphOf(instances))
  }

  lemma {:induction false} GraphHas(instances: seq<Instance>, i: nat)
    requires Distinct(instances) && i < |instances|
    ensures instances[i].id in GraphOf(instances)
    ensures instances[i].calls.Some? ==> GraphOf(instances)[instances[i].id] == instances[i].calls.value
    decreases |instances|
  {
    if i < |instances| - 1 {
      GraphHas(instances[..|instances| - 1], i);
    }
  }

  lemma {:induction false} GraphHasOnly(instances: seq<Instance>, n: Node)
    requires n in GraphOf(instances)
    ensures exists i :: 0 <= i < |instances| && instances[i].id == n
    decreases |instances|
  {
    var last := |instances| - 1;
    if instances[last].id != n {
      GraphHasOnly(instances[..last], n);
      var i :| 0 <= i < last && instances[..last][i].id == n;
      assert instances[i].id == n;
    }
  }

  lemma {:induction false} GraphSize(instances: seq<Instance>)
    requires Distinct(instances)
    ensures |GraphOf(instances)| == |instances|
    decreases |instances|
  {
    if instances != [] {
      var last := |instances| - 1;
      GraphSize(instances[..last]);
      if instances[last].id in GraphOf(instances[..last]) {
        GraphHasOnly(instances[..last], instances[last].id);
        assert false;
      }
      assert GraphOf(instances).Keys == GraphOf(instances[..last]).Keys + {instances[last].id};
    }
  }

  ghost predicate Links(instances: seq<Instance>) {
    forall i :: 0 <= i < |instances| ==> Link(instances[i])
  }

  // One instance more in the graph and the counts.
  lemma NextInstance(instances: seq<Instance>, i: nat)
    requires Distinct(instances) && i < |instances|
    ensures
      var before, after, instance := instances[..i], instances[..i + 1], instances[i];
      && GraphOf(after) == GraphOf(before)[instance.id := if instance.calls.Some? then instance.calls.value else []]
      && |GraphOf(after)| == i + 1
      && Count(after, Explicit) == Count(before, Explicit) + (if instance.kind.Explicit? then 1 else 0)
      && Count(after, Implicit) == Count(before, Implicit) + (if instance.kind.Implicit? then 1 else 0)
      && (Links(after) <==> Links(before) && Link(instance))
  {
    var after := instances[..i + 1];
    assert after[..|after| - 1] == instances[..i] && after[i] == instances[i];
    GraphSize(after);
  }

  lemma LinksFail(instances: seq<Instance>, i: nat)
    requires i < |instances| && !Link(instances[i])
    ensures !Links(instances)
  {
  }

  // The instances are links of a chain, at most 256 of them; their graph, and how many are of each kind.
  method ScanInstances(instances: seq<Instance>) returns (linked: bool, graph: Graph, terminalCount: nat, implicitCount: nat)
    requires Distinct(instances)
    ensures linked <==> |instances| <= MAX_NODES && Links(instances)
    ensures linked ==> && graph == GraphOf(instances)
                       && terminalCount == Count(instances, Explicit) && implicitCount == Count(instances, Implicit)
  {
    linked, graph, terminalCount, implicitCount := false, map[], 0, 0;
    for i := 0 to |instances|
      invariant !linked && i <= MAX_NODES && Links(instances[..i]) && graph == GraphOf(instances[..i])
      invariant terminalCount == Count(instances[..i], Explicit) && implicitCount == Count(instances[..i], Implicit)
    {
      var instance := instances[i];
      NextInstance(instances, i);
      if instance.kind.OtherSpecialization? || !instance.sound {
        LinksFail(instances, i);
        return;
      }
      graph := graph[instance.id := if instance.calls.Some? then instance.calls.value else []];
      if |graph| > MAX_NODES || instance.calls.None? || |instance.calls.value| != (if instance.kind.Explicit? then 0 else 1) {
        assert i + 1 > MAX_NODES || !Link(instance);
        if i + 1 <= MAX_NODES {
          LinksFail(instances, i);
        }
        return;
      }
      if instance.kind.Explicit? {
        terminalCount := terminalCount + 1;
      } else {
        implicitCount := implicitCount + 1;
      }
    }
    assert instances[..|instances|] == instances;
    linked := true;
  }

  // Accepting needs exactly that the family is a chain of at most 256 instances, that every call stays in
  // the family, and that no path of calls has more than 64 nodes.
  method Prove(patternCalls: Option<nat>, instances: seq<Instance>) returns (accepted: bool)
    requires Distinct(instances)
    ensures accepted <==> Acceptable(patternCalls, instances)
  {
    if patternCalls != Some(1) {
      return false;
    }
    var linked, graph, terminalCount, implicitCount := ScanInstances(instances);
    if !linked || terminalCount == 0 || implicitCount == 0 {
      return false;
    }
    accepted := AllHeights(graph);
  }

  ghost predicate Tall(g: Graph, n: Node) {
    exists h: nat :: h <= MAX_DEPTH && HasHeight(g, n, h)
  }

  lemma AllTall(g: Graph)
    requires forall n :: n in g ==> Tall(g, n)
    ensures Bounded(g)
  {
    forall p
      ensures !Escapes(g, p)
    {
      if Path(g, p) {
        assert Tall(g, p[0]);
      }
    }
  }

  // The last loop: a bounded height for every node, or some path that escapes.
  method AllHeights(graph: Graph) returns (bounded: bool)
    ensures bounded <==> Bounded(graph)
  {
    var search := new HeightSearch(graph);
    var left := graph.Keys;
    while left != {}
      invariant search.Valid() && search.graph == graph && search.visiting == {} && fresh(search)
      invariant left <= graph.Keys
      invariant forall n :: n in graph && n !in left ==> Tall(graph, n)
      decreases |left|
    {
      var node :| node in left;
      ghost var trail: seq<Node> := [];
      var h := search.Visit(node, 1, trail);
      if h == 0 {
        return false;
      }
      assert Tall(graph, node);
      left := left - {node};
    }
    AllTall(graph);
    return true;
  }

  // ----- What acceptance bounds -----------------------------------------------------------------

  // The bodies left by inlining every call under n, to the given depth of calls.
  function Bodies(g: Graph, n: Node, depth: nat): nat
    decreases depth, 0
  {
    if depth == 0 || n !in g then 0 else 1 + BodiesOf(g, g[n], depth - 1)
  }

  function BodiesOf(g: Graph, calls: seq<Node>, depth: nat): nat
    decreases depth, |calls| + 1
  {
    if calls == [] then 0 else Bodies(g, calls[0], depth) + BodiesOf(g, calls[1..], depth)
  }

  ghost predicate Chain(g: Graph) {
    forall n :: n in g ==> |g[n]| <= 1
  }

  // In a chain, inlining n completely leaves one body for each node of its longest path.
  lemma {:induction false} ChainBodies(g: Graph, n: Node, h: nat, depth: nat)
    requires Chain(g) && n in g && HasHeight(g, n, h) && h <= depth
    ensures Bodies(g, n, depth) == h
    decreases h
  {
    var p :| Path(g, p) && p[0] == n && |p| == h;
    FirstCall(g, p);
    if g[n] != [] {
      var next := g[n][0];
      assert g[n] == [next];
      ChildHeight(g, n, next, h);
      ChainBodies(g, next, h - 1, depth - 1);
      assert BodiesOf(g, g[n], depth - 1) == Bodies(g, next, depth - 1) + BodiesOf(g, g[n][1..], depth - 1);
    }
  }

  lemma FirstCall(g: Graph, p: seq<Node>)
    requires Path(g, p) && p[0] in g
    ensures |p| == 1 || p[1] in g[p[0]]
  {
  }

  lemma ChildHeight(g: Graph, n: Node, next: Node, h: nat)
    requires n in g && g[n] == [next] && HasHeight(g, n, h)
    ensures next in g && h > 1 && HasHeight(g, next, h - 1)
  {
    assert Path(g, [n]);
    PathExtends(g, [n], next);
    assert ([n] + [next])[1] == next;
    forall q | Path(g, q) && q[0] == next
      ensures |q| <= h - 1 && q[|q| - 1] in g
    {
      PathPrepends(g, n, q);
      assert ([n] + q)[|q|] == q[|q| - 1];
    }
    var p :| Path(g, p) && p[0] == n && |p| == h;
    assert p[1] in g[n];
    PathTail(g, p);
    assert p[1..][0] == next && |p[1..]| == h - 1;
  }

  // Every instance of an accepted family is fully inlined within 64 levels, into as many bodies as its height.
  lemma AcceptedExpansion(patternCalls: Option<nat>, instances: seq<Instance>, i: nat) returns (h: nat)
    requires Distinct(instances) && Acceptable(patternCalls, instances) && i < |instances|
    ensures 0 < h <= MAX_DEPTH && HasHeight(GraphOf(instances), instances[i].id, h)
    ensures forall depth :: depth >= h ==> Bodies(GraphOf(instances), instances[i].id, depth) == h
  {
    var g, n := GraphOf(instances), instances[i].id;
    GraphHas(instances, i);
    forall m | m in g
      ensures |g[m]| <= 1
    {
      GraphHasOnly(instances, m);
      var j :| 0 <= j < |instances| && instances[j].id == m;
      GraphHas(instances, j);
      assert Link(instances[j]);
    }
    h := HeightExists(g, n);
    forall depth | depth >= h
      ensures Bodies(g, n, depth) == h
    {
      ChainBodies(g, n, h, depth);
    }
  }

  lemma HeightExists(g: Graph, n: Node) returns (h: nat)
    requires Bounded(g) && n in g
    ensures 0 < h <= MAX_DEPTH && HasHeight(g, n, h)
  {
    var p := [n];
    assert Path(g, p);
    while exists q :: Path(g, q) && q[0] == n && |q| > |p|
      invariant Path(g, p) && p[0] == n
      decreases MAX_DEPTH - |p|
    {
      var q :| Path(g, q) && q[0] == n && |q| > |p|;
      assert !Escapes(g, q);
      p := q;
    }
    h := |p|;
    assert !Escapes(g, p);
    forall q | Path(g, q) && q[0] == n
      ensures |q| <= h && q[|q| - 1] in g
    {
      assert !Escapes(g, q);
    }
  }

  // ----- How long and how large -----------------------------------------------------------------

  // What every member of an accepted family is.
  lemma AcceptedMembers(patternCalls: Option<nat>, instances: seq<Instance>, i: nat)
    requires Acceptable(patternCalls, instances) && i < |instances|
    ensures patternCalls == Some(1) && |instances| <= 256 && instances[i].sound
    ensures
      match instances[i].kind
      case Explicit => instances[i].calls == Some([])
      case Implicit => exists callee :: instances[i].calls == Some([callee])
      case OtherSpecialization => false
  {
    assert Link(instances[i]);
    if instances[i].kind.Implicit? {
      var calls := instances[i].calls.value;
      assert calls == [calls[0]];
    }
  }

  // Each instance calls the next one; the last is the terminal.
  function ChainOf(k: nat): (r: seq<Instance>)
    ensures |r| == k && Distinct(r)
  {
    seq(k, i requires 0 <= i < k => if i + 1 == k then Instance(i, Explicit, true, Some([])) else Instance(i, Implicit, true, Some([i + 1])))
  }

  lemma ChainGraph(k: nat, n: Node)
    ensures n in GraphOf(ChainOf(k)) <==> n < k
    ensures n < k ==> GraphOf(ChainOf(k))[n] == if n + 1 == k then [] else [n + 1]
  {
    var instances := ChainOf(k);
    if n < k {
      GraphHas(instances, n);
    }
    if n in GraphOf(instances) {
      GraphHasOnly(instances, n);
    }
  }

  lemma {:induction false} ChainPath(k: nat, g: Graph, p: seq<Node>, i: nat)
    requires g == GraphOf(ChainOf(k)) && Path(g, p) && i < |p|
    ensures p[i] == p[0] + i < k
    decreases i
  {
    if i == 0 {
      ChainGraph(k, p[0]);
    } else {
      ChainPath(k, g, p, i - 1);
      assert p[i - 1 + 1] in g[p[i - 1]];
      ChainGraph(k, p[i - 1]);
    }
  }

  lemma SomeOfKind(instances: seq<Instance>, i: nat)
    requires i < |instances|
    ensures Count(instances, instances[i].kind) > 0
    decreases |instances|
  {
    if i < |instances| - 1 {
      SomeOfKind(instances[..|instances| - 1], i);
    }
  }

  lemma {:induction false} NoneOfKind(instances: seq<Instance>, kind: Specialization)
    requires forall i :: 0 <= i < |instances| ==> instances[i].kind != kind
    ensures Count(instances, kind) == 0
    decreases |instances|
  {
    if instances != [] {
      NoneOfKind(instances[..|instances| - 1], kind);
    }
  }

  lemma BothKinds(instances: seq<Instance>, i: nat, j: nat)
    requires i < |instances| && j < |instances| && instances[i].kind.Explicit? && instances[j].kind.Implicit?
    ensures Count(instances, Explicit) > 0 && Count(instances, Implicit) > 0
  {
    SomeOfKind(instances, i);
    SomeOfKind(instances, j);
  }

  // A chain of calls is accepted up to 64 instances.
  lemma LongestChain(k: nat)
    ensures Acceptable(Some(1), ChainOf(k)) <==> 2 <= k <= 64
  {
    var instances, g := ChainOf(k), GraphOf(ChainOf(k));
    if k < 2 {
      NoneOfKind(instances, Implicit);
    } else if k > 64 {
      ChainEscapes(k, g);
    } else {
      BothKinds(instances, k - 1, 0);
      forall p
        ensures !Escapes(g, p)
      {
        if Path(g, p) {
          ChainPath(k, g, p, |p| - 1);
          ChainGraph(k, p[|p| - 1]);
        }
      }
    }
  }

  lemma ChainEscapes(k: nat, g: Graph)
    requires k > 64 && g == GraphOf(ChainOf(k))
    ensures !Bounded(g)
  {
    var p := seq(65, i requires 0 <= i < 65 => i as Node);
    forall i | 0 <= i < 65
      ensures p[i] in g && (i < 64 ==> p[i + 1] in g[p[i]])
    {
      ChainGraph(k, p[i]);
    }
    assert Path(g, p) && |p| == 65;
    assert Escapes(g, p);
  }

  // Instances that all call one terminal.
  function StarOf(k: nat): (r: seq<Instance>)
    ensures |r| == k && Distinct(r)
  {
    seq(k, i requires 0 <= i < k => if i == 0 then Instance(i, Explicit, true, Some([])) else Instance(i, Implicit, true, Some([0])))
  }

  lemma StarGraph(k: nat, n: Node)
    ensures n in GraphOf(StarOf(k)) <==> n < k
    ensures n < k ==> GraphOf(StarOf(k))[n] == if n == 0 then [] else [0]
  {
    var instances := StarOf(k);
    if n < k {
      GraphHas(instances, n);
    }
    if n in GraphOf(instances) {
      GraphHasOnly(instances, n);
    }
  }

  lemma StarStep(k: nat, g: Graph, p: seq<Node>, i: nat)
    requires g == GraphOf(StarOf(k)) && Path(g, p) && i < |p| - 1
    ensures p[i] > 0 && p[i + 1] == 0
  {
    assert p[i + 1] in g[p[i]];
    StarGraph(k, p[i]);
  }

  lemma StarPath(k: nat, g: Graph, p: seq<Node>)
    requires g == GraphOf(StarOf(k)) && Path(g, p)
    ensures |p| <= 2 && p[|p| - 1] in g
  {
    StarGraph(k, p[0]);
    StarGraph(k, 0);
    if |p| > 1 {
      StarStep(k, g, p, 0);
    }
    if |p| > 2 {
      StarStep(k, g, p, 1);
    }
  }

  // A family is accepted up to 256 instances.
  lemma LargestFamily(k: nat)
    ensures Acceptable(Some(1), StarOf(k)) <==> 2 <= k <= 256
  {
    var instances, g := StarOf(k), GraphOf(StarOf(k));
    if k < 2 {
      NoneOfKind(instances, Implicit);
    } else if k <= 256 {
      BothKinds(instances, 0, 1);
      forall p
        ensures !Escapes(g, p)
      {
        if Path(g, p) {
          StarPath(k, g, p);
        }
      }
    }
  }

  // ----- Why one call ---------------------------------------------------------------------------

  predicate Within(i: Node, k: nat) {
    i < k
  }

  // Each node calls the next one twice.
  function Doubling(k: nat): Graph {
    map i: Node | Within(i, k) && i < k :: if i + 1 < k then [i + 1, i + 1] else []
  }

  function TwoToThe(n: nat): nat {
    if n == 0 then 1 else 2 * TwoToThe(n - 1)
  }

  lemma {:induction false} DoublingPath(k: nat, p: seq<Node>, i: nat)
    requires Path(Doubling(k), p) && i < |p|
    ensures p[i] == p[0] + i < k
    decreases i
  {
    if i > 0 {
      DoublingPath(k, p, i - 1);
      assert p[i - 1 + 1] in Doubling(k)[p[i - 1]];
    }
  }

  // With two calls at each level the height search still accepts 64 levels, which inline to 2^64 - 1 bodies.
  lemma DoublingExplodes(k: nat)
    requires 0 < k <= MAX_DEPTH
    ensures Bounded(Doubling(k))
    ensures Bodies(Doubling(k), 0, k) == TwoToThe(k) - 1
  {
    forall p
      ensures !Escapes(Doubling(k), p)
    {
      if Path(Doubling(k), p) {
        DoublingPath(k, p, |p| - 1);
      }
    }
    DoublingBodies(k, 0, k);
  }

  lemma {:induction false} DoublingBodies(k: nat, i: nat, depth: nat)
    requires i + depth == k && depth > 0
    ensures Bodies(Doubling(k), i, depth) == TwoToThe(depth) - 1
    decreases depth
  {
    var g := Doubling(k);
    if depth > 1 {
      DoublingBodies(k, i + 1, depth - 1);
      assert g[i][1..] == [i + 1];
      assert BodiesOf(g, g[i], depth - 1) == Bodies(g, i + 1, depth - 1) + BodiesOf(g, [i + 1], depth - 1);
      assert BodiesOf(g, [i + 1], depth - 1) == Bodies(g, i + 1, depth - 1) + BodiesOf(g, [i + 1][1..], depth - 1);
    }
  }
}
