// Reachability along storage copies in source order (src/DavC310TargetRecipe.cpp:7703-7831).
module CopySweep {
  import opened Arithmetic
  import opened Primitives

  type Storage(==) = nat

  datatype Copy = Copy(source: Storage, target: Storage, position: int)

  // Copies after begin, when there is one, and before end.
  datatype Window = Window(begin: Option<int>, end: int) {
    predicate Has(position: int) {
      (begin.Some? ==> begin.value < position) && position < end
    }
  }

  // ----- Chains of copies -----------------------------------------------------------------------

  predicate Before(a: int, b: int, strict: bool) {
    if strict then a < b else a <= b
  }

  // The copies, all in the window and among those given, lead from one storage to another at increasing
  // positions.
  ghost predicate Chain(copies: seq<Copy>, w: Window, c: seq<Copy>, from: Storage, to: Storage, strict: bool)
    decreases |c|
  {
    if c == [] then from == to
    else
      var last, rest := c[|c| - 1], c[..|c| - 1];
      && last in copies && w.Has(last.position) && last.target == to
      && (rest != [] ==> Before(rest[|rest| - 1].position, last.position, strict))
      && Chain(copies, w, rest, from, last.source, strict)
  }

  ghost predicate Linked(copies: seq<Copy>, w: Window, from: Storage, to: Storage, strict: bool) {
    exists c :: Chain(copies, w, c, from, to, strict)
  }

  // ----- The sweep ------------------------------------------------------------------------------

  ghost predicate Sorted(copies: seq<Copy>, strict: bool) {
    forall i, j :: 0 <= i < j < |copies| ==> Before(copies[i].position, copies[j].position, strict)
  }

  function Reached(copies: seq<Copy>, w: Window, from: Storage): set<Storage>
    decreases |copies|
  {
    if copies == [] then {from}
    else
      var before, last := Reached(copies[..|copies| - 1], w, from), copies[|copies| - 1];
      if w.Has(last.position) && last.source in before then before + {last.target} else before
  }

  method Sweep(copies: seq<Copy>, w: Window, from: Storage) returns (reachable: set<Storage>)
    ensures reachable == Reached(copies, w, from)
  {
    reachable := {from};
    for i := 0 to |copies|
      invariant reachable == Reached(copies[..i], w, from)
    {
      assert copies[..i + 1][..i] == copies[..i];
      var edge := copies[i];
      if !w.Has(edge.position) {
        continue;
      }
      if edge.source in reachable {
        reachable := reachable + {edge.target};
      }
    }
    assert copies[..|copies|] == copies;
  }

  // The copies at increasing places of the sequence, all in the window, lead from one storage to another.
  ghost predicate Route(copies: seq<Copy>, w: Window, places: seq<nat>, from: Storage, to: Storage)
    decreases |places|
  {
    if places == [] then from == to
    else
      var last, rest := places[|places| - 1], places[..|places| - 1];
      && last < |copies| && w.Has(copies[last].position) && copies[last].target == to
      && (rest != [] ==> rest[|rest| - 1] < last)
      && Route(copies, w, rest, from, copies[last].source)
  }

  ghost predicate Routed(copies: seq<Copy>, w: Window, from: Storage, to: Storage) {
    exists places :: Route(copies, w, places, from, to)
  }

  lemma {:induction false} RouteAmongMore(copies: seq<Copy>, more: seq<Copy>, w: Window, places: seq<nat>, from: Storage, to: Storage)
    requires Route(copies, w, places, from, to) && copies <= more
    ensures Route(more, w, places, from, to)
    decreases |places|
  {
    if places != [] {
      RouteAmongMore(copies, more, w, places[..|places| - 1], from, copies[places[|places| - 1]].source);
    }
  }

  // A route that ends before a place stays within the copies before it.
  lemma {:induction false} RouteAmongFewer(copies: seq<Copy>, n: nat, w: Window, places: seq<nat>, from: Storage, to: Storage)
    requires Route(copies, w, places, from, to) && n <= |copies| && (places != [] ==> places[|places| - 1] < n)
    ensures Route(copies[..n], w, places, from, to)
    decreases |places|
  {
    if places != [] {
      RouteAmongFewer(copies, n, w, places[..|places| - 1], from, copies[places[|places| - 1]].source);
    }
  }

  lemma {:induction false} ReachedByRoute(copies: seq<Copy>, w: Window, from: Storage, to: Storage) returns (places: seq<nat>)
    requires to in Reached(copies, w, from)
    ensures Route(copies, w, places, from, to) && (places != [] ==> places[|places| - 1] < |copies|)
    decreases |copies|
  {
    if copies == [] {
      places := [];
    } else {
      var n := |copies| - 1;
      var before := copies[..n];
      if to in Reached(before, w, from) {
        places := ReachedByRoute(before, w, from, to);
        RouteAmongMore(before, copies, w, places, from, to);
      } else {
        var rest := ReachedByRoute(before, w, from, copies[n].source);
        RouteAmongMore(before, copies, w, rest, from, copies[n].source);
        places := rest + [n];
        assert places[..|places| - 1] == rest;
      }
    }
  }

  lemma {:induction false} RouteIsReached(copies: seq<Copy>, w: Window, places: seq<nat>, from: Storage, to: Storage)
    requires Route(copies, w, places, from, to)
    ensures to in Reached(copies, w, from)
    decreases |copies|
  {
    if copies == [] {
      return;
    }
    var n := |copies| - 1;
    if places != [] && places[|places| - 1] == n {
      var rest := places[..|places| - 1];
      RouteAmongFewer(copies, n, w, rest, from, copies[n].source);
      RouteIsReached(copies[..n], w, rest, from, copies[n].source);
    } else {
      RouteAmongFewer(copies, n, w, places, from, to);
      RouteIsReached(copies[..n], w, places, from, to);
    }
  }

  // Whatever the order, one sweep finds exactly the storage that copies at increasing places lead to.
  lemma SweepIsExact(copies: seq<Copy>, w: Window, from: Storage, to: Storage)
    ensures to in Reached(copies, w, from) <==> Routed(copies, w, from, to)
  {
    if to in Reached(copies, w, from) {
      var places := ReachedByRoute(copies, w, from, to);
    }
    if places :| Route(copies, w, places, from, to) {
      RouteIsReached(copies, w, places, from, to);
    }
  }

  // ----- Positions ------------------------------------------------------------------------------

  lemma {:induction false} ChainAmongMore(copies: seq<Copy>, more: seq<Copy>, w: Window, c: seq<Copy>, from: Storage, to: Storage, strict: bool)
    requires Chain(copies, w, c, from, to, strict) && forall e :: e in copies ==> e in more
    ensures Chain(more, w, c, from, to, strict)
    decreases |c|
  {
    if c != [] {
      ChainAmongMore(copies, more, w, c[..|c| - 1], from, c[|c| - 1].source, strict);
    }
  }

  lemma {:induction false} ReachedByChain(copies: seq<Copy>, w: Window, from: Storage, to: Storage, strict: bool)
    returns (c: seq<Copy>)
    requires Sorted(copies, strict) && to in Reached(copies, w, from)
    ensures Chain(copies, w, c, from, to, strict) && forall e :: e in c ==> e in copies
    decreases |copies|
  {
    if copies == [] {
      c := [];
    } else {
      var before, last := copies[..|copies| - 1], copies[|copies| - 1];
      if to in Reached(before, w, from) {
        c := ReachedByChain(before, w, from, to, strict);
        ChainAmongMore(before, copies, w, c, from, to, strict);
      } else {
        var rest := ReachedByChain(before, w, from, last.source, strict);
        ChainAmongMore(before, copies, w, rest, from, last.source, strict);
        c := rest + [last];
        assert c[..|c| - 1] == rest;
        if rest != [] {
          assert rest[|rest| - 1] in before;
        }
      }
    }
  }

  // All the copies of a strict chain come before its last.
  lemma {:induction false} ChainPositions(copies: seq<Copy>, w: Window, c: seq<Copy>, from: Storage, to: Storage, e: Copy)
    requires Chain(copies, w, c, from, to, true) && e in c
    ensures e.position <= c[|c| - 1].position && (e != c[|c| - 1] ==> e.position < c[|c| - 1].position)
    ensures e in copies
    decreases |c|
  {
    var rest := c[..|c| - 1];
    if e != c[|c| - 1] {
      assert e in rest;
      ChainPositions(copies, w, rest, from, c[|c| - 1].source, e);
    }
  }

  lemma {:induction false} ChainAmongFewer(copies: seq<Copy>, fewer: seq<Copy>, w: Window, c: seq<Copy>, from: Storage, to: Storage)
    requires Chain(copies, w, c, from, to, true) && forall e :: e in c ==> e in fewer
    ensures Chain(fewer, w, c, from, to, true)
    decreases |c|
  {
    if c != [] {
      ChainAmongFewer(copies, fewer, w, c[..|c| - 1], from, c[|c| - 1].source);
    }
  }

  lemma {:induction false} ChainIsReached(copies: seq<Copy>, w: Window, c: seq<Copy>, from: Storage, to: Storage)
    requires Sorted(copies, false) && Chain(copies, w, c, from, to, true)
    ensures to in Reached(copies, w, from)
    decreases |copies|
  {
    if copies != [] && c != [] {
      var before, last := copies[..|copies| - 1], copies[|copies| - 1];
      var rest, end := c[..|c| - 1], c[|c| - 1];
      forall e | e in rest
        ensures e in before
      {
        ChainPositions(copies, w, c, from, to, e);
        ChainPositions(copies, w, rest, from, end.source, e);
        assert e.position < end.position <= last.position;
      }
      if end in before {
        ChainAmongFewer(copies, before, w, c, from, to);
        ChainIsReached(before, w, c, from, to);
      } else {
        ChainAmongFewer(copies, before, w, rest, from, end.source);
        ChainIsReached(before, w, rest, from, end.source);
      }
    } else if copies != [] {
      FromIsReached(copies, w, from);
    }
  }

  lemma {:induction false} FromIsReached(copies: seq<Copy>, w: Window, from: Storage)
    ensures from in Reached(copies, w, from)
    decreases |copies|
  {
    if copies != [] {
      FromIsReached(copies[..|copies| - 1], w, from);
    }
  }

  // Over sorted copies the sweep finds all that chains at increasing positions lead to, and only what chains
  // at non-decreasing positions do.
  lemma SweepBounds(copies: seq<Copy>, w: Window, from: Storage, to: Storage)
    requires Sorted(copies, false)
    ensures Linked(copies, w, from, to, true) ==> to in Reached(copies, w, from)
    ensures to in Reached(copies, w, from) ==> Linked(copies, w, from, to, false)
    ensures Sorted(copies, true) ==> (to in Reached(copies, w, from) <==> Linked(copies, w, from, to, true))
  {
    if c :| Chain(copies, w, c, from, to, true) {
      ChainIsReached(copies, w, c, from, to);
    }
    if to in Reached(copies, w, from) {
      var c := ReachedByChain(copies, w, from, to, false);
      if Sorted(copies, true) {
        var d := ReachedByChain(copies, w, from, to, true);
      }
    }
  }

  // Two copies at one position: which is sorted first decides whether their chain is found.
  lemma TiesDecide(a: Storage, b: Storage, c: Storage, at: int)
    requires a != c && b != c && a != b
    ensures
      var w, first, second := Window(None, at + 1), Copy(a, b, at), Copy(b, c, at);
      && Sorted([first, second], false) && Sorted([second, first], false)
      && c in Reached([first, second], w, a) && c !in Reached([second, first], w, a)
  {
    var w, first, second := Window(None, at + 1), Copy(a, b, at), Copy(b, c, at);
    var none: seq<Copy> := [];
    assert Reached(none, w, a) == {a};
    assert [first][..0] == none && [second][..0] == none;
    assert [first, second][..1] == [first] && [second, first][..1] == [second];
    assert Reached([first], w, a) == {a, b} && Reached([second], w, a) == {a};
  }

  // ----- Sorting --------------------------------------------------------------------------------

  ghost predicate NoTies(copies: seq<Copy>) {
    forall i, j :: 0 <= i < j < |copies| ==> copies[i].position != copies[j].position
  }

  // What a sort by position may give: equal positions are in any order.
  ghost predicate SortOf(sorted: seq<Copy>, copies: seq<Copy>) {
    multiset(sorted) == multiset(copies) && Sorted(sorted, false)
  }

  lemma SameMembers(sorted: seq<Copy>, copies: seq<Copy>)
    requires multiset(sorted) == multiset(copies)
    ensures forall e :: e in sorted <==> e in copies
  {
    forall e
      ensures e in sorted <==> e in copies
    {
      assert e in multiset(sorted) <==> e in multiset(copies);
    }
  }

  ghost predicate SortedBy(copies: seq<Copy>, key: Copy -> int) {
    forall i, j :: 0 <= i < j < |copies| ==> key(copies[i]) <= key(copies[j])
  }

  ghost function Insert(copies: seq<Copy>, key: Copy -> int, e: Copy): (r: seq<Copy>)
    ensures multiset(r) == multiset(copies) + multiset{e}
    decreases |copies|
  {
    if copies == [] then [e]
    else
      var before, last := copies[..|copies| - 1], copies[|copies| - 1];
      assert copies == before + [last];
      if key(last) <= key(e) then copies + [e] else Insert(before, key, e) + [last]
  }

  lemma AppendSorted(copies: seq<Copy>, key: Copy -> int, e: Copy)
    requires SortedBy(copies, key) && forall x :: x in copies ==> key(x) <= key(e)
    ensures SortedBy(copies + [e], key)
  {
    forall i | 0 <= i < |copies|
      ensures key(copies[i]) <= key(e)
    {
      assert copies[i] in copies;
    }
  }

  lemma {:induction false} InsertSorted(copies: seq<Copy>, key: Copy -> int, e: Copy)
    requires SortedBy(copies, key)
    ensures SortedBy(Insert(copies, key, e), key)
    decreases |copies|
  {
    if copies != [] {
      var before, last := copies[..|copies| - 1], copies[|copies| - 1];
      if key(last) <= key(e) {
        AppendSorted(copies, key, e);
      } else {
        InsertSorted(before, key, e);
        forall x | x in Insert(before, key, e)
          ensures key(x) <= key(last)
        {
          assert x in multiset(before) + multiset{e};
        }
        AppendSorted(Insert(before, key, e), key, last);
      }
    }
  }

  // The copies in the order of their keys.
  ghost function SortBy(copies: seq<Copy>, key: Copy -> int): (r: seq<Copy>)
    ensures multiset(r) == multiset(copies) && SortedBy(r, key)
    decreases |copies|
  {
    if copies == [] then []
    else
      var before, last := copies[..|copies| - 1], copies[|copies| - 1];
      assert copies == before + [last];
      InsertSorted(SortBy(before, key), key, last);
      Insert(SortBy(before, key), key, last)
  }

  // Keys that follow the positions give a sort by position.
  lemma KeyedSort(copies: seq<Copy>, key: Copy -> int)
    requires forall a: Copy, b: Copy :: a.position < b.position ==> key(a) < key(b)
    ensures SortOf(SortBy(copies, key), copies)
  {
    var sorted := SortBy(copies, key);
    forall i, j | 0 <= i < j < |sorted|
      ensures sorted[i].position <= sorted[j].position
    {
      assert key(sorted[i]) <= key(sorted[j]);
    }
  }

  lemma {:induction false} NoTiesSorted(sorted: seq<Copy>, copies: seq<Copy>)
    requires SortOf(sorted, copies) && NoTies(copies)
    ensures Sorted(sorted, true)
  {
    forall i, j | 0 <= i < j < |sorted|
      ensures sorted[i].position < sorted[j].position
    {
      if sorted[i].position == sorted[j].position {
        TieKept(sorted, copies, i, j);
      }
    }
  }

  lemma Without(s: seq<Copy>, i: nat)
    requires i < |s|
    ensures multiset(s)[s[i]] == multiset(s[..i] + s[i + 1..])[s[i]] + 1
  {
    assert s == s[..i] + [s[i]] + s[i + 1..];
  }

  // What comes twice in a sequence comes twice in any other order of it.
  lemma TwiceKept(sorted: seq<Copy>, copies: seq<Copy>, i: nat, j: nat, x: nat)
    requires multiset(sorted) == multiset(copies) && i < j < |sorted| && sorted[i] == sorted[j]
    requires x < |copies| && copies[x] == sorted[i]
    ensures !NoTies(copies)
  {
    var a, rest, others := sorted[i], sorted[..i] + sorted[i + 1..], copies[..x] + copies[x + 1..];
    Without(sorted, i);
    Without(copies, x);
    assert rest[j - 1] == a && rest[j - 1] in multiset(rest);
    assert multiset(sorted)[a] == multiset(rest)[a] + 1 && multiset(copies)[a] == multiset(others)[a] + 1;
    assert a in multiset(others) && a in others;
    var y :| 0 <= y < |others| && others[y] == a;
    assert copies[if y < x then y else y + 1] == a;
  }

  lemma TieKept(sorted: seq<Copy>, copies: seq<Copy>, i: nat, j: nat)
    requires multiset(sorted) == multiset(copies) && i < j < |sorted| && sorted[i].position == sorted[j].position
    ensures !NoTies(copies)
  {
    SameMembers(sorted, copies);
    assert sorted[i] in sorted && sorted[j] in sorted;
    var x :| 0 <= x < |copies| && copies[x] == sorted[i];
    if sorted[i] == sorted[j] {
      TwiceKept(sorted, copies, i, j, x);
    } else {
      var y :| 0 <= y < |copies| && copies[y] == sorted[j];
    }
  }

  // ----- Which ties matter ----------------------------------------------------------------------

  lemma LinkedAmongSame(copies: seq<Copy>, same: seq<Copy>, w: Window, from: Storage, to: Storage, strict: bool)
    requires forall e :: e in copies ==> e in same
    ensures Linked(copies, w, from, to, strict) ==> Linked(same, w, from, to, strict)
  {
    if c :| Chain(copies, w, c, from, to, strict) {
      ChainAmongMore(copies, same, w, c, from, to, strict);
    }
  }

  lemma SortBounds(copies: seq<Copy>, sorted: seq<Copy>, w: Window, from: Storage, to: Storage)
    requires SortOf(sorted, copies)
    ensures Linked(copies, w, from, to, true) ==> to in Reached(sorted, w, from)
    ensures to in Reached(sorted, w, from) ==> Linked(copies, w, from, to, false)
    ensures NoTies(copies) ==> (to in Reached(sorted, w, from) <==> Linked(copies, w, from, to, true))
  {
    if NoTies(copies) {
      NoTiesSorted(sorted, copies);
    }
    SameMembers(sorted, copies);
    SweepBounds(sorted, w, from, to);
    LinkedAmongSame(copies, sorted, w, from, to, true);
    LinkedAmongSame(sorted, copies, w, from, to, true);
    LinkedAmongSame(sorted, copies, w, from, to, false);
  }

  // A chain that can be followed by a copy at a later position leads to the copy's source.
  ghost predicate Fires(copies: seq<Copy>, w: Window, from: Storage, e: Copy) {
    exists c: seq<Copy> :: Chain(copies, w, c, from, e.source, true) && (c != [] ==> c[|c| - 1].position < e.position)
  }

  // Copies that do not fire come first among those of their position.
  ghost function LateKey(copies: seq<Copy>, w: Window, from: Storage): Copy -> int {
    (e: Copy) => 2 * e.position + if Fires(copies, w, from, e) then 1 else 0
  }

  // A copy that fires ends a chain.
  lemma FiredChain(copies: seq<Copy>, w: Window, from: Storage, e: Copy) returns (c: seq<Copy>)
    requires Fires(copies, w, from, e) && e in copies && w.Has(e.position)
    ensures c != [] && c[|c| - 1] == e && Chain(copies, w, c, from, e.target, true)
  {
    var rest: seq<Copy> :| Chain(copies, w, rest, from, e.source, true) && (rest != [] ==> rest[|rest| - 1].position < e.position);
    c := rest + [e];
    assert c[..|c| - 1] == rest;
  }

  // What one copy more reaches.
  lemma ReachedNext(sorted: seq<Copy>, n: nat, w: Window, from: Storage, to: Storage)
    requires n < |sorted| && to in Reached(sorted[..n + 1], w, from) && to !in Reached(sorted[..n], w, from)
    ensures sorted[n].target == to && w.Has(sorted[n].position) && sorted[n].source in Reached(sorted[..n], w, from)
  {
    assert sorted[..n + 1][..n] == sorted[..n];
  }

  lemma AmongNext(sorted: seq<Copy>, n: nat, e: Copy)
    requires n < |sorted| && (e in sorted[..n] || e == sorted[n])
    ensures e in sorted[..n + 1]
  {
    assert sorted[..n + 1] == sorted[..n] + [sorted[n]];
  }

  // In the order of these keys, every storage reached is reached by copies that fire.
  lemma {:induction false} LateReached(copies: seq<Copy>, sorted: seq<Copy>, n: nat, w: Window, from: Storage, to: Storage)
    returns (c: seq<Copy>)
    requires SortedBy(sorted, LateKey(copies, w, from)) && n <= |sorted| && forall e :: e in sorted ==> e in copies
    requires to in Reached(sorted[..n], w, from)
    ensures Chain(copies, w, c, from, to, true)
    ensures c != [] ==> c[|c| - 1] in sorted[..n] && Fires(copies, w, from, c[|c| - 1])
    decreases n
  {
    if n == 0 {
      return [];
    }
    if to in Reached(sorted[..n - 1], w, from) {
      c := LateReached(copies, sorted, n - 1, w, from, to);
      if c != [] {
        AmongNext(sorted, n - 1, c[|c| - 1]);
      }
    } else {
      var e := sorted[n - 1];
      ReachedNext(sorted, n - 1, w, from, to);
      var before := LateReached(copies, sorted, n - 1, w, from, e.source);
      if before != [] {
        NotLater(copies, sorted, n - 1, w, from, before[|before| - 1]);
      }
      assert Fires(copies, w, from, e);
      c := FiredChain(copies, w, from, e);
      AmongNext(sorted, n - 1, e);
    }
  }

  lemma NotLater(copies: seq<Copy>, sorted: seq<Copy>, n: nat, w: Window, from: Storage, f: Copy)
    requires SortedBy(sorted, LateKey(copies, w, from)) && n < |sorted| && f in sorted[..n] && Fires(copies, w, from, f)
    ensures f.position < sorted[n].position || Fires(copies, w, from, sorted[n])
  {
    var i :| 0 <= i < n && sorted[..n][i] == f;
    var key := LateKey(copies, w, from);
    assert key(sorted[i]) <= key(sorted[n]);
  }

  lemma SomeSortMisses(copies: seq<Copy>, w: Window, from: Storage, to: Storage) returns (sorted: seq<Copy>)
    requires !Linked(copies, w, from, to, true)
    ensures SortOf(sorted, copies) && to !in Reached(sorted, w, from)
  {
    var key := LateKey(copies, w, from);
    KeyedSort(copies, key);
    sorted := SortBy(copies, key);
    SameMembers(sorted, copies);
    assert sorted[..|sorted|] == sorted;
    if to in Reached(sorted, w, from) {
      var c := LateReached(copies, sorted, |sorted|, w, from, to);
    }
  }

  // ----- A sort that finds a chain --------------------------------------------------------------

  ghost predicate Distinct(c: seq<Copy>) {
    forall i, j :: 0 <= i < j < |c| ==> c[i] != c[j]
  }

  lemma {:induction false} ChainPrefix(copies: seq<Copy>, w: Window, c: seq<Copy>, from: Storage, to: Storage, i: nat)
    requires Chain(copies, w, c, from, to, false) && i < |c|
    ensures Chain(copies, w, c[..i + 1], from, c[i].target, false)
    decreases |c|
  {
    if i == |c| - 1 {
      assert c[..i + 1] == c;
    } else {
      var rest := c[..|c| - 1];
      ChainPrefix(copies, w, rest, from, c[|c| - 1].source, i);
      assert rest[..i + 1] == c[..i + 1];
    }
  }

  // A chain can be cut until no copy comes twice.
  lemma {:induction false} CutChain(copies: seq<Copy>, w: Window, c: seq<Copy>, from: Storage, to: Storage) returns (d: seq<Copy>)
    requires Chain(copies, w, c, from, to, false)
    ensures Chain(copies, w, d, from, to, false) && Distinct(d)
    ensures (c == [] <==> d == []) && (c != [] ==> d[|d| - 1] == c[|c| - 1])
    decreases |c|
  {
    if c == [] {
      return [];
    }
    var last, rest := c[|c| - 1], c[..|c| - 1];
    var more := CutChain(copies, w, rest, from, last.source);
    if last in more {
      var i :| 0 <= i < |more| && more[i] == last;
      ChainPrefix(copies, w, more, from, last.source, i);
      d := more[..i + 1];
    } else {
      d := more + [last];
      assert d[..|d| - 1] == more;
    }
  }

  // The place of a copy in a chain, counted from one; zero for other copies.
  ghost function Place(c: seq<Copy>, e: Copy): (k: nat)
    ensures k <= |c| && (k > 0 ==> c[k - 1] == e) && (k == 0 <==> e !in c)
    decreases |c|
  {
    if c == [] then 0
    else if c[|c| - 1] == e then |c|
    else
      assert c == c[..|c| - 1] + [c[|c| - 1]];
      Place(c[..|c| - 1], e)
  }

  // The copies of the chain come in its order among those of their position.
  ghost function ChainKey(c: seq<Copy>): Copy -> int {
    (e: Copy) => e.position * (|c| + 1) + Place(c, e)
  }

  lemma DigitsFollow(p: int, q: int, n: nat, i: nat, j: nat)
    requires p < q && i < n
    ensures p * n + i < q * n + j
  {
    MulMonotone(p + 1, q, n);
  }

  lemma ChainKeyFollows(c: seq<Copy>, a: Copy, b: Copy)
    requires a.position < b.position || (a.position == b.position && Place(c, a) < Place(c, b))
    ensures ChainKey(c)(a) < ChainKey(c)(b)
  {
    if a.position < b.position {
      DigitsFollow(a.position, b.position, |c| + 1, Place(c, a), Place(c, b));
    }
  }

  lemma PlaceOf(c: seq<Copy>, i: nat)
    requires Distinct(c) && i < |c|
    ensures Place(c, c[i]) == i + 1
  {
    assert c[i] in c;
  }

  lemma RouteMore(sorted: seq<Copy>, w: Window, rest: seq<nat>, from: Storage, i: nat)
    requires i < |sorted| && w.Has(sorted[i].position) && Route(sorted, w, rest, from, sorted[i].source)
    requires rest != [] ==> rest[|rest| - 1] < i
    ensures Route(sorted, w, rest + [i], from, sorted[i].target)
  {
    var places := rest + [i];
    assert places[..|places| - 1] == rest;
  }

  // The last copy of a chain, and the chain before it.
  lemma LastLink(copies: seq<Copy>, w: Window, c: seq<Copy>, k: nat, from: Storage, to: Storage)
    requires 0 < k <= |c| && Chain(copies, w, c[..k], from, to, false)
    ensures c[k - 1] in copies && w.Has(c[k - 1].position) && c[k - 1].target == to
    ensures Chain(copies, w, c[..k - 1], from, c[k - 1].source, false)
    ensures k > 1 ==> c[k - 2].position <= c[k - 1].position
  {
    var d := c[..k];
    assert d[..k - 1] == c[..k - 1] && d[k - 1] == c[k - 1];
    assert k > 1 ==> c[..k - 1][k - 2] == c[k - 2];
  }

  lemma PlaceIn(sorted: seq<Copy>, e: Copy) returns (i: nat)
    requires e in sorted
    ensures i < |sorted| && sorted[i] == e
  {
    i :| 0 <= i < |sorted| && sorted[i] == e;
  }

  // Along the first k copies of the chain there is a route through the sorted copies.
  lemma {:induction false} ChainIsRoute(copies: seq<Copy>, sorted: seq<Copy>, w: Window, c: seq<Copy>, k: nat, from: Storage, to: Storage)
    returns (places: seq<nat>)
    requires Distinct(c) && k <= |c| && Chain(copies, w, c[..k], from, to, false)
    requires SortedBy(sorted, ChainKey(c)) && forall e :: e in copies ==> e in sorted
    ensures Route(sorted, w, places, from, to) && |places| == k
    ensures k > 0 ==> places[k - 1] < |sorted| && sorted[places[k - 1]] == c[k - 1]
    decreases k
  {
    if k == 0 {
      return [];
    }
    LastLink(copies, w, c, k, from, to);
    var rest := ChainIsRoute(copies, sorted, w, c, k - 1, from, c[k - 1].source);
    var i := PlaceIn(sorted, c[k - 1]);
    if k > 1 {
      InChainOrder(sorted, c, k - 1, rest[k - 2], i);
    }
    RouteMore(sorted, w, rest, from, i);
    places := rest + [i];
  }

  lemma InChainOrder(sorted: seq<Copy>, c: seq<Copy>, k: nat, i: nat, j: nat)
    requires Distinct(c) && 0 < k < |c| && c[k - 1].position <= c[k].position && SortedBy(sorted, ChainKey(c))
    requires i < |sorted| && j < |sorted| && sorted[i] == c[k - 1] && sorted[j] == c[k]
    ensures i < j
  {
    PlaceOf(c, k - 1);
    PlaceOf(c, k);
    ChainKeyFollows(c, c[k - 1], c[k]);
    KeyOrder(sorted, ChainKey(c), j, i);
  }

  lemma KeyOrder(sorted: seq<Copy>, key: Copy -> int, i: nat, j: nat)
    requires SortedBy(sorted, key) && i < |sorted| && j < |sorted|
    ensures i <= j ==> key(sorted[i]) <= key(sorted[j])
  {
  }

  lemma SomeSortFinds(copies: seq<Copy>, w: Window, from: Storage, to: Storage) returns (sorted: seq<Copy>)
    requires Linked(copies, w, from, to, false)
    ensures SortOf(sorted, copies) && to in Reached(sorted, w, from)
  {
    var long :| Chain(copies, w, long, from, to, false);
    var c := CutChain(copies, w, long, from, to);
    var key := ChainKey(c);
    forall a: Copy, b: Copy | a.position < b.position
      ensures key(a) < key(b)
    {
      ChainKeyFollows(c, a, b);
    }
    KeyedSort(copies, key);
    sorted := SortBy(copies, key);
    SameMembers(sorted, copies);
    assert c[..|c|] == c;
    var places := ChainIsRoute(copies, sorted, w, c, |c|, from, to);
    SweepIsExact(sorted, w, from, to);
  }

  // Every order of equal positions finds the storage exactly when a chain at increasing positions leads to it,
  // and some order does exactly when one at non-decreasing positions does: ties matter in between.
  lemma TiesExactly(copies: seq<Copy>, w: Window, from: Storage, to: Storage)
    ensures (forall sorted :: SortOf(sorted, copies) ==> to in Reached(sorted, w, from)) <==> Linked(copies, w, from, to, true)
    ensures (exists sorted :: SortOf(sorted, copies) && to in Reached(sorted, w, from)) <==> Linked(copies, w, from, to, false)
  {
    forall sorted | SortOf(sorted, copies)
      ensures Linked(copies, w, from, to, true) ==> to in Reached(sorted, w, from)
      ensures to in Reached(sorted, w, from) ==> Linked(copies, w, from, to, false)
    {
      SortBounds(copies, sorted, w, from, to);
    }
    if !Linked(copies, w, from, to, true) {
      var sorted := SomeSortMisses(copies, w, from, to);
    }
    if Linked(copies, w, from, to, false) {
      var sorted := SomeSortFinds(copies, w, from, to);
    }
  }

  // A single copy leads to its target exactly if it lies after the load, when there is one, and before the
  // operation.
  lemma OneCopy(e: Copy, begin: Option<int>, end: int)
    requires e.source != e.target
    ensures e.target in Reached([e], Window(begin, end), e.source) <==> (forall b :: begin == Some(b) ==> b < e.position) && e.position < end
  {
    assert [e][..0] == [];
    var none: seq<Copy> := [];
    assert Reached(none, Window(begin, end), e.source) == {e.source};
  }

  // ----- The three queries ----------------------------------------------------------------------

  // Exact for the order the sort gave; without ties, for the positions.
  ghost predicate Answers(found: bool, copies: seq<Copy>, sorted: seq<Copy>, w: Window, from: Storage, to: Storage) {
    && (found <==> Routed(sorted, w, from, to))
    && (Linked(copies, w, from, to, true) ==> found)
    && (found ==> Linked(copies, w, from, to, false))
    && (NoTies(copies) ==> (found <==> Linked(copies, w, from, to, true)))
  }

  lemma SortedSweepAnswers(copies: seq<Copy>, sorted: seq<Copy>, w: Window, from: Storage, to: Storage)
    requires SortOf(sorted, copies)
    ensures Answers(to in Reached(sorted, w, from), copies, sorted, w, from, to)
  {
    SweepIsExact(sorted, w, from, to);
    SortBounds(copies, sorted, w, from, to);
  }

  // sorted is what the sort by position made of the copies.
  method StorageCopiesReachBefore(copies: seq<Copy>, sorted: seq<Copy>, from: Storage, to: Storage, operation: int)
    returns (found: bool)
    requires SortOf(sorted, copies)
    ensures Answers(found, copies, sorted, Window(None, operation), from, to)
  {
    var w := Window(None, operation);
    SortedSweepAnswers(copies, sorted, w, from, to);
    if from == to {
      FromIsReached(sorted, w, from);
      return true;
    }
    var reachable := Sweep(sorted, w, from);
    return to in reachable;
  }

  datatype Load = Load(root: Storage, position: int)

  method AdapterAccessReachesBefore(copies: seq<Copy>, sorted: seq<Copy>, load: Load, target: Storage, operation: int)
    returns (found: bool)
    requires SortOf(sorted, copies)
    ensures load.position < operation ==>
              Answers(found, copies, sorted, Window(Some(load.position), operation), load.root, target)
    ensures load.position >= operation ==> !found
  {
    if load.position >= operation {
      return false;
    }
    var w := Window(Some(load.position), operation);
    SortedSweepAnswers(copies, sorted, w, load.root, target);
    var reachable := Sweep(sorted, w, load.root);
    return target in reachable;
  }

  // A load before the operation whose storage is copied, in the sorted order, to the target in between.
  ghost predicate LoadReaches(sorted: seq<Copy>, load: Load, target: Storage, operation: int) {
    load.position < operation && Routed(sorted, Window(Some(load.position), operation), load.root, target)
  }

  // The same by the copies' positions.
  ghost predicate LoadLinked(copies: seq<Copy>, load: Load, target: Storage, operation: int, strict: bool) {
    load.position < operation && Linked(copies, Window(Some(load.position), operation), load.root, target, strict)
  }

  method AdapterLoadReachesBefore(copies: seq<Copy>, sorted: seq<Copy>, loads: seq<Load>, target: Storage, operation: int)
    returns (found: bool)
    requires SortOf(sorted, copies)
    ensures found <==> exists i :: 0 <= i < |loads| && LoadReaches(sorted, loads[i], target, operation)
    ensures (exists i :: 0 <= i < |loads| && LoadLinked(copies, loads[i], target, operation, true)) ==> found
    ensures found ==> exists i :: 0 <= i < |loads| && LoadLinked(copies, loads[i], target, operation, false)
    ensures NoTies(copies) ==>
              (found <==> exists i :: 0 <= i < |loads| && LoadLinked(copies, loads[i], target, operation, true))
  {
    for i := 0 to |loads|
      invariant forall j :: 0 <= j < i ==> !LoadReaches(sorted, loads[j], target, operation)
      invariant forall j :: 0 <= j < i ==> !LoadLinked(copies, loads[j], target, operation, true)
    {
      var reached := AdapterAccessReachesBefore(copies, sorted, loads[i], target, operation);
      if reached {
        assert LoadReaches(sorted, loads[i], target, operation) && LoadLinked(copies, loads[i], target, operation, false);
        return true;
      }
    }
    return false;
  }
}
