// BlockReduce of acl_cub/aclcub.hpp:201-432 with its storage updated in place, the whole block advancing
// together between barriers: one of the schedules of AllReduceProtocol and TreeReduction.
module BlockReduceStorage {
  import opened Arithmetic
  import opened Folds
  import opened Primitives
  import opened WarpGeometry
  import opened AllReduceProtocol
  import opened AllReduceResults
  import opened TreeReduction
  import opened Butterfly

  class BlockReduce<T(!new)> {
    const op: (T, T) -> T
    const identity: T
    const threads: nat
    const aggregates: array2<T>  // warp_aggregates[2][kWarps]

    // The reducer of a block over storage supplied by the caller (aclcub.hpp:220-224).
    constructor (op: (T, T) -> T, identity: T, threads: nat, storage: array2<T>)
      requires 0 < threads && Warps(threads) <= WARP_SIZE
      requires storage.Length0 == 2 && storage.Length1 == Warps(threads)
      ensures Valid() && this.op == op && this.identity == identity && this.threads == threads && aggregates == storage
    {
      this.op, this.identity, this.threads, aggregates := op, identity, threads, storage;
    }

    ghost predicate Valid() {
      0 < threads && Warps(threads) <= WARP_SIZE && aggregates.Length0 == 2 && aggregates.Length1 == Warps(threads)
    }

    ghost function Slots(p: nat): (r: seq<T>)
      reads aggregates
      requires Valid() && p < 2
      ensures |r| == Warps(threads)
      ensures forall w :: 0 <= w < |r| ==> r[w] == aggregates[p, w]
    {
      seq(Warps(threads), w requires 0 <= w < Warps(threads) reads aggregates => aggregates[p, w])
    }

    // aclcub.hpp:296-302
    method FoldSerial(p: nat) returns (acc: T)
      requires Valid() && p < 2
      ensures acc == Fold(op, Slots(p))
    {
      acc := aggregates[p, 0];
      for i := 1 to Warps(threads)
        invariant acc == Fold(op, Slots(p)[..i])
      {
        acc := op(acc, aggregates[p, i]);
        assert Slots(p)[..i + 1][..i] == Slots(p)[..i];
      }
      assert Slots(p)[..Warps(threads)] == Slots(p);
    }

    // aclcub.hpp:304-308, for a warp with `lanes` active lanes; the warp primitive is the fold of the lanes.
    method FoldWarp(p: nat, lanes: nat) returns (result: T)
      requires Valid() && p < 2 && lanes > 0
      ensures result == Fold(op, LaneView(Slots(p), identity, lanes))
    {
      result := if 0 < Warps(threads) then aggregates[p, 0] else identity;
      for l := 1 to lanes
        invariant result == Fold(op, LaneView(Slots(p), identity, l))
      {
        result := op(result, if l < Warps(threads) then aggregates[p, l] else identity);
        assert LaneView(Slots(p), identity, l + 1)[..l] == LaneView(Slots(p), identity, l);
      }
    }

    // Lane 0 of every warp publishes its warp's reduction in buffer p (aclcub.hpp:343-344).
    method Publish(input: seq<T>, p: nat)
      requires Valid() && |input| == threads && p < 2
      modifies aggregates
      ensures Slots(p) == WarpAggregates(op, input)
      ensures Slots(1 - p) == old(Slots(1 - p))
    {
      for w := 0 to Warps(threads)
        invariant Slots(p)[..w] == WarpAggregates(op, input)[..w]
        invariant Slots(1 - p) == old(Slots(1 - p))
      {
        aggregates[p, w] := Fold(op, WarpSlice(w, input));
        assert Slots(p)[..w + 1] == WarpAggregates(op, input)[..w + 1];
        assert Slots(1 - p) == old(Slots(1 - p));
      }
    }

    lemma SingleWarp(strategy: Strategy, input: seq<T>, t: nat)
      requires Valid() && |input| == threads && t < threads && Warps(threads) == 1
      ensures ValueWith(strategy, op, identity, input, t) == Fold(op, input)
    {
      assert WarpSlice(0, input) == input;
    }

    // Every thread folds buffer p.
    method FoldBuffer(strategy: Strategy, input: seq<T>, p: nat) returns (out: seq<T>)
      requires Valid() && |input| == threads && p < 2 && Slots(p) == WarpAggregates(op, input) && Warps(threads) > 1
      ensures |out| == threads
      ensures forall t :: 0 <= t < threads ==> out[t] == ValueWith(strategy, op, identity, input, t)
    {
      out := [];
      for t := 0 to threads
        invariant |out| == t
        invariant forall u :: 0 <= u < t ==> out[u] == ValueWith(strategy, op, identity, input, u)
      {
        var result;
        if strategy.SerialFold? {
          result := FoldSerial(p);
        } else {
          result := FoldWarp(p, Lanes(threads, WarpOf(t)));
        }
        out := out + [result];
      }
    }

    // With the serial fold, or with the automatic choice in such blocks, every thread gets the fold of all inputs.
    lemma FoldOfBlock(fold: Option<Strategy>, input: seq<T>, t: nat)
      requires Valid() && |input| == threads && t < threads && Associative(op) && IsIdentity(op, identity)
      requires fold == Some(SerialFold) ||
               (fold.None? && (threads <= 128 || threads % 32 == 0 || (threads + 31) / 32 <= threads % 32))
      ensures Fold(op, input) ==
              if fold.None? then AllReduceValue(op, identity, input, t) else ValueWith(fold.value, op, identity, input, t)
    {
      if fold.None? {
        AllReduceValueIsBlockFold(op, identity, input, t);
      } else {
        ValueIsBlockFold(SerialFold, op, identity, input, t);
      }
    }

    // aclcub.hpp:339-349: out[t] is what thread t returns; fold is None for the automatic choice.  The other
    // buffer, which a slower thread may still be reading for the previous call, is left alone.
    method AllReduceDB(fold: Option<Strategy>, input: seq<T>, iter: int) returns (out: seq<T>)
      requires Valid() && |input| == threads
      modifies aggregates
      ensures |out| == threads
      ensures forall t :: 0 <= t < threads ==>
                            out[t] == if fold.None? then AllReduceValue(op, identity, input, t)
                                      else ValueWith(fold.value, op, identity, input, t)
      ensures Associative(op) && IsIdentity(op, identity) &&
              (fold == Some(SerialFold) ||
               (fold.None? && (threads <= 128 || threads % 32 == 0 || (threads + 31) / 32 <= threads % 32))) ==>
                forall t :: 0 <= t < threads ==> out[t] == Fold(op, input)
      ensures Slots(iter % 2) == if threads <= WARP_SIZE then old(Slots(iter % 2)) else WarpAggregates(op, input)
      ensures Slots(1 - iter % 2) == old(Slots(1 - iter % 2))
    {
      var strategy := if fold.None? then AutoStrategy(threads) else fold.value;
      if Warps(threads) == 1 {
        var reduction := Fold(op, input);
        out := seq(threads, t => reduction);
        forall t | 0 <= t < threads
          ensures out[t] == ValueWith(strategy, op, identity, input, t)
        {
          SingleWarp(strategy, input, t);
        }
      } else {
        Publish(input, iter % 2);
        out := FoldBuffer(strategy, input, iter % 2);
      }
      if Associative(op) && IsIdentity(op, identity) &&
         (fold == Some(SerialFold) || (fold.None? && (threads <= 128 || threads % 32 == 0 || (threads + 31) / 32 <= threads % 32))) {
        forall t | 0 <= t < threads
          ensures out[t] == Fold(op, input)
        {
          FoldOfBlock(fold, input, t);
        }
      }
    }
  }

  // One step of the stride loop (aclcub.hpp:368-371) on the live part of the buffer: the threads below the
  // stride combine, in thread order.
  method HalveInPlace<T(!new)>(op: (T, T) -> T, buf: array<T>, stride: nat, ghost live: seq<T>)
    requires |live| <= buf.Length && buf[..|live|] == live && stride == |live| / 2
    modifies buf
    ensures buf[..stride] == Halve(op, live) && buf[stride..] == old(buf[stride..])
  {
    for t := 0 to stride
      invariant forall c :: 0 <= c < t ==> buf[c] == Halve(op, live)[c]
      invariant forall c :: t <= c < |live| ==> buf[c] == live[c]
      invariant buf[stride..] == old(buf[stride..])
    {
      buf[t] := op(buf[t], buf[t + stride]);
    }
  }

  // The generic path's stride loop on its own buffer (aclcub.hpp:361-375).
  method ReduceGeneric<T(!new)>(op: (T, T) -> T, buf: array<T>) returns (result: T)
    requires buf.Length > 0
    modifies buf
    ensures result == Tree(op, old(buf[..]))
  {
    ghost var live := buf[..];
    var stride := buf.Length / 2;
    while stride > 0
      invariant 0 < |live| <= buf.Length && live == buf[..|live|] && stride == |live| / 2
      invariant Tree(op, live) == Tree(op, old(buf[..]))
    {
      HalveInPlace(op, buf, stride, live);
      live := Halve(op, live);
      stride := stride / 2;
    }
    result := buf[0];
  }

  // Lane values after one shuffle: all lanes exchange at once.
  method ShuffleOnce<T(!new)>(op: (T, T) -> T, val: array<T>, mask: nat)
    requires InRange(val[..], mask)
    modifies val
    ensures val[..] == Exchange(op, old(val[..]), mask)
  {
    var before := val[..];
    forall l | 0 <= l < val.Length {
      val[l] := op(before[l], before[Xor(l, mask)]);
    }
    assert val[..] == Exchange(op, before, mask);
  }

  lemma LaneMasks()
    ensures PowerOfTwo(16) && PowerOfTwo(8) && PowerOfTwo(4) && PowerOfTwo(2) && PowerOfTwo(1)
  {
    assert PowerOfTwo(2);
    assert PowerOfTwo(4);
    assert PowerOfTwo(8);
  }

  // The shuffle algorithm's loop over a block of whole warps (aclcub.hpp:406-410).
  method ShuffleWarps<T(!new)>(op: (T, T) -> T, val: array<T>)
    requires val.Length % WARP_SIZE == 0
    modifies val
    ensures PowerOfTwo(WARP_SIZE / 2) && WholeGroups(val.Length, WARP_SIZE) && val[..] == Shuffle(op, old(val[..]), WARP_SIZE / 2)
  {
    LaneMasks();
    MultipleOfIsRemainderZero(val.Length, WARP_SIZE);
    var mask: nat := WARP_SIZE / 2;
    while mask > 0
      invariant mask == 0 || (PowerOfTwo(mask) && WholeGroups(val.Length, 2 * mask))
      invariant Shuffle(op, val[..], mask) == Shuffle(op, old(val[..]), WARP_SIZE / 2)
    {
      ShuffleStep(op, val[..], mask);
      ShuffleOnce(op, val, mask);
      mask := mask / 2;
    }
  }

  // Thread 0's serial pass over the published aggregates (aclcub.hpp:415-419).
  method FoldAggregates<T(!new)>(op: (T, T) -> T, aggregates: array<T>) returns (agg: T)
    requires aggregates.Length > 0
    ensures agg == Fold(op, aggregates[..])
  {
    agg := aggregates[0];
    for i := 1 to aggregates.Length
      invariant agg == Fold(op, aggregates[..i])
    {
      agg := op(agg, aggregates[i]);
      assert aggregates[..i + 1][..i] == aggregates[..i];
    }
    assert aggregates[..aggregates.Length] == aggregates[..];
  }

  // Lane 0 of each warp after the shuffle.
  function WarpLeaders<T>(val: seq<T>): (r: seq<T>)
    ensures |r| == Warps(|val|)
    ensures forall w :: 0 <= w < |r| ==> r[w] == val[w * WARP_SIZE]
  {
    seq(Warps(|val|), w requires 0 <= w < Warps(|val|) => val[w * WARP_SIZE])
  }

  // Reduce with the shuffle algorithm (aclcub.hpp:405-423): thread 0 returns val[0].
  method ReduceShuffle<T(!new)>(op: (T, T) -> T, val: array<T>, aggregates: array<T>)
    requires 0 < val.Length && val.Length % WARP_SIZE == 0 && Warps(val.Length) <= WARP_SIZE
    requires aggregates != val && aggregates.Length == Warps(val.Length)
    modifies val, aggregates
    ensures PowerOfTwo(WARP_SIZE / 2) && WholeGroups(val.Length, WARP_SIZE) && val[0] == Fold(op, WarpLeaders(Shuffle(op, old(val[..]), WARP_SIZE / 2)))
  {
    ShuffleWarps(op, val);
    ghost var leaders := WarpLeaders(val[..]);
    if Warps(val.Length) == 1 {
      assert leaders == [val[0]];
      return;
    }
    for w := 0 to aggregates.Length
      invariant aggregates[..w] == leaders[..w]
      invariant WarpLeaders(val[..]) == leaders
    {
      aggregates[w] := val[w * WARP_SIZE];
    }
    assert aggregates[..] == leaders;
    val[0] := FoldAggregates(op, aggregates);
  }

  // After the shuffle, lane 0 of warp w holds the warp's fold.
  lemma LeaderHoldsWarpFold<T(!new)>(op: (T, T) -> T, inputs: seq<T>, mask: nat, w: nat)
    requires Associative(op) && Commutative(op)
    requires WholeGroups(|inputs|, WARP_SIZE) && w < Warps(|inputs|) && 2 * mask == WARP_SIZE && PowerOfTwo(mask)
    ensures Shuffle(op, inputs, mask)[w * WARP_SIZE] == Fold(op, WarpSlice(w, inputs))
  {
    var base := w * WARP_SIZE;
    MultipleOfIsRemainderZero(base, WARP_SIZE);
    MultipleOfIsRemainderZero(|inputs|, WARP_SIZE);
    ShuffleFoldsGroup(op, inputs, mask, base, base);
    assert Slice(inputs, base, 2 * mask) == WarpSlice(w, inputs);
  }

  // The value ReduceShuffle returns is the block's fold, for any associative and commutative operation.
  lemma ShuffledBlockIsFold<T(!new)>(op: (T, T) -> T, inputs: seq<T>, mask: nat)
    requires Associative(op) && Commutative(op)
    requires 0 < |inputs| && WholeGroups(|inputs|, WARP_SIZE) && 2 * mask == WARP_SIZE && PowerOfTwo(mask)
    ensures Fold(op, WarpLeaders(Shuffle(op, inputs, mask))) == Fold(op, inputs)
  {
    var leaders := WarpLeaders(Shuffle(op, inputs, mask));
    assert leaders == WarpAggregates(op, inputs) by {
      forall w | 0 <= w < |leaders|
        ensures leaders[w] == Fold(op, WarpSlice(w, inputs))
      {
        LeaderHoldsWarpFold(op, inputs, mask, w);
      }
    }
    SerialFoldIsBlockFold(op, inputs);
  }
}
