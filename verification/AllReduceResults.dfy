// What the block reductions of acl_cub/aclcub.hpp compute: the serial and the warp second level against
// the flat fold of all block inputs, and the double-buffered AllReduce over whole runs.
module AllReduceResults {
  import opened Folds
  import opened WarpGeometry
  import opened AllReduceProtocol

  // What warp w publishes: the warp reduction of its threads' inputs (aclcub.hpp:343-344).
  function WarpAggregates<T>(op: (T, T) -> T, inputs: seq<T>): (a: seq<T>)
    ensures |a| == Warps(|inputs|)
    ensures forall w :: 0 <= w < |a| ==> a[w] == Fold(op, WarpSlice(w, inputs))
  {
    BlockFolds(op, WarpSlices(inputs, Warps(|inputs|)))
  }

  // FoldWarp seen by a warp with n active lanes: lane l brings aggregate l, or the identity when there is
  // no warp l (aclcub.hpp:304-308).
  function LaneView<T>(a: seq<T>, e: T, n: nat): (v: seq<T>)
    ensures |v| == n
    ensures forall l :: 0 <= l < n ==> v[l] == if l < |a| then a[l] else e
  {
    seq(n, l requires 0 <= l < n => if l < |a| then a[l] else e)
  }

  // FoldSerial's value is the fold of the whole block.
  lemma SerialFoldIsBlockFold<T(!new)>(op: (T, T) -> T, inputs: seq<T>)
    requires Associative(op) && |inputs| > 0
    ensures Fold(op, WarpAggregates(op, inputs)) == Fold(op, inputs)
  {
    WarpFoldsFoldBlock(op, inputs);
  }

  // FoldWarp's value is the fold of the whole block in a warp with a lane for every aggregate.
  lemma WarpFoldIsBlockFold<T(!new)>(op: (T, T) -> T, e: T, inputs: seq<T>, n: nat)
    requires Associative(op) && IsIdentity(op, e) && 0 < |inputs| && Warps(|inputs|) <= n
    ensures Fold(op, LaneView(WarpAggregates(op, inputs), e, n)) == Fold(op, inputs)
  {
    SerialFoldIsBlockFold(op, inputs);
    var a := WarpAggregates(op, inputs);
    assert LaneView(a, e, n)[..|a|] == a;
    FoldPadded(op, e, a, LaneView(a, e, n));
  }

  // The input that is x in one thread and the identity elsewhere.
  function Spike<T>(threads: nat, at: nat, x: T, e: T): (s: seq<T>)
    ensures |s| == threads
  {
    seq(threads, t requires 0 <= t < threads => if t == at then x else e)
  }

  // In a warp with fewer lanes than there are warps, the last warp's input is lost.
  lemma WarpFoldLosesLastWarp<T(!new)>(op: (T, T) -> T, e: T, x: T, inputs: seq<T>, n: nat)
    requires IsIdentity(op, e) && 0 < n < Warps(|inputs|)
    requires inputs == Spike(|inputs|, Member(Warps(|inputs|) - 1, 0), x, e)
    ensures Fold(op, LaneView(WarpAggregates(op, inputs), e, n)) == e
    ensures Fold(op, inputs) == x
  {
    FoldSingle(op, e, inputs, Member(Warps(|inputs|) - 1, 0));
    var v := LaneView(WarpAggregates(op, inputs), e, n);
    forall l | 0 <= l < n
      ensures v[l] == e
    {
      FoldSingle(op, e, WarpSlice(l, inputs), 0);
    }
    FoldSingle(op, e, v, 0);
  }

  // Exactly when FoldWarp is right in every warp: the block is whole warps, or its last warp has a lane
  // for every warp.  The source's promise is "valid in every thread" (aclcub.hpp:237, 329); for other
  // block sizes it fails, in the threads of the last warp.
  predicate LastWarpWideEnough(threads: nat) {
    threads % WARP_SIZE == 0 || Warps(threads) <= threads % WARP_SIZE
  }

  lemma WarpFoldExact<T(!new)>(op: (T, T) -> T, e: T, x: T, threads: nat)
    requires Associative(op) && IsIdentity(op, e) && x != e && 0 < threads && Warps(threads) <= WARP_SIZE
    ensures LastWarpWideEnough(threads) <==>
            forall inputs: seq<T>, w :: |inputs| == threads && 0 <= w < Warps(threads) ==>
              Fold(op, LaneView(WarpAggregates(op, inputs), e, Lanes(threads, w))) == Fold(op, inputs)
  {
    if LastWarpWideEnough(threads) {
      forall inputs: seq<T>, w | |inputs| == threads && 0 <= w < Warps(threads)
        ensures Fold(op, LaneView(WarpAggregates(op, inputs), e, Lanes(threads, w))) == Fold(op, inputs)
      {
        WarpFoldIsBlockFold(op, e, inputs, Lanes(threads, w));
      }
    } else {
      var last := Warps(threads) - 1;
      var inputs := Spike(threads, Member(last, 0), x, e);
      WarpFoldLosesLastWarp(op, e, x, inputs, Lanes(threads, last));
      assert |inputs| == threads;
    }
  }

  // The automatic choice (aclcub.hpp:318-320) takes the serial fold up to 128 threads; so it is wrong exactly
  // for more threads than that, in a block whose last warp is partial and has fewer lanes than there are warps.
  predicate AutoFoldRight(threads: nat) {
    threads <= 128 || threads % 32 == 0 || (threads + 31) / 32 <= threads % 32
  }

  lemma AutoChoice(threads: nat)
    ensures AutoStrategy(threads).SerialFold? <==> threads <= 128
    ensures AutoFoldRight(threads) <==> AutoStrategy(threads).SerialFold? || LastWarpWideEnough(threads)
  {
    assert Warps(threads) <= 4 <==> threads <= 128;
  }

  // What AllReduce returns in thread t (aclcub.hpp:341-348).
  function ValueWith<T>(strategy: Strategy, op: (T, T) -> T, e: T, inputs: seq<T>, t: nat): T
    requires t < |inputs|
  {
    var a := WarpAggregates(op, inputs);
    if Warps(|inputs|) == 1 || strategy.SerialFold? then Fold(op, a)
    else Fold(op, LaneView(a, e, Lanes(|inputs|, WarpOf(t))))
  }

  // With the automatic fold.
  function AllReduceValue<T>(op: (T, T) -> T, e: T, inputs: seq<T>, t: nat): T
    requires t < |inputs|
  {
    ValueWith(AutoStrategy(|inputs|), op, e, inputs, t)
  }

  lemma ValueIsBlockFold<T(!new)>(strategy: Strategy, op: (T, T) -> T, e: T, inputs: seq<T>, t: nat)
    requires Associative(op) && IsIdentity(op, e) && t < |inputs| && Warps(|inputs|) <= WARP_SIZE
    requires strategy.SerialFold? || LastWarpWideEnough(|inputs|)
    ensures ValueWith(strategy, op, e, inputs, t) == Fold(op, inputs)
  {
    if Warps(|inputs|) == 1 || strategy.SerialFold? {
      SerialFoldIsBlockFold(op, inputs);
    } else {
      WarpFoldIsBlockFold(op, e, inputs, Lanes(|inputs|, WarpOf(t)));
    }
  }

  lemma AllReduceValueIsBlockFold<T(!new)>(op: (T, T) -> T, e: T, inputs: seq<T>, t: nat)
    requires Associative(op) && IsIdentity(op, e) && t < |inputs| && Warps(|inputs|) <= WARP_SIZE
    requires AutoFoldRight(|inputs|)
    ensures AllReduceValue(op, e, inputs, t) == Fold(op, inputs)
  {
    AutoChoice(|inputs|);
    ValueIsBlockFold(AutoStrategy(|inputs|), op, e, inputs, t);
  }

  lemma NarrowLastWarp(threads: nat, last: nat)
    requires 0 < threads && !LastWarpWideEnough(threads) && last == Warps(threads) - 1
    ensures Member(last, 0) < threads && 0 < Lanes(threads, last) < Warps(threads)
  {
  }

  lemma NarrowLastWarpLoses<T(!new)>(op: (T, T) -> T, e: T, x: T, inputs: seq<T>, last: nat, t: nat)
    requires IsIdentity(op, e) && x != e && 0 < |inputs| && !AutoFoldRight(|inputs|)
    requires last == Warps(|inputs|) - 1 && t == Member(last, 0) && inputs == Spike(|inputs|, t, x, e)
    ensures t < |inputs| && AllReduceValue(op, e, inputs, t) != Fold(op, inputs)
  {
    AutoChoice(|inputs|);
    NarrowLastWarp(|inputs|, last);
    WarpFoldLosesLastWarp(op, e, x, inputs, Lanes(|inputs|, last));
  }

  // The automatic choice is right in every thread for all inputs exactly then.
  lemma AutoChoiceExact<T(!new)>(op: (T, T) -> T, e: T, x: T, threads: nat)
    requires Associative(op) && IsIdentity(op, e) && x != e && 0 < threads && Warps(threads) <= WARP_SIZE
    ensures AutoFoldRight(threads) <==>
            forall inputs: seq<T>, t: nat :: |inputs| == threads && t < threads ==>
              AllReduceValue(op, e, inputs, t) == Fold(op, inputs)
  {
    if AutoFoldRight(threads) {
      forall inputs: seq<T>, t: nat | |inputs| == threads && t < threads
        ensures AllReduceValue(op, e, inputs, t) == Fold(op, inputs)
      {
        AllReduceValueIsBlockFold(op, e, inputs, t);
      }
    } else {
      var last := Warps(threads) - 1;
      AutoChoice(threads);
      NarrowLastWarp(threads, last);
      NarrowLastWarpLoses(op, e, x, Spike(threads, Member(last, 0), x, e), last, Member(last, 0));
    }
  }

  // Reduce (aclcub.hpp:271-292) folds in warp 0 only, which is whole whenever there are several warps.
  lemma ReduceIsBlockFoldInWarpZero<T(!new)>(op: (T, T) -> T, e: T, inputs: seq<T>)
    requires Associative(op) && IsIdentity(op, e) && 1 < Warps(|inputs|) <= WARP_SIZE
    ensures Fold(op, LaneView(WarpAggregates(op, inputs), e, Lanes(|inputs|, 0))) == Fold(op, inputs)
  {
    WarpFoldIsBlockFold(op, e, inputs, Lanes(|inputs|, 0));
  }

  // A protocol run whose warps publish the warp reductions of `input`.
  ghost predicate Reduces<T(!new)>(r: Run<T>, input: nat -> seq<T>) {
    forall i: nat :: |input(i)| == r.threads &&
                     r.Aggregates(i, Warps(r.threads)) == WarpAggregates(r.op, input(i))
  }

  // A call of the protocol returns what the class does for that call's inputs.
  lemma ResultIsValue<T(!new)>(r: Run<T>, input: nat -> seq<T>, i: nat, t: nat)
    requires r.Valid() && t < r.threads && Reduces(r, input)
    ensures r.Result(i, t) == ValueWith(r.strategy, r.op, r.identity, input(i), t)
  {
    var a := WarpAggregates(r.op, input(i));
    assert r.Aggregates(i, Warps(r.threads)) == a;
    if Warps(r.threads) > 1 && r.strategy.WarpFold? {
      var n := Lanes(r.threads, WarpOf(t));
      assert r.LaneValues(i, n) == LaneView(a, r.identity, n) by {
        assert forall w :: 0 <= w < Warps(r.threads) ==> r.aggregate(i, w) == r.Aggregates(i, Warps(r.threads))[w];
      }
    }
  }

  lemma ResultIsBlockFold<T(!new)>(r: Run<T>, input: nat -> seq<T>, i: nat, t: nat)
    requires r.Valid() && Associative(r.op) && IsIdentity(r.op, r.identity) && t < r.threads
    requires Reduces(r, input)
    requires r.strategy.SerialFold? || LastWarpWideEnough(r.threads)
    ensures r.Result(i, t) == Fold(r.op, input(i))
  {
    ResultIsValue(r, input, i, t);
    ValueIsBlockFold(r.strategy, r.op, r.identity, input(i), t);
  }

  // What every schedule keeps when its calls reduce the inputs: no race, a step that waits for nothing, and
  // every thread's i-th result is the fold of exactly the i-th inputs.
  ghost predicate Right<T(!new)>(r: Run<T>, input: nat -> seq<T>, s: State<T>, fenced: bool)
    requires r.Valid() && Shape(r, s) && Reduces(r, input)
  {
    && RaceFree(r, s, fenced)
    && (exists a :: Enabled(r, s, a) && Gathered(r, s, a) && Fenced(r, s, a) && OfLeastCall(s, a))
    && (forall t, i :: 0 <= t < r.threads && 0 <= i < |s.threads[t].results| ==> s.threads[t].results[i] == Fold(r.op, input(i)))
  }

  lemma ScheduleIsRight<T(!new)>(r: Run<T>, input: nat -> seq<T>, s: State<T>, schedule: seq<Action>, fenced: bool)
    requires r.Valid() && Reusable(r, fenced) && Associative(r.op) && IsIdentity(r.op, r.identity)
    requires Reduces(r, input) && (r.strategy.SerialFold? || LastWarpWideEnough(r.threads))
    requires Initial(r, s) && Possible(r, s, schedule) && (fenced ==> AllFenced(r, s, schedule))
    ensures Right(r, input, After(r, s, schedule), fenced)
  {
    EveryScheduleIsSafe(r, s, schedule, fenced);
    var s' := After(r, s, schedule);
    forall t, i | 0 <= t < r.threads && 0 <= i < |s'.threads[t].results|
      ensures s'.threads[t].results[i] == Fold(r.op, input(i))
    {
      ResultIsBlockFold(r, input, i, t);
    }
  }

  // The main theorem, for every interleaving of any number of consecutive double-buffered calls with no barrier
  // but the one inside.
  lemma DoubleBufferedAllReduce<T(!new)>(r: Run<T>, input: nat -> seq<T>, s: State<T>, schedule: seq<Action>)
    requires r.Valid() && r.IterContract() && Associative(r.op) && IsIdentity(r.op, r.identity)
    requires Reduces(r, input) && (r.strategy.SerialFold? || LastWarpWideEnough(r.threads))
    requires Initial(r, s) && Possible(r, s, schedule)
    ensures Right(r, input, After(r, s, schedule), false)
  {
    r.ContractAlternates();
    ScheduleIsRight(r, input, s, schedule, false);
  }

  // With the caller's barrier between the calls one buffer is enough, or any use of the two.
  lemma SingleBufferedAllReduce<T(!new)>(r: Run<T>, input: nat -> seq<T>, s: State<T>, schedule: seq<Action>)
    requires r.Valid() && Associative(r.op) && IsIdentity(r.op, r.identity)
    requires Reduces(r, input) && (r.strategy.SerialFold? || LastWarpWideEnough(r.threads))
    requires Initial(r, s) && Possible(r, s, schedule) && AllFenced(r, s, schedule)
    ensures Right(r, input, After(r, s, schedule), true)
  {
    ScheduleIsRight(r, input, s, schedule, true);
  }
}
