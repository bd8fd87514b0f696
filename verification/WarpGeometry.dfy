// How a block of threads splits into warps (acl_cub/aclcub.hpp:37-40, 205-210 and 220-224): thread t
// is lane t % 32 of warp t / 32, and the last warp may be partial.
module WarpGeometry {
  import opened Folds

  const WARP_SIZE: nat := 32

  // kWarps, for a block of `threads` threads.
  function Warps(threads: nat): nat {
    (threads + WARP_SIZE - 1) / WARP_SIZE
  }

  function WarpOf(t: nat): nat { t / WARP_SIZE }

  function LaneOf(t: nat): nat { t % WARP_SIZE }

  // Number of threads of warp w: WARP_SIZE, except possibly in the last warp.
  function Lanes(threads: nat, w: nat): (n: nat)
    requires w < Warps(threads)
    ensures 0 < n <= WARP_SIZE
    ensures n == WARP_SIZE || w + 1 == Warps(threads)
    ensures forall l :: 0 <= l < WARP_SIZE ==> (l < n <==> Member(w, l) < threads)
  {
    if (w + 1) * WARP_SIZE <= threads then WARP_SIZE else threads - w * WARP_SIZE
  }

  // The thread at lane l of warp w.
  function Member(w: nat, l: nat): (t: nat)
    requires l < WARP_SIZE
    ensures WarpOf(t) == w && LaneOf(t) == l
  {
    w * WARP_SIZE + l
  }

  // The values of a warp's lanes, taken from a value per thread.
  function WarpSlice<T>(w: nat, values: seq<T>): (r: seq<T>)
    requires w < Warps(|values|)
    ensures |r| == Lanes(|values|, w)
    ensures forall l :: 0 <= l < |r| ==> r[l] == values[Member(w, l)]
  {
    values[w * WARP_SIZE..w * WARP_SIZE + Lanes(|values|, w)]
  }

  // The first n warps of a block, in order.
  function WarpSlices<T>(values: seq<T>, n: nat): (r: seq<seq<T>>)
    requires n <= Warps(|values|)
    ensures |r| == n
    ensures forall w :: 0 <= w < n ==> r[w] == WarpSlice(w, values)
  {
    seq(n, w requires 0 <= w < n => WarpSlice(w, values))
  }

  // The warps partition the block in thread order: concatenated, they give back every thread's value once.
  lemma {:induction false} WarpsPartitionBlock<T>(values: seq<T>, n: nat)
    requires n <= Warps(|values|)
    ensures n < Warps(|values|) ==>
              n * WARP_SIZE <= |values| && Flatten(WarpSlices(values, n)) == values[..n * WARP_SIZE]
    ensures n == Warps(|values|) ==> Flatten(WarpSlices(values, n)) == values
  {
    if n > 0 {
      WarpsPartitionBlock(values, n - 1);
      assert WarpSlices(values, n)[..n - 1] == WarpSlices(values, n - 1);
    }
  }

  // Two-level reduction over warps: folding the warp folds is folding the block.
  lemma WarpFoldsFoldBlock<T(!new)>(op: (T, T) -> T, values: seq<T>)
    requires Associative(op) && |values| > 0
    ensures Fold(op, BlockFolds(op, WarpSlices(values, Warps(|values|)))) == Fold(op, values)
  {
    var n := Warps(|values|);
    WarpsPartitionBlock(values, n);
    TwoLevelFold(op, WarpSlices(values, n));
  }
}
