// Folds of non-empty sequences under a binary operation, with the algebraic laws the reduction
// paths of acl_cub/aclcub.hpp rely on.  `Fold` is the left fold of the serial second level
// (aclcub.hpp:296-302): start from element 0 and combine elements 1, 2, ... on the right.
module Folds {

  ghost predicate Associative<T(!new)>(op: (T, T) -> T) {
    forall x, y, z :: op(op(x, y), z) == op(x, op(y, z))
  }

  ghost predicate Commutative<T(!new)>(op: (T, T) -> T) {
    forall x, y :: op(x, y) == op(y, x)
  }

  ghost predicate IsIdentity<T(!new)>(op: (T, T) -> T, e: T) {
    forall x :: op(e, x) == x && op(x, e) == x
  }

  function Fold<T>(op: (T, T) -> T, s: seq<T>): T
    requires |s| > 0
  {
    if |s| == 1 then s[0] else op(Fold(op, s[..|s| - 1]), s[|s| - 1])
  }

  // The elements combined pairwise.
  function Zip<T>(op: (T, T) -> T, a: seq<T>, b: seq<T>): (r: seq<T>)
    requires |a| == |b|
    ensures |r| == |a|
    ensures forall k :: 0 <= k < |r| ==> r[k] == op(a[k], b[k])
  {
    seq(|a|, k requires 0 <= k < |a| => op(a[k], b[k]))
  }

  // The concatenation of a sequence of blocks.
  function Flatten<T>(blocks: seq<seq<T>>): seq<T> {
    if |blocks| == 0 then [] else Flatten(blocks[..|blocks| - 1]) + blocks[|blocks| - 1]
  }

  // The fold of each block.
  function BlockFolds<T>(op: (T, T) -> T, blocks: seq<seq<T>>): (r: seq<T>)
    requires forall k :: 0 <= k < |blocks| ==> |blocks[k]| > 0
    ensures |r| == |blocks|
    ensures forall k :: 0 <= k < |r| ==> r[k] == Fold(op, blocks[k])
  {
    seq(|blocks|, k requires 0 <= k < |blocks| => Fold(op, blocks[k]))
  }

  lemma {:induction false} FoldConcat<T(!new)>(op: (T, T) -> T, a: seq<T>, b: seq<T>)
    requires Associative(op) && |a| > 0 && |b| > 0
    ensures Fold(op, a + b) == op(Fold(op, a), Fold(op, b))
    decreases |b|
  {
    var n := |b|;
    assert (a + b)[..|a| + n - 1] == a + b[..n - 1];
    if n == 1 {
      assert a + b[..0] == a;
    } else {
      FoldConcat(op, a, b[..n - 1]);
    }
  }

  // Folding the pairwise combination is combining the two folds: the step of the tree and of the butterfly.
  lemma {:induction false} FoldZip<T(!new)>(op: (T, T) -> T, a: seq<T>, b: seq<T>)
    requires Associative(op) && Commutative(op) && |a| == |b| > 0
    ensures Fold(op, Zip(op, a, b)) == op(Fold(op, a), Fold(op, b))
    decreases |a|
  {
    var n := |a|;
    if n > 1 {
      var a', b' := a[..n - 1], b[..n - 1];
      assert Zip(op, a, b)[..n - 1] == Zip(op, a', b');
      FoldZip(op, a', b');
      Interchange(op, Fold(op, a'), Fold(op, b'), a[n - 1], b[n - 1]);
    }
  }

  lemma FoldHalves<T(!new)>(op: (T, T) -> T, a: seq<T>, b: seq<T>)
    requires Associative(op) && Commutative(op) && |a| == |b| > 0
    ensures Fold(op, Zip(op, a, b)) == Fold(op, a + b)
  {
    FoldZip(op, a, b);
    FoldConcat(op, a, b);
  }

  lemma Interchange<T(!new)>(op: (T, T) -> T, x: T, y: T, u: T, v: T)
    requires Associative(op) && Commutative(op)
    ensures op(op(x, y), op(u, v)) == op(op(x, u), op(y, v))
  {
    calc {
      op(op(x, y), op(u, v));
      op(x, op(y, op(u, v)));
      { assert op(op(y, u), v) == op(y, op(u, v)); assert op(y, u) == op(u, y); }
      op(x, op(op(u, y), v));
      { assert op(op(u, y), v) == op(u, op(y, v)); }
      op(x, op(u, op(y, v)));
      op(op(x, u), op(y, v));
    }
  }

  // The two-level reduction: folding the per-block folds is folding everything.
  lemma {:induction false} TwoLevelFold<T(!new)>(op: (T, T) -> T, blocks: seq<seq<T>>)
    requires Associative(op) && |blocks| > 0
    requires forall k :: 0 <= k < |blocks| ==> |blocks[k]| > 0
    ensures |Flatten(blocks)| > 0
    ensures Fold(op, BlockFolds(op, blocks)) == Fold(op, Flatten(blocks))
    decreases |blocks|
  {
    var n := |blocks|;
    if n == 1 {
      assert Flatten(blocks[..0]) == [];
      assert Flatten(blocks) == blocks[0];
    } else {
      var front := blocks[..n - 1];
      TwoLevelFold(op, front);
      assert BlockFolds(op, blocks)[..n - 1] == BlockFolds(op, front);
      FoldConcat(op, Flatten(front), blocks[n - 1]);
    }
  }

  // Identity padding on the right does not change a fold.
  lemma {:induction false} FoldPadded<T(!new)>(op: (T, T) -> T, e: T, s: seq<T>, padded: seq<T>)
    requires IsIdentity(op, e) && 0 < |s| <= |padded|
    requires padded[..|s|] == s
    requires forall k :: |s| <= k < |padded| ==> padded[k] == e
    ensures Fold(op, padded) == Fold(op, s)
    decreases |padded|
  {
    if |padded| == |s| {
      assert padded == s;
    } else {
      var front := padded[..|padded| - 1];
      assert front[..|s|] == s;
      FoldPadded(op, e, s, front);
    }
  }

  // A fold in which every element but one is the identity is that element.
  lemma {:induction false} FoldSingle<T(!new)>(op: (T, T) -> T, e: T, s: seq<T>, at: nat)
    requires IsIdentity(op, e) && at < |s|
    requires forall k :: 0 <= k < |s| && k != at ==> s[k] == e
    ensures Fold(op, s) == s[at]
    decreases |s|
  {
    var n := |s|;
    if n > 1 {
      var front := s[..n - 1];
      if at < n - 1 {
        FoldSingle(op, e, front, at);
      } else {
        FoldSingle(op, e, front, 0);
      }
    }
  }
}
