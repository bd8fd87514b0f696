// The xor-shuffle butterfly of acl_cub/aclcub.hpp:405-411, over all lanes of a block at once; the same
// loop shape is recognised in source kernels by src/DavC310TargetRecipe.cpp:4714-4826.
module Butterfly {
  import opened Arithmetic
  import opened Folds
  import opened TreeReduction

  // Bitwise exclusive or.
  function Xor(a: nat, b: nat): nat
    decreases a + b
  {
    if a == 0 && b == 0 then 0 else (a + b) % 2 + 2 * Xor(a / 2, b / 2)
  }

  lemma {:induction false} XorZero(a: nat)
    ensures Xor(a, 0) == a
  {
    if a > 0 {
      XorZero(a / 2);
    }
  }

  // For a power-of-two mask, exclusive or moves a lane up or down by the mask, by the mask's bit.
  lemma {:induction false} XorFlipsBit(l: nat, mask: nat)
    requires PowerOfTwo(mask)
    ensures Xor(l, mask) == if l / mask % 2 == 0 then l + mask else l - mask
    decreases mask
  {
    if mask == 1 {
      XorZero(l / 2);
    } else {
      var flipped := Xor(l / 2, mask / 2);
      XorFlipsBit(l / 2, mask / 2);
      HalveBoth(l, mask);
      assert (l + mask) % 2 == l % 2;
      assert Xor(l, mask) == l % 2 + 2 * flipped;
    }
  }

  // In a group of 2 * mask lanes starting at `base`, lane j exchanges with lane j +- mask.
  lemma PartnerInGroup(base: nat, mask: nat, j: nat)
    requires PowerOfTwo(mask) && MultipleOf(base, 2 * mask) && j < 2 * mask
    ensures Xor(base + j, mask) == if j < mask then base + j + mask else base + j - mask
  {
    DoubleMultiple(base, j, mask);
    XorFlipsBit(base + j, mask);
  }

  // The lanes come in whole groups of `width`.
  ghost predicate WholeGroups(n: nat, width: nat) {
    width > 0 && MultipleOf(n, width)
  }

  ghost predicate InRange<T>(v: seq<T>, mask: nat) {
    forall l :: 0 <= l < |v| ==> Xor(l, mask) < |v|
  }

  lemma PartnersInRange<T>(v: seq<T>, mask: nat)
    requires PowerOfTwo(mask) && WholeGroups(|v|, 2 * mask)
    ensures InRange(v, mask)
  {
    forall l | 0 <= l < |v|
      ensures Xor(l, mask) < |v|
    {
      var j := l % (2 * mask);
      GroupBase(l, 2 * mask);
      MultipleFits(l - j, |v|, 2 * mask);
      PartnerInGroup(l - j, mask, j);
    }
  }

  // One exchange: every lane combines its value with its partner's.
  function Exchange<T>(op: (T, T) -> T, v: seq<T>, mask: nat): (r: seq<T>)
    requires InRange(v, mask)
    ensures |r| == |v|
    ensures forall l :: 0 <= l < |v| ==> r[l] == op(v[l], v[Xor(l, mask)])
  {
    seq(|v|, l requires 0 <= l < |v| => op(v[l], v[Xor(l, mask)]))
  }

  // for (int mask = first; mask > 0; mask /= 2) val = op(val, shfl_xor(val, mask)).
  ghost function Shuffle<T>(op: (T, T) -> T, v: seq<T>, mask: nat): (r: seq<T>)
    requires mask == 0 || (PowerOfTwo(mask) && WholeGroups(|v|, 2 * mask))
    ensures |r| == |v|
    decreases mask
  {
    if mask == 0 then v
    else
      PartnersInRange(v, mask);
      DoubleMultiple(|v|, 0, mask);
      Shuffle(op, Exchange(op, v, mask), mask / 2)
  }

  // Lanes n of a sequence starting at `from`.
  function Slice<T>(v: seq<T>, from: nat, n: nat): (r: seq<T>)
    requires from + n <= |v|
    ensures |r| == n
    ensures forall k :: 0 <= k < n ==> r[k] == v[from + k]
  {
    v[from..from + n]
  }

  // Lane k of either half of a group, after one exchange, combines lane k of both halves.
  lemma ExchangedLower<T>(op: (T, T) -> T, v: seq<T>, mask: nat, base: nat, k: nat)
    requires PowerOfTwo(mask) && InRange(v, mask)
    requires MultipleOf(base, 2 * mask) && base + 2 * mask <= |v| && k < mask
    ensures Exchange(op, v, mask)[base + k] == op(v[base + k], v[base + mask + k])
  {
    PartnerInGroup(base, mask, k);
    assert Xor(base + k, mask) == base + mask + k;
  }

  lemma ExchangedUpper<T>(op: (T, T) -> T, v: seq<T>, mask: nat, base: nat, k: nat)
    requires PowerOfTwo(mask) && InRange(v, mask)
    requires MultipleOf(base, 2 * mask) && base + 2 * mask <= |v| && k < mask
    ensures Exchange(op, v, mask)[base + mask + k] == op(v[base + mask + k], v[base + k])
  {
    PartnerInGroup(base, mask, mask + k);
    assert Xor(base + mask + k, mask) == base + k;
  }

  lemma ExchangedLane<T(!new)>(op: (T, T) -> T, v: seq<T>, mask: nat, base: nat, upper: bool, k: nat)
    requires Commutative(op) && PowerOfTwo(mask) && InRange(v, mask)
    requires MultipleOf(base, 2 * mask) && base + 2 * mask <= |v| && k < mask
    ensures Exchange(op, v, mask)[if upper then base + mask + k else base + k] == op(v[base + k], v[base + mask + k])
  {
    if upper {
      ExchangedUpper(op, v, mask, base, k);
      assert op(v[base + mask + k], v[base + k]) == op(v[base + k], v[base + mask + k]);
    } else {
      ExchangedLower(op, v, mask, base, k);
    }
  }

  // So a half group after one exchange is the pairwise combination of the two halves.
  lemma ExchangedHalf<T(!new)>(op: (T, T) -> T, v: seq<T>, mask: nat, base: nat, upper: bool)
    requires Commutative(op) && PowerOfTwo(mask) && InRange(v, mask)
    requires MultipleOf(base, 2 * mask) && base + 2 * mask <= |v|
    ensures Slice(Exchange(op, v, mask), if upper then base + mask else base, mask)
            == Zip(op, Slice(v, base, mask), Slice(v, base + mask, mask))
  {
    var r := Slice(Exchange(op, v, mask), if upper then base + mask else base, mask);
    var z := Zip(op, Slice(v, base, mask), Slice(v, base + mask, mask));
    forall k | 0 <= k < |r|
      ensures r[k] == z[k]
    {
      ExchangedLane(op, v, mask, base, upper, k);
    }
  }

  lemma PairedHalves<T(!new)>(op: (T, T) -> T, v: seq<T>, mask: nat, base: nat)
    requires Associative(op) && Commutative(op) && mask > 0 && base + 2 * mask <= |v|
    ensures Fold(op, Zip(op, Slice(v, base, mask), Slice(v, base + mask, mask))) == Fold(op, Slice(v, base, 2 * mask))
  {
    var lower, higher := Slice(v, base, mask), Slice(v, base + mask, mask);
    assert Slice(v, base, 2 * mask) == lower + higher;
    FoldHalves(op, lower, higher);
  }

  // A group's fold is the fold of either half after one exchange.
  lemma ExchangeKeepsGroupFold<T(!new)>(op: (T, T) -> T, v: seq<T>, mask: nat, base: nat, upper: bool)
    requires Associative(op) && Commutative(op) && PowerOfTwo(mask) && InRange(v, mask)
    requires MultipleOf(base, 2 * mask) && base + 2 * mask <= |v|
    ensures Fold(op, Slice(Exchange(op, v, mask), if upper then base + mask else base, mask))
            == Fold(op, Slice(v, base, 2 * mask))
  {
    ExchangedHalf(op, v, mask, base, upper);
    PairedHalves(op, v, mask, base);
  }

  lemma ShuffleStep<T>(op: (T, T) -> T, v: seq<T>, mask: nat)
    requires PowerOfTwo(mask) && WholeGroups(|v|, 2 * mask)
    ensures InRange(v, mask)
    ensures mask > 1 ==> WholeGroups(|v|, mask)
    ensures var v' := Exchange(op, v, mask);
            if mask == 1 then Shuffle(op, v, mask) == v'
            else WholeGroups(|v'|, 2 * (mask / 2)) && Shuffle(op, v, mask) == Shuffle(op, v', mask / 2)
  {
    PartnersInRange(v, mask);
    DoubleMultiple(|v|, 0, mask);
  }

  // After the loop from `mask` down to 1, every lane of a group of 2 * mask lanes holds the group's fold.
  lemma {:induction false} ShuffleFoldsGroup<T(!new)>(op: (T, T) -> T, v: seq<T>, mask: nat, base: nat, l: nat)
    requires Associative(op) && Commutative(op)
    requires PowerOfTwo(mask) && WholeGroups(|v|, 2 * mask)
    requires MultipleOf(base, 2 * mask) && base <= l < base + 2 * mask <= |v|
    ensures Shuffle(op, v, mask)[l] == Fold(op, Slice(v, base, 2 * mask))
    decreases mask
  {
    ShuffleStep(op, v, mask);
    var v' := Exchange(op, v, mask);
    var upper := l >= base + mask;
    var half := if upper then base + mask else base;
    ExchangeKeepsGroupFold(op, v, mask, base, upper);
    if mask == 1 {
      assert Slice(v', half, 1)[0] == v'[l];
    } else {
      DoubleMultiple(base, 0, mask);
      assert mask == 2 * (mask / 2);
      ShuffleFoldsGroup(op, v', mask / 2, half, l);
    }
  }
}
