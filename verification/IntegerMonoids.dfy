// The tagged operations and identities of acl_cub/aclcub.hpp:55-69 and 84-86 for the two integer types of
// the warp primitives.  Sums wrap around at 32 bits, as the hardware reduction does.
module IntegerMonoids {
  import opened Arithmetic
  import opened Folds
  import opened WarpGeometry
  import opened AllReduceResults

  type Int32 = x: int | -0x8000_0000 <= x < 0x8000_0000
  type UInt32 = x: int | 0 <= x < 0x1_0000_0000

  datatype Tag = Sum | Max | Min

  const MODULUS := 0x1_0000_0000

  function WrapSigned(x: int): Int32 {
    (x + 0x8000_0000) % MODULUS - 0x8000_0000
  }

  function WrapUnsigned(x: int): UInt32 {
    x % MODULUS
  }

  function SumInt32(a: Int32, b: Int32): Int32 { WrapSigned(a + b) }

  function MaxInt32(a: Int32, b: Int32): Int32 { if a > b then a else b }

  function MinInt32(a: Int32, b: Int32): Int32 { if a < b then a else b }

  function SumUInt32(a: UInt32, b: UInt32): UInt32 { WrapUnsigned(a + b) }

  function MaxUInt32(a: UInt32, b: UInt32): UInt32 { if a > b then a else b }

  function MinUInt32(a: UInt32, b: UInt32): UInt32 { if a < b then a else b }

  // TagApply
  function ApplyInt32(tag: Tag): (Int32, Int32) -> Int32 {
    match tag
    case Sum => SumInt32
    case Max => MaxInt32
    case Min => MinInt32
  }

  function ApplyUInt32(tag: Tag): (UInt32, UInt32) -> UInt32 {
    match tag
    case Sum => SumUInt32
    case Max => MaxUInt32
    case Min => MinUInt32
  }

  function IdentityInt32(tag: Tag): Int32 {
    match tag
    case Sum => 0
    case Max => -2147483647 - 1
    case Min => 2147483647
  }

  function IdentityUInt32(tag: Tag): UInt32 {
    match tag
    case Sum => 0
    case Max => 0
    case Min => 4294967295
  }

  // Wrapping an operand first changes nothing.
  lemma WrapAbsorbed(x: int, y: int)
    ensures WrapSigned(WrapSigned(x) + y) == WrapSigned(x + y)
    ensures WrapUnsigned(WrapUnsigned(x) + y) == WrapUnsigned(x + y)
  {
    ModAbsorbed(x + 0x8000_0000, y, MODULUS);
    ModAbsorbed(x, y, MODULUS);
  }

  lemma SumInt32Laws()
    ensures Associative(SumInt32) && Commutative(SumInt32) && IsIdentity(SumInt32, 0)
  {
    forall x: Int32, y: Int32, z: Int32
      ensures SumInt32(SumInt32(x, y), z) == SumInt32(x, SumInt32(y, z))
    {
      WrapAbsorbed(x + y, z);
      WrapAbsorbed(y + z, x);
    }
  }

  lemma SumUInt32Laws()
    ensures Associative(SumUInt32) && Commutative(SumUInt32) && IsIdentity(SumUInt32, 0)
  {
    forall x: UInt32, y: UInt32, z: UInt32
      ensures SumUInt32(SumUInt32(x, y), z) == SumUInt32(x, SumUInt32(y, z))
    {
      WrapAbsorbed(x + y, z);
      WrapAbsorbed(y + z, x);
    }
  }

  // The folds' laws hold of every tag over both types, so every result on folds applies to them.
  lemma Int32Laws(tag: Tag)
    ensures Associative(ApplyInt32(tag)) && Commutative(ApplyInt32(tag))
    ensures IsIdentity(ApplyInt32(tag), IdentityInt32(tag))
  {
    match tag
    case Sum => SumInt32Laws();
    case Max =>
      assert Associative(MaxInt32) && Commutative(MaxInt32) && IsIdentity(MaxInt32, IdentityInt32(Max));
    case Min =>
      assert Associative(MinInt32) && Commutative(MinInt32) && IsIdentity(MinInt32, IdentityInt32(Min));
  }

  lemma UInt32Laws(tag: Tag)
    ensures Associative(ApplyUInt32(tag)) && Commutative(ApplyUInt32(tag))
    ensures IsIdentity(ApplyUInt32(tag), IdentityUInt32(tag))
  {
    match tag
    case Sum => SumUInt32Laws();
    case Max =>
      assert Associative(MaxUInt32) && Commutative(MaxUInt32) && IsIdentity(MaxUInt32, IdentityUInt32(Max));
    case Min =>
      assert Associative(MinUInt32) && Commutative(MinUInt32) && IsIdentity(MinUInt32, IdentityUInt32(Min));
  }

  // Sums wrap modulo 2^32, and the extremes are one of the two values, not below or above either.
  lemma Int32Values(tag: Tag, a: Int32, b: Int32)
    ensures
      var r := ApplyInt32(tag)(a, b);
      match tag
      case Sum => (r - (a + b)) % 0x1_0000_0000 == 0
      case Max => (r == a || r == b) && r >= a && r >= b
      case Min => (r == a || r == b) && r <= a && r <= b
  {
    DivModIdentity(a + b + 0x8000_0000, MODULUS);
    ModShift(0, -((a + b + 0x8000_0000) / MODULUS), MODULUS);
  }

  lemma UInt32Values(tag: Tag, a: UInt32, b: UInt32)
    ensures
      var r := ApplyUInt32(tag)(a, b);
      match tag
      case Sum => (r - (a + b)) % 0x1_0000_0000 == 0
      case Max => (r == a || r == b) && r >= a && r >= b
      case Min => (r == a || r == b) && r <= a && r <= b
  {
    DivModIdentity(a + b, MODULUS);
    ModShift(0, -((a + b) / MODULUS), MODULUS);
  }

  // The serial and the identity-padded warp second level agree over int32, in every warp wide enough.
  lemma Int32FoldsAgree(tag: Tag, inputs: seq<Int32>, w: nat)
    requires 0 < |inputs| && Warps(|inputs|) <= WARP_SIZE && w < Warps(|inputs|)
    requires Warps(|inputs|) <= Lanes(|inputs|, w)
    ensures var a := WarpAggregates(ApplyInt32(tag), inputs);
            && Fold(ApplyInt32(tag), a) == Fold(ApplyInt32(tag), inputs)
            && Fold(ApplyInt32(tag), LaneView(a, IdentityInt32(tag), Lanes(|inputs|, w))) == Fold(ApplyInt32(tag), inputs)
  {
    Int32Laws(tag);
    SerialFoldIsBlockFold(ApplyInt32(tag), inputs);
    WarpFoldIsBlockFold(ApplyInt32(tag), IdentityInt32(tag), inputs, Lanes(|inputs|, w));
  }

  lemma UInt32FoldsAgree(tag: Tag, inputs: seq<UInt32>, w: nat)
    requires 0 < |inputs| && Warps(|inputs|) <= WARP_SIZE && w < Warps(|inputs|)
    requires Warps(|inputs|) <= Lanes(|inputs|, w)
    ensures var a := WarpAggregates(ApplyUInt32(tag), inputs);
            && Fold(ApplyUInt32(tag), a) == Fold(ApplyUInt32(tag), inputs)
            && Fold(ApplyUInt32(tag), LaneView(a, IdentityUInt32(tag), Lanes(|inputs|, w))) == Fold(ApplyUInt32(tag), inputs)
  {
    UInt32Laws(tag);
    SerialFoldIsBlockFold(ApplyUInt32(tag), inputs);
    WarpFoldIsBlockFold(ApplyUInt32(tag), IdentityUInt32(tag), inputs, Lanes(|inputs|, w));
  }

  // A block of 129 threads takes the warp fold (five warps) with one lane in the last warp: summing a
  // single 1 held by thread 128, that thread gets 0.
  lemma PartialWarpSum(inputs: seq<UInt32>)
    requires |inputs| == 129 && inputs == Spike(|inputs|, 128, 1, 0)
    ensures !AutoFoldRight(|inputs|) && WarpOf(128) == 4
    ensures Fold(SumUInt32, LaneView(WarpAggregates(SumUInt32, inputs), 0, Lanes(|inputs|, WarpOf(128)))) == 0
    ensures Fold(SumUInt32, inputs) == 1
  {
    assert IsIdentity(SumUInt32, 0) by { SumUInt32Laws(); }
    var last := Warps(|inputs|) - 1;
    assert last == 4 && Member(last, 0) == 128;
    WarpFoldLosesLastWarp(SumUInt32, 0, 1, inputs, Lanes(|inputs|, last));
  }
}
