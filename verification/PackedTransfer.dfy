// The packed loads and stores of the recognised adapters (src/DavC310TargetRecipe.cpp:443-474, 571-611,
// 745-776, 815-911 and 913-1018): one access of a whole packet, and a loop over its elements.
module PackedTransfer {
  import opened Arithmetic

  // Where an element of a row-major matrix is, and where the packet that is accessed for it starts: the
  // packets are counted by (row * stride + column) / pack.
  function Element(row: nat, stride: nat, column: nat): nat {
    MulMonotone(0, row, stride);
    row * stride + column
  }

  function PacketOf(at: nat, pack: nat): nat
    requires pack > 0
  {
    MulMonotone(0, at / pack, pack);
    at / pack * pack
  }

  function PacketBase(row: nat, stride: nat, column: nat, pack: nat): nat
    requires pack > 0
  {
    PacketOf(Element(row, stride, column), pack)
  }

  // The packet that is accessed is the one that holds the element.
  lemma PacketOfMultiple(at: nat, pack: nat)
    requires pack > 0
    ensures PacketOf(at, pack) <= at < PacketOf(at, pack) + pack && PacketOf(at, pack) % pack == 0
    ensures PacketOf(at, pack) == at <==> at % pack == 0
  {
    DivModIdentity(at, pack);
    DivModUnique(PacketOf(at, pack), at / pack, 0, pack);
  }

  // The packet starts at the element exactly when the element's place is a multiple of the pack size, as it is in
  // every row when the pack size divides the stride and the column.
  lemma PacketAtElement(row: nat, stride: nat, column: nat, pack: nat)
    requires pack > 0
    ensures PacketBase(row, stride, column, pack) == Element(row, stride, column) <==> Element(row, stride, column) % pack == 0
    ensures stride % pack == 0 && column % pack == 0 ==> Element(row, stride, column) % pack == 0
  {
    var at := Element(row, stride, column);
    DivModIdentity(at, pack);
    if stride % pack == 0 && column % pack == 0 {
      DivModIdentity(stride, pack);
      DivModIdentity(column, pack);
      RowOfPackets(row, stride / pack, column / pack, pack);
      DivModUnique(at, row * (stride / pack) + column / pack, 0, pack);
    }
  }

  lemma RowOfPackets(row: int, s: int, c: int, pack: int)
    ensures row * (s * pack) + c * pack == (row * s + c) * pack
  {
  }

  // It starts at the element in every row exactly when the pack size divides the stride and the column.
  lemma PacketsAtElements(stride: nat, column: nat, pack: nat)
    requires pack > 0
    ensures (forall row: nat :: PacketBase(row, stride, column, pack) == Element(row, stride, column)) <==>
            stride % pack == 0 && column % pack == 0
  {
    if stride % pack == 0 && column % pack == 0 {
      forall row: nat
        ensures PacketBase(row, stride, column, pack) == Element(row, stride, column)
      {
        PacketAtElement(row, stride, column, pack);
      }
    } else {
      var zero, one: nat := 0, 1;
      PacketAtElement(zero, stride, column, pack);
      PacketAtElement(one, stride, column, pack);
      assert Element(zero, stride, column) == column && Element(one, stride, column) == column + stride;
      if column % pack == 0 {
        DivModIdentity(column, pack);
        ModShift(stride, column / pack, pack);
        assert PacketBase(one, stride, column, pack) != Element(one, stride, column);
      } else {
        assert PacketBase(zero, stride, column, pack) != Element(zero, stride, column);
      }
    }
  }

  predicate Divides(pack: nat, stride: nat, column: nat)
    requires pack > 0
  {
    stride % pack == 0 && column % pack == 0
  }

  // ----- The scalar copies ----------------------------------------------------------------------

  // memory with the values written from a place on.
  function Written<T>(memory: seq<T>, at: nat, values: seq<T>): seq<T>
    requires at + |values| <= |memory|
  {
    memory[..at] + values + memory[at + |values|..]
  }

  function Converted<S, T>(values: seq<S>, convert: S -> T): (r: seq<T>)
    ensures |r| == |values| && forall i :: 0 <= i < |values| ==> r[i] == convert(values[i])
  {
    seq(|values|, i requires 0 <= i < |values| => convert(values[i]))
  }

  function Scaled<S, T>(values: seq<S>, weights: seq<T>, convert: S -> T, times: (T, T) -> T): (r: seq<T>)
    requires |values| == |weights|
    ensures |r| == |values| && forall i :: 0 <= i < |values| ==> r[i] == times(convert(values[i]), weights[i])
  {
    seq(|values|, i requires 0 <= i < |values| => times(convert(values[i]), weights[i]))
  }

  // Where the pack size divides the stride and the column, the transfer is of the row-major elements from there
  // on, and of nothing else.
  ghost predicate Transferred<T>(before: seq<T>, after: seq<T>, row: nat, stride: nat, column: nat, values: seq<T>) {
    && |after| == |before| && row * stride + column >= 0 && row * stride + column + |values| <= |before|
    && (forall i :: 0 <= i < |values| ==> after[row * stride + column + i] == values[i])
    && (forall j :: 0 <= j < |before| && !(row * stride + column <= j < row * stride + column + |values|) ==> after[j] == before[j])
  }

  lemma WrittenAt<T>(before: seq<T>, after: seq<T>, row: nat, stride: nat, column: nat, values: seq<T>, at: nat)
    requires at == Element(row, stride, column) && at + |values| <= |before| && after == Written(before, at, values)
    ensures Transferred(before, after, row, stride, column, values)
  {
  }

  // ----- The packed transfers -------------------------------------------------------------------

  // One access through the packet pointer.
  method StorePacket<T>(memory: array<T>, base: nat, packet: seq<T>)
    requires base + |packet| <= memory.Length
    modifies memory
    ensures memory[..] == Written(old(memory[..]), base, packet)
  {
    forall i | 0 <= i < |packet| {
      memory[base + i] := packet[i];
    }
  }

  method Load<S, T>(memory: array<S>, row: nat, stride: nat, column: nat, pack: nat, convert: S -> T, dst: array<T>)
    requires pack > 0 && pack <= dst.Length && PacketBase(row, stride, column, pack) + pack <= memory.Length
    requires dst as object != memory
    modifies dst
    ensures dst[pack..] == old(dst[pack..])
    ensures
      var base := PacketBase(row, stride, column, pack);
      dst[..pack] == Converted(memory[base..base + pack], convert)
    ensures Divides(pack, stride, column) ==>
              && row * stride + column >= 0 && row * stride + column + pack <= memory.Length
              && forall i :: 0 <= i < pack ==> dst[i] == convert(memory[row * stride + column + i])
  {
    PacketAtElement(row, stride, column, pack);
    var base := PacketBase(row, stride, column, pack);
    var packet := memory[base..base + pack];
    for i := 0 to pack
      invariant memory[base..base + pack] == packet
      invariant forall j :: 0 <= j < i ==> dst[j] == convert(packet[j])
      invariant dst[pack..] == old(dst[pack..])
    {
      dst[i] := convert(packet[i]);
    }
    assert dst[..pack] == Converted(packet, convert);
  }

  method Store<S, T(0)>(memory: array<T>, row: nat, stride: nat, column: nat, pack: nat, convert: S -> T, src: seq<S>)
    requires pack > 0 && pack <= |src| && PacketBase(row, stride, column, pack) + pack <= memory.Length
    modifies memory
    ensures memory[..] == Written(old(memory[..]), PacketBase(row, stride, column, pack), Converted(src[..pack], convert))
    ensures Divides(pack, stride, column) ==>
              Transferred(old(memory[..]), memory[..], row, stride, column, Converted(src[..pack], convert))
  {
    PacketAtElement(row, stride, column, pack);
    var packet := new T[pack];
    for i := 0 to pack
      invariant forall j :: 0 <= j < i ==> packet[j] == convert(src[j])
      invariant memory[..] == old(memory[..])
    {
      packet[i] := convert(src[i]);
    }
    assert packet[..] == Converted(src[..pack], convert);
    StorePacket(memory, PacketBase(row, stride, column, pack), packet[..]);
    if Divides(pack, stride, column) {
      WrittenAt(old(memory[..]), memory[..], row, stride, column, Converted(src[..pack], convert), Element(row, stride, column));
    }
  }

  // The element loop of an affine store.
  method AffineElements<S, T(0)>(values: seq<S>, weightPacket: seq<T>, affine: bool, convert: S -> T, times: (T, T) -> T)
    returns (packet: array<T>)
    requires |values| == |weightPacket|
    ensures fresh(packet) && packet[..] == AffineValues(values, weightPacket, affine, convert, times)
  {
    ghost var wanted := AffineValues(values, weightPacket, affine, convert, times);
    packet := new T[|values|];
    for i := 0 to |values|
      invariant packet[..i] == wanted[..i]
    {
      if affine {
        packet[i] := times(convert(values[i]), weightPacket[i]);
      } else {
        packet[i] := convert(values[i]);
      }
    }
    assert packet[..] == packet[..|values|] && wanted[..|values|] == wanted;
  }

  function AffineValues<S, T>(values: seq<S>, weights: seq<T>, affine: bool, convert: S -> T, times: (T, T) -> T): (r: seq<T>)
    requires |values| == |weights|
    ensures |r| == |values|
    ensures forall i :: 0 <= i < |r| ==> r[i] == if affine then times(convert(values[i]), weights[i]) else convert(values[i])
  {
    if affine then Scaled(values, weights, convert, times) else Converted(values, convert)
  }

  // The values scaled by the weights of their columns, or not.
  function AffineRow<S, T>(src: seq<S>, weights: seq<T>, column: nat, pack: nat, affine: bool, convert: S -> T, times: (T, T) -> T)
    : (r: seq<T>)
    requires pack <= |src| && column + pack <= |weights|
    ensures |r| == pack
    ensures forall i :: 0 <= i < pack ==> r[i] == if affine then times(convert(src[i]), weights[column + i]) else convert(src[i])
  {
    seq(pack, i requires 0 <= i < pack => if affine then times(convert(src[i]), weights[column + i]) else convert(src[i]))
  }

  lemma AffineRowIs<S, T>(src: seq<S>, weights: seq<T>, column: nat, pack: nat, affine: bool, convert: S -> T, times: (T, T) -> T)
    requires pack <= |src| && column + pack <= |weights|
    ensures AffineValues(src[..pack], weights[column..column + pack], affine, convert, times)
            == AffineRow(src, weights, column, pack, affine, convert, times)
  {
  }

  // The weight's packet is the one of the column.
  method AffineStore<S, T(0)>(memory: array<T>, row: nat, stride: nat, column: nat, pack: nat, affine: bool, convert: S -> T,
                              times: (T, T) -> T, weight: array<T>, src: seq<S>)
    requires pack > 0 && pack <= |src| && PacketBase(row, stride, column, pack) + pack <= memory.Length
    requires PacketOf(column, pack) + pack <= weight.Length
    modifies memory
    ensures
      var base, weightBase := PacketBase(row, stride, column, pack), PacketOf(column, pack);
      memory[..] == Written(old(memory[..]), base,
                            AffineValues(src[..pack], old(weight[weightBase..weightBase + pack]), affine, convert, times))
    ensures Divides(pack, stride, column) ==>
              && column + pack <= weight.Length
              && Transferred(old(memory[..]), memory[..], row, stride, column,
                             AffineRow(src, old(weight[..]), column, pack, affine, convert, times))
  {
    PacketAtElement(row, stride, column, pack);
    PacketOfMultiple(column, pack);
    var weightBase := PacketOf(column, pack);
    var packet := AffineElements(src[..pack], weight[weightBase..weightBase + pack], affine, convert, times);
    StorePacket(memory, PacketBase(row, stride, column, pack), packet[..]);
    if Divides(pack, stride, column) {
      AffineRowIs(src, old(weight[..]), column, pack, affine, convert, times);
      WrittenAt(old(memory[..]), memory[..], row, stride, column,
                AffineRow(src, old(weight[..]), column, pack, affine, convert, times), Element(row, stride, column));
    }
  }

  // ----- Round trip -----------------------------------------------------------------------------

  // What was written is there to be read, and inverse conversions give it back.
  lemma WrittenIsRead<S, T>(memory: seq<T>, at: nat, values: seq<S>, store: S -> T, load: T -> S)
    requires at + |values| <= |memory|
    requires forall i :: 0 <= i < |values| ==> load(store(values[i])) == values[i]
    ensures
      var after := Written(memory, at, Converted(values, store));
      Converted(after[at..at + |values|], load) == values
  {
    var after := Written(memory, at, Converted(values, store));
    assert after[at..at + |values|] == Converted(values, store);
  }

  lemma DisjointKept<T>(memory: seq<T>, a: nat, b: nat, n: nat, values: seq<T>)
    requires n == |values| && a + n <= |memory| && b + n <= |memory| && (a + n <= b || b + n <= a)
    ensures Written(memory, a, values)[b..b + n] == memory[b..b + n]
  {
  }

  lemma PacketsApart(p: nat, q: nat, pack: nat)
    requires p < q
    ensures p * pack + pack <= q * pack
  {
    MulMonotone(p + 1, q, pack);
  }

  // Transfers of different packets do not disturb each other.
  lemma OtherPacketKept<T>(memory: seq<T>, p: nat, q: nat, pack: nat, values: seq<T>)
    requires |values| == pack > 0 && p != q && p * pack + pack <= |memory| && q * pack + pack <= |memory|
    ensures Written(memory, p * pack, values)[q * pack..q * pack + pack] == memory[q * pack..q * pack + pack]
  {
    if p < q {
      PacketsApart(p, q, pack);
    } else {
      PacketsApart(q, p, pack);
    }
    DisjointKept(memory, p * pack, q * pack, pack, values);
  }

  // Two packets written, and the first one read.
  lemma FirstOfTwoRead<S, T>(memory: seq<T>, at: nat, values: seq<S>, otherAt: nat, others: seq<S>, pack: nat, store: S -> T, load: T -> S)
    requires pack > 0 && |values| == |others| == pack && PacketOf(at, pack) != PacketOf(otherAt, pack)
    requires PacketOf(at, pack) + pack <= |memory| && PacketOf(otherAt, pack) + pack <= |memory|
    requires forall i :: 0 <= i < pack ==> load(store(values[i])) == values[i]
    ensures
      var base := PacketOf(at, pack);
      var after := Written(Written(memory, base, Converted(values, store)), PacketOf(otherAt, pack), Converted(others, store));
      Converted(after[base..base + pack], load) == values
  {
    WrittenIsRead(memory, PacketOf(at, pack), values, store, load);
    OtherPacketKept(Written(memory, PacketOf(at, pack), Converted(values, store)), otherAt / pack, at / pack, pack,
                    Converted(others, store));
  }

  // A store and a load at one row and column give back what was stored, aligned or not, whatever is stored to
  // another packet in between.
  method StoreThenLoad<S, T(0)>(memory: array<T>, row: nat, stride: nat, column: nat, pack: nat, store: S -> T, load: T -> S,
                                src: seq<S>, otherRow: nat, otherColumn: nat, other: seq<S>, dst: array<S>)
    requires pack > 0 && pack <= |src| && pack <= |other| && pack <= dst.Length
    requires PacketBase(row, stride, column, pack) + pack <= memory.Length
    requires PacketBase(otherRow, stride, otherColumn, pack) + pack <= memory.Length
    requires PacketBase(row, stride, column, pack) != PacketBase(otherRow, stride, otherColumn, pack)
    requires forall i :: 0 <= i < pack ==> load(store(src[i])) == src[i]
    requires memory as object != dst
    modifies memory, dst
    ensures dst[..pack] == src[..pack] && dst[pack..] == old(dst[pack..])
  {
    FirstOfTwoRead(memory[..], Element(row, stride, column), src[..pack], Element(otherRow, stride, otherColumn), other[..pack],
                   pack, store, load);
    Store(memory, row, stride, column, pack, store, src);
    Store(memory, otherRow, stride, otherColumn, pack, store, other);
    Load(memory, row, stride, column, pack, load, dst);
  }
}
