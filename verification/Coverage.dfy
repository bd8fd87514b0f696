// The loop nests that a kernel may be replaced for, and the guard emitted around the replacement
// (src/DavC310TargetRecipe.cpp:6426-6930, 7215-7283, 7322-7383, 12035-12077).
module Coverage {
  import opened Arithmetic

  // ----- Strided loops --------------------------------------------------------------------------

  // Iteration i of a loop from start by stride.
  function Strided(start: nat, stride: nat, i: nat): (v: nat)
  {
    MulMonotone(0, i, stride);
    start + i * stride
  }

  // Loops from each of 0, ..., stride - 1 by stride share out the naturals.
  lemma StridedOnce(start: nat, stride: nat, i: nat, v: nat)
    requires start < stride
    ensures v == Strided(start, stride, i) <==> start == v % stride && i == v / stride
  {
    if v == start + i * stride {
      DivModUnique(v, i, start, stride);
    } else {
      DivModIdentity(v, stride);
    }
  }

  // ----- Block kernels --------------------------------------------------------------------------

  // One block of threads to a row at a time; each thread moves packs of elements.
  datatype BlockNest = BlockNest(blocks: nat, blockSize: nat, pack: nat, rows: nat, columns: nat) {
    predicate Valid() {
      blocks > 0 && blockSize > 0 && pack > 0
    }

    // The guard's columns % pack == 0.
    predicate Guard()
      requires Valid()
    {
      rows > 0 && columns > 0 && columns % pack == 0
    }
  }

  // Where in the nest an access happens: the block and thread, the iterations of the row and pack loops, and
  // the element of its pack.
  datatype BlockPlace = BlockPlace(block: nat, thread: nat, outer: nat, inner: nat, element: nat)

  // The nest touches (row, column) there (lines 6426-6481).
  predicate BlockVisits(k: BlockNest, at: BlockPlace, row: nat, column: nat)
    requires k.Valid()
  {
    && at.block < k.blocks && at.thread < k.blockSize && at.element < k.pack
    && row == Strided(at.block, k.blocks, at.outer) && row < k.rows
    && var packIndex := Strided(at.thread, k.blockSize, at.inner);
       packIndex < k.columns / k.pack && column == Strided(at.element, k.pack, packIndex)
  }

  // The one place that can touch an element.
  function BlockPlaceOf(k: BlockNest, row: nat, column: nat): BlockPlace
    requires k.Valid()
  {
    var slot: nat := column / k.pack;
    BlockPlace(row % k.blocks, slot % k.blockSize, row / k.blocks, slot / k.blockSize, column % k.pack)
  }

  lemma BlockVisitsOnce(k: BlockNest, at: BlockPlace, row: nat, column: nat)
    requires k.Valid()
    ensures BlockVisits(k, at, row, column) <==>
            at == BlockPlaceOf(k, row, column) && row < k.rows && column / k.pack < k.columns / k.pack
  {
    if at.block < k.blocks && at.thread < k.blockSize && at.element < k.pack {
      StridedOnce(at.block, k.blocks, at.outer, row);
      var packIndex := Strided(at.thread, k.blockSize, at.inner);
      StridedOnce(at.element, k.pack, packIndex, column);
      StridedOnce(at.thread, k.blockSize, at.inner, column / k.pack);
    }
  }

  // A column is in a whole pack exactly when the matrix has it, for packs that divide the columns.
  lemma WholePack(column: nat, columns: nat, pack: nat)
    requires pack > 0
    ensures column / pack < columns / pack ==> column < columns
    ensures columns % pack == 0 ==> (column / pack < columns / pack <==> column < columns)
  {
    DivModIdentity(column, pack);
    DivModIdentity(columns, pack);
    if column / pack < columns / pack {
      MulMonotone(column / pack + 1, columns / pack, pack);
    } else {
      MulMonotone(columns / pack, column / pack, pack);
    }
  }

  // ----- Exact covers ---------------------------------------------------------------------------

  // Each element of the matrix is touched in one place alone, and nothing else is touched.
  ghost predicate ExactCover<P(!new)>(visits: (P, nat, nat) -> bool, rows: nat, columns: nat) {
    && (forall row: nat, column: nat :: row < rows && column < columns ==> TouchedOnce(visits, row, column))
    && (forall at, row: nat, column: nat :: visits(at, row, column) ==> row < rows && column < columns)
  }

  ghost predicate TouchedOnce<P(!new)>(visits: (P, nat, nat) -> bool, row: nat, column: nat) {
    exists at :: visits(at, row, column) && forall other :: visits(other, row, column) ==> other == at
  }

  ghost function BlockCover(k: BlockNest): (BlockPlace, nat, nat) -> bool
    requires k.Valid()
  {
    (at: BlockPlace, row: nat, column: nat) => BlockVisits(k, at, row, column)
  }

  // A block kernel covers its matrix exactly when packs divide the columns, as the guard asks.
  lemma BlockCoverage(k: BlockNest)
    requires k.Valid()
    ensures k.rows > 0 ==> (ExactCover(BlockCover(k), k.rows, k.columns) <==> k.columns % k.pack == 0)
    ensures k.Guard() <==> k.rows > 0 && k.columns > 0 && ExactCover(BlockCover(k), k.rows, k.columns)
  {
    var visits := BlockCover(k);
    forall at, row: nat, column: nat | visits(at, row, column)
      ensures row < k.rows && column < k.columns
    {
      BlockVisitsOnce(k, at, row, column);
      WholePack(column, k.columns, k.pack);
    }
    if k.columns % k.pack == 0 {
      forall row: nat, column: nat | row < k.rows && column < k.columns
        ensures TouchedOnce(visits, row, column)
      {
        WholePack(column, k.columns, k.pack);
        forall at
          ensures visits(at, row, column) <==> at == BlockPlaceOf(k, row, column)
        {
          BlockVisitsOnce(k, at, row, column);
        }
        assert visits(BlockPlaceOf(k, row, column), row, column);
      }
    } else if k.rows > 0 {
      LastColumn(k.columns, k.pack);
      var row, column: nat := 0, k.columns - 1;
      forall at
        ensures !visits(at, row, column)
      {
        BlockVisitsOnce(k, at, row, column);
      }
      assert !TouchedOnce(visits, row, column);
    }
  }

  // The last column of a matrix whose columns are not whole packs is in no whole pack.
  lemma LastColumn(columns: nat, pack: nat)
    requires pack > 0 && columns % pack != 0
    ensures columns > 0 && (columns - 1) / pack == columns / pack
  {
    DivModIdentity(columns, pack);
    if columns == 0 {
      DivModUnique(columns, 0, 0, pack);
    }
    DivModUnique(columns - 1, columns / pack, columns % pack - 1, pack);
  }

  // ----- Warp kernels ---------------------------------------------------------------------------

  datatype Family = Softmax | LayerNorm | Rms

  // The pack loops an access may stand in: up to the minimum columns per thread, from there to the maximum, or
  // up to the maximum.
  datatype PackLoop = Least | Rest | Whole

  // Whether the access stands in a padding test, in its first branch or in its else branch.
  datatype Test = Untested | Inside | Outside

  // One access of the kernel.  tail: RMS norm's skip of the rows past the matrix comes before it.  turns: how
  // often other loops around it repeat it.  The recogniser asks for none of these in particular.
  datatype Access = Access(loop: PackLoop, test: Test, tail: bool, turns: nat)

  // groups: the thread groups of a block.  width: the threads of a group.  maximum and minimum: the template's
  // columns per thread.  accesses: the stores, or the loads of one pass over the row.
  datatype WarpNest = WarpNest(family: Family, blocks: nat, groups: nat, width: nat, pack: nat, maximum: nat, minimum: nat,
                               rowsPerAccess: nat, padding: bool, rows: nat, columns: nat, accesses: seq<Access>) {
    predicate Valid() {
      && blocks > 0 && groups > 0 && width > 0 && pack > 0 && rowsPerAccess > 0
      && maximum % pack == 0 && minimum % pack == 0
      && forall a :: a in accesses ==> Allowed(a)
    }

    // What the recogniser asks of an access (lines 6845-6913 and 7322-7383).
    predicate Allowed(a: Access) {
      && (a.loop.Whole? <==> family.Softmax?)
      && (a.tail ==> family.Rms?)
    }

    // A matrix of whole packs.
    predicate Packed()
      requires Valid()
    {
      rows > 0 && columns > 0 && columns % pack == 0
    }

    // The condition emitted around the replacement.
    predicate Guard()
      requires Valid()
    {
      && rows > 0 && columns > 0 && columns % pack == 0 && columns <= maximum * width
      && if family.Softmax? then (padding || columns == maximum * width) && rows % rowsPerAccess == 0
         else if padding then columns > minimum * width
         else columns == maximum * width
    }
  }

  // The block, thread group and lane; the iterations of the outer, row and pack loops; the element; the access
  // and its repetition.
  datatype WarpPlace = WarpPlace(block: nat, group: nat, lane: nat, outer: nat, inner: nat, packIndex: nat, element: nat,
                                 access: nat, turn: nat)

  function Ceiling(rows: nat, rowsPerAccess: nat): nat
    requires rowsPerAccess > 0
  {
    (rows + rowsPerAccess - 1) / rowsPerAccess
  }

  // The row loops (lines 6532-6615 and 6657-6692).  Softmax and layer norm step over rows and stop when the
  // first row of an access is past the matrix; RMS norm steps over row groups and may skip the rows past it.
  predicate RowVisited(k: WarpNest, a: Access, at: WarpPlace, row: nat)
    requires k.Valid()
  {
    && at.block < k.blocks && at.group < k.groups && at.inner < k.rowsPerAccess
    && (a.tail ==> row < k.rows)
    && if k.family.Rms? then
         var outerRow := at.block * k.groups + at.group + at.outer * (k.blocks * k.groups);
         outerRow < Ceiling(k.rows, k.rowsPerAccess) && row == outerRow * k.rowsPerAccess + at.inner
       else
         var outerRow := (at.block * k.groups + at.group) * k.rowsPerAccess + at.outer * (k.blocks * k.groups * k.rowsPerAccess);
         outerRow < k.rows && row == outerRow + at.inner
  }

  // The iterations of the pack loops.
  predicate Iterates(k: WarpNest, loop: PackLoop, packIndex: nat)
    requires k.Valid()
  {
    match loop
    case Least => packIndex < k.minimum / k.pack
    case Rest => k.minimum / k.pack <= packIndex < k.maximum / k.pack
    case Whole => packIndex < k.maximum / k.pack
  }

  // !padding || column < columns, for the pack's first column (lines 7215-7283).
  predicate Passes(k: WarpNest, test: Test, first: nat) {
    match test
    case Untested => true
    case Inside => !k.padding || first < k.columns
    case Outside => k.padding && first >= k.columns
  }

  // The pack loops (lines 6631-6655 and 6845-6913).
  predicate ColumnVisited(k: WarpNest, a: Access, at: WarpPlace, column: nat)
    requires k.Valid()
  {
    && at.lane < k.width && at.element < k.pack
    && var first := Strided(0, k.pack, Strided(at.lane, k.width, at.packIndex));
       column == first + at.element && Iterates(k, a.loop, at.packIndex) && Passes(k, a.test, first)
  }

  predicate WarpVisits(k: WarpNest, at: WarpPlace, row: nat, column: nat)
    requires k.Valid()
  {
    && at.access < |k.accesses|
    && var a := k.accesses[at.access];
       at.turn < a.turns && RowVisited(k, a, at, row) && ColumnVisited(k, a, at, column)
  }

  // The outer loops of the two kinds run through the same row groups.
  lemma OuterRow(a: nat, outer: nat, stride: nat, rowsPerAccess: nat)
    ensures a * rowsPerAccess + outer * (stride * rowsPerAccess) == (a + outer * stride) * rowsPerAccess
  {
  }

  // The groups of rows of one access, numbered through all blocks' thread groups and iterations.
  lemma GroupOnce(k: WarpNest, at: WarpPlace, g: nat)
    requires k.Valid() && at.block < k.blocks && at.group < k.groups
    ensures k.blocks * k.groups > 0
    ensures g == at.block * k.groups + at.group + at.outer * (k.blocks * k.groups) <==> GroupPlace(k, at, g)
  {
    var a, stride := at.block * k.groups + at.group, k.blocks * k.groups;
    MulMonotone(0, at.block, k.groups);
    MulMonotone(at.block + 1, k.blocks, k.groups);
    StridedOnce(a, stride, at.outer, g);
    StridedOnce(at.group, k.groups, at.block, g % stride);
    assert Strided(at.group, k.groups, at.block) == a;
  }

  ghost predicate GroupPlace(k: WarpNest, at: WarpPlace, g: nat)
    requires k.groups > 0 && k.blocks * k.groups > 0
  {
    && at.outer == g / (k.blocks * k.groups)
    && at.block == g % (k.blocks * k.groups) / k.groups
    && at.group == g % (k.blocks * k.groups) % k.groups
  }

  // The rows an access reaches: whole groups that start in the matrix, less the rows skipped.
  predicate RowIn(k: WarpNest, a: Access, row: nat)
    requires k.Valid()
  {
    row / k.rowsPerAccess * k.rowsPerAccess < k.rows && (a.tail ==> row < k.rows)
  }

  lemma RowOnce(k: WarpNest, a: Access, at: WarpPlace, row: nat)
    requires k.Valid() && at.block < k.blocks && at.group < k.groups && at.inner < k.rowsPerAccess
    ensures k.blocks * k.groups > 0
    ensures RowVisited(k, a, at, row) <==>
            GroupPlace(k, at, row / k.rowsPerAccess) && at.inner == row % k.rowsPerAccess && RowIn(k, a, row)
  {
    var group := at.block * k.groups + at.group + at.outer * (k.blocks * k.groups);
    GroupOnce(k, at, row / k.rowsPerAccess);
    MulMonotone(0, at.block, k.groups);
    MulMonotone(0, at.outer, k.blocks * k.groups);
    StridedOnce(at.inner, k.rowsPerAccess, group, row);
    if k.family.Rms? {
      CeilingReaches(row / k.rowsPerAccess, k.rows, k.rowsPerAccess);
    } else {
      RowOfGroup(k, at);
      assert row == group * k.rowsPerAccess + at.inner ==> group == row / k.rowsPerAccess;
    }
  }

  lemma RowOfGroup(k: WarpNest, at: WarpPlace)
    requires k.Valid()
    ensures (at.block * k.groups + at.group) * k.rowsPerAccess + at.outer * (k.blocks * k.groups * k.rowsPerAccess)
            == (at.block * k.groups + at.group + at.outer * (k.blocks * k.groups)) * k.rowsPerAccess
  {
    OuterRow(at.block * k.groups + at.group, at.outer, k.blocks * k.groups, k.rowsPerAccess);
  }

  // A row group is one of those counted exactly when it starts in the matrix.
  lemma CeilingReaches(group: nat, rows: nat, rowsPerAccess: nat)
    requires rowsPerAccess > 0
    ensures group < Ceiling(rows, rowsPerAccess) <==> group * rowsPerAccess < rows
  {
    DivModIdentity(rows + rowsPerAccess - 1, rowsPerAccess);
    if group < Ceiling(rows, rowsPerAccess) {
      MulMonotone(group + 1, Ceiling(rows, rowsPerAccess), rowsPerAccess);
    } else {
      MulMonotone(Ceiling(rows, rowsPerAccess), group, rowsPerAccess);
    }
  }

  // The columns an access reaches.
  predicate ColumnIn(k: WarpNest, a: Access, column: nat)
    requires k.Valid()
  {
    var slot := column / k.pack;
    Iterates(k, a.loop, slot / k.width) && Passes(k, a.test, Strided(0, k.pack, slot))
  }

  lemma ColumnOnce(k: WarpNest, a: Access, at: WarpPlace, column: nat)
    requires k.Valid() && at.lane < k.width && at.element < k.pack
    ensures ColumnVisited(k, a, at, column) <==>
            && at.lane == column / k.pack % k.width && at.packIndex == column / k.pack / k.width
            && at.element == column % k.pack && ColumnIn(k, a, column)
  {
    StridedOnce(at.element, k.pack, Strided(at.lane, k.width, at.packIndex), column);
    StridedOnce(at.lane, k.width, at.packIndex, column / k.pack);
  }

  // The one place where a repetition of an access can touch an element.
  function WarpPlaceOf(k: WarpNest, row: nat, column: nat, access: nat, turn: nat): WarpPlace
    requires k.Valid() && k.blocks * k.groups > 0
  {
    var group: nat, slot: nat, stride: nat := row / k.rowsPerAccess, column / k.pack, k.blocks * k.groups;
    var chosen: nat := group % stride;
    WarpPlace(chosen / k.groups, chosen % k.groups, slot % k.width, group / stride, row % k.rowsPerAccess, slot / k.width,
              column % k.pack, access, turn)
  }

  lemma PlaceInRange(k: WarpNest, row: nat, column: nat, access: nat, turn: nat)
    requires k.Valid()
    ensures k.blocks * k.groups > 0
    ensures
      var at := WarpPlaceOf(k, row, column, access, turn);
      at.block < k.blocks && at.group < k.groups && at.lane < k.width && at.inner < k.rowsPerAccess && at.element < k.pack
  {
    MulMonotone(1, k.blocks, k.groups);
    var a := row / k.rowsPerAccess % (k.blocks * k.groups);
    DivModIdentity(row / k.rowsPerAccess, k.blocks * k.groups);
    DivModIdentity(a, k.groups);
    if a / k.groups >= k.blocks {
      MulMonotone(k.blocks, a / k.groups, k.groups);
    }
  }

  lemma WarpVisitsOnce(k: WarpNest, at: WarpPlace, row: nat, column: nat)
    requires k.Valid()
    ensures k.blocks * k.groups > 0
    ensures WarpVisits(k, at, row, column) <==>
            && at == WarpPlaceOf(k, row, column, at.access, at.turn)
            && at.access < |k.accesses| && at.turn < k.accesses[at.access].turns
            && RowIn(k, k.accesses[at.access], row) && ColumnIn(k, k.accesses[at.access], column)
  {
    PlaceInRange(k, row, column, at.access, at.turn);
    if at.block < k.blocks && at.group < k.groups && at.inner < k.rowsPerAccess && at.lane < k.width && at.element < k.pack
       && at.access < |k.accesses| {
      RowOnce(k, k.accesses[at.access], at, row);
      ColumnOnce(k, k.accesses[at.access], at, column);
    }
  }

  // ----- Columns as intervals -------------------------------------------------------------------

  // A quotient is below a bound exactly when the number is below that many divisors.
  lemma QuotientBelow(n: nat, d: nat, q: nat)
    requires d > 0
    ensures n / d < q <==> n < q * d
  {
    DivModIdentity(n, d);
    if n / d < q {
      MulMonotone(n / d + 1, q, d);
    } else {
      MulMonotone(q, n / d, d);
    }
  }

  lemma WidthOfPacks(q: int, width: int, pack: int)
    ensures q * (width * pack) == q * pack * width
  {
  }

  lemma TwiceDivided(column: nat, pack: nat, width: nat)
    requires pack > 0 && width > 0
    ensures width * pack > 0 && column / pack / width == column / (width * pack)
  {
    MulMonotone(1, width, pack);
    var slot, q := column / pack, column / pack / width;
    DivModIdentity(column, pack);
    DivModIdentity(slot, width);
    MulMonotone(slot % width + 1, width, pack);
    MulMonotone(0, slot % width, pack);
    assert slot * pack == q * width * pack + slot % width * pack;
    assert q * width * pack == q * (width * pack);
    DivModUnique(column, q, slot % width * pack + column % pack, width * pack);
  }

  // The columns of the first packs of every thread.
  lemma PacksBelow(width: nat, perThread: nat, pack: nat, column: nat)
    requires width > 0 && pack > 0 && perThread % pack == 0
    ensures column / pack / width < perThread / pack <==> column < perThread * width
  {
    var q := perThread / pack;
    DivModIdentity(perThread, pack);
    MulMonotone(0, q, pack);
    TwiceDivided(column, pack, width);
    QuotientBelow(column, width * pack, q);
    WidthOfPacks(q, width, pack);
  }

  // A pack starts inside the matrix exactly when all of it is.
  lemma PackStarts(column: nat, columns: nat, pack: nat)
    requires pack > 0 && columns % pack == 0
    ensures column / pack * pack < columns <==> column < columns
  {
    DivModIdentity(column, pack);
    DivModIdentity(columns, pack);
    if column >= columns {
      if column / pack < columns / pack {
        MulMonotone(column / pack + 1, columns / pack, pack);
      }
      MulMonotone(columns / pack, column / pack, pack);
    }
  }

  // The first column of an access, and the first one behind it.
  function Low(k: WarpNest, a: Access): int {
    var start := if a.loop.Rest? then k.minimum * k.width else 0;
    if a.test.Outside? && k.padding && start < k.columns then k.columns else start
  }

  function High(k: WarpNest, a: Access): int {
    var end := if a.loop.Least? then k.minimum * k.width else k.maximum * k.width;
    if a.test.Outside? && !k.padding then 0
    else if a.test.Inside? && k.padding && k.columns < end then k.columns
    else end
  }

  lemma AccessColumns(k: WarpNest, a: Access, column: nat)
    requires k.Valid() && k.columns % k.pack == 0
    ensures ColumnIn(k, a, column) <==> Low(k, a) <= column < High(k, a)
  {
    PacksBelow(k.width, k.minimum, k.pack, column);
    PacksBelow(k.width, k.maximum, k.pack, column);
    PackStarts(column, k.columns, k.pack);
  }

  // The access touches something.
  predicate Reaches(k: WarpNest, a: Access) {
    a.turns > 0 && Low(k, a) < High(k, a)
  }

  // Row groups are whole, or the rows past the matrix are skipped.
  predicate WholeRows(k: WarpNest, a: Access)
    requires k.Valid()
  {
    a.tail || k.rows % k.rowsPerAccess == 0
  }

  lemma AccessRows(k: WarpNest, a: Access, row: nat)
    requires k.Valid()
    ensures row < k.rows ==> RowIn(k, a, row)
    ensures WholeRows(k, a) ==> (RowIn(k, a, row) <==> row < k.rows)
    ensures !WholeRows(k, a) ==> RowIn(k, a, k.rows)
  {
    DivModIdentity(row, k.rowsPerAccess);
    DivModIdentity(k.rows, k.rowsPerAccess);
    if k.rows % k.rowsPerAccess == 0 {
      PackStarts(row, k.rows, k.rowsPerAccess);
    }
  }

  // ----- The cover ------------------------------------------------------------------------------

  ghost function WarpCover(k: WarpNest): (WarpPlace, nat, nat) -> bool
    requires k.Valid()
  {
    (at: WarpPlace, row: nat, column: nat) => WarpVisits(k, at, row, column)
  }

  // A repetition of an access touches the element.
  predicate Touches(k: WarpNest, access: nat, turn: nat, row: nat, column: nat)
    requires k.Valid()
  {
    && access < |k.accesses| && turn < k.accesses[access].turns && RowIn(k, k.accesses[access], row)
    && Low(k, k.accesses[access]) <= column < High(k, k.accesses[access])
  }

  lemma TouchesAt(k: WarpNest, access: nat, turn: nat, row: nat, column: nat) returns (at: WarpPlace)
    requires k.Valid() && k.columns % k.pack == 0 && Touches(k, access, turn, row, column)
    ensures WarpVisits(k, at, row, column) && at.access == access && at.turn == turn
  {
    PlaceInRange(k, row, column, access, turn);
    at := WarpPlaceOf(k, row, column, access, turn);
    AccessColumns(k, k.accesses[access], column);
    WarpVisitsOnce(k, at, row, column);
  }

  lemma VisitTouches(k: WarpNest, at: WarpPlace, row: nat, column: nat)
    requires k.Valid() && k.columns % k.pack == 0 && WarpVisits(k, at, row, column)
    ensures k.blocks * k.groups > 0 && at == WarpPlaceOf(k, row, column, at.access, at.turn)
    ensures Touches(k, at.access, at.turn, row, column)
  {
    WarpVisitsOnce(k, at, row, column);
    AccessColumns(k, k.accesses[at.access], column);
  }

  // The accesses that touch anything are one that has all the columns, or two that share them out.
  ghost predicate Tiles(k: WarpNest) {
    || (exists i: nat :: OneTile(k, i))
    || (exists i: nat, j: nat :: TwoTiles(k, i, j))
  }

  ghost predicate OneTile(k: WarpNest, i: nat) {
    && i < |k.accesses| && k.accesses[i].turns == 1
    && Low(k, k.accesses[i]) == 0 && High(k, k.accesses[i]) == k.columns
    && forall l :: 0 <= l < |k.accesses| && l != i ==> !Reaches(k, k.accesses[l])
  }

  ghost predicate TwoTiles(k: WarpNest, i: nat, j: nat) {
    && i < |k.accesses| && j < |k.accesses| && i != j && k.accesses[i].turns == k.accesses[j].turns == 1
    && Low(k, k.accesses[i]) == 0 < High(k, k.accesses[i]) == Low(k, k.accesses[j]) < High(k, k.accesses[j]) == k.columns
    && forall l :: 0 <= l < |k.accesses| && l != i && l != j ==> !Reaches(k, k.accesses[l])
  }

  ghost predicate AllRowsWhole(k: WarpNest)
    requires k.Valid()
  {
    forall i :: 0 <= i < |k.accesses| && Reaches(k, k.accesses[i]) ==> WholeRows(k, k.accesses[i])
  }

  // Under the guard a warp kernel covers its matrix exactly, if and only if its accesses share out the columns
  // and none of them goes on to rows past the matrix.
  lemma WarpCoverage(k: WarpNest)
    requires k.Valid() && k.Guard()
    ensures ExactCover(WarpCover(k), k.rows, k.columns) <==> Tiles(k) && AllRowsWhole(k)
  {
    if ExactCover(WarpCover(k), k.rows, k.columns) {
      CoverTiles(k);
    } else if Tiles(k) && AllRowsWhole(k) {
      TilesCover(k);
    }
  }

  // One access, once, touches each column of a tiled matrix.
  lemma TileOf(k: WarpNest, column: nat) returns (i: nat)
    requires k.Valid() && Tiles(k) && column < k.columns
    ensures i < |k.accesses| && k.accesses[i].turns == 1 && Low(k, k.accesses[i]) <= column < High(k, k.accesses[i])
    ensures forall l :: 0 <= l < |k.accesses| && l != i && k.accesses[l].turns > 0 ==>
                          !(Low(k, k.accesses[l]) <= column < High(k, k.accesses[l]))
  {
    if x: nat :| OneTile(k, x) {
      i := x;
    } else {
      var x: nat, y: nat :| TwoTiles(k, x, y);
      i := if column < High(k, k.accesses[x]) then x else y;
    }
  }

  lemma TilesInside(k: WarpNest, l: nat)
    requires k.Valid() && Tiles(k) && l < |k.accesses| && Reaches(k, k.accesses[l])
    ensures High(k, k.accesses[l]) <= k.columns
  {
  }

  lemma TilesCover(k: WarpNest)
    requires k.Valid() && k.Packed() && Tiles(k) && AllRowsWhole(k)
    ensures ExactCover(WarpCover(k), k.rows, k.columns)
  {
    var visits := WarpCover(k);
    forall at, row: nat, column: nat | visits(at, row, column)
      ensures row < k.rows && column < k.columns
    {
      VisitTouches(k, at, row, column);
      TilesInside(k, at.access);
      AccessRows(k, k.accesses[at.access], row);
    }
    forall row: nat, column: nat | row < k.rows && column < k.columns
      ensures TouchedOnce(visits, row, column)
    {
      var i := TileOf(k, column);
      AccessRows(k, k.accesses[i], row);
      var at := TouchesAt(k, i, 0, row, column);
      VisitTouches(k, at, row, column);
      forall other | visits(other, row, column)
        ensures other == at
      {
        VisitTouches(k, other, row, column);
      }
      assert visits(at, row, column);
    }
  }

  ghost predicate Exact(k: WarpNest)
    requires k.Valid()
  {
    k.Packed() && ExactCover(WarpCover(k), k.rows, k.columns)
  }

  // In an exact cover nothing is touched twice, and nothing outside the matrix.
  lemma TouchedBySame(k: WarpNest, i: nat, t: nat, j: nat, u: nat, row: nat, column: nat)
    requires k.Valid() && Exact(k) && Touches(k, i, t, row, column) && Touches(k, j, u, row, column)
    ensures i == j && t == u && row < k.rows && column < k.columns
  {
    var visits := WarpCover(k);
    var a := TouchesAt(k, i, t, row, column);
    var b := TouchesAt(k, j, u, row, column);
    assert visits(a, row, column) && visits(b, row, column);
    assert TouchedOnce(visits, row, column);
  }

  lemma FirstTouch(k: WarpNest, i: nat)
    requires k.Valid() && k.Packed() && i < |k.accesses| && Reaches(k, k.accesses[i])
    ensures Low(k, k.accesses[i]) >= 0 && Touches(k, i, 0, 0, Low(k, k.accesses[i]))
  {
    MulMonotone(0, k.minimum, k.width);
    AccessRows(k, k.accesses[i], 0);
  }

  // An access of an exact cover comes once, stays in the columns and in the rows.
  lemma ExactAccess(k: WarpNest, i: nat)
    requires k.Valid() && Exact(k) && i < |k.accesses| && Reaches(k, k.accesses[i])
    ensures k.accesses[i].turns == 1 && High(k, k.accesses[i]) <= k.columns && WholeRows(k, k.accesses[i])
  {
    var a := k.accesses[i];
    FirstTouch(k, i);
    var low: nat := Low(k, a);
    if a.turns > 1 {
      TouchedBySame(k, i, 0, i, 1, 0, low);
    }
    if High(k, a) > k.columns {
      var beyond := if low < k.columns then k.columns else low;
      TouchedBySame(k, i, 0, i, 0, 0, beyond);
    }
    if !WholeRows(k, a) {
      AccessRows(k, a, 0);
      TouchedBySame(k, i, 0, i, 0, k.rows, low);
    }
  }

  lemma ExactApart(k: WarpNest, i: nat, j: nat)
    requires k.Valid() && Exact(k) && i < |k.accesses| && j < |k.accesses| && i != j
    requires Reaches(k, k.accesses[i]) && Reaches(k, k.accesses[j])
    ensures High(k, k.accesses[i]) <= Low(k, k.accesses[j]) || High(k, k.accesses[j]) <= Low(k, k.accesses[i])
  {
    var a, b := k.accesses[i], k.accesses[j];
    FirstTouch(k, i);
    FirstTouch(k, j);
    if Low(k, b) < High(k, a) && Low(k, a) < High(k, b) {
      var both := if Low(k, a) < Low(k, b) then Low(k, b) else Low(k, a);
      TouchedBySame(k, i, 0, j, 0, 0, both);
    }
  }

  // Some access of an exact cover has the column.
  lemma ExactReached(k: WarpNest, column: nat) returns (i: nat)
    requires k.Valid() && Exact(k) && column < k.columns
    ensures i < |k.accesses| && Reaches(k, k.accesses[i]) && Low(k, k.accesses[i]) <= column < High(k, k.accesses[i])
  {
    var visits, row: nat := WarpCover(k), 0;
    assert TouchedOnce(visits, row, column);
    var at :| visits(at, row, column);
    VisitTouches(k, at, row, column);
    i := at.access;
  }

  // The only end before the matrix's is that of the minimum.
  lemma EndsBefore(k: WarpNest, a: Access)
    requires k.Valid() && k.Guard() && Low(k, a) < High(k, a) < k.columns
    ensures High(k, a) == k.minimum * k.width
  {
    MulMonotone(0, k.minimum, k.width);
  }

  lemma CoverTiles(k: WarpNest)
    requires k.Valid() && Exact(k) && k.Guard()
    ensures Tiles(k) && AllRowsWhole(k)
  {
    forall i | 0 <= i < |k.accesses| && Reaches(k, k.accesses[i])
      ensures WholeRows(k, k.accesses[i])
    {
      ExactAccess(k, i);
    }
    var i := ExactReached(k, 0);
    ExactAccess(k, i);
    FirstTouch(k, i);
    if High(k, k.accesses[i]) == k.columns {
      FirstIsAll(k, i);
    } else {
      EndsBefore(k, k.accesses[i]);
      var j := ExactReached(k, High(k, k.accesses[i]));
      SecondIsRest(k, i, j);
    }
  }

  lemma FirstIsAll(k: WarpNest, i: nat)
    requires k.Valid() && Exact(k) && i < |k.accesses| && Reaches(k, k.accesses[i]) && k.accesses[i].turns == 1
    requires Low(k, k.accesses[i]) == 0 && High(k, k.accesses[i]) == k.columns
    ensures OneTile(k, i)
  {
    forall l | 0 <= l < |k.accesses| && l != i
      ensures !Reaches(k, k.accesses[l])
    {
      if Reaches(k, k.accesses[l]) {
        FirstTouch(k, l);
        ExactAccess(k, l);
        ExactApart(k, i, l);
      }
    }
  }

  lemma SecondIsRest(k: WarpNest, i: nat, j: nat)
    requires k.Valid() && Exact(k) && k.Guard() && i < |k.accesses| && Reaches(k, k.accesses[i]) && k.accesses[i].turns == 1
    requires Low(k, k.accesses[i]) == 0 && High(k, k.accesses[i]) == k.minimum * k.width < k.columns
    requires j < |k.accesses| && Reaches(k, k.accesses[j])
    requires Low(k, k.accesses[j]) <= High(k, k.accesses[i]) < High(k, k.accesses[j])
    ensures TwoTiles(k, i, j)
  {
    assert i != j;
    ExactAccess(k, j);
    ExactApart(k, i, j);
    if High(k, k.accesses[j]) < k.columns {
      EndsBefore(k, k.accesses[j]);
    }
    forall l | 0 <= l < |k.accesses| && l != i && l != j
      ensures !Reaches(k, k.accesses[l])
    {
      if Reaches(k, k.accesses[l]) {
        FirstTouch(k, l);
        ExactAccess(k, l);
        ExactApart(k, i, l);
        ExactApart(k, j, l);
      }
    }
  }

  // ----- Which kernels that is ------------------------------------------------------------------

  // One access in a loop up to the maximum: it is under the padding test, or the threads have no other columns.
  lemma WholeTiles(k: WarpNest, a: Access)
    requires k.Valid() && k.Guard() && k.accesses == [a] && a.loop.Whole?
    ensures Tiles(k) <==> a.turns == 1 && (a.test.Inside? || (a.test.Untested? && k.columns == k.maximum * k.width))
  {
    assert a in k.accesses;
    SingleTile(k, a);
  }

  // One access in the loop up to the minimum: that has all the columns, which with padding the guard excludes.
  lemma LeastTiles(k: WarpNest, a: Access)
    requires k.Valid() && k.Guard() && k.accesses == [a] && a.loop.Least?
    ensures Tiles(k) <==> a.turns == 1 && !a.test.Outside? && k.columns == k.minimum * k.width
    ensures Tiles(k) ==> !k.padding && k.minimum * k.width == k.maximum * k.width
  {
    assert a in k.accesses;
    SingleTile(k, a);
  }

  lemma SingleTile(k: WarpNest, a: Access)
    requires k.accesses == [a] && k.columns > 0
    ensures Tiles(k) <==> a.turns == 1 && Low(k, a) == 0 && High(k, a) == k.columns
  {
    assert k.accesses[0] == a;
    if a.turns == 1 && Low(k, a) == 0 && High(k, a) == k.columns {
      assert OneTile(k, 0);
    }
  }

  lemma TwoAccesses(k: WarpNest, a: Access, b: Access)
    requires k.accesses == [a, b] && k.columns > 0 && a.turns == b.turns == 1
    requires 0 == Low(k, a) <= High(k, a) && High(k, a) == Low(k, b)
    ensures Tiles(k) <==> if Reaches(k, b) then High(k, b) == k.columns else High(k, a) == k.columns
  {
    assert k.accesses[0] == a && k.accesses[1] == b;
    if Reaches(k, a) && Reaches(k, b) && High(k, b) == k.columns {
      assert TwoTiles(k, 0, 1);
    } else if !Reaches(k, b) && High(k, a) == k.columns {
      assert OneTile(k, 0);
    } else if !Reaches(k, a) && High(k, b) == k.columns {
      assert OneTile(k, 1);
    }
  }

  // An access in each of the two loops, neither in an else branch: the second one is under the padding test or
  // the threads have no other columns, and without padding the minimum is not above the maximum.
  lemma BothTiles(k: WarpNest, a: Access, b: Access)
    requires k.Valid() && k.Guard() && k.accesses == [a, b] && a.turns == b.turns == 1
    requires a.loop.Least? && b.loop.Rest? && !a.test.Outside? && !b.test.Outside?
    ensures Tiles(k) <==> && (b.test.Inside? || k.columns == k.maximum * k.width)
                          && (k.padding || k.minimum <= k.maximum)
  {
    assert a in k.accesses;
    MulMonotone(0, k.minimum, k.width);
    if k.minimum <= k.maximum {
      MulMonotone(k.minimum, k.maximum, k.width);
    } else {
      MulMonotone(k.maximum + 1, k.minimum, k.width);
    }
    TwoAccesses(k, a, b);
  }

  // ----- The guards of the usual kernels ---------------------------------------------------------

  // What an access does to one element of a pack it does to the next.
  lemma NextElement(k: WarpNest, at: WarpPlace, row: nat, column: nat)
    requires k.Valid() && WarpVisits(k, at, row, column) && (column + 1) % k.pack != 0
    ensures WarpVisits(k, at.(element := at.element + 1), row, column + 1)
  {
    WarpVisitsOnce(k, at, row, column);
    DivModIdentity(column, k.pack);
    if column % k.pack == k.pack - 1 {
      DivModUnique(column + 1, column / k.pack + 1, 0, k.pack);
    }
  }

  // Packs that do not divide the columns go on past the last one, whatever else the nest does.
  lemma CoverIsPacked(k: WarpNest)
    requires k.Valid() && k.rows > 0 && k.columns > 0 && ExactCover(WarpCover(k), k.rows, k.columns)
    ensures k.Packed()
  {
    var visits, row: nat, last: nat := WarpCover(k), 0, k.columns - 1;
    assert TouchedOnce(visits, row, last);
    var at :| visits(at, row, last);
    assert !visits(at.(element := at.element + 1), row, k.columns);
    if k.columns % k.pack != 0 {
      NextElement(k, at, row, last);
    }
  }

  // One access, once, covers the matrix exactly if it has all the columns.
  lemma SingleCover(k: WarpNest, a: Access)
    requires k.Valid() && k.Packed() && k.accesses == [a] && a.turns == 1
    ensures ExactCover(WarpCover(k), k.rows, k.columns) <==> Low(k, a) == 0 && High(k, a) == k.columns && WholeRows(k, a)
  {
    assert k.accesses[0] == a;
    if ExactCover(WarpCover(k), k.rows, k.columns) {
      var i := ExactReached(k, 0);
      var j := ExactReached(k, k.columns - 1);
      FirstTouch(k, i);
      ExactAccess(k, i);
    } else if Low(k, a) == 0 && High(k, a) == k.columns && WholeRows(k, a) {
      assert OneTile(k, 0);
      TilesCover(k);
    }
  }

  // Two accesses, the second from where the first one ends, cover the matrix exactly if the columns of both are
  // its columns.
  lemma PairCover(k: WarpNest, a: Access, b: Access)
    requires k.Valid() && k.Packed() && k.accesses == [a, b] && a.turns == b.turns == 1 && a.tail == b.tail
    requires Low(k, a) == 0 && Low(k, b) == High(k, a) >= 0
    ensures ExactCover(WarpCover(k), k.rows, k.columns) <==>
            (if Reaches(k, b) then High(k, b) == k.columns else High(k, a) == k.columns) && WholeRows(k, a)
  {
    assert k.accesses[0] == a && k.accesses[1] == b;
    if ExactCover(WarpCover(k), k.rows, k.columns) {
      PairColumns(k, a, b);
    } else {
      TwoAccesses(k, a, b);
      if Tiles(k) && WholeRows(k, a) {
        TilesCover(k);
      }
    }
  }

  lemma PairColumns(k: WarpNest, a: Access, b: Access)
    requires k.Valid() && Exact(k) && k.accesses == [a, b] && a.tail == b.tail
    requires Low(k, a) == 0 && Low(k, b) == High(k, a) >= 0
    ensures (if Reaches(k, b) then High(k, b) == k.columns else High(k, a) == k.columns) && WholeRows(k, a)
  {
    var j := ExactReached(k, k.columns - 1);
    ExactAccess(k, j);
    if Reaches(k, b) {
      ExactAccess(k, 1);
    }
  }

  lemma TimesPacked(perThread: nat, width: nat, pack: nat)
    requires pack > 0 && perThread % pack == 0
    ensures perThread * width >= 0 && perThread * width % pack == 0
  {
    DivModIdentity(perThread, pack);
    MulMonotone(0, perThread, width);
    var q := perThread / pack;
    assert perThread * width == q * width * pack;
    DivModUnique(perThread * width, q * width, 0, pack);
  }

  // The usual softmax kernel, one loop under the padding test, covers its matrix exactly when its guard lets the
  // matrix through.
  lemma SoftmaxCoverage(k: WarpNest)
    requires k.Valid() && k.rows > 0 && k.columns > 0
    requires k.family.Softmax? && k.accesses == [Access(Whole, Inside, false, 1)]
    ensures ExactCover(WarpCover(k), k.rows, k.columns) <==> k.Guard()
  {
    var a := k.accesses[0];
    if ExactCover(WarpCover(k), k.rows, k.columns) {
      CoverIsPacked(k);
    }
    if k.Packed() {
      SingleCover(k, a);
    }
  }

  // The columns that the two loops of the other kernels share out.
  predicate PairFits(k: WarpNest)
    requires k.Valid()
  {
    if k.padding then
      k.columns == k.minimum * k.width
      || (k.minimum * k.width < k.columns <= k.maximum * k.width && k.columns % k.pack == 0)
    else k.columns == (if k.minimum <= k.maximum then k.maximum else k.minimum) * k.width
  }

  lemma PairIntervals(k: WarpNest, a: Access, b: Access)
    requires k.Valid() && k.Packed() && a == Access(Least, Untested, b.tail, 1) && b == Access(Rest, Inside, b.tail, 1)
    ensures Low(k, a) == 0 && Low(k, b) == High(k, a) >= 0
    ensures PairFits(k) <==> if Reaches(k, b) then High(k, b) == k.columns else High(k, a) == k.columns
  {
    MulMonotone(0, k.minimum, k.width);
    if k.minimum <= k.maximum {
      MulMonotone(k.minimum, k.maximum, k.width);
    } else {
      MulMonotone(k.maximum + 1, k.minimum, k.width);
    }
  }

  lemma FitsPacked(k: WarpNest)
    requires k.Valid() && k.rows > 0 && k.columns > 0 && PairFits(k)
    ensures k.Packed()
  {
    TimesPacked(k.minimum, k.width, k.pack);
    TimesPacked(k.maximum, k.width, k.pack);
  }

  // The usual layer-norm and RMS kernels, a loop up to the minimum and a loop from there under the padding test,
  // cover their matrix exactly for such columns and whole row groups, which RMS norm's skip makes up for.
  lemma PairCoverage(k: WarpNest, tail: bool)
    requires k.Valid() && k.rows > 0 && k.columns > 0 && (if tail then k.family.Rms? else k.family.LayerNorm?)
    requires k.accesses == [Access(Least, Untested, tail, 1), Access(Rest, Inside, tail, 1)]
    ensures ExactCover(WarpCover(k), k.rows, k.columns) <==> PairFits(k) && (tail || k.rows % k.rowsPerAccess == 0)
  {
    var a, b := k.accesses[0], k.accesses[1];
    if ExactCover(WarpCover(k), k.rows, k.columns) {
      CoverIsPacked(k);
    } else if PairFits(k) {
      FitsPacked(k);
    }
    if k.Packed() {
      PairIntervals(k, a, b);
      PairCover(k, a, b);
    }
  }

  // So their guard is right for whole row groups, when without padding the minimum does not exceed the maximum;
  // and it refuses a matrix that they cover exactly when the minimum alone has all its columns.
  lemma PairGuard(k: WarpNest, tail: bool)
    requires k.Valid() && k.rows > 0 && k.columns > 0 && (if tail then k.family.Rms? else k.family.LayerNorm?)
    requires k.accesses == [Access(Least, Untested, tail, 1), Access(Rest, Inside, tail, 1)]
    ensures k.Guard() ==>
              (ExactCover(WarpCover(k), k.rows, k.columns) <==>
               (k.padding || k.minimum <= k.maximum) && (tail || k.rows % k.rowsPerAccess == 0))
    ensures ExactCover(WarpCover(k), k.rows, k.columns) ==>
              (k.Guard() <==> k.columns != k.minimum * k.width || (!k.padding && k.minimum == k.maximum))
  {
    PairCoverage(k, tail);
    if ExactCover(WarpCover(k), k.rows, k.columns) {
      CoverIsPacked(k);
    }
    if k.minimum < k.maximum {
      MulMonotone(k.minimum + 1, k.maximum, k.width);
    } else if k.minimum > k.maximum {
      MulMonotone(k.maximum + 1, k.minimum, k.width);
    }
  }

  // ----- Where the others go --------------------------------------------------------------------

  // Past the last row: the last access of a partial group goes on to the row after the matrix.
  lemma LeavesBelow(k: WarpNest, i: nat) returns (at: WarpPlace)
    requires k.Valid() && k.Packed() && i < |k.accesses| && Reaches(k, k.accesses[i]) && !WholeRows(k, k.accesses[i])
    ensures Low(k, k.accesses[i]) >= 0 && WarpVisits(k, at, k.rows, Low(k, k.accesses[i]))
  {
    FirstTouch(k, i);
    AccessRows(k, k.accesses[i], 0);
    at := TouchesAt(k, i, 0, k.rows, Low(k, k.accesses[i]));
  }

  // Past the last column: an access whose columns go on touches the column after the matrix.
  lemma LeavesRight(k: WarpNest, i: nat) returns (at: WarpPlace)
    requires k.Valid() && k.Packed() && i < |k.accesses| && Reaches(k, k.accesses[i])
    requires Low(k, k.accesses[i]) <= k.columns < High(k, k.accesses[i])
    ensures WarpVisits(k, at, 0, k.columns)
  {
    AccessRows(k, k.accesses[i], 0);
    at := TouchesAt(k, i, 0, 0, k.columns);
  }

  // An access without a padding test goes on to column 33 of 33.
  lemma UntestedLeaves(k: WarpNest) returns (at: WarpPlace)
    requires k == WarpNest(Softmax, 1, 1, 32, 1, 2, 0, 1, true, 1, 33, [Access(Whole, Untested, false, 1)])
    ensures k.Valid() && k.Guard() && WarpVisits(k, at, 0, k.columns)
  {
    at := LeavesRight(k, 0);
  }

  // An access in the loop up to the minimum alone never comes to column 32 of 33.
  lemma LeastMisses(k: WarpNest)
    requires k == WarpNest(LayerNorm, 1, 1, 32, 1, 2, 1, 1, true, 1, 33, [Access(Least, Untested, false, 1)])
    ensures k.Valid() && k.Guard() && forall at, row: nat :: !WarpVisits(k, at, row, 32)
  {
    forall at, row: nat
      ensures !WarpVisits(k, at, row, 32)
    {
      if WarpVisits(k, at, row, 32) {
        VisitTouches(k, at, row, 32);
      }
    }
  }

  // With the skip behind it, an access of RMS norm goes on to row 1 of 1.
  lemma LateSkipLeaves(k: WarpNest) returns (at: WarpPlace)
    requires k == WarpNest(Rms, 1, 1, 32, 1, 1, 0, 2, false, 1, 32, [Access(Rest, Inside, false, 1)])
    ensures k.Valid() && k.Guard() && WarpVisits(k, at, k.rows, 0)
  {
    at := LeavesBelow(k, 0);
  }

  // A layer-norm kernel's guard does not ask for whole row groups.
  lemma PartialGroupLeaves(k: WarpNest) returns (at: WarpPlace)
    requires k == WarpNest(LayerNorm, 1, 1, 32, 1, 1, 0, 2, false, 1, 32, [Access(Rest, Inside, false, 1)])
    ensures k.Valid() && k.Guard() && WarpVisits(k, at, k.rows, 0)
  {
    at := LeavesBelow(k, 0);
  }

  // Without padding no guard compares the two numbers of columns per thread.
  lemma MinimumAboveMaximum(k: WarpNest) returns (at: WarpPlace)
    requires k == WarpNest(Rms, 1, 1, 32, 1, 1, 2, 1, false, 1, 32, [Access(Least, Untested, true, 1), Access(Rest, Inside, true, 1)])
    ensures k.Valid() && k.Guard() && WarpVisits(k, at, 0, k.columns)
  {
    at := LeavesRight(k, 0);
  }
}
