/**
 * `CaveSystem` of 22/src/main.rs: a row-major grid of regions, filled first
 * with `Region::new` and then, column by column, with indices computed from
 * the erosion levels of the left and upper neighbours; its text picture;
 * and the danger index `main` sums over it.
 */
module Cave {
  import opened Wrappers
  import opened Word
  import opened Erosion

  /** The position of cell (x, y) in the row-major vector. */
  function Index(x: int, y: int, width: int): int {
    x + width * y
  }

  lemma {:induction false} MulMonotone(a: nat, b: nat, c: nat)
    requires b <= c
    ensures a * b <= a * c
  {
    if a > 0 {
      MulMonotone(a - 1, b, c);
    }
  }

  /** Cell (x, y) of a grid with `rows` rows lies inside it, and so does the rest of row y. */
  lemma IndexBounds(x: int, y: int, width: int, rows: int)
    requires 0 <= x < width && 0 <= y < rows
    ensures 0 <= Index(x, y, width) < width * rows
    ensures width * y + width <= width * rows
  {
    MulMonotone(width, y + 1, rows);
    assert width * (y + 1) == width * y + width;
  }

  /** Distinct cells occupy distinct positions. */
  lemma IndexInjective(x1: int, y1: int, x2: int, y2: int, width: int)
    requires 0 <= x1 < width && 0 <= x2 < width && 0 <= y1 && 0 <= y2
    requires Index(x1, y1, width) == Index(x2, y2, width)
    ensures x1 == x2 && y1 == y2
  {
    if y1 < y2 {
      IndexBounds(x1, y1, width, y2);
    } else if y2 < y1 {
      IndexBounds(x2, y2, width, y1);
    }
  }

  /** Every position of a width * height vector is some cell's. */
  lemma IndexCovers(i: int, width: int, height: int)
    requires 0 <= width && 0 <= height && 0 <= i < width * height
    ensures 0 < width && 0 <= i % width < width && 0 <= i / width < height
    ensures Index(i % width, i / width, width) == i
  {
    var q := i / width;
    assert i == width * q + i % width;
    if q >= height {
      MulMonotone(width, height, q);
      assert false;
    }
  }

  /**
   * Sizes for which building the cave neither overflows an i32 nor panics:
   * the row and column indices fit, and so does any product of two erosion
   * levels plus the depth.
   */
  predicate GridDefined(width: int, height: int, depth: Int32, target: (Int32, Int32)) {
    0 <= width <= I32_MAX && 0 <= height <= I32_MAX && 0 <= depth
    && (width - 1) * GEOLOGIC_X + depth <= I32_MAX
    && (height - 1) * GEOLOGIC_Y + depth <= I32_MAX
    && (width >= 2 && height >= 2 ==>
          (EROSION_MODULUS - 1) * (EROSION_MODULUS - 1) + depth <= I32_MAX)
  }

  lemma CellDefined(x: int, y: int, width: int, height: int, depth: Int32, target: (Int32, Int32))
    requires GridDefined(width, height, depth, target)
    requires 0 <= x < width && 0 <= y < height
    ensures InI32(x) && InI32(y) && NewRegionDefined(x, y, depth, target)
  {
    NonNegativeSumsCanBeSet(0, depth);
    NonNegativeSumsCanBeSet(x * GEOLOGIC_X, depth);
    NonNegativeSumsCanBeSet(y * GEOLOGIC_Y, depth);
  }

  lemma ProductInRange(a: int, b: int)
    requires 0 <= a < EROSION_MODULUS && 0 <= b < EROSION_MODULUS
    ensures 0 <= a * b <= (EROSION_MODULUS - 1) * (EROSION_MODULUS - 1)
  {
    MulMonotone(a, b, EROSION_MODULUS - 1);
    MulMonotone(EROSION_MODULUS - 1, a, EROSION_MODULUS - 1);
    MulMonotone(a, 0, b);
  }

  /** For a cell that is not the skipped corner, whether the interior pass sets it. */
  predicate Interior(x: int, y: int, width: int, height: int) {
    1 <= x && 1 <= y && (x, y) != (width - 1, height - 1)
  }

  /**
   * The region cell (x, y) holds once `CaveSystem::new` returns: the
   * interior pass sets every interior cell but the corner (width-1, height-1)
   * to the product of the erosion levels on its left and above; every other
   * cell keeps what `Region::new` gave it. Unless it is the unreached corner
   * with the target elsewhere, a cell has an erosion level in [0, 20182] and
   * a known type.
   */
  function CellAt(x: int, y: int, width: int, height: int, depth: Int32, target: (Int32, Int32)): (r: Region)
    requires GridDefined(width, height, depth, target)
    requires 0 <= x < width && 0 <= y < height
    ensures (!Interior(x, y, width, height) ==> r == NewRegion(x, y, depth, target))
    ensures (x == 0 || y == 0 || (x, y) != (width - 1, height - 1) || (x, y) == target) ==>
              r.erosionLevel.Some? && 0 <= r.erosionLevel.value < EROSION_MODULUS && r.t != Unknown
    decreases x + y
  {
    CellDefined(x, y, width, height, depth, target);
    if Interior(x, y, width, height) then
      var left := CellAt(x - 1, y, width, height, depth, target).erosionLevel.value;
      var above := CellAt(x, y - 1, width, height, depth, target).erosionLevel.value;
      ProductInRange(left, above);
      NonNegativeSumsCanBeSet(left * above, depth);
      NewRegion(x, y, depth, target).SetGeologicIndex(left * above, depth)
    else
      NewRegion(x, y, depth, target)
  }

  /** Every cell of the finished grid is consistent. */
  lemma CellAtConsistent(x: int, y: int, width: int, height: int, depth: Int32, target: (Int32, Int32))
    requires GridDefined(width, height, depth, target)
    requires 0 <= x < width && 0 <= y < height
    ensures Consistent(CellAt(x, y, width, height, depth, target), depth)
  {
    CellDefined(x, y, width, height, depth, target);
    NewRegionConsistent(x, y, depth, target);
    if Interior(x, y, width, height) {
      var left := CellAt(x - 1, y, width, height, depth, target).erosionLevel.value;
      var above := CellAt(x, y - 1, width, height, depth, target).erosionLevel.value;
      ProductInRange(left, above);
      NonNegativeSumsCanBeSet(left * above, depth);
      SetGeologicIndexMeaning(NewRegion(x, y, depth, target), Blank, left * above, depth);
    }
  }

  /** With the target at the far corner, as `main` places it, no cell is Unknown. */
  lemma NoUnknownWhenTargetIsCorner(x: int, y: int, width: int, height: int, depth: Int32, target: (Int32, Int32))
    requires GridDefined(width, height, depth, target)
    requires 0 <= x < width && 0 <= y < height
    requires target == (width - 1, height - 1)
    ensures CellAt(x, y, width, height, depth, target).t != Unknown
    ensures CellAt(x, y, width, height, depth, target).geologicIndex.Some?
  {
  }

  /** The region `Region::new` builds for cell (x, y). */
  function InitialAt(x: int, y: int, width: int, height: int, depth: Int32, target: (Int32, Int32)): Region
    requires GridDefined(width, height, depth, target)
    requires 0 <= x < width && 0 <= y < height
  {
    CellDefined(x, y, width, height, depth, target);
    NewRegion(x, y, depth, target)
  }

  /** `initial` holds, cell by cell, what the first pass of `CaveSystem::new` pushes. */
  ghost predicate InitialCells(initial: seq<Region>, width: int, height: int, depth: Int32, target: (Int32, Int32))
    requires GridDefined(width, height, depth, target)
  {
    |initial| == width * height
    && forall x, y {:trigger initial[Index(x, y, width)]} :: 0 <= x < width && 0 <= y < height ==>
         0 <= Index(x, y, width) < width * height
         && initial[Index(x, y, width)] == InitialAt(x, y, width, height, depth, target)
  }

  /** `final` holds, cell by cell, the regions `CellAt` describes. */
  ghost predicate FinalCells(final: seq<Region>, width: int, height: int, depth: Int32, target: (Int32, Int32))
    requires GridDefined(width, height, depth, target)
  {
    |final| == width * height
    && forall x, y {:trigger final[Index(x, y, width)]} :: 0 <= x < width && 0 <= y < height ==>
         0 <= Index(x, y, width) < width * height
         && final[Index(x, y, width)] == CellAt(x, y, width, height, depth, target)
  }

  /** `v` holds `Region::new`'s regions for the cells of rows below `rows` that it reaches. */
  ghost predicate Pushed(v: seq<Region>, rows: int, width: int, height: int, depth: Int32, target: (Int32, Int32))
    requires GridDefined(width, height, depth, target)
  {
    forall x', y' {:trigger v[Index(x', y', width)]} ::
      0 <= x' < width && 0 <= y' < rows && y' < height && 0 <= Index(x', y', width) < |v| ==>
        v[Index(x', y', width)] == InitialAt(x', y', width, height, depth, target)
  }

  /** Pushing cell (x, y), the next in row-major order. */
  lemma PushedStep(v: seq<Region>, x: int, y: int, width: int, height: int, depth: Int32, target: (Int32, Int32))
    requires GridDefined(width, height, depth, target)
    requires 0 <= x < width && 0 <= y < height && |v| == width * y + x
    requires Pushed(v, y + 1, width, height, depth, target)
    ensures Pushed(v + [InitialAt(x, y, width, height, depth, target)], y + 1, width, height, depth, target)
  {
    var next := v + [InitialAt(x, y, width, height, depth, target)];
    forall x', y' | 0 <= x' < width && 0 <= y' < y + 1 && y' < height && 0 <= Index(x', y', width) < |next|
      ensures next[Index(x', y', width)] == InitialAt(x', y', width, height, depth, target)
    {
      if Index(x', y', width) == |v| {
        IndexInjective(x', y', x, y, width);
      }
    }
  }

  /** A first pass that pushed every row holds every cell. */
  lemma PushedAll(v: seq<Region>, width: int, height: int, depth: Int32, target: (Int32, Int32))
    requires GridDefined(width, height, depth, target)
    requires |v| == width * height && Pushed(v, height, width, height, depth, target)
    ensures InitialCells(v, width, height, depth, target)
  {
    forall x', y' | 0 <= x' < width && 0 <= y' < height
      ensures 0 <= Index(x', y', width) < width * height
      ensures v[Index(x', y', width)] == InitialAt(x', y', width, height, depth, target)
    {
      IndexBounds(x', y', width, height);
    }
  }

  ghost function FinalCell(i: int, width: int, height: int, depth: Int32, target: (Int32, Int32)): Region
    requires GridDefined(width, height, depth, target)
    requires 0 <= i < width * height
  {
    IndexCovers(i, width, height);
    CellAt(i % width, i / width, width, height, depth, target)
  }

  /** There is a vector of the final regions. */
  lemma FinalCellsExist(width: int, height: int, depth: Int32, target: (Int32, Int32))
    requires GridDefined(width, height, depth, target)
    ensures exists final :: FinalCells(final, width, height, depth, target)
  {
    var final := seq(width * height, i requires 0 <= i < width * height => FinalCell(i, width, height, depth, target));
    forall x, y | 0 <= x < width && 0 <= y < height
      ensures 0 <= Index(x, y, width) < width * height
      ensures final[Index(x, y, width)] == CellAt(x, y, width, height, depth, target)
    {
      var i := Index(x, y, width);
      IndexBounds(x, y, width, height);
      IndexCovers(i, width, height);
      IndexInjective(i % width, i / width, x, y, width);
    }
    assert FinalCells(final, width, height, depth, target);
  }

  /** Cell (x', y') of the two vectors; they agree on every cell the interior pass leaves alone. */
  lemma CellsAgree(initial: seq<Region>, final: seq<Region>, x': int, y': int, width: int, height: int, depth: Int32, target: (Int32, Int32))
    requires GridDefined(width, height, depth, target)
    requires InitialCells(initial, width, height, depth, target) && FinalCells(final, width, height, depth, target)
    requires 0 <= x' < width && 0 <= y' < height
    ensures 0 <= Index(x', y', width) < width * height
    ensures initial[Index(x', y', width)] == InitialAt(x', y', width, height, depth, target)
    ensures final[Index(x', y', width)] == CellAt(x', y', width, height, depth, target)
    ensures !Interior(x', y', width, height) ==> initial[Index(x', y', width)] == final[Index(x', y', width)]
  {
    IndexBounds(x', y', width, height);
  }

  /**
   * Whether the interior pass, at column x and row y, has gone by cell
   * (x', y'): it visits the columns from 1 up and, within one, the rows from 1 up.
   */
  predicate Passed(x': int, y': int, x: int, y: int) {
    1 <= x' && 1 <= y' && (x' < x || (x' == x && y' < y))
  }

  /**
   * The vector while the interior pass is at column x and row y: each cell
   * the pass has gone by holds its entry of `final`, every other cell its
   * entry of `initial`.
   */
  ghost predicate Staged(cells: seq<Region>, initial: seq<Region>, final: seq<Region>, x: int, y: int, width: int, height: int) {
    |cells| == width * height && |initial| == width * height && |final| == width * height
    && forall x', y' {:trigger cells[Index(x', y', width)]} :: 0 <= x' < width && 0 <= y' < height ==>
         0 <= Index(x', y', width) < width * height
         && cells[Index(x', y', width)]
            == if Passed(x', y', x, y) then final[Index(x', y', width)] else initial[Index(x', y', width)]
  }

  lemma StagedAt(cells: seq<Region>, initial: seq<Region>, final: seq<Region>, x': int, y': int, x: int, y: int, width: int, height: int)
    requires Staged(cells, initial, final, x, y, width, height)
    requires 0 <= x' < width && 0 <= y' < height
    ensures 0 <= Index(x', y', width) < |cells|
    ensures cells[Index(x', y', width)]
            == if Passed(x', y', x, y) then final[Index(x', y', width)] else initial[Index(x', y', width)]
  {
    IndexBounds(x', y', width, height);
  }

  /** Before the interior pass, the vector is `initial`. */
  lemma StagedStart(initial: seq<Region>, final: seq<Region>, width: int, height: int)
    requires 0 <= width && 0 <= height && |initial| == width * height && |final| == width * height
    ensures Staged(initial, initial, final, 1, 1, width, height)
  {
    forall x', y' | 0 <= x' < width && 0 <= y' < height
      ensures 0 <= Index(x', y', width) < width * height
    {
      IndexBounds(x', y', width, height);
    }
  }

  /** Setting cell (x, y) to its final value advances the pass one row. */
  lemma StagedSet(cells: seq<Region>, initial: seq<Region>, final: seq<Region>, x: int, y: int, width: int, height: int)
    requires 1 <= x < width && 1 <= y < height
    requires Staged(cells, initial, final, x, y, width, height)
    ensures 0 <= Index(x, y, width) < |cells|
    ensures Staged(cells[Index(x, y, width) := final[Index(x, y, width)]], initial, final, x, y + 1, width, height)
  {
    StagedAt(cells, initial, final, x, y, x, y, width, height);
    var i := Index(x, y, width);
    var next := cells[i := final[i]];
    forall x', y' | 0 <= x' < width && 0 <= y' < height
      ensures 0 <= Index(x', y', width) < width * height
      ensures next[Index(x', y', width)]
              == if Passed(x', y', x, y + 1) then final[Index(x', y', width)] else initial[Index(x', y', width)]
    {
      StagedAt(cells, initial, final, x', y', x, y, width, height);
      if (x' != x || y' != y) && Index(x', y', width) == i {
        IndexInjective(x', y', x, y, width);
        assert false;
      }
    }
  }

  /** Finishing a column moves the pass to the top of the next one. */
  lemma StagedNextColumn(cells: seq<Region>, initial: seq<Region>, final: seq<Region>, x: int, y: int, width: int, height: int)
    requires 1 <= x && height <= y
    requires Staged(cells, initial, final, x, y, width, height)
    ensures Staged(cells, initial, final, x + 1, 1, width, height)
  {
    forall x', y' | 0 <= x' < width && 0 <= y' < height
      ensures 0 <= Index(x', y', width) < width * height
      ensures cells[Index(x', y', width)]
              == if Passed(x', y', x + 1, 1) then final[Index(x', y', width)] else initial[Index(x', y', width)]
    {
      StagedAt(cells, initial, final, x', y', x, y, width, height);
    }
  }

  /**
   * One turn of the inner loop at column x and row y: the left and upper
   * neighbours hold erosion levels, and setting the cell to their product
   * gives its final value; the skipped corner already holds it.
   */
  lemma InteriorStep(cells: seq<Region>, initial: seq<Region>, final: seq<Region>, x: int, y: int,
                     width: int, height: int, depth: Int32, target: (Int32, Int32))
    requires GridDefined(width, height, depth, target)
    requires InitialCells(initial, width, height, depth, target) && FinalCells(final, width, height, depth, target)
    requires 1 <= x < width && 1 <= y < height
    requires Staged(cells, initial, final, x, y, width, height)
    ensures 0 <= Index(x, y, width) < |cells|
    ensures 0 <= Index(x - 1, y, width) < |cells| && 0 <= Index(x, y - 1, width) < |cells|
    ensures cells[Index(x - 1, y, width)].erosionLevel.Some? && cells[Index(x, y - 1, width)].erosionLevel.Some?
    ensures Interior(x, y, width, height) ==>
              var product := cells[Index(x - 1, y, width)].erosionLevel.value
                             * cells[Index(x, y - 1, width)].erosionLevel.value;
              && CanSet(product, depth)
              && cells[Index(x, y, width)].SetGeologicIndex(product, depth) == final[Index(x, y, width)]
    ensures !Interior(x, y, width, height) ==> cells[Index(x, y, width)] == final[Index(x, y, width)]
  {
    StagedAt(cells, initial, final, x, y, x, y, width, height);
    StagedAt(cells, initial, final, x - 1, y, x, y, width, height);
    StagedAt(cells, initial, final, x, y - 1, x, y, width, height);
    CellsAgree(initial, final, x, y, width, height, depth, target);
    CellsAgree(initial, final, x - 1, y, width, height, depth, target);
    CellsAgree(initial, final, x, y - 1, width, height, depth, target);
    if Interior(x, y, width, height) {
      var left := CellAt(x - 1, y, width, height, depth, target).erosionLevel.value;
      var above := CellAt(x, y - 1, width, height, depth, target).erosionLevel.value;
      ProductInRange(left, above);
      NonNegativeSumsCanBeSet(left * above, depth);
    }
  }

  /** After the last column every cell holds its final value. */
  lemma Finished(cells: seq<Region>, initial: seq<Region>, final: seq<Region>, x: int,
                 width: int, height: int, depth: Int32, target: (Int32, Int32))
    requires GridDefined(width, height, depth, target)
    requires InitialCells(initial, width, height, depth, target) && FinalCells(final, width, height, depth, target)
    requires width <= x && Staged(cells, initial, final, x, 1, width, height)
    ensures forall x', y' :: 0 <= x' < width && 0 <= y' < height ==>
              0 <= Index(x', y', width) < |cells|
              && cells[Index(x', y', width)] == CellAt(x', y', width, height, depth, target)
  {
    forall x', y' | 0 <= x' < width && 0 <= y' < height
      ensures 0 <= Index(x', y', width) < |cells|
      ensures cells[Index(x', y', width)] == CellAt(x', y', width, height, depth, target)
    {
      StagedAt(cells, initial, final, x', y', x, 1, width, height);
      CellsAgree(initial, final, x', y', width, height, depth, target);
    }
  }

  /** The first loop of `CaveSystem::new`: `Region::new(x, y, depth, target)` for every cell, row by row. */
  method FirstPass(width: int, height: int, depth: Int32, target: (Int32, Int32)) returns (v: seq<Region>)
    requires GridDefined(width, height, depth, target)
    ensures InitialCells(v, width, height, depth, target)
  {
    v := [];
    var y := 0;
    while y < height
      invariant 0 <= y <= height && |v| == width * y
      invariant Pushed(v, y, width, height, depth, target)
    {
      var x := 0;
      while x < width
        invariant 0 <= x <= width && |v| == width * y + x
        invariant Pushed(v, y + 1, width, height, depth, target)
      {
        PushedStep(v, x, y, width, height, depth, target);
        v := v + [InitialAt(x, y, width, height, depth, target)];
        x := x + 1;
      }
      assert width * (y + 1) == width * y + width;
      y := y + 1;
    }
    PushedAll(v, width, height, depth, target);
  }

  class CaveSystem {
    const vec: array<Region>
    const width: int
    const height: int
    const depth: Int32
    const target: (Int32, Int32)

    ghost predicate Valid()
      reads this
    {
      GridDefined(width, height, depth, target) && vec.Length == width * height
    }

    /**
     * `CaveSystem::new`: pushes `Region::new(x, y, depth, target)` for every
     * cell in row-major order, then for x in 1..width and, inside, y in
     * 1..height, skipping the far corner, sets the cell's index to the
     * product of the erosion levels of (x-1, y) and (x, y-1). Every cell ends
     * as `CellAt` describes it, and the `expect` on the neighbours' levels
     * never fails.
     */
    constructor (width: Int32, height: Int32, depth: Int32, target: (Int32, Int32))
      requires GridDefined(width, height, depth, target)
      ensures Valid() && fresh(vec)
      ensures this.width == width && this.height == height
      ensures this.depth == depth && this.target == target
      ensures forall x, y :: 0 <= x < width && 0 <= y < height ==>
                0 <= Index(x, y, width) < vec.Length
                && vec[Index(x, y, width)] == CellAt(x, y, width, height, depth, target)
      ensures target == (width - 1, height - 1) ==>
                forall i :: 0 <= i < vec.Length ==> vec[i].t != Unknown
    {
      var v := FirstPass(width, height, depth, target);
      ghost var initial := v;
      FinalCellsExist(width, height, depth, target);
      ghost var final :| FinalCells(final, width, height, depth, target);
      this.width, this.height, this.depth, this.target := width, height, depth, target;
      vec := new Region[|v|](i requires 0 <= i < |v| => v[i]);
      new;
      assert vec[..] == initial;
      StagedStart(initial, final, width, height);

      // The interior pass.
      var x := 1;
      while x < width
        invariant 1 <= x && (1 <= width ==> x <= width)
        invariant Staged(vec[..], initial, final, x, 1, width, height)
      {
        FillColumn(x, initial, final);
        x := x + 1;
      }
      Finished(vec[..], initial, final, x, width, height, depth, target);
      if target == (width - 1, height - 1) {
        forall i | 0 <= i < vec.Length
          ensures vec[i].t != Unknown
        {
          IndexCovers(i, width, height);
          NoUnknownWhenTargetIsCorner(i % width, i / width, width, height, depth, target);
        }
      }
    }

    /**
     * Column x of the interior pass: for y in 1..height, skipping the far
     * corner, the cell's index becomes the product of the erosion levels of
     * (x-1, y) and (x, y-1).
     */
    method FillColumn(x: int, ghost initial: seq<Region>, ghost final: seq<Region>)
      requires Valid() && 1 <= x < width
      requires InitialCells(initial, width, height, depth, target) && FinalCells(final, width, height, depth, target)
      requires Staged(vec[..], initial, final, x, 1, width, height)
      modifies vec
      ensures Staged(vec[..], initial, final, x + 1, 1, width, height)
    {
      var y := 1;
      while y < height
        invariant 1 <= y && (1 <= height ==> y <= height)
        invariant Staged(vec[..], initial, final, x, y, width, height)
      {
        ghost var before := vec[..];
        InteriorStep(before, initial, final, x, y, width, height, depth, target);
        if (x, y) != (width - 1, height - 1) {
          var left := Get(x - 1, y);
          var above := Get(x, y - 1);
          SetGeologicIndexAt(x, y, left.erosionLevel.value * above.erosionLevel.value);
        }
        assert vec[..] == before[Index(x, y, width) := final[Index(x, y, width)]];
        StagedSet(before, initial, final, x, y, width, height);
        y := y + 1;
      }
      StagedNextColumn(vec[..], initial, final, x, y, width, height);
    }

    /** `get`: the region at position x + width * y. */
    method Get(x: int, y: int) returns (r: Region)
      requires Valid()
      requires 0 <= x && 0 <= y && Index(x, y, width) < vec.Length
      ensures r == vec[Index(x, y, width)]
    {
      r := vec[x + width * y];
    }

    /**
     * `get_mut_ref(x, y).set_geologic_index(gi, depth)`: the region at
     * position x + width * y is set to `gi`; no other region changes.
     */
    method SetGeologicIndexAt(x: int, y: int, gi: int)
      requires Valid()
      requires 0 <= x && 0 <= y && Index(x, y, width) < vec.Length
      requires CanSet(gi, depth)
      modifies vec
      ensures vec[..] == old(vec[..])[Index(x, y, width) := old(vec[Index(x, y, width)]).SetGeologicIndex(gi, depth)]
    {
      var i := x + width * y;
      vec[i] := vec[i].SetGeologicIndex(gi, depth);
    }

    /**
     * `Display`: `height` lines of `width` characters, each ended by '\n';
     * line r shows row r of the grid, one glyph per region.
     */
    method Display() returns (s: string)
      requires Valid()
      ensures Renders(s, vec[..], width, height)
    {
      var printingGrid := seq(vec.Length, i requires 0 <= i < vec.Length reads vec => Glyph(vec[i].t));
      s := JoinLines(printingGrid, width, height);
      LinesShape(printingGrid, width, height, vec[..]);
    }
  }

  /** The loop of `Display`: appends each row of `width` glyphs and a '\n'. */
  method JoinLines(glyphs: seq<char>, width: int, height: int) returns (s: string)
    requires 0 <= width && 0 <= height && width * height == |glyphs|
    ensures s == Lines(glyphs, width, height)
  {
    s := "";
    var row := 0;
    while row < height
      invariant 0 <= row <= height
      invariant s == Lines(glyphs, width, row)
    {
      MulMonotone(width, row + 1, height);
      assert width * (row + 1) == width * row + width;
      s := s + glyphs[width * row .. width * row + width] + "\n";
      row := row + 1;
    }
  }

  /** The character `Display` draws for a region type. */
  function Glyph(t: RegionType): char {
    match t
    case Rocky => '.'
    case Narrow => '|'
    case Wet => '='
    case Unknown => '?'
  }

  /** The first `n` lines drawn from a row-major vector of glyphs. */
  function Lines(glyphs: seq<char>, width: int, n: int): string
    requires 0 <= n && 0 <= width && width * n <= |glyphs|
  {
    if n == 0 then ""
    else
      assert width * n == width * (n - 1) + width;
      Lines(glyphs, width, n - 1) + glyphs[width * (n - 1) .. width * n] + "\n"
  }

  /** Where character j of line r sits in the picture: lines are `width + 1` long. */
  function Pos(r: int, j: int, width: int): int {
    r * (width + 1) + j
  }

  /**
   * `s` is the picture of the grid: `height` lines of `width + 1`
   * characters, the last one '\n', the others the glyphs of the row.
   */
  ghost predicate Renders(s: string, cells: seq<Region>, width: int, height: int) {
    0 <= width && 0 <= height && |s| == height * (width + 1) && |cells| == width * height
    && forall r, j :: 0 <= r < height && 0 <= j <= width ==>
         Pos(r, j, width) < |s|
         && (j == width ==> s[Pos(r, j, width)] == '\n')
         && (j < width ==> Index(j, r, width) < |cells|
                           && s[Pos(r, j, width)] == Glyph(cells[Index(j, r, width)].t))
  }

  lemma {:induction false} LinesLength(glyphs: seq<char>, width: int, n: int)
    requires 0 <= n && 0 <= width && width * n <= |glyphs|
    ensures |Lines(glyphs, width, n)| == n * (width + 1)
  {
    if n > 0 {
      assert width * n == width * (n - 1) + width;
      LinesLength(glyphs, width, n - 1);
    }
  }

  /** Character j of line r is the glyph of cell (j, r), or '\n' at j == width. */
  lemma {:induction false} LinesAt(glyphs: seq<char>, width: int, n: int, r: int, j: int)
    requires 0 <= n && 0 <= width && width * n <= |glyphs|
    requires 0 <= r < n && 0 <= j <= width
    ensures |Lines(glyphs, width, n)| == n * (width + 1)
    ensures Pos(r, j, width) < n * (width + 1)
    ensures j < width ==> Index(j, r, width) < |glyphs|
    ensures Lines(glyphs, width, n)[Pos(r, j, width)]
            == if j == width then '\n' else glyphs[Index(j, r, width)]
    decreases n
  {
    LinesLength(glyphs, width, n);
    LinesLength(glyphs, width, n - 1);
    MulMonotone(width + 1, r + 1, n);
    assert (width + 1) * (r + 1) == r * (width + 1) + width + 1;
    if j < width {
      IndexBounds(j, r, width, n);
    }
    assert width * n == width * (n - 1) + width;
    if r < n - 1 {
      LinesAt(glyphs, width, n - 1, r, j);
    } else {
      assert Pos(r, j, width) == (n - 1) * (width + 1) + j;
    }
  }

  lemma LinesShape(glyphs: seq<char>, width: int, n: int, cells: seq<Region>)
    requires 0 <= n && 0 <= width && width * n == |glyphs| == |cells|
    requires forall i :: 0 <= i < |cells| ==> glyphs[i] == Glyph(cells[i].t)
    ensures Renders(Lines(glyphs, width, n), cells, width, n)
  {
    LinesLength(glyphs, width, n);
    forall r, j | 0 <= r < n && 0 <= j <= width
      ensures Pos(r, j, width) < |Lines(glyphs, width, n)|
      ensures j == width ==> Lines(glyphs, width, n)[Pos(r, j, width)] == '\n'
      ensures j < width ==> Index(j, r, width) < |cells|
                            && Lines(glyphs, width, n)[Pos(r, j, width)] == Glyph(cells[Index(j, r, width)].t)
    {
      LinesAt(glyphs, width, n, r, j);
      if j < width {
        var i := Index(j, r, width);
        assert glyphs[i] == Glyph(cells[i].t);
      }
    }
  }

  /** The risk `main` gives a known region type. */
  function RiskLevel(t: RegionType): (risk: int)
    requires t != Unknown
    ensures 0 <= risk <= 2
  {
    match t
    case Rocky => 0
    case Wet => 1
    case Narrow => 2
  }

  predicate AllKnown(cells: seq<Region>) {
    forall i :: 0 <= i < |cells| ==> cells[i].t != Unknown
  }

  /** The danger index: the sum of the risk levels of all regions. */
  function DangerIndex(cells: seq<Region>): (d: int)
    requires AllKnown(cells)
    ensures 0 <= d <= 2 * |cells|
  {
    if cells == [] then 0
    else DangerIndex(cells[..|cells| - 1]) + RiskLevel(cells[|cells| - 1].t)
  }

  /** How many regions have type `t`. */
  function Count(cells: seq<Region>, t: RegionType): nat {
    if cells == [] then 0
    else Count(cells[1..], t) + (if cells[0].t == t then 1 else 0)
  }

  /** The danger index counts each Wet region once and each Narrow region twice. */
  lemma {:induction false} DangerIndexCounts(cells: seq<Region>)
    requires AllKnown(cells)
    ensures DangerIndex(cells) == Count(cells, Wet) + 2 * Count(cells, Narrow)
  {
    if cells != [] {
      var init := cells[..|cells| - 1];
      DangerIndexCounts(init);
      CountLast(cells, Wet);
      CountLast(cells, Narrow);
    }
  }

  lemma {:induction false} CountLast(cells: seq<Region>, t: RegionType)
    requires cells != []
    ensures Count(cells, t) == Count(cells[..|cells| - 1], t) + (if cells[|cells| - 1].t == t then 1 else 0)
  {
    if |cells| > 1 {
      CountLast(cells[1..], t);
      assert cells[1..][..|cells| - 2] == cells[..|cells| - 1][1..];
    }
  }
}
