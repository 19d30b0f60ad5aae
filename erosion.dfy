/**
 * One region of the cave in 22/src/main.rs: its geologic index, its erosion
 * level and the type the erosion level gives it.
 */
module Erosion {
  import opened Wrappers
  import opened Word

  const GEOLOGIC_X: int := 16807     // multiplier of x along the row y = 0
  const GEOLOGIC_Y: int := 48271     // multiplier of y along the column x = 0
  const EROSION_MODULUS: int := 20183

  datatype RegionType = Rocky | Narrow | Wet | Unknown

  /** Rust's `%` on integers: the remainder takes the sign of the dividend. */
  function Rem(a: int, m: int): int
    requires m > 0
  {
    if a >= 0 then a % m else -((-a) % m)
  }

  /**
   * `set_geologic_index(gi, depth)` neither overflows `gi + depth` nor reaches
   * the `unreachable!()` arm, which a negative remainder modulo 3 would hit.
   */
  predicate CanSet(gi: int, depth: int) {
    InI32(gi + depth) && Rem(Rem(gi + depth, EROSION_MODULUS), 3) >= 0
  }

  /** The region type of an erosion level, following `set_geologic_index`'s match. */
  function TypeOf(erosion: int): RegionType
    requires Rem(erosion, 3) >= 0
  {
    var k := Rem(erosion, 3);
    if k == 0 then Rocky else if k == 1 then Wet else Narrow
  }

  datatype Region = Region(t: RegionType, geologicIndex: Option<int>, erosionLevel: Option<int>)
  {
    /**
     * `set_geologic_index`: the region afterwards holds `gi`, an erosion
     * level and a known type; for a non-negative sum the level lies in
     * [0, 20182]. `SetGeologicIndexMeaning` says which level and type.
     */
    function SetGeologicIndex(gi: int, depth: int): (r: Region)
      requires CanSet(gi, depth)
      ensures r.geologicIndex == Some(gi) && r.erosionLevel.Some? && r.t != Unknown
      ensures gi + depth >= 0 ==> 0 <= r.erosionLevel.value < EROSION_MODULUS
    {
      var el := Rem(gi + depth, EROSION_MODULUS);
      Region(TypeOf(el), Some(gi), Some(el))
    }
  }

  /** A region as it starts, before any index is set. */
  const Blank: Region := Region(Unknown, None, None)

  /**
   * The fields of a region fit together: blank, or holding an index whose
   * erosion level and type follow from it.
   */
  ghost predicate Consistent(r: Region, depth: int) {
    r == Blank
    || (r.geologicIndex.Some? && CanSet(r.geologicIndex.value, depth)
        && r.erosionLevel == Some(Rem(r.geologicIndex.value + depth, EROSION_MODULUS))
        && r.t == TypeOf(r.erosionLevel.value))
  }

  /**
   * What `set_geologic_index` stores: nothing of the earlier region survives;
   * the result is consistent, and for a non-negative sum its erosion level is
   * (gi + depth) mod 20183 and its type is Rocky, Wet or Narrow as the level
   * is 0, 1 or 2 modulo 3.
   */
  lemma SetGeologicIndexMeaning(r0: Region, r1: Region, gi: int, depth: int)
    requires CanSet(gi, depth)
    ensures r0.SetGeologicIndex(gi, depth) == r1.SetGeologicIndex(gi, depth)
    ensures Consistent(r0.SetGeologicIndex(gi, depth), depth)
    ensures gi + depth >= 0 ==>
              var r := r0.SetGeologicIndex(gi, depth);
              var e := r.erosionLevel.value;
              && (gi + depth - e) % EROSION_MODULUS == 0
              && (r.t == Rocky <==> e % 3 == 0)
              && (r.t == Wet <==> e % 3 == 1)
              && (r.t == Narrow <==> e % 3 == 2)
  {
  }

  /** Every `set_geologic_index` call `Region::new` makes is free of overflow and panic. */
  predicate NewRegionDefined(x: Int32, y: Int32, depth: Int32, target: (Int32, Int32)) {
    ((x, y) == (0, 0) || (x, y) == target ==> CanSet(0, depth))
    && (y == 0 ==> InI32(x * GEOLOGIC_X) && CanSet(x * GEOLOGIC_X, depth))
    && (x == 0 ==> InI32(y * GEOLOGIC_Y) && CanSet(y * GEOLOGIC_Y, depth))
  }

  /**
   * `Region::new`: three rules applied in order, each later one overwriting
   * the earlier: index 0 at the origin and at the target, x * 16807 on the
   * row y = 0, y * 48271 on the column x = 0. Any other region stays blank.
   */
  function NewRegion(x: Int32, y: Int32, depth: Int32, target: (Int32, Int32)): (r: Region)
    requires NewRegionDefined(x, y, depth, target)
    ensures x == 0 ==> r.geologicIndex == Some(y * GEOLOGIC_Y)
    ensures x != 0 && y == 0 ==> r.geologicIndex == Some(x * GEOLOGIC_X)
    ensures x != 0 && y != 0 && (x, y) == target ==> r.geologicIndex == Some(0)
    ensures x != 0 && y != 0 && (x, y) != target ==> r == Blank
  {
    var r0 := Blank;
    var r1 := if (x, y) == (0, 0) || (x, y) == target then r0.SetGeologicIndex(0, depth) else r0;
    var r2 := if y == 0 then r1.SetGeologicIndex(x * GEOLOGIC_X, depth) else r1;
    if x == 0 then r2.SetGeologicIndex(y * GEOLOGIC_Y, depth) else r2
  }

  /** A region `Region::new` builds is consistent. */
  lemma NewRegionConsistent(x: Int32, y: Int32, depth: Int32, target: (Int32, Int32))
    requires NewRegionDefined(x, y, depth, target)
    ensures Consistent(NewRegion(x, y, depth, target), depth)
  {
    var r1 := if (x, y) == (0, 0) || (x, y) == target then Blank.SetGeologicIndex(0, depth) else Blank;
    if (x, y) == (0, 0) || (x, y) == target {
      SetGeologicIndexMeaning(Blank, Blank, 0, depth);
    }
    if y == 0 {
      SetGeologicIndexMeaning(r1, r1, x * GEOLOGIC_X, depth);
    }
    if x == 0 {
      SetGeologicIndexMeaning(Blank, Blank, y * GEOLOGIC_Y, depth);
    }
  }

  /** A non-negative sum can always be set, and its erosion level lies in [0, 20182]. */
  lemma NonNegativeSumsCanBeSet(gi: int, depth: int)
    requires 0 <= gi + depth <= I32_MAX
    ensures CanSet(gi, depth)
    ensures 0 <= Blank.SetGeologicIndex(gi, depth).erosionLevel.value < EROSION_MODULUS
  {
  }

  /**
   * A negative sum whose remainder is not a multiple of 3 makes
   * `set_geologic_index` reach `unreachable!()`: -1 + 0 is one.
   */
  lemma NegativeSumCannotBeSet()
    ensures !CanSet(-1, 0)
    ensures CanSet(-3, 0) && Blank.SetGeologicIndex(-3, 0).t == Rocky
  {
  }
}
