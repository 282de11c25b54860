/** The heat source of the simulation: while t < heat_time the cells of
    column 0 in the band of rows [size/3, (size/3)*2) are held at 19.0.
    Java evaluates `size / 3 * 2` left to right, so the upper bound is
    (size/3)*2, not (2*size)/3. All ranges below are inclusive. */
module HeatSource {
  import opened Partition

  const HeatValue: real := 19.0

  /** The band Heat2D.java heats (its third loop): size/3 rows starting at
      row size/3, inside the grid, and clear of the edge rows 0 and size-1
      once the grid has at least three rows. */
  function SerialBand(size: nat): (band: Range)
    ensures band.hi - band.lo + 1 == size / 3
    ensures 0 <= band.lo && band.hi < size
    ensures 3 <= size ==> 1 <= band.lo && band.hi <= size - 2
  {
    Range(size / 3, size / 3 * 2 - 1)
  }

  /** The rows a worker heats in universalLoops, as written: with an odd
      worker count only rank W/2 heats, and it heats the whole band; with an
      even count rank W/2 heats from its own start to the band's end and
      rank W/2-1 heats from the band's start to its own end. Which rows a
      rank heats depends on its rank alone, not on the rows it owns. */
  function AsWrittenHeatRows(size: nat, W: nat, rank: nat): (rows: Range)
    requires 1 <= W
    ensures rows.lo <= rows.hi ==> rank == W / 2 || (W % 2 == 0 && rank + 1 == W / 2)
    ensures rank == W / 2 ==> rows.hi == SerialBand(size).hi
    ensures W % 2 == 0 && rank + 1 == W / 2 ==> rows.lo == SerialBand(size).lo
  {
    if W % 2 == 1 then
      (if rank == W / 2 then SerialBand(size) else Range(0, -1))
    else if rank == W / 2 then Range(StartPos(size, W, rank), size / 3 * 2 - 1)
    else if rank == W / 2 - 1 then Range(size / 3, EndPos(size, W, rank))
    else Range(0, -1)
  }

  /** The rows a worker heats in this model: the rows of the band that the
      worker owns, whatever the parity of the worker count. */
  function HeatRows(size: nat, W: nat, rank: nat): (rows: Range)
    requires 1 <= W
    ensures forall x :: rows.Contains(x) <==> SerialBand(size).Contains(x) && Owned(size, W, rank).Contains(x)
  {
    var band := SerialBand(size);
    var own := Owned(size, W, rank);
    Range(if band.lo < own.lo then own.lo else band.lo,
          if band.hi > own.hi then own.hi else band.hi)
  }

  /** Every row of the band is heated by exactly one worker, its owner, and
      no row outside the band is heated. */
  lemma HeatRowsExact(size: nat, W: nat, rank: nat, x: nat)
    requires Configured(size, W) && rank < W && x < size
    ensures HeatRows(size, W, rank).Contains(x) <==> SerialBand(size).Contains(x) && rank == Owner(size, W, x)
  {
    OwnedIffOwner(size, W, rank, x);
  }

  /** With one worker the as-written rule, the clipped rule and Heat2D.java
      heat the same rows. */
  lemma HeatRowsSingleWorker(size: nat)
    requires 1 <= size
    ensures AsWrittenHeatRows(size, 1, 0) == SerialBand(size)
    ensures HeatRows(size, 1, 0) == SerialBand(size)
  {
    assert size / 3 * 2 <= size;
  }

  /** The condition under which the as-written rule is right: the band lies
      in the middle rank's slice (odd count), or is split by the boundary
      between the two middle ranks' slices (even count). */
  predicate BandInMiddle(size: nat, W: nat)
    requires Configured(size, W)
  {
    var band := SerialBand(size);
    if W % 2 == 1 then
      band.lo > band.hi || (Owned(size, W, W / 2).lo <= band.lo && band.hi <= Owned(size, W, W / 2).hi)
    else
      StartPos(size, W, W / 2 - 1) <= band.lo <= StartPos(size, W, W / 2) <= band.hi + 1 &&
      band.hi <= EndPos(size, W, W / 2)
  }

  /** When the band lies in the middle of the decomposition, the as-written
      rule heats exactly the rows the clipped rule heats. */
  lemma AsWrittenHeatRowsAgree(size: nat, W: nat, rank: nat, x: nat)
    requires Configured(size, W) && rank < W && BandInMiddle(size, W) && x < size
    ensures AsWrittenHeatRows(size, W, rank).Contains(x) <==> HeatRows(size, W, rank).Contains(x)
  {
    HeatRowsExact(size, W, rank, x);
    if W % 2 == 1 {
      OddAgree(size, W, rank, x);
    } else {
      EvenAgree(size, W, rank, x);
    }
  }

  lemma OddAgree(size: nat, W: nat, rank: nat, x: nat)
    requires Configured(size, W) && rank < W && BandInMiddle(size, W) && x < size && W % 2 == 1
    ensures AsWrittenHeatRows(size, W, rank).Contains(x) <==>
            SerialBand(size).Contains(x) && rank == Owner(size, W, x)
  {
    if SerialBand(size).Contains(x) {
      OwnedIffOwner(size, W, W / 2, x);
    }
  }

  lemma EvenAgree(size: nat, W: nat, rank: nat, x: nat)
    requires Configured(size, W) && rank < W && BandInMiddle(size, W) && x < size && W % 2 == 0
    ensures AsWrittenHeatRows(size, W, rank).Contains(x) <==>
            SerialBand(size).Contains(x) && rank == Owner(size, W, x)
  {
    var mid := W / 2;
    var lower := Owned(size, W, mid - 1);
    var upper := Owned(size, W, mid);
    assert lower.hi + 1 == upper.lo by {
      SlicesTile(size, W);
    }
    if SerialBand(size).Contains(x) {
      if x < upper.lo {
        OwnedIffOwner(size, W, mid - 1, x);
      } else {
        OwnedIffOwner(size, W, mid, x);
      }
    }
  }

  /** The as-written rule is wrong for some configurations: with 5 workers
      on a 30-row grid, row 10 is in the band and owned by rank 1, but only
      rank 2 heats it (in its private copy, where it is never used); with 10
      workers on 19 rows, rank 5 heats row 5, outside the band; with 2
      workers on 2 rows, rank 0 heats row 0 although the band is empty. */
  lemma AsWrittenHeatRowsDiverge()
    ensures SerialBand(30).Contains(10) && Owner(30, 5, 10) == 1
    ensures !AsWrittenHeatRows(30, 5, 1).Contains(10) && AsWrittenHeatRows(30, 5, 2).Contains(10)
    ensures AsWrittenHeatRows(19, 10, 5).Contains(5) && !SerialBand(19).Contains(5)
    ensures AsWrittenHeatRows(2, 2, 0).Contains(0) && !SerialBand(2).Contains(0)
  {
  }
}
