/** The explicit forward Euler update (Heat2D.java and forwardEulerMethod in
    Heat2D_mpi.java) and the rows each worker applies it to. Temperatures are
    reals: the model is about which cells are read and written, not about
    IEEE-754 rounding. */
module Stencil {
  import opened Partition

  const HeatSpeed: real := 1.0   // a
  const TimeQuantum: real := 1.0 // dt
  const CellSize: real := 2.0    // dd

  /** The diffusion coefficient r = a * dt / (dd * dd). */
  const R: real := HeatSpeed * TimeQuantum / (CellSize * CellSize)

  /** The new value of a cell from its current value c and the current
      values of its four neighbours along x (xm = x-1, xp = x+1) and y. */
  function Update(c: real, xm: real, xp: real, ym: real, yp: real): real
  {
    c + R * (xp - 2.0 * c + xm) + R * (yp - 2.0 * c + ym)
  }

  /** With the source's constants the update replaces a cell by the mean of
      its four neighbours. */
  lemma UpdateIsNeighbourMean(c: real, xm: real, xp: real, ym: real, yp: real)
    ensures R == 0.25
    ensures Update(c, xm, xp, ym, yp) == (xm + xp + ym + yp) / 4.0
  {
  }

  /** Discrete maximum principle: when every neighbour lies in [lo, hi], so
      does the updated cell (in particular zeros stay zero). */
  lemma UpdateBounded(lo: real, hi: real, c: real, xm: real, xp: real, ym: real, yp: real)
    requires lo <= xm <= hi && lo <= xp <= hi && lo <= ym <= hi && lo <= yp <= hi
    ensures lo <= Update(c, xm, xp, ym, yp) <= hi
  {
    UpdateIsNeighbourMean(c, xm, xp, ym, yp);
  }

  /** The rows (inclusive) worker `rank` updates, following the four branches
      of forwardEulerMethod: a lone worker does rows 1..size-2, rank 0 skips
      row 0, the last rank skips row size-1, middle ranks do their slice.
      No worker updates a global edge row. */
  function EulerRows(size: nat, W: nat, rank: nat): (rows: Range)
    requires Configured(size, W) && rank < W
    ensures 1 <= rows.lo && rows.hi <= size - 2
  {
    SlicesTile(size, W);
    SliceFacts(size, W);
    var s := Slice(size, W);
    if W == 1 then Range(1, size - 2)
    else if rank == 0 then
      MulMono(s, 2, W);
      Range(1, EndPos(size, W, rank))
    else if rank == W - 1 then
      MulMono(s, 1, rank);
      Range(StartPos(size, W, rank), size - 2)
    else
      MulMono(s, 1, rank);
      MulMono(s, rank + 1, W - 1);
      Owned(size, W, rank)
  }

  /** The four branches amount to one rule: the owned rows clipped to the
      interior rows 1..size-2. */
  lemma EulerRowsAreClippedSlice(size: nat, W: nat, rank: nat)
    requires Configured(size, W) && rank < W
    ensures EulerRows(size, W, rank) ==
            Range(if StartPos(size, W, rank) < 1 then 1 else StartPos(size, W, rank),
                  if EndPos(size, W, rank) > size - 2 then size - 2 else EndPos(size, W, rank))
  {
    SlicesTile(size, W);
    SliceFacts(size, W);
    var s := Slice(size, W);
    if W > 1 {
      if rank == 0 {
        // rank 0 owns s rows, fewer than size, so its slice ends before size-1
        MulMono(s, 2, W);
      } else {
        MulMono(s, 1, rank);
        if rank < W - 1 {
          assert EndPos(size, W, rank) + 1 == StartPos(size, W, rank + 1);
        }
      }
    }
  }

  /** Every interior row is updated by exactly one worker, its owner, and no
      worker ever updates the global edge rows 0 and size-1. */
  lemma EulerRowsTileInterior(size: nat, W: nat, rank: nat, x: nat)
    requires Configured(size, W) && rank < W && x < size
    ensures EulerRows(size, W, rank).Contains(x) <==> 1 <= x <= size - 2 && rank == Owner(size, W, x)
  {
    EulerRowsAreClippedSlice(size, W, rank);
    OwnedIffOwner(size, W, rank, x);
  }

  /** A lone worker updates exactly the rows Heat2D.java updates. */
  lemma EulerRowsSingleWorker(size: nat)
    requires 1 <= size
    ensures EulerRows(size, 1, 0) == Range(1, size - 2)
  {
  }
}
