/** One worker of Heat2D_mpi.java: its rank among W workers, the slice of
    rows startPos..endPos it owns and its private copy of the grid. The
    source keeps rank, startPos and endPos in static fields set once in main;
    here they are immutable fields of the worker. The grid array is shared
    with nobody: message passing becomes copies between workers (see the
    Cluster module). */
module Mpi {
  import opened Partition
  import opened Stencil
  import opened HeatSource
  import opened Grid

  class Worker {
    const size: nat
    const W: nat
    const rank: nat
    const startPos: int
    const endPos: int
    const z: array3<real>

    /** The configurations the source runs without an index error: at least
        two rows (rows 1 and size-2 are read), no more workers than rows,
        and the slice computed by the formula in main. As SlicesTile shows,
        that slice is a non-empty range of rows of the grid, and the halo
        rows of a worker with neighbours lie inside the grid. */
    predicate Valid()
    {
      2 <= size && Configured(size, W) && rank < W && IsGrid(z, size) &&
      startPos == StartPos(size, W, rank) && endPos == EndPos(size, W, rank) &&
      0 <= startPos <= endPos < size &&
      (0 < rank ==> 1 <= startPos) && (rank < W - 1 ==> endPos < size - 1)
    }

    /** The halo row just before the slice (received from rank - 1). */
    function Above(): int
    {
      startPos - 1
    }

    /** The halo row just after the slice (received from rank + 1). */
    function Below(): int
    {
      endPos + 1
    }

    /** The owned rows as a range. */
    function Rows(): Range
    {
      Range(startPos, endPos)
    }

    /** Start-up of main: the slice formula and a zero grid. */
    constructor (size: nat, W: nat, rank: nat)
      requires 2 <= size && Configured(size, W) && rank < W
      ensures Valid()
      ensures this.size == size && this.W == W && this.rank == rank
      ensures fresh(z)
      ensures forall q, x, y :: InGrid(size, q, x, y) ==> z[q, x, y] == 0.0
    {
      var slice := size / W;
      var remainder := size % W;
      var s := slice * rank;
      var e := s + slice - 1;
      if rank == W - 1 && remainder != 0 {
        e := size - 1;
      }
      var grid := NewGrid(size);
      SlicesTile(size, W);
      if 0 < rank {
        assert EndPos(size, W, rank - 1) + 1 == StartPos(size, W, rank);
      }
      if rank < W - 1 {
        assert EndPos(size, W, rank) + 1 == StartPos(size, W, rank + 1);
      }
      this.size := size;
      this.W := W;
      this.rank := rank;
      startPos := s;
      endPos := e;
      z := grid;
    }

    /** Rank 0 owns the first row and the last rank the last row. */
    lemma SliceInGrid()
      requires Valid()
      ensures rank == 0 ==> startPos == 0
      ensures rank == W - 1 ==> endPos == size - 1
    {
      SlicesTile(size, W);
    }

    /** The cell of phase p whose old value universalLoops leaves in cell
        (x, y): an edge row of an edge rank mirrors the adjacent row, and an
        edge column of an owned row mirrors the adjacent column. Every other
        cell is its own source. */
    function SourceRow(x: nat): nat
      requires Valid() && x < size
    {
      Mirror(size, rank == 0, rank == W - 1, x)
    }

    function SourceColumn(x: nat, y: nat): nat
      requires Valid() && y < size
    {
      if startPos <= x <= endPos then Mirror(size, true, true, y) else y
    }

    /** universalLoops: the edge rows (edge ranks only), the edge columns of
        the owned rows, then the heat band while t < heatTime. Afterwards a
        heated cell holds the heat value and every other cell of phase p the
        old value of its source cell; the other phase is unchanged. */
    method UniversalLoops(p: nat, t: int, heatTime: int)
      requires Valid() && p < 2
      modifies z
      ensures forall x, y :: 0 <= x < size && 0 <= y < size ==>
                z[p, x, y] == if y == 0 && t < heatTime && HeatRows(size, W, rank).Contains(x) then HeatValue
                              else old(z[p, SourceRow(x), SourceColumn(x, y)])
      ensures forall q, x, y :: InGrid(size, q, x, y) && q != p ==> z[q, x, y] == old(z[q, x, y])
    {
      SliceInGrid();
      CopyEdgeRows(z, size, p, rank == 0, rank == W - 1);
      label Rows:
      CopyEdgeColumns(z, size, p, Range(startPos, endPos));
      label Columns:
      if t < heatTime {
        var heated := HeatRows(size, W, rank);
        assert size == 2 ==> heated.hi < 0;
        SetHeat(z, size, p, heated);
      }
      forall x, y | 0 <= x < size && 0 <= y < size
        ensures old@Columns(z[p, x, y]) == old(z[p, SourceRow(x), SourceColumn(x, y)])
      {
        if startPos <= x <= endPos {
          assert old@Columns(z[p, x, y]) == old@Rows(z[p, x, Mirror(size, true, true, y)]);
        }
      }
    }

    /** forwardEulerMethod: the four branches choose the rows, then every
        interior column of those rows of phase Other(p) gets the forward
        Euler value computed from phase p, which is also the value computed
        from phase p afterwards. Nothing else changes; in particular phase p
        and the global edge rows are left alone. */
    method ForwardEuler(p: nat)
      requires Valid() && p < 2
      modifies z
      ensures forall x, y :: EulerRows(size, W, rank).Contains(x) && 1 <= y <= size - 2 ==>
                z[Other(p), x, y] == old(Next(z, size, p, x, y))
      ensures forall x, y :: EulerRows(size, W, rank).Contains(x) && 1 <= y <= size - 2 ==>
                z[Other(p), x, y] == Next(z, size, p, x, y)
      ensures forall q, x, y ::
                InGrid(size, q, x, y) && !(q == Other(p) && EulerRows(size, W, rank).Contains(x) && 1 <= y <= size - 2) ==>
                  z[q, x, y] == old(z[q, x, y])
      ensures old(PhaseZero(z, size, p)) ==>
                forall x, y :: EulerRows(size, W, rank).Contains(x) && 1 <= y <= size - 2 ==> z[Other(p), x, y] == 0.0
    {
      var rows: Range;
      if W == 1 {
        rows := Range(1, size - 2);
      } else if rank == 0 {
        rows := Range(1, endPos);
      } else if rank == W - 1 {
        rows := Range(startPos, size - 2);
      } else {
        rows := Range(startPos, endPos);
      }
      assert rows == EulerRows(size, W, rank);
      EulerStep(z, size, p, rows);
      forall x, y | rows.Contains(x) && 1 <= y <= size - 2
        ensures z[Other(p), x, y] == Next(z, size, p, x, y)
      {
        assert z[p, x, y] == old(z[p, x, y]);
        assert z[p, x - 1, y] == old(z[p, x - 1, y]) && z[p, x + 1, y] == old(z[p, x + 1, y]);
        assert z[p, x, y - 1] == old(z[p, x, y - 1]) && z[p, x, y + 1] == old(z[p, x, y + 1]);
      }
    }
  }
}
