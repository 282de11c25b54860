/** Heat2D.java, the single-process simulator: one grid, every row and column
    handled by the one process. Each time step copies the edge rows, then the
    edge columns, heats the band while t < heat_time and applies the forward
    Euler update to the interior, reading phase t % 2 and writing the other. */
module Serial {
  import opened Partition
  import opened Stencil
  import opened HeatSource
  import opened Grid

  /** The effect of one time step with phase p at step t: every cell of
      phase p holds the heat value when it is a heated cell of column 0, and
      otherwise the old value of its mirror cell (the nearest interior cell);
      every interior cell of the other phase holds the forward Euler value
      computed from the new phase p; the edge cells of the other phase are
      unchanged. */
  twostate predicate Stepped(z: array3<real>, size: nat, p: nat, t: int, heatTime: int)
    requires IsGrid(z, size) && 2 <= size && p < 2
    reads z
  {
    (forall x, y :: 0 <= x < size && 0 <= y < size ==>
       z[p, x, y] == if y == 0 && t < heatTime && SerialBand(size).Contains(x) then HeatValue
                     else old(z[p, Mirror(size, true, true, x), Mirror(size, true, true, y)])) &&
    (forall x, y :: 1 <= x <= size - 2 && 1 <= y <= size - 2 ==> z[Other(p), x, y] == Next(z, size, p, x, y)) &&
    (forall x, y :: 0 <= x < size && 0 <= y < size && !(1 <= x <= size - 2 && 1 <= y <= size - 2) ==>
       z[Other(p), x, y] == old(z[Other(p), x, y]))
  }

  /** The first three loops of a time step of Heat2D.java (edge rows, edge
      columns, heat band): every cell of phase p ends up holding the heat
      value when it is a heated cell of column 0, and otherwise the old value
      of its mirror cell; the other phase is unchanged. */
  method Boundaries(z: array3<real>, size: nat, p: nat, t: int, heatTime: int)
    requires IsGrid(z, size) && 2 <= size && p < 2
    modifies z
    ensures forall x, y :: 0 <= x < size && 0 <= y < size ==>
              z[p, x, y] == if y == 0 && t < heatTime && SerialBand(size).Contains(x) then HeatValue
                            else old(z[p, Mirror(size, true, true, x), Mirror(size, true, true, y)])
    ensures forall q, x, y :: InGrid(size, q, x, y) && q != p ==> z[q, x, y] == old(z[q, x, y])
  {
    CopyEdgeRows(z, size, p, true, true);
    label Rows:
    CopyEdgeColumns(z, size, p, Range(0, size - 1));
    label Columns:
    if t < heatTime {
      SetHeat(z, size, p, SerialBand(size));
    }
    forall x, y | 0 <= x < size && 0 <= y < size
      ensures old@Columns(z[p, x, y]) == old(z[p, Mirror(size, true, true, x), Mirror(size, true, true, y)])
    {
      assert old@Columns(z[p, x, y]) == old@Rows(z[p, x, Mirror(size, true, true, y)]);
    }
  }

  /** Discrete maximum principle for a whole step: when phase p lies in
      [lo, hi], every interior cell of the other phase holds the Euler value
      computed from phase p, and the edge cells of the other phase lie in
      [lo, hi], then the whole grid lies in [lo, hi]. */
  lemma EulerKeepsBounds(z: array3<real>, size: nat, p: nat, lo: real, hi: real)
    requires IsGrid(z, size) && 2 <= size && p < 2
    requires forall x, y :: 0 <= x < size && 0 <= y < size ==> lo <= z[p, x, y] <= hi
    requires forall x, y :: 1 <= x <= size - 2 && 1 <= y <= size - 2 ==> z[Other(p), x, y] == Next(z, size, p, x, y)
    requires forall x, y :: 0 <= x < size && 0 <= y < size && !(1 <= x <= size - 2 && 1 <= y <= size - 2) ==>
               lo <= z[Other(p), x, y] <= hi
    ensures Bounded(z, size, lo, hi)
  {
    forall q, x, y | InGrid(size, q, x, y) && q != p
      ensures lo <= z[q, x, y] <= hi
    {
      assert q == Other(p);
      if 1 <= x <= size - 2 && 1 <= y <= size - 2 {
        UpdateBounded(lo, hi, z[p, x, y], z[p, x - 1, y], z[p, x + 1, y], z[p, x, y - 1], z[p, x, y + 1]);
      }
    }
  }

  /** The body of the time loop of Heat2D.java for step t. A grid of size 0
      is left alone (every loop is empty); a grid of size 1 makes the source
      index row 1, which does not exist, so it is excluded. A step keeps
      every bound [lo, hi] that the grid and, when the band is heated, the
      heat value respect. */
  method Step(z: array3<real>, size: nat, t: nat, heatTime: int)
    requires IsGrid(z, size) && size != 1
    modifies z
    ensures size != 0 ==> Stepped(z, size, t % 2, t, heatTime)
    ensures forall lo, hi :: old(Bounded(z, size, lo, hi)) && (t < heatTime ==> lo <= HeatValue <= hi) ==>
              Bounded(z, size, lo, hi)
  {
    if size == 0 {
      assert forall lo, hi :: Bounded(z, size, lo, hi);
      return;
    }
    var p := t % 2;
    Boundaries(z, size, p, t, heatTime);
    label Heated:
    EulerStep(z, size, p, Range(1, size - 2));
    forall x, y | 1 <= x <= size - 2 && 1 <= y <= size - 2
      ensures z[Other(p), x, y] == Next(z, size, p, x, y)
    {
      assert z[p, x, y] == old@Heated(z[p, x, y]);
      assert z[p, x - 1, y] == old@Heated(z[p, x - 1, y]) && z[p, x + 1, y] == old@Heated(z[p, x + 1, y]);
      assert z[p, x, y - 1] == old@Heated(z[p, x, y - 1]) && z[p, x, y + 1] == old@Heated(z[p, x, y + 1]);
    }
    forall lo, hi | old(Bounded(z, size, lo, hi)) && (t < heatTime ==> lo <= HeatValue <= hi)
      ensures Bounded(z, size, lo, hi)
    {
      forall x, y | 0 <= x < size && 0 <= y < size
        ensures lo <= z[p, x, y] <= hi
      {
        assert z[p, x, y] == old@Heated(z[p, x, y]);
        assert InGrid(size, p, Mirror(size, true, true, x), Mirror(size, true, true, y));
      }
      forall x, y | 0 <= x < size && 0 <= y < size && !(1 <= x <= size - 2 && 1 <= y <= size - 2)
        ensures lo <= z[Other(p), x, y] <= hi
      {
        assert InGrid(size, Other(p), x, y);
      }
      EulerKeepsBounds(z, size, p, lo, hi);
    }
  }

  /** The whole simulation of Heat2D.java: a zero grid, then maxTime steps.
      Every temperature stays between 0 and the heat value, and without
      heating (heatTime <= 0) the grid stays at zero. */
  method Simulate(size: nat, maxTime: int, heatTime: int) returns (z: array3<real>)
    requires size != 1
    ensures IsGrid(z, size)
    ensures Bounded(z, size, 0.0, HeatValue)
    ensures heatTime <= 0 ==> Bounded(z, size, 0.0, 0.0)
  {
    z := NewGrid(size);
    var t := 0;
    while t < maxTime
      invariant 0 <= t
      invariant IsGrid(z, size)
      invariant Bounded(z, size, 0.0, HeatValue)
      invariant heatTime <= 0 ==> Bounded(z, size, 0.0, 0.0)
    {
      Step(z, size, t, heatTime);
      t := t + 1;
    }
  }
}
