/** The double-buffered temperature field z[2][size][size] and the loops
    that read and write it, shared by the single-process program (Heat2D.java)
    and by every worker of the distributed one (Heat2D_mpi.java). Each loop
    is given the range of rows it runs over; the callers choose the range. */
module Grid {
  import opened Partition
  import opened Stencil
  import opened HeatSource

  /** z has two phases of size x size cells. */
  predicate IsGrid(z: array3<real>, size: nat)
  {
    z.Length0 == 2 && z.Length1 == size && z.Length2 == size
  }

  predicate InGrid(size: nat, q: int, x: int, y: int)
  {
    0 <= q < 2 && 0 <= x < size && 0 <= y < size
  }

  /** The phase written while phase p is read. */
  function Other(p: nat): (q: nat)
    ensures p < 2 ==> q < 2 && q != p
  {
    (p + 1) % 2
  }

  /** The forward Euler value of interior cell (x, y) computed from phase p. */
  function Next(z: array3<real>, size: nat, p: nat, x: nat, y: nat): real
    requires IsGrid(z, size) && p < 2 && 1 <= x <= size - 2 && 1 <= y <= size - 2
    reads z
  {
    Update(z[p, x, y], z[p, x - 1, y], z[p, x + 1, y], z[p, x, y - 1], z[p, x, y + 1])
  }

  /** Every cell of phase q is zero. */
  predicate PhaseZero(z: array3<real>, size: nat, q: nat)
    requires IsGrid(z, size) && q < 2
    reads z
  {
    forall x, y :: 0 <= x < size && 0 <= y < size ==> z[q, x, y] == 0.0
  }

  /** Every cell of both phases lies in [lo, hi]. */
  ghost predicate Bounded(z: array3<real>, size: nat, lo: real, hi: real)
    requires IsGrid(z, size)
    reads z
  {
    forall q, x, y :: InGrid(size, q, x, y) ==> lo <= z[q, x, y] <= hi
  }

  /** Allocates the field with every cell of both phases at 0.0. */
  method NewGrid(size: nat) returns (z: array3<real>)
    ensures fresh(z) && IsGrid(z, size)
    ensures forall q, x, y :: InGrid(size, q, x, y) ==> z[q, x, y] == 0.0
  {
    z := new real[2, size, size]((q, x, y) => 0.0);
  }

  /** The index an edge copy reads index i from, along one axis: index 0
      mirrors index 1 when the copy of the first edge runs (`first`), index
      size-1 mirrors index size-2 when the copy of the last edge runs
      (`last`). The two copies run in that order, so on a 2-wide axis with
      both copies the last edge also ends up with the old value of index 1. */
  function Mirror(size: nat, first: bool, last: bool, i: nat): (j: nat)
    requires 2 <= size && i < size
    ensures j < size
    ensures !((first && i == 0) || (last && i == size - 1)) ==> j == i
    ensures first && last && 2 < size ==> 1 <= j <= size - 2
  {
    if first && i == 0 then 1
    else if last && i == size - 1 then (if first && size == 2 then 1 else size - 2)
    else i
  }

  /** The edge-row loop: row 0 takes row 1 when `first`, row size-1 takes
      row size-2 when `last`, column by column. Afterwards every cell of
      phase p holds the old value of its mirror row, so the copied edge row
      equals its neighbour; the other phase is unchanged. */
  method CopyEdgeRows(z: array3<real>, size: nat, p: nat, first: bool, last: bool)
    requires IsGrid(z, size) && 2 <= size && p < 2
    modifies z
    ensures forall x, y :: 0 <= x < size && 0 <= y < size ==>
              z[p, x, y] == old(z[p, Mirror(size, first, last, x), y])
    ensures forall q, x, y :: InGrid(size, q, x, y) && q != p ==> z[q, x, y] == old(z[q, x, y])
    ensures first ==> forall y :: 0 <= y < size ==> z[p, 0, y] == z[p, 1, y]
    ensures last ==> forall x, y :: x == size - 1 && 0 <= y < size ==> z[p, x, y] == z[p, x - 1, y]
  {
    var y := 0;
    while y < size
      invariant 0 <= y <= size
      invariant forall x, y' :: 0 <= x < size && 0 <= y' < size ==>
                  z[p, x, y'] == old(z[p, if y' < y then Mirror(size, first, last, x) else x, y'])
      invariant forall q, x, y' :: InGrid(size, q, x, y') && q != p ==> z[q, x, y'] == old(z[q, x, y'])
    {
      if first {
        z[p, 0, y] := z[p, 1, y];
      }
      if last {
        z[p, size - 1, y] := z[p, size - 2, y];
      }
      y := y + 1;
    }
  }

  /** The edge-column loop over the rows of `rows`: column 0 takes column 1
      and column size-1 takes column size-2. Afterwards every cell of those
      rows holds the old value of its mirror column, so each edge column of
      those rows equals its neighbour; no other cell changes. */
  method CopyEdgeColumns(z: array3<real>, size: nat, p: nat, rows: Range)
    requires IsGrid(z, size) && 2 <= size && p < 2
    requires 0 <= rows.lo && rows.hi < size
    modifies z
    ensures forall x, y :: rows.Contains(x) && 0 <= y < size ==>
              z[p, x, y] == old(z[p, x, Mirror(size, true, true, y)])
    ensures forall q, x, y :: InGrid(size, q, x, y) && !(q == p && rows.Contains(x)) ==>
              z[q, x, y] == old(z[q, x, y])
    ensures forall x :: rows.Contains(x) ==> z[p, x, 0] == z[p, x, 1] && z[p, x, size - 1] == z[p, x, size - 2]
  {
    var i := rows.lo;
    while i <= rows.hi
      invariant rows.lo <= i && (i == rows.lo || i <= rows.hi + 1)
      invariant forall x, y :: rows.lo <= x < i && 0 <= y < size ==>
                  z[p, x, y] == old(z[p, x, Mirror(size, true, true, y)])
      invariant forall q, x, y :: InGrid(size, q, x, y) && !(q == p && rows.lo <= x < i) ==>
                  z[q, x, y] == old(z[q, x, y])
    {
      z[p, i, 0] := z[p, i, 1];
      z[p, i, size - 1] := z[p, i, size - 2];
      i := i + 1;
    }
  }

  /** The heating loop over the rows of `rows`: column 0 is set to the heat
      value; no other cell changes. */
  method SetHeat(z: array3<real>, size: nat, p: nat, rows: Range)
    requires IsGrid(z, size) && p < 2
    requires 0 <= rows.lo && rows.hi < size
    modifies z
    ensures forall x :: rows.Contains(x) ==> z[p, x, 0] == HeatValue
    ensures forall q, x, y :: InGrid(size, q, x, y) && !(q == p && rows.Contains(x) && y == 0) ==>
              z[q, x, y] == old(z[q, x, y])
  {
    var x := rows.lo;
    while x <= rows.hi
      invariant rows.lo <= x && (x == rows.lo || x <= rows.hi + 1)
      invariant forall x' :: rows.lo <= x' < x ==> z[p, x', 0] == HeatValue
      invariant forall q, x', y :: InGrid(size, q, x', y) && !(q == p && rows.lo <= x' < x && y == 0) ==>
                  z[q, x', y] == old(z[q, x', y])
    {
      z[p, x, 0] := HeatValue;
      x := x + 1;
    }
  }

  /** The forward Euler loop over the rows of `rows` and the interior
      columns 1..size-2: reads phase p only, writes phase Other(p) only. */
  method EulerStep(z: array3<real>, size: nat, p: nat, rows: Range)
    requires IsGrid(z, size) && p < 2
    requires 1 <= rows.lo && rows.hi <= size - 2
    modifies z
    ensures forall x, y :: rows.Contains(x) && 1 <= y <= size - 2 ==>
              z[Other(p), x, y] == old(Next(z, size, p, x, y))
    ensures forall q, x, y ::
              InGrid(size, q, x, y) && !(q == Other(p) && rows.Contains(x) && 1 <= y <= size - 2) ==>
                z[q, x, y] == old(z[q, x, y])
  {
    var p2 := (p + 1) % 2;
    assert p2 == Other(p) && p2 != p;
    var h := rows.lo;
    while h <= rows.hi
      invariant rows.lo <= h && (h == rows.lo || h <= rows.hi + 1)
      invariant forall x, y :: rows.lo <= x < h && 1 <= y <= size - 2 ==>
                  z[p2, x, y] == old(Next(z, size, p, x, y))
      invariant forall q, x, y ::
                  InGrid(size, q, x, y) && !(q == p2 && rows.lo <= x < h && 1 <= y <= size - 2) ==>
                    z[q, x, y] == old(z[q, x, y])
    {
      var v := 1;
      while v < size - 1
        invariant 1 <= v && (v == 1 || v <= size - 1)
        invariant forall x, y :: rows.lo <= x < h && 1 <= y <= size - 2 ==>
                    z[p2, x, y] == old(Next(z, size, p, x, y))
        invariant forall y :: 1 <= y < v ==> z[p2, h, y] == old(Next(z, size, p, h, y))
        invariant forall q, x, y ::
                    InGrid(size, q, x, y) &&
                    !(q == p2 && ((rows.lo <= x < h && 1 <= y <= size - 2) || (x == h && 1 <= y < v))) ==>
                      z[q, x, y] == old(z[q, x, y])
      {
        assert Next(z, size, p, h, v) == old(Next(z, size, p, h, v));
        z[p2, h, v] := z[p, h, v] +
          R * (z[p, h + 1, v] - 2.0 * z[p, h, v] + z[p, h - 1, v]) +
          R * (z[p, h, v + 1] - 2.0 * z[p, h, v] + z[p, h, v - 1]);
        v := v + 1;
      }
      h := h + 1;
    }
  }

  /** convertColumn: a fresh copy of row `pos` of phase p. */
  method CopyRow(z: array3<real>, size: nat, p: nat, pos: nat) returns (row: array<real>)
    requires IsGrid(z, size) && p < 2 && pos < size
    ensures fresh(row) && row.Length == size
    ensures forall i :: 0 <= i < size ==> row[i] == z[p, pos, i]
  {
    row := new real[size];
    var i := 0;
    while i < size
      invariant 0 <= i <= size
      invariant forall k :: 0 <= k < i ==> row[k] == z[p, pos, k]
    {
      row[i] := z[p, pos, i];
      i := i + 1;
    }
  }

  /** setColumn: row `pos` of phase p takes the first size values of `row`;
      no other cell changes. */
  method SetRow(z: array3<real>, size: nat, p: nat, pos: nat, row: array<real>)
    requires IsGrid(z, size) && p < 2 && pos < size && size <= row.Length
    modifies z
    ensures forall i :: 0 <= i < size ==> z[p, pos, i] == row[i]
    ensures forall q, x, y :: InGrid(size, q, x, y) && !(q == p && x == pos) ==>
              z[q, x, y] == old(z[q, x, y])
  {
    var i := 0;
    while i < size
      invariant 0 <= i <= size
      invariant forall k :: 0 <= k < i ==> z[p, pos, k] == row[k]
      invariant forall q, x, y :: InGrid(size, q, x, y) && !(q == p && x == pos && y < i) ==>
                  z[q, x, y] == old(z[q, x, y])
    {
      z[p, pos, i] := row[i];
      i := i + 1;
    }
  }

  /** The number of cells in n full rows of the grid. */
  function RowStart(n: nat, size: nat): nat
  {
    if n == 0 then 0 else RowStart(n - 1, size) + size
  }

  lemma {:induction false} RowStartIsProduct(n: nat, size: nat)
    ensures RowStart(n, size) == n * size
  {
    if n > 0 {
      RowStartIsProduct(n - 1, size);
    }
  }

  lemma {:induction false} RowStartMonotone(m: nat, n: nat, size: nat)
    requires m <= n
    ensures RowStart(m, size) <= RowStart(n, size)
  {
    if m < n {
      RowStartMonotone(m, n - 1, size);
    }
  }

  /** Where cell (h, v) of the block of rows starting at `lo` goes in a
      row-major buffer. */
  function Offset(lo: int, size: nat, h: int, v: nat): nat
    requires lo <= h
  {
    RowStart(h - lo, size) + v
  }

  /** Offsets are the row-major layout the source computes with a running
      counter: (h - lo) * size + v, and offset k holds row lo + k / size,
      column k % size. */
  lemma OffsetIsRowMajor(lo: int, size: nat, h: int, v: nat)
    requires lo <= h && v < size
    ensures Offset(lo, size, h, v) == (h - lo) * size + v
    ensures Offset(lo, size, h, v) / size == h - lo
    ensures Offset(lo, size, h, v) % size == v
  {
    RowStartIsProduct(h - lo, size);
    var k := Offset(lo, size, h, v);
    assert size * (h - lo) <= k < size * (h - lo) + size;
    DivInBlock(k, size, h - lo);
  }

  /** The cells of a block of rows land in distinct buffer slots inside the
      buffer. */
  lemma OffsetInjective(lo: int, hi: int, size: nat, h: int, v: nat, h': int, v': nat)
    requires lo <= h <= hi && v < size && lo <= h' <= hi && v' < size
    ensures Offset(lo, size, h, v) < (hi - lo + 1) * size
    ensures Offset(lo, size, h, v) == Offset(lo, size, h', v') ==> h == h' && v == v'
  {
    RowStartMonotone(h - lo + 1, hi - lo + 1, size);
    RowStartIsProduct(hi - lo + 1, size);
    if h < h' {
      RowStartMonotone(h - lo + 1, h' - lo, size);
    } else if h' < h {
      RowStartMonotone(h' - lo + 1, h - lo, size);
    }
  }

  /** One row of the packing loop: row h of phase p is copied to
      buffer[start .. start + size); the rest of the buffer is unchanged. */
  method PackRow(z: array3<real>, size: nat, p: nat, h: nat, buffer: array<real>, start: nat)
    requires IsGrid(z, size) && p < 2 && h < size && start + size <= buffer.Length
    modifies buffer
    ensures forall y :: 0 <= y < size ==> buffer[start + y] == z[p, h, y]
    ensures forall k :: 0 <= k < buffer.Length && !(start <= k < start + size) ==> buffer[k] == old(buffer[k])
  {
    var v := 0;
    while v < size
      invariant 0 <= v <= size
      invariant forall y :: 0 <= y < v ==> buffer[start + y] == z[p, h, y]
      invariant forall k :: 0 <= k < buffer.Length && !(start <= k < start + v) ==> buffer[k] == old(buffer[k])
    {
      buffer[start + v] := z[p, h, v];
      v := v + 1;
    }
  }

  /** The worker side of updateMaster: rows `rows` of phase p packed
      row-major into a fresh buffer of (hi - lo + 1) * size values. */
  method Pack(z: array3<real>, size: nat, p: nat, rows: Range) returns (buffer: array<real>)
    requires IsGrid(z, size) && p < 2
    requires 0 <= rows.lo <= rows.hi + 1 && rows.hi < size
    ensures fresh(buffer) && buffer.Length == (rows.hi - rows.lo + 1) * size
    ensures forall h, v :: rows.Contains(h) && 0 <= v < size ==>
              Offset(rows.lo, size, h, v) < buffer.Length &&
              buffer[Offset(rows.lo, size, h, v)] == z[p, h, v]
  {
    var n: nat := rows.hi - rows.lo + 1;
    buffer := new real[n * size];
    RowStartIsProduct(n, size);
    var count := 0;
    var h := rows.lo;
    while h <= rows.hi
      invariant rows.lo <= h <= rows.hi + 1
      invariant count == RowStart(h - rows.lo, size) <= buffer.Length
      invariant forall x, y :: rows.lo <= x < h && 0 <= y < size ==>
                  Offset(rows.lo, size, x, y) < count &&
                  buffer[Offset(rows.lo, size, x, y)] == z[p, x, y]
    {
      RowStartMonotone(h - rows.lo + 1, n, size);
      label Before:
      PackRow(z, size, p, h, buffer, count);
      forall x, y | rows.lo <= x <= h && 0 <= y < size
        ensures Offset(rows.lo, size, x, y) < count + size
        ensures buffer[Offset(rows.lo, size, x, y)] == z[p, x, y]
      {
        if x < h {
          assert buffer[Offset(rows.lo, size, x, y)] == old@Before(buffer[Offset(rows.lo, size, x, y)]);
        } else {
          assert Offset(rows.lo, size, x, y) == count + y;
        }
      }
      count := count + size;
      h := h + 1;
    }
  }

  /** One row of the unpacking loop: row h of phase p takes
      buffer[start .. start + size); no other cell changes. */
  method UnpackRow(z: array3<real>, size: nat, p: nat, h: nat, buffer: array<real>, start: nat)
    requires IsGrid(z, size) && p < 2 && h < size && start + size <= buffer.Length
    modifies z
    ensures forall y :: 0 <= y < size ==> z[p, h, y] == buffer[start + y]
    ensures forall q, x, y :: InGrid(size, q, x, y) && !(q == p && x == h) ==>
              z[q, x, y] == old(z[q, x, y])
  {
    var v := 0;
    while v < size
      invariant 0 <= v <= size
      invariant forall y :: 0 <= y < v ==> z[p, h, y] == buffer[start + y]
      invariant forall q, x, y :: InGrid(size, q, x, y) && !(q == p && x == h && y < v) ==>
                  z[q, x, y] == old(z[q, x, y])
    {
      z[p, h, v] := buffer[start + v];
      v := v + 1;
    }
  }

  /** The root side of updateMaster: rows `rows` of phase p are filled from
      a row-major buffer; no other cell changes. */
  method Unpack(z: array3<real>, size: nat, p: nat, rows: Range, buffer: array<real>)
    requires IsGrid(z, size) && p < 2
    requires 0 <= rows.lo <= rows.hi + 1 && rows.hi < size
    requires buffer.Length == (rows.hi - rows.lo + 1) * size
    modifies z
    ensures forall h, v :: rows.Contains(h) && 0 <= v < size ==>
              Offset(rows.lo, size, h, v) < buffer.Length &&
              z[p, h, v] == buffer[Offset(rows.lo, size, h, v)]
    ensures forall q, x, y :: InGrid(size, q, x, y) && !(q == p && rows.Contains(x)) ==>
              z[q, x, y] == old(z[q, x, y])
  {
    var n: nat := rows.hi - rows.lo + 1;
    RowStartIsProduct(n, size);
    var counter := 0;
    var h := rows.lo;
    while h <= rows.hi
      invariant rows.lo <= h <= rows.hi + 1
      invariant counter == RowStart(h - rows.lo, size) <= buffer.Length
      invariant forall x, y :: rows.lo <= x < h && 0 <= y < size ==>
                  Offset(rows.lo, size, x, y) < counter &&
                  z[p, x, y] == buffer[Offset(rows.lo, size, x, y)]
      invariant forall q, x, y :: InGrid(size, q, x, y) && !(q == p && rows.lo <= x < h) ==>
                  z[q, x, y] == old(z[q, x, y])
    {
      RowStartMonotone(h - rows.lo + 1, n, size);
      label Before:
      UnpackRow(z, size, p, h, buffer, counter);
      forall x, y | rows.lo <= x <= h && 0 <= y < size
        ensures Offset(rows.lo, size, x, y) < counter + size
        ensures z[p, x, y] == buffer[Offset(rows.lo, size, x, y)]
      {
        if x < h {
          assert z[p, x, y] == old@Before(z[p, x, y]);
        } else {
          assert Offset(rows.lo, size, x, y) == counter + y;
        }
      }
      counter := counter + size;
      h := h + 1;
    }
  }
}
