/** The W workers of Heat2D_mpi.java side by side, with the two collective
    steps of a time step: the halo exchange of shareBoundaryData and the
    gather of updateMaster. A message from one worker to another becomes a
    copy from the sender's grid into the receiver's grid; the order in which
    the source issues its sends and receives is modelled separately (the
    Exchange module). */
module Cluster {
  import opened Partition
  import opened Grid
  import opened Mpi

  /** Workers i and i + 1 are neighbours: the row after i's slice is the
      first row of i + 1's slice, and the row before i + 1's slice is the
      last row of i's slice. */
  predicate Adjacent(ws: seq<Worker>, i: nat)
    requires i + 1 < |ws|
  {
    ws[i].Below() == ws[i + 1].startPos && ws[i + 1].Above() == ws[i].endPos
  }

  /** Workers i and j do not share a grid array. */
  predicate Apart(ws: seq<Worker>, i: nat, j: nat)
    requires i < |ws| && j < |ws|
  {
    ws[i].z != ws[j].z
  }

  /** A full group: worker i has rank i of |ws|, every worker works on the
      same grid size, and no two workers share a grid array. */
  predicate Group(ws: seq<Worker>, size: nat)
  {
    1 <= |ws| &&
    (forall i :: 0 <= i < |ws| ==>
       ws[i].Valid() && ws[i].size == size && ws[i].W == |ws| && ws[i].rank == i) &&
    (forall i, j :: 0 <= i < j < |ws| ==> Apart(ws, i, j))
  }

  /** In a group, each slice ends just before the next one starts, so a
      halo row is always an owned row of the neighbour that sends it. */
  lemma GroupAdjacent(ws: seq<Worker>, size: nat)
    requires Group(ws, size)
    ensures forall i :: 0 <= i < |ws| - 1 ==> Adjacent(ws, i)
  {
    assert ws[0].Valid();
    SlicesTile(size, |ws|);
    forall i | 0 <= i < |ws| - 1
      ensures Adjacent(ws, i)
    {
      assert ws[i].Valid() && ws[i + 1].Valid();
    }
  }

  /** The grids of the group. */
  function Grids(ws: seq<Worker>): set<array3<real>>
  {
    set i | 0 <= i < |ws| :: ws[i].z
  }

  /** A halo row of worker i: the row before its slice when it has a left
      neighbour, the row after it when it has a right neighbour. */
  predicate IsHalo(ws: seq<Worker>, i: nat, x: int)
    requires i < |ws|
  {
    (0 < i && x == ws[i].Above()) || (i + 1 < |ws| && x == ws[i].Below())
  }

  /** One message: worker s sends row sx of phase p (convertColumn), worker
      d receives it into row dx (setColumn). Only that row of d's grid
      changes. */
  method Transfer(ws: seq<Worker>, size: nat, p: nat, s: nat, sx: nat, d: nat, dx: nat)
    requires Group(ws, size) && p < 2 && s < |ws| && d < |ws| && s != d && sx < size && dx < size
    modifies ws[d].z
    ensures forall y :: 0 <= y < size ==> ws[d].z[p, dx, y] == old(ws[s].z[p, sx, y])
    ensures forall i, q, x, y :: 0 <= i < |ws| && InGrid(size, q, x, y) && !(i == d && q == p && x == dx) ==>
              ws[i].z[q, x, y] == old(ws[i].z[q, x, y])
  {
    var sender, receiver := ws[s], ws[d];
    assert sender.Valid() && receiver.Valid();
    forall i | 0 <= i < |ws| && i != d
      ensures ws[i].z != receiver.z
    {
      if i < d {
        assert Apart(ws, i, d);
      } else {
        assert Apart(ws, d, i);
      }
    }
    var row := CopyRow(sender.z, size, p, sx);
    SetRow(receiver.z, size, p, dx, row);
  }

  /** The messages every rank sends to its right neighbour, for phase p:
      rank r - 1's last owned row becomes rank r's row before its slice.
      No other cell of any grid changes. */
  method SendRight(ws: seq<Worker>, size: nat, p: nat)
    requires Group(ws, size) && p < 2
    modifies Grids(ws)
    ensures forall r, y :: 0 < r < |ws| && 0 <= y < size ==>
              ws[r].z[p, ws[r].Above(), y] == old(ws[r - 1].z[p, ws[r - 1].endPos, y])
    ensures forall i, q, x, y :: 0 <= i < |ws| && InGrid(size, q, x, y) && !(q == p && 0 < i && x == ws[i].Above()) ==>
              ws[i].z[q, x, y] == old(ws[i].z[q, x, y])
  {
    var r := 1;
    while r < |ws|
      invariant 1 <= r <= |ws|
      invariant forall k, y :: 0 < k < r && 0 <= y < size ==>
                  ws[k].z[p, ws[k].Above(), y] == old(ws[k - 1].z[p, ws[k - 1].endPos, y])
      invariant forall i, q, x, y ::
                  0 <= i < |ws| && InGrid(size, q, x, y) && !(q == p && 0 < i < r && x == ws[i].Above()) ==>
                    ws[i].z[q, x, y] == old(ws[i].z[q, x, y])
    {
      var sender, receiver := ws[r - 1], ws[r];
      assert sender.Valid() && receiver.Valid();
      // the row sent is an owned row, untouched so far
      forall y | 0 <= y < size
        ensures sender.z[p, sender.endPos, y] == old(sender.z[p, sender.endPos, y])
      {
        assert InGrid(size, p, sender.endPos, y);
      }
      Transfer(ws, size, p, r - 1, sender.endPos, r, receiver.Above());
      forall k, y | 0 < k <= r && 0 <= y < size
        ensures ws[k].z[p, ws[k].Above(), y] == old(ws[k - 1].z[p, ws[k - 1].endPos, y])
      {
        if k < r {
          assert ws[k].Valid() && InGrid(size, p, ws[k].Above(), y);
        } else {
          assert ws[k].z[p, ws[k].Above(), y] == receiver.z[p, receiver.Above(), y];
        }
      }
      r := r + 1;
    }
  }

  /** The messages every rank sends to its left neighbour, for phase p:
      rank r + 1's first owned row becomes rank r's row after its slice.
      No other cell of any grid changes. */
  method SendLeft(ws: seq<Worker>, size: nat, p: nat)
    requires Group(ws, size) && p < 2
    modifies Grids(ws)
    ensures forall r, y :: 0 <= r < |ws| - 1 && 0 <= y < size ==>
              ws[r].z[p, ws[r].Below(), y] == old(ws[r + 1].z[p, ws[r + 1].startPos, y])
    ensures forall i, q, x, y ::
              0 <= i < |ws| && InGrid(size, q, x, y) && !(q == p && i < |ws| - 1 && x == ws[i].Below()) ==>
                ws[i].z[q, x, y] == old(ws[i].z[q, x, y])
  {
    var r := 0;
    while r < |ws| - 1
      invariant 0 <= r <= |ws| - 1
      invariant forall k, y :: 0 <= k < r && 0 <= y < size ==>
                  ws[k].z[p, ws[k].Below(), y] == old(ws[k + 1].z[p, ws[k + 1].startPos, y])
      invariant forall i, q, x, y ::
                  0 <= i < |ws| && InGrid(size, q, x, y) && !(q == p && i < r && x == ws[i].Below()) ==>
                    ws[i].z[q, x, y] == old(ws[i].z[q, x, y])
    {
      var sender, receiver := ws[r + 1], ws[r];
      assert sender.Valid() && receiver.Valid();
      forall y | 0 <= y < size
        ensures sender.z[p, sender.startPos, y] == old(sender.z[p, sender.startPos, y])
      {
        assert InGrid(size, p, sender.startPos, y);
      }
      Transfer(ws, size, p, r + 1, sender.startPos, r, receiver.Below());
      forall k, y | 0 <= k <= r && 0 <= y < size
        ensures ws[k].z[p, ws[k].Below(), y] == old(ws[k + 1].z[p, ws[k + 1].startPos, y])
      {
        if k < r {
          assert ws[k].Valid() && InGrid(size, p, ws[k].Below(), y);
        } else {
          assert ws[k].z[p, ws[k].Below(), y] == receiver.z[p, receiver.Below(), y];
        }
      }
      r := r + 1;
    }
  }

  /** shareBoundaryData: every pair of neighbours r, r + 1 swaps boundary
      rows of phase p: r's last owned row becomes r + 1's row before its
      slice, and r + 1's first owned row becomes r's row after its slice.
      Since neighbouring slices meet (GroupAdjacent), each halo row then
      holds the neighbour's copy of the same row of the grid. Nothing else
      changes in any grid; with one worker nothing happens.
      The rows sent are owned rows and the rows written are halo rows, so
      the order of the messages does not matter here. */
  method ShareBoundaryData(ws: seq<Worker>, size: nat, p: nat)
    requires Group(ws, size) && p < 2
    modifies Grids(ws)
    ensures forall r, y :: 0 <= r < |ws| - 1 && 0 <= y < size ==>
              ws[r].z[p, ws[r].Below(), y] == old(ws[r + 1].z[p, ws[r + 1].startPos, y])
    ensures forall r, y :: 0 < r < |ws| && 0 <= y < size ==>
              ws[r].z[p, ws[r].Above(), y] == old(ws[r - 1].z[p, ws[r - 1].endPos, y])
    ensures forall r, y :: 0 <= r < |ws| - 1 && 0 <= y < size ==>
              ws[r].z[p, ws[r].Below(), y] == old(ws[r + 1].z[p, ws[r].Below(), y])
    ensures forall r, y :: 0 < r < |ws| && 0 <= y < size ==>
              ws[r].z[p, ws[r].Above(), y] == old(ws[r - 1].z[p, ws[r].Above(), y])
    ensures forall i, q, x, y :: 0 <= i < |ws| && InGrid(size, q, x, y) && !(q == p && IsHalo(ws, i, x)) ==>
              ws[i].z[q, x, y] == old(ws[i].z[q, x, y])
  {
    GroupAdjacent(ws, size);
    SendRight(ws, size, p);
    label Right:
    SendLeft(ws, size, p);
    forall r, y | 0 < r < |ws| && 0 <= y < size
      ensures ws[r].z[p, ws[r].Above(), y] == old(ws[r - 1].z[p, ws[r - 1].endPos, y])
      ensures ws[r].z[p, ws[r].Above(), y] == old(ws[r - 1].z[p, ws[r].Above(), y])
    {
      assert ws[r].Valid() && InGrid(size, p, ws[r].Above(), y);
      assert Adjacent(ws, r - 1);
    }
    forall r, y | 0 <= r < |ws| - 1 && 0 <= y < size
      ensures ws[r].z[p, ws[r].Below(), y] == old(ws[r + 1].z[p, ws[r + 1].startPos, y])
      ensures ws[r].z[p, ws[r].Below(), y] == old(ws[r + 1].z[p, ws[r].Below(), y])
    {
      assert ws[r + 1].Valid() && InGrid(size, p, ws[r + 1].startPos, y);
      assert old@Right(ws[r + 1].z[p, ws[r + 1].startPos, y]) == old(ws[r + 1].z[p, ws[r + 1].startPos, y]);
      assert Adjacent(ws, r);
    }
  }

  /** updateMaster: the root (rank 0) receives every other worker's slice of
      phase p, packed row-major by the worker and unpacked by the root.
      Afterwards every row of the root's phase p holds the value its owner
      had; the root's other phase and every other worker's grid are
      unchanged. */
  method UpdateMaster(ws: seq<Worker>, size: nat, p: nat)
    requires Group(ws, size) && p < 2
    modifies ws[0].z
    ensures forall x, y :: 0 <= x < size && 0 <= y < size ==>
              ws[0].z[p, x, y] == old(ws[Owner(size, |ws|, x)].z[p, x, y])
    ensures forall x, y :: 0 <= x < size && 0 <= y < size ==>
              ws[0].z[Other(p), x, y] == old(ws[0].z[Other(p), x, y])
  {
    var W := |ws|;
    var root := ws[0];
    forall i, x | 0 <= i < W && 0 <= x < size
      ensures ws[i].Rows().Contains(x) <==> i == Owner(size, W, x)
    {
      OwnedIffOwner(size, W, i, x);
    }
    var i := 1;
    while i < W
      invariant 1 <= i <= W
      invariant forall x, y :: 0 <= x < size && 0 <= y < size && Owner(size, W, x) < i ==>
                  root.z[p, x, y] == old(ws[Owner(size, W, x)].z[p, x, y])
      invariant forall q, x, y :: InGrid(size, q, x, y) && !(q == p && Owner(size, W, x) < i) ==>
                  root.z[q, x, y] == old(root.z[q, x, y])
    {
      var worker := ws[i];
      var buffer := Pack(worker.z, size, p, worker.Rows());
      Unpack(root.z, size, p, worker.Rows(), buffer);
      i := i + 1;
    }
  }
}
