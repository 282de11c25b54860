/** Heat2D.java is the single-process version of Heat2D_mpi.java: with one
    worker, one pass of the time loop of Heat2D_mpi.java (universalLoops,
    shareBoundaryData, updateMaster, forwardEulerMethod) has exactly the
    effect of one pass of the time loop of Heat2D.java. */
module CrossCheck {
  import opened Partition
  import opened Stencil
  import opened HeatSource
  import opened Grid
  import opened Mpi
  import opened Cluster
  import opened Serial

  /** The first three stages of a pass of the time loop of Heat2D_mpi.java
      run by a lone worker (universalLoops, then shareBoundaryData and
      updateMaster, which do nothing with one worker) do what the first
      three loops of Heat2D.java do (Serial.Boundaries). */
  method LoneWorkerBoundaries(w: Worker, p: nat, t: int, heatTime: int)
    requires w.Valid() && w.W == 1 && p < 2
    modifies w.z
    ensures forall x, y :: 0 <= x < w.size && 0 <= y < w.size ==>
              w.z[p, x, y] == if y == 0 && t < heatTime && SerialBand(w.size).Contains(x) then HeatValue
                              else old(w.z[p, Mirror(w.size, true, true, x), Mirror(w.size, true, true, y)])
    ensures forall q, x, y :: InGrid(w.size, q, x, y) && q != p ==> w.z[q, x, y] == old(w.z[q, x, y])
  {
    var size := w.size;
    var ws := [w];
    assert Group(ws, size);
    w.SliceInGrid();
    HeatRowsSingleWorker(size);
    w.UniversalLoops(p, t, heatTime);
    label Loops:
    ShareBoundaryData(ws, size, p);
    UpdateMaster(ws, size, p);
    forall q, x, y | InGrid(size, q, x, y)
      ensures w.z[q, x, y] == old@Loops(w.z[q, x, y])
    {
      assert !IsHalo(ws, 0, x);
      if q == p {
        assert Owner(size, 1, x) == 0;
      } else {
        assert q == Other(p);
      }
    }
  }

  /** One pass of the time loop of Heat2D_mpi.java run by a lone worker
      leaves its grid exactly as one pass of the time loop of Heat2D.java
      leaves the grid. */
  method LoneWorkerStep(w: Worker, t: nat, heatTime: int)
    requires w.Valid() && w.W == 1
    modifies w.z
    ensures Stepped(w.z, w.size, t % 2, t, heatTime)
  {
    var p := t % 2;
    var size := w.size;
    EulerRowsSingleWorker(size);
    assert w.rank == 0;
    LoneWorkerBoundaries(w, p, t, heatTime);
    w.ForwardEuler(p);
  }
}
