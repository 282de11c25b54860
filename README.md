# Heat2D: a verified model of the 2-D heat-diffusion simulator

The repository holds two Java programs that simulate heat spreading over a
square plate of `size x size` cells:

- `Heat2D.java` runs the simulation in one process.
- `Heat2D_mpi.java` splits the rows of the plate among `W` MPI workers.

Both keep a double-buffered temperature field `z[2][size][size]`. Phase
`p = t % 2` is read at step `t` and the other phase is written. Each time
step does the following:

1. It mirrors the edge rows and edge columns of phase `p` from their
   interior neighbours.
2. While `t < heat_time`, it holds the cells of column 0 in the rows
   `[size/3, (size/3)*2)` at 19.0.
3. It may print a snapshot.
4. It applies the explicit forward Euler update with `r = a*dt/(dd*dd) = 1/4`
   to the interior cells.

In the MPI version:

- each worker handles only its own slice of rows `startPos..endPos`;
- neighbours swap boundary rows (`shareBoundaryData`);
- rank 0 gathers every slice into its own grid (`updateMaster`).

The Dafny modules follow that structure:

- `Partition`: the row slices (the formula in `main` and the
  `determinePositions` loop) and the proof that they tile the grid.
- `Stencil`: the constants, the Euler update, the discrete maximum principle
  and the rows each rank updates.
- `HeatSource`: the heated band, both as the MPI program writes it and
  corrected (see Findings).
- `Grid`: the loops over the `array3<real>` field shared by both programs:
  - edge rows, edge columns and heating;
  - the Euler step;
  - `convertColumn`/`setColumn`;
  - the pack/unpack loops of `updateMaster`.
- `Mpi`: a `Worker` class, with `rank`, `W`, `startPos`, `endPos` and the grid
  as immutable fields, and the methods `UniversalLoops` and `ForwardEuler`.
- `Cluster`: a sequence of workers, with `shareBoundaryData` and
  `updateMaster` as copies between their grids.
- `Exchange`: the send/receive order of `shareBoundaryData` as a schedule of
  abstract operations. It includes a proof that blocking execution of all
  schedules never deadlocks and always completes.
- `Serial`: the time step and the whole run of `Heat2D.java`, with the
  bound `0 <= z <= 19` that every step keeps.
- `CrossCheck`: with one worker, one pass of the MPI time loop has exactly
  the effect of one pass of the serial time loop.
- `Report`: the snapshot condition, using Java's truncating `%`.

## Model

| member | source | states |
|---|---|---|
| Partition.StartPos | Heat2D_mpi.java:63-66 | definition: the first row of rank `rank` is `(size / W) * rank` |
| Partition.EndPos | Heat2D_mpi.java:67-72 | definition: the last row is `startPos + slice - 1`, except that the last rank ends at row size-1 when W does not divide size |
| Partition.Owned | Heat2D_mpi.java:63-72 | the rows `startPos..endPos` of a rank; with 1 <= W <= size a non-empty range inside the grid |
| Partition.Owner | Heat2D_mpi.java:63-72 | the rank holding row x, computed independently of the ranges as `x / slice` capped at the last rank; always a rank of the group |
| Partition.SliceFacts | Heat2D_mpi.java:63-64 | with 1 <= W <= size the slice `size / W` is at least 1 and `slice*W <= size < slice*W + W` |
| Partition.SlicesTile | Heat2D_mpi.java:63-72 | rank 0 starts at row 0, the last rank ends at row size-1, each slice ends right before the next starts, and every slice is a non-empty range inside the grid |
| Partition.LastSliceEnd | Heat2D_mpi.java:69-72 | the last rank's slice ends at row size-1, whether or not W divides size |
| Partition.OwnerOwns | Heat2D_mpi.java:63-72 | the owner of a row (row / slice, capped at the last rank) holds that row in its slice |
| Partition.OwnedOnlyByOwner | Heat2D_mpi.java:63-72 | no rank other than the owner holds a row in its slice |
| Partition.OwnedIffOwner | Heat2D_mpi.java:63-72 | a row lies in rank r's slice if and only if r is its owner: every row has exactly one worker |
| Partition.SingleWorkerOwnsAll | Heat2D_mpi.java:63-72 | a lone worker owns rows 0..size-1 |
| Partition.DeterminePositions | Heat2D_mpi.java:602-649 | the loop hands out, for every rank i, exactly the range the rank-local formula gives; invariant `start == end == i*partition` |
| Stencil.Update | Heat2D.java:93-95 | definition: the forward Euler value of a cell from its value and its four neighbours, with the coefficient r; the same formula as Heat2D_mpi.java:142-144 |
| Stencil.UpdateIsNeighbourMean | Heat2D.java:23 | with a = dt = 1 and dd = 2, r is 1/4 and the update replaces a cell by the mean of its four neighbours |
| Stencil.UpdateBounded | Heat2D.java:93-95 | when the four neighbours lie in [lo, hi], so does the updated cell; all-zero neighbours give zero |
| Stencil.EulerRows | Heat2D_mpi.java:136-186 | the rows a rank updates never include the global edge rows 0 and size-1 |
| Stencil.EulerRowsAreClippedSlice | Heat2D_mpi.java:136-186 | the four branches (lone worker, rank 0, last rank, middle rank) amount to the owned slice clipped to rows 1..size-2 |
| Stencil.EulerRowsTileInterior | Heat2D_mpi.java:136-186 | a rank updates row x if and only if x is an interior row and the rank owns it |
| Stencil.EulerRowsSingleWorker | Heat2D_mpi.java:136-147 | a lone worker updates rows 1..size-2, as Heat2D.java:89 does |
| HeatSource.SerialBand | Heat2D.java:64 | the band `[size/3, (size/3)*2)` has size/3 rows, lies inside the grid, and avoids the edge rows once size >= 3 |
| HeatSource.AsWrittenHeatRows | Heat2D_mpi.java:373-408 | the rows a rank heats as written: only rank W/2 (and, for even W, rank W/2-1) heats anything; rank W/2 always heats up to the band's end and rank W/2-1 (even W) from the band's start, whatever rows they own |
| HeatSource.HeatRows | Heat2D_mpi.java:373-408 | the corrected rule: a rank heats exactly the rows that are both in the band and in its own slice |
| HeatSource.HeatRowsExact | Heat2D.java:62-68 | a worker heats row x if and only if x is in the band `[size/3, (size/3)*2)` and the worker owns x |
| HeatSource.HeatRowsSingleWorker | Heat2D_mpi.java:376-387 | with one worker the MPI rule as written, the corrected rule and Heat2D.java heat the same band |
| HeatSource.AsWrittenHeatRowsAgree | Heat2D_mpi.java:373-408 | when the band lies in the middle rank's slice (odd W) or straddles the two middle slices (even W), the rule as written heats exactly the owned band rows |
| HeatSource.AsWrittenHeatRowsDiverge | Heat2D_mpi.java:373-408 | concrete grids where the rule as written leaves a band row unheated by its owner, or heats a row outside the band |
| Grid.Other | Heat2D.java:88 | the phase written while phase p is read, `(p + 1) % 2`, is a phase and differs from p |
| Grid.Next | Heat2D.java:93-95 | definition: the forward Euler value of interior cell (x, y) read from phase p, as Heat2D_mpi.java:142-144 computes it |
| Grid.Mirror | Heat2D.java:48-59 | the index an edge copy reads from is inside the axis, equals the index itself away from the copied edges, and is interior when both edges are copied on an axis wider than 2 |
| Grid.NewGrid | Heat2D.java:26-36 | a fresh field with every cell of both phases at 0.0 |
| Grid.CopyEdgeRows | Heat2D.java:48-52 | every cell of phase p takes the old value of its mirror row, so the copied edge row equals its neighbour; the other phase is unchanged |
| Grid.CopyEdgeColumns | Heat2D.java:55-59 | every cell of the given rows takes the old value of its mirror column, so the edge columns equal their neighbours; no cell outside those rows of phase p changes |
| Grid.SetHeat | Heat2D.java:62-68 | column 0 of the given rows of phase p is 19.0; nothing else changes |
| Grid.EulerStep | Heat2D.java:88-97 | every interior column of the given rows of phase (p+1)%2 gets the Euler value computed from the old phase p; nothing else changes, phase p included |
| Grid.CopyRow | Heat2D_mpi.java:581-590 | convertColumn returns a fresh length-size array equal to row pos of phase p |
| Grid.SetRow | Heat2D_mpi.java:562-569 | setColumn sets row pos of phase p to the array and changes no other cell |
| Grid.OffsetIsRowMajor | Heat2D_mpi.java:300-307 | the running counter of the packing loop is `(h - start)*size + v`, and decoding it gives back row and column |
| Grid.OffsetInjective | Heat2D_mpi.java:293-307 | the cells of the slice land in distinct slots inside a buffer of `(end - start + 1)*size` values |
| Grid.PackRow | Heat2D_mpi.java:303-307 | one row is copied to consecutive buffer slots; the rest of the buffer is unchanged |
| Grid.Pack | Heat2D_mpi.java:293-308 | the buffer has length `(end - start + 1)*size` and holds cell (h, v) at `(h - start)*size + v` |
| Grid.UnpackRow | Heat2D_mpi.java:269-273 | one row of phase p is filled from consecutive buffer slots; no other cell changes |
| Grid.Unpack | Heat2D_mpi.java:253-274 | rows start..end of phase p hold the buffer's row-major values, so unpacking a buffer made by Pack restores the slice (used so in Cluster.UpdateMaster); all other rows and the other phase are unchanged |
| Mpi.Worker.constructor | Heat2D_mpi.java:50-72 | the slice formula of main gives a valid worker with a zero grid |
| Mpi.Worker.SliceInGrid | Heat2D_mpi.java:63-72 | rank 0 starts at row 0 and the last rank ends at row size-1 |
| Mpi.Worker.UniversalLoops | Heat2D_mpi.java:328-416 | edge rows are mirrored only on the edge ranks, edge columns only in owned rows, and the band only in owned rows while t < heat_time; every other cell of phase p and the whole other phase are unchanged |
| Mpi.Worker.ForwardEuler | Heat2D_mpi.java:128-192 | only phase (p+1)%2 is written, on the rank's Euler rows and the interior columns, with the Euler value of phase p; an all-zero phase p gives zeros |
| Cluster.Transfer | Heat2D_mpi.java:451-481 | one message: the receiver's row takes the sender's row; no other cell of any grid changes |
| Cluster.SendRight | Heat2D_mpi.java:448-457 | each rank r > 0 receives rank r-1's last owned row into its row startPos-1; nothing else changes |
| Cluster.SendLeft | Heat2D_mpi.java:459-468 | each rank r < W-1 receives rank r+1's first owned row into its row endPos+1; nothing else changes |
| Cluster.ShareBoundaryData | Heat2D_mpi.java:428-552 | every pair of neighbours swaps boundary rows of phase p, so each halo row holds the neighbour's copy of the same row; only halo rows change; with one worker nothing changes |
| Cluster.GroupAdjacent | Heat2D_mpi.java:63-72 | in a group built by the slice formula, the row after each slice is the first row of the next slice and the row before the next slice is the last row of this one |
| Cluster.UpdateMaster | Heat2D_mpi.java:234-318 | afterwards every row of rank 0's phase p holds its owner's value; rank 0's other phase is unchanged |
| Exchange.Sends | Heat2D_mpi.java:447-468 | the sends of a rank: one per neighbour that exists, so two for an inner rank and one for an end rank |
| Exchange.Recvs | Heat2D_mpi.java:473-493 | the receives of a rank: one per neighbour that exists |
| Exchange.Schedule | Heat2D_mpi.java:439-545 | a lone worker exchanges nothing |
| Exchange.SendsRecvsRows | Heat2D_mpi.java:447-493 | every send carries the first or last row of the rank's slice, every receive writes the row just before or just after it |
| Exchange.ScheduleRows | Heat2D_mpi.java:439-545 | across the whole schedule a rank sends only boundary rows of its slice and receives only into its halo rows, so with a non-empty slice it never receives into a row it sends |
| Exchange.SendsRecvsToward | Heat2D_mpi.java:447-493 | toward each neighbour a rank has one send and one receive; toward any other rank, nothing |
| Exchange.ScheduleToward | Heat2D_mpi.java:439-545 | between adjacent ranks an even rank sends then receives and an odd rank receives then sends; a lone worker exchanges nothing |
| Exchange.SchedulesMatch | Heat2D_mpi.java:439-545 | for every pair of ranks, the sends one addresses to the other are met in order by receives in the other's schedule |
| Exchange.ScheduleOrder | Heat2D_mpi.java:441-545 | even ranks issue all sends before any receive, odd ranks all receives before any send |
| Exchange.HaloRowsMatch | Heat2D_mpi.java:451-519 | the row a rank sends right is its neighbour's halo row before its slice, and the row sent back lands just after the rank's slice |
| Exchange.ScheduleNeighbours | Heat2D_mpi.java:448-536 | every operation of a schedule addresses an adjacent rank |
| Exchange.InitiallyConsistent | Heat2D_mpi.java:439-545 | the schedules of all ranks start out pairing up |
| Exchange.PendingZeroIffFinished | Heat2D_mpi.java:439-545 | no operation is pending exactly when every rank has finished its exchange |
| Exchange.MeetShrinks | Heat2D_mpi.java:454-478 | a blocking send meeting its receive completes one operation on each side |
| Exchange.Chase | Heat2D_mpi.java:439-545 | following the chain of waiting ranks always ends in a pair that can meet |
| Exchange.Progress | Heat2D_mpi.java:439-545 | in a consistent state where some rank has work left, two ranks can meet |
| Exchange.MeetPreserves | Heat2D_mpi.java:439-545 | a meeting keeps the pending schedules pairing up |
| Exchange.ReplayInvariant | Heat2D_mpi.java:439-545 | any run of meetings keeps the schedules pairing up and completes two operations per meeting |
| Exchange.NoDeadlock | Heat2D_mpi.java:439-545 | after any run of meetings, either every rank has finished or two ranks can meet |
| Exchange.AllBlockedMeansFinished | Heat2D_mpi.java:439-545 | a consistent state where no pair can meet is finished |
| Exchange.FindMeeting | Heat2D_mpi.java:454-478 | finds a pair that can meet, or reports that none can |
| Exchange.RunExchange | Heat2D_mpi.java:439-545 | running every rank's exchange to completion finishes all ranks, after half as many meetings as there are operations |
| Serial.Stepped | Heat2D.java:43-97 | definition of the effect of one time step with phase p: phase p holds 19.0 in the heated cells of column 0 and elsewhere the old value of the mirror cell; the interior of the other phase holds the Euler values of the new phase p; the edges of the other phase are unchanged |
| Serial.Boundaries | Heat2D.java:47-68 | every cell of phase p holds 19.0 when it is a heated cell of column 0, and otherwise the old value of its mirror cell; the other phase is unchanged |
| Serial.EulerKeepsBounds | Heat2D.java:88-97 | discrete maximum principle for a whole step: the bounds of phase p carry over to the Euler values of the other phase |
| Serial.Step | Heat2D.java:43-97 | one time step with phase t % 2 has the effect described by `Stepped`, and keeps every bound [lo, hi] that the grid and, while heating, 19.0 respect |
| Serial.Simulate | Heat2D.java:26-99 | from a zero grid every temperature stays within [0, 19]; without heating the grid stays zero |
| CrossCheck.LoneWorkerBoundaries | Heat2D_mpi.java:84-93 | with one worker, universalLoops, shareBoundaryData and updateMaster do exactly what the first three loops of Heat2D.java do |
| CrossCheck.LoneWorkerStep | Heat2D_mpi.java:78-105 | with one worker, one pass of the MPI time loop leaves the grid exactly as one pass of Heat2D.java's time loop does |
| Report.JavaRem | Heat2D.java:72 | Java's `%` is smaller than the divisor in magnitude and takes the sign of the dividend |
| Report.JavaQuot | Heat2D.java:72 | definition: Java's `/` on int, truncating toward zero; `JavaDivision` ties it to `JavaRem` |
| Report.JavaDivision | Heat2D.java:72 | Java's `/` and `%` satisfy `a == (a / b) * b + a % b` |
| Report.JavaRemZero | Heat2D_mpi.java:207 | Java's remainder is zero exactly when the Euclidean remainder is |
| Report.ShouldPrint | Heat2D_mpi.java:206-207 | definition: the snapshot condition (interval non-zero, and t a multiple of it by Java's `%` or t the last step), the same condition as Heat2D.java:71-72 |
| Report.ShouldPrintIff | Heat2D_mpi.java:206-207 | a snapshot is printed if and only if the interval is non-zero and t is a multiple of it or the last step; Heat2D.java:71-72 uses the same condition |
| Report.MultiplesPrint | Heat2D.java:71-72 | every multiple of a non-zero interval prints, whatever the signs |

## Left out

- The MPI transport is not modelled: `Init`/`Finalize`, the `Rank`/`Size` queries, and real blocking `Send`/`Recv`. Rank and worker count are fields. A message is a copy from one worker's grid to another's. The send/receive order is modelled as abstract schedules (`Exchange`) whose blocking execution is proved to complete.
- Concurrency is not modelled. `Cluster.ShareBoundaryData` performs the copies one after another. The rows sent are owned rows and the rows written are halo rows, so no copy reads what another copy writes.
- The start/end handshake of `updateMaster` is not modelled. That handshake is the root asking each worker for its range. The model uses the worker's own fields for the range.
- The MPI main loop is not composed into one method for W > 1: `universalLoops`, `shareBoundaryData`, `updateMaster` and `forwardEulerMethod` are modelled and proved one by one. Their composition is proved only for W = 1 (`CrossCheck.LoneWorkerStep`).
- The `MPIException` catch blocks are not modelled. They only print a message.
- Argument parsing and the usage exit are not modelled: `size`, `max_time`, `heat_time` and `interval` are parameters.
- The `Date` timer and the "Elapsed time" output are not modelled.
- Console printing is not modelled, including the `floor(z / 2)` integer formatting of a snapshot. Only the condition under which a snapshot is printed is modelled (`Report.ShouldPrint`).
- IEEE-754 arithmetic is not modelled: temperatures are `real`. The model is about which cells are read and written and with which formula, not about rounding.
- Java's 32-bit `int` overflow is not modelled: integers are unbounded. In the source, `(end - start + 1) * size` (Heat2D_mpi.java:253, 293) wraps for large grids. For example, at size 65536 with W 2 it becomes -2^31, and `new double[bufferSize]` throws `NegativeArraySizeException`, which the `MPIException` handler does not catch.
- `size == 1` is excluded by `requires` (`Serial.Step`, `Serial.Simulate`), because both programs then index row 1, which does not exist.
- The worker invariant (`Valid`) excludes three kinds of configuration:
  - `size == 1`, because the source then indexes row 1, which does not exist;
  - `size == 0`, for simplicity: every loop of the source is then empty;
  - more workers than rows: the slice is then 0, and `shareBoundaryData` indexes row -1.
- `Grid.Pack`: the buffer is returned fresh. The source receives it from the root before filling it, but the root's contents are overwritten anyway.
- `HeatSource.AsWrittenHeatRows` is kept as a function and is not used by `Mpi.Worker.UniversalLoops`. The worker heats the corrected band (see Findings).

## Findings

| source | as written | input that shows it | evidently intended | confidence | as-written member | corrected member |
|---|---|---|---|---|---|---|
| Heat2D_mpi.java:373-408 | with an odd worker count only rank W/2 heats, and it heats the whole band `[size/3, (size/3)*2)`; with an even count rank W/2 heats `[startPos, (size/3)*2)` and rank W/2-1 heats `[size/3, endPos]`, whether or not those rows are theirs | size 30, W 5: row 10 is in the band and owned by rank 1, but only rank 2 heats it, in a row of its own copy that is overwritten as a halo or never gathered; size 19, W 10: rank 5 heats row 5, outside the band; size 2, W 2: rank 0 heats row 0 although the band is empty | every band row is heated by the worker that owns it, as Heat2D.java heats it | not executed | HeatSource.AsWrittenHeatRows, HeatSource.AsWrittenHeatRowsDiverge | HeatSource.HeatRows, HeatSource.HeatRowsExact |
