/** The halo-exchange protocol of shareBoundaryData (Heat2D_mpi.java) as an
    abstract schedule of blocking point-to-point operations, and the proof
    that the parity rule (even ranks send first, odd ranks receive first)
    cannot deadlock when every send blocks until the matching receive. */
module Exchange {
  import opened Partition

  /** Send(peer, row): send this worker's row `row` of the current phase to
      rank `peer`. Recv(peer, row): receive a row from rank `peer` and store
      it as this worker's row `row`. */
  datatype Op = Send(peer: nat, row: int) | Recv(peer: nat, row: int)

  /** The sends of rank `rank`, whose slice is `own`: its last row to the
      right neighbour, then its first row to the left neighbour, each only
      when that neighbour exists. Only boundary rows of the slice are sent. */
  function Sends(W: nat, rank: nat, own: Range): (ops: seq<Op>)
    ensures |ops| == (if rank != W - 1 then 1 else 0) + (if rank != 0 then 1 else 0)
  {
    (if rank != W - 1 then [Send(rank + 1, own.hi)] else []) +
    (if rank != 0 then [Send(rank - 1, own.lo)] else [])
  }

  /** The receives of rank `rank`: the row after its slice from the right
      neighbour, then the row before it from the left neighbour. Only the
      halo rows next to the slice are written. */
  function Recvs(W: nat, rank: nat, own: Range): (ops: seq<Op>)
    ensures |ops| == (if rank != W - 1 then 1 else 0) + (if rank != 0 then 1 else 0)
  {
    (if rank != W - 1 then [Recv(rank + 1, own.hi + 1)] else []) +
    (if rank != 0 then [Recv(rank - 1, own.lo - 1)] else [])
  }

  /** Every send carries a boundary row of the slice and every receive
      writes a halo row next to it. */
  lemma SendsRecvsRows(W: nat, rank: nat, own: Range)
    ensures var ops := Sends(W, rank, own);
      forall k :: 0 <= k < |ops| ==> ops[k].Send? && (ops[k].row == own.lo || ops[k].row == own.hi)
    ensures var ops := Recvs(W, rank, own);
      forall k :: 0 <= k < |ops| ==> ops[k].Recv? && (ops[k].row == own.lo - 1 || ops[k].row == own.hi + 1)
  {
  }

  /** The operations rank `rank` issues, in order. A lone worker exchanges
      nothing. Otherwise even ranks send both rows before receiving both
      halos, and odd ranks do the reverse. */
  function Schedule(W: nat, rank: nat, own: Range): (ops: seq<Op>)
    ensures W <= 1 ==> ops == []
  {
    if W <= 1 then []
    else if rank % 2 == 0 then Sends(W, rank, own) + Recvs(W, rank, own)
    else Recvs(W, rank, own) + Sends(W, rank, own)
  }

  /** A rank sends only boundary rows of its slice and receives only into
      the halo rows next to it, so with a non-empty slice no receive
      overwrites a row that is sent. */
  lemma ScheduleRows(W: nat, rank: nat, own: Range)
    ensures var ops := Schedule(W, rank, own);
      forall k :: 0 <= k < |ops| ==>
        (ops[k].Send? ==> ops[k].row == own.lo || ops[k].row == own.hi) &&
        (ops[k].Recv? ==> ops[k].row == own.lo - 1 || ops[k].row == own.hi + 1)
    ensures var ops := Schedule(W, rank, own);
      own.lo <= own.hi ==>
        forall j, k :: 0 <= j < |ops| && 0 <= k < |ops| && ops[j].Send? && ops[k].Recv? ==> ops[j].row != ops[k].row
  {
    var sends, recvs := Sends(W, rank, own), Recvs(W, rank, own);
    SendsRecvsRows(W, rank, own);
    if 1 < W {
      var ops := Schedule(W, rank, own);
      forall k | 0 <= k < |ops|
        ensures ops[k] in sends || ops[k] in recvs
      {
        if rank % 2 == 0 {
          assert ops == sends + recvs;
        } else {
          assert ops == recvs + sends;
        }
      }
    }
  }

  /** The directions (true = send) of the operations of `s` addressed to `peer`. */
  function Toward(s: seq<Op>, peer: nat): seq<bool>
  {
    if s == [] then []
    else (if s[0].peer == peer then [s[0].Send?] else []) + Toward(s[1..], peer)
  }

  function Flip(b: seq<bool>): (f: seq<bool>)
    ensures |f| == |b|
  {
    seq(|b|, i requires 0 <= i < |b| => !b[i])
  }

  lemma {:induction false} TowardAppend(a: seq<Op>, b: seq<Op>, peer: nat)
    ensures Toward(a + b, peer) == Toward(a, peer) + Toward(b, peer)
  {
    if a == [] {
      assert a + b == b;
    } else {
      var head := if a[0].peer == peer then [a[0].Send?] else [];
      assert (a + b)[0] == a[0];
      assert (a + b)[1..] == a[1..] + b;
      assert Toward(a + b, peer) == head + Toward(a[1..] + b, peer);
      TowardAppend(a[1..], b, peer);
      assert Toward(a, peer) == head + Toward(a[1..], peer);
    }
  }

  /** Toward a neighbour, the sends contain one send and the receives one
      receive; toward any other rank, nothing. */
  lemma SendsRecvsToward(W: nat, rank: nat, own: Range, peer: nat)
    requires 1 < W && rank < W
    ensures Toward(Sends(W, rank, own), peer) ==
            if peer < W && (peer == rank + 1 || peer + 1 == rank) then [true] else []
    ensures Toward(Recvs(W, rank, own), peer) ==
            if peer < W && (peer == rank + 1 || peer + 1 == rank) then [false] else []
  {
    var sendRight := if rank != W - 1 then [Send(rank + 1, own.hi)] else [];
    var sendLeft := if rank != 0 then [Send(rank - 1, own.lo)] else [];
    var recvRight := if rank != W - 1 then [Recv(rank + 1, own.hi + 1)] else [];
    var recvLeft := if rank != 0 then [Recv(rank - 1, own.lo - 1)] else [];
    TowardAppend(sendRight, sendLeft, peer);
    TowardAppend(recvRight, recvLeft, peer);
  }

  /** Between two adjacent ranks the schedule has exactly one send and one
      receive, send first on even ranks and receive first on odd ranks;
      nothing is addressed to any other rank. */
  lemma ScheduleToward(W: nat, rank: nat, own: Range, peer: nat)
    requires 1 <= W && rank < W
    ensures Toward(Schedule(W, rank, own), peer) ==
            if 1 < W && peer < W && (peer == rank + 1 || peer + 1 == rank) then
              (if rank % 2 == 0 then [true, false] else [false, true])
            else []
  {
    if W > 1 {
      SendsRecvsToward(W, rank, own, peer);
      if rank % 2 == 0 {
        TowardAppend(Sends(W, rank, own), Recvs(W, rank, own), peer);
      } else {
        TowardAppend(Recvs(W, rank, own), Sends(W, rank, own), peer);
      }
    }
  }

  /** For every pair of ranks, each send one addresses to the other is met
      by a receive in the other's schedule, in the same order. */
  lemma SchedulesMatch(W: nat, i: nat, ownI: Range, j: nat, ownJ: Range)
    requires 1 <= W && i < W && j < W
    ensures Toward(Schedule(W, i, ownI), j) == Flip(Toward(Schedule(W, j, ownJ), i))
  {
    ScheduleToward(W, i, ownI, j);
    ScheduleToward(W, j, ownJ, i);
  }

  /** Even ranks issue all their sends before any receive; odd ranks issue
      all their receives before any send. */
  lemma ScheduleOrder(W: nat, rank: nat, own: Range)
    ensures var s := Schedule(W, rank, own);
      forall a, b :: 0 <= a < b < |s| ==>
        (rank % 2 == 0 ==> (s[b].Send? ==> s[a].Send?)) &&
        (rank % 2 == 1 ==> (s[b].Recv? ==> s[a].Recv?))
  {
  }

  /** The row a rank sends to its right neighbour is the halo row that
      neighbour overwrites, and the row the neighbour sends back is the halo
      row the rank overwrites. */
  lemma HaloRowsMatch(size: nat, W: nat, rank: nat)
    requires Configured(size, W) && rank + 1 < W
    ensures var own, next := Owned(size, W, rank), Owned(size, W, rank + 1);
      Send(rank + 1, own.hi) in Schedule(W, rank, own) &&
      Recv(rank, next.lo - 1) in Schedule(W, rank + 1, next) &&
      Send(rank, next.lo) in Schedule(W, rank + 1, next) &&
      Recv(rank + 1, own.hi + 1) in Schedule(W, rank, own) &&
      own.hi == next.lo - 1
  {
    var own, next := Owned(size, W, rank), Owned(size, W, rank + 1);
    assert own.hi + 1 == next.lo by {
      SlicesTile(size, W);
    }
    assert Send(rank + 1, own.hi) == Sends(W, rank, own)[0];
    assert Recv(rank + 1, own.hi + 1) == Recvs(W, rank, own)[0];
    var sends, recvs := Sends(W, rank + 1, next), Recvs(W, rank + 1, next);
    assert Send(rank, next.lo) == sends[|sends| - 1];
    assert Recv(rank, next.lo - 1) == recvs[|recvs| - 1];
  }

  // ---------------------------------------------------------------------
  // Blocking execution of the schedules of all ranks

  /** What every rank still has to do; entry r belongs to rank r. */
  type State = seq<seq<Op>>

  function Schedules(size: nat, W: nat): (S: State)
    requires 1 <= W
    ensures |S| == W
  {
    seq(W, r requires 0 <= r < W => Schedule(W, r, Owned(size, W, r)))
  }

  predicate Neighbours(i: int, j: int, n: int)
  {
    0 <= j < n && (j == i + 1 || j == i - 1)
  }

  /** Every pending operation addresses an adjacent rank, and between any
      two ranks the pending sends and receives still pair up in order. */
  predicate Consistent(S: State)
  {
    (forall i, k :: 0 <= i < |S| && 0 <= k < |S[i]| ==> Neighbours(i, S[i][k].peer, |S|)) &&
    (forall i, j :: 0 <= i < |S| && 0 <= j < |S| ==> Toward(S[i], j) == Flip(Toward(S[j], i)))
  }

  predicate Finished(S: State)
  {
    forall r :: 0 <= r < |S| ==> S[r] == []
  }

  /** Rank i is blocked in a send to j while j is blocked in a receive from
      i: the synchronous transport completes both. */
  predicate CanMeet(S: State, i: int, j: int)
  {
    0 <= i < |S| && 0 <= j < |S| && S[i] != [] && S[j] != [] &&
    S[i][0].Send? && S[i][0].peer == j && S[j][0].Recv? && S[j][0].peer == i
  }

  function Meet(S: State, i: int, j: int): (T: State)
    requires CanMeet(S, i, j)
    ensures |T| == |S|
  {
    S[i := S[i][1..]][j := S[j][1..]]
  }

  function Pending(S: State): nat
  {
    if S == [] then 0 else |S[0]| + Pending(S[1..])
  }

  lemma {:induction false} PendingUpdate(S: State, a: int, x: seq<Op>)
    requires 0 <= a < |S|
    ensures Pending(S[a := x]) == Pending(S) - |S[a]| + |x|
  {
    if a > 0 {
      assert S[a := x][1..] == S[1..][a - 1 := x];
      PendingUpdate(S[1..], a - 1, x);
    }
  }

  /** Nothing is pending exactly when every rank has finished. */
  lemma {:induction false} PendingZeroIffFinished(S: State)
    ensures Pending(S) == 0 <==> Finished(S)
  {
    if S != [] {
      PendingZeroIffFinished(S[1..]);
      if Finished(S) {
        forall r | 0 <= r < |S[1..]| ensures S[1..][r] == [] {
          assert S[1..][r] == S[r + 1];
        }
      }
      if Pending(S) == 0 {
        forall r | 0 <= r < |S| ensures S[r] == [] {
          if r > 0 { assert S[r] == S[1..][r - 1]; }
        }
      }
    }
  }

  /** A meeting completes one operation on each of the two ranks. */
  lemma MeetShrinks(S: State, i: int, j: int)
    requires CanMeet(S, i, j)
    ensures Pending(Meet(S, i, j)) == Pending(S) - 2
  {
    PendingUpdate(S, i, S[i][1..]);
    PendingUpdate(S[i := S[i][1..]], j, S[j][1..]);
  }

  /** Every operation of a schedule addresses a neighbouring rank. */
  lemma ScheduleNeighbours(W: nat, rank: nat, own: Range, k: nat)
    requires rank < W && k < |Schedule(W, rank, own)|
    ensures Neighbours(rank, Schedule(W, rank, own)[k].peer, W)
  {
  }

  /** The schedules of shareBoundaryData start out consistent. */
  lemma InitiallyConsistent(size: nat, W: nat)
    requires 1 <= W
    ensures Consistent(Schedules(size, W))
  {
    var S: State := Schedules(size, W);
    forall i: int, k: int | 0 <= i < |S| && 0 <= k < |S[i]|
      ensures Neighbours(i, S[i][k].peer, |S|)
    {
      ScheduleNeighbours(W, i, Owned(size, W, i), k);
    }
    forall i, j | 0 <= i < |S| && 0 <= j < |S|
      ensures Toward(S[i], j) == Flip(Toward(S[j], i))
    {
      SchedulesMatch(W, i, Owned(size, W, i), j, Owned(size, W, j));
    }
  }

  /** Follows the chain of waiting ranks in direction d: rank k waits on its
      neighbour k + d; either that neighbour waits on k (and the two meet)
      or it waits further along the same direction, which must stop at the
      end of the line of ranks. */
  lemma Chase(S: State, k: nat, d: int) returns (i: nat, j: nat)
    requires Consistent(S) && k < |S| && S[k] != [] && (d == 1 || d == -1)
    requires S[k][0].peer == k + d
    ensures CanMeet(S, i, j)
    decreases if d == 1 then |S| - k else k
  {
    var h: nat := k + d;
    assert Toward(S[k], h) == [S[k][0].Send?] + Toward(S[k][1..], h);
    assert Toward(S[k], h) == Flip(Toward(S[h], k));
    assert S[h] != [];
    assert Neighbours(h, S[h][0].peer, |S|);
    if S[h][0].peer == k {
      assert Toward(S[h], k) == [S[h][0].Send?] + Toward(S[h][1..], k);
      assert Toward(S[k], h)[0] == !Toward(S[h], k)[0];
      if S[k][0].Send? {
        i, j := k, h;
      } else {
        i, j := h, k;
      }
    } else {
      i, j := Chase(S, h, d);
    }
  }

  /** Progress: in a consistent state where some rank still has work, two
      ranks can meet. */
  lemma Progress(S: State, k: nat) returns (i: nat, j: nat)
    requires Consistent(S) && k < |S| && S[k] != []
    ensures CanMeet(S, i, j)
  {
    assert Neighbours(k, S[k][0].peer, |S|);
    i, j := Chase(S, k, S[k][0].peer - k);
  }

  lemma TowardAfterMeet(S: State, i: int, j: int, a: int, b: nat)
    requires CanMeet(S, i, j) && 0 <= a < |S|
    ensures Toward(Meet(S, i, j)[a], b) ==
            if (a == i && b == j) || (a == j && b == i) then Toward(S[a], b)[1..] else Toward(S[a], b)
  {
    var T: State := Meet(S, i, j);
    if a == i || a == j {
      assert T[a] == S[a][1..];
      assert Toward(S[a], b) == (if S[a][0].peer == b then [S[a][0].Send?] else []) + Toward(T[a], b);
    }
  }

  /** Preservation: a meeting leaves the state consistent. */
  lemma MeetPreserves(S: State, i: int, j: int)
    requires Consistent(S) && CanMeet(S, i, j)
    ensures Consistent(Meet(S, i, j))
  {
    var T: State := Meet(S, i, j);
    forall a: int, k: int | 0 <= a < |T| && 0 <= k < |T[a]|
      ensures Neighbours(a, T[a][k].peer, |T|)
    {
      if a == i || a == j {
        assert T[a][k] == S[a][k + 1];
      }
    }
    forall a, b | 0 <= a < |T| && 0 <= b < |T|
      ensures Toward(T[a], b) == Flip(Toward(T[b], a))
    {
      TowardAfterMeet(S, i, j, a, b);
      TowardAfterMeet(S, i, j, b, a);
      assert Toward(S[a], b) == Flip(Toward(S[b], a));
    }
  }

  /** The state after the ranks meet in the pairs of `trace`, in order, or
      Stuck if some listed pair cannot meet at that point. */
  datatype Outcome = Reached(state: State) | Stuck

  function Replay(S: State, trace: seq<(int, int)>): Outcome
    decreases |trace|
  {
    if trace == [] then Reached(S)
    else if CanMeet(S, trace[0].0, trace[0].1) then Replay(Meet(S, trace[0].0, trace[0].1), trace[1..])
    else Stuck
  }

  lemma {:induction false} ReplayInvariant(S: State, trace: seq<(int, int)>)
    requires Consistent(S) && Replay(S, trace).Reached?
    ensures Consistent(Replay(S, trace).state)
    ensures Pending(Replay(S, trace).state) == Pending(S) - 2 * |trace|
    decreases |trace|
  {
    if trace != [] {
      var (i, j) := trace[0];
      MeetPreserves(S, i, j);
      MeetShrinks(S, i, j);
      ReplayInvariant(Meet(S, i, j), trace[1..]);
    }
  }

  /** Deadlock freedom: whatever order the ranks have met in so far, either
      every rank has finished its exchange or two ranks can meet; and since
      each meeting completes two operations, every run ends with all ranks
      finished after exactly half as many meetings as there are operations. */
  lemma NoDeadlock(size: nat, W: nat, trace: seq<(int, int)>)
    requires 1 <= W && Replay(Schedules(size, W), trace).Reached?
    ensures var S := Replay(Schedules(size, W), trace).state;
      Finished(S) || exists i, j :: CanMeet(S, i, j)
    ensures 2 * |trace| <= Pending(Schedules(size, W))
  {
    InitiallyConsistent(size, W);
    ReplayInvariant(Schedules(size, W), trace);
    var S := Replay(Schedules(size, W), trace).state;
    if !Finished(S) {
      var k :| 0 <= k < |S| && S[k] != [];
      var i, j := Progress(S, k);
    }
  }

  /** Progress, restated: a consistent state where no two ranks can meet is
      finished. */
  lemma AllBlockedMeansFinished(S: State)
    requires Consistent(S) && forall a, b :: !CanMeet(S, a, b)
    ensures Finished(S)
  {
    forall r | 0 <= r < |S| ensures S[r] == [] {
      if S[r] != [] {
        var a, b := Progress(S, r);
        assert false;
      }
    }
  }

  /** Looks for a pair of ranks that can meet; a rank blocked in a send can
      only meet the rank it sends to. */
  method FindMeeting(S: State) returns (found: bool, i: nat, j: nat)
    ensures found ==> CanMeet(S, i, j)
    ensures !found ==> forall a, b :: !CanMeet(S, a, b)
  {
    found, i, j := false, 0, 0;
    var a := 0;
    while a < |S| && !found
      invariant 0 <= a <= |S|
      invariant found ==> CanMeet(S, i, j)
      invariant !found ==> forall a', b :: a' < a ==> !CanMeet(S, a', b)
    {
      if S[a] != [] && S[a][0].Send? && CanMeet(S, a, S[a][0].peer) {
        found, i, j := true, a, S[a][0].peer;
      }
      a := a + 1;
    }
  }

  /** Runs the exchange of all ranks to completion under blocking semantics,
      meeting pairs in the order they are found. */
  method RunExchange(size: nat, W: nat) returns (trace: seq<(int, int)>, S: State)
    requires 1 <= W
    ensures Replay(Schedules(size, W), trace) == Reached(S)
    ensures |S| == W && Finished(S)
    ensures 2 * |trace| == Pending(Schedules(size, W))
  {
    ghost var S0 := Schedules(size, W);
    S := Schedules(size, W);
    InitiallyConsistent(size, W);
    trace := [];
    var found, i, j := FindMeeting(S);
    while found
      invariant |S| == W && Consistent(S)
      invariant Replay(S0, trace) == Reached(S)
      invariant Pending(S) == Pending(S0) - 2 * |trace|
      invariant found ==> CanMeet(S, i, j)
      invariant !found ==> forall a, b :: !CanMeet(S, a, b)
      decreases Pending(S)
    {
      MeetStep(S0, trace, i, j);
      S := Meet(S, i, j);
      trace := trace + [(i, j)];
      found, i, j := FindMeeting(S);
    }
    AllBlockedMeansFinished(S);
    PendingZeroIffFinished(S);
  }

  lemma MeetStep(S0: State, trace: seq<(int, int)>, i: int, j: int)
    requires Replay(S0, trace).Reached? && Consistent(Replay(S0, trace).state)
    requires CanMeet(Replay(S0, trace).state, i, j)
    ensures var S := Replay(S0, trace).state;
      Replay(S0, trace + [(i, j)]) == Reached(Meet(S, i, j)) &&
      Consistent(Meet(S, i, j)) && Pending(Meet(S, i, j)) == Pending(S) - 2
  {
    var S := Replay(S0, trace).state;
    ReplayAppend(S0, trace, i, j);
    MeetPreserves(S, i, j);
    MeetShrinks(S, i, j);
  }

  lemma {:induction false} ReplayAppend(S: State, trace: seq<(int, int)>, i: int, j: int)
    requires Replay(S, trace).Reached? && CanMeet(Replay(S, trace).state, i, j)
    ensures Replay(S, trace + [(i, j)]) == Reached(Meet(Replay(S, trace).state, i, j))
    decreases |trace|
  {
    if trace != [] {
      assert (trace + [(i, j)])[1..] == trace[1..] + [(i, j)];
      ReplayAppend(Meet(S, trace[0].0, trace[0].1), trace[1..], i, j);
    } else {
      assert [(i, j)][1..] == [];
    }
  }
}
