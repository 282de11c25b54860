/** Row-slice decomposition of the size x size grid among W workers
    (Heat2D_mpi.java, the formula in main and the loop in determinePositions).
    Worker `rank` owns the rows startPos..endPos (both inclusive): every rank
    gets size / W rows and the last rank also takes the remainder size % W. */
module Partition {

  /** An inclusive range of row indices; empty when lo > hi. */
  datatype Range = Range(lo: int, hi: int) {
    predicate Contains(x: int) { lo <= x <= hi }
  }

  /** The configurations the decomposition is meant for: at least one worker
      and no more workers than rows, so that no slice is empty. */
  predicate Configured(size: nat, W: nat)
  {
    1 <= W <= size
  }

  function Slice(size: nat, W: nat): nat
    requires 1 <= W
  {
    size / W
  }

  function StartPos(size: nat, W: nat, rank: nat): int
    requires 1 <= W
  {
    Slice(size, W) * rank
  }

  /** The last rank absorbs the remainder when size is not a multiple of W. */
  function EndPos(size: nat, W: nat, rank: nat): int
    requires 1 <= W
  {
    if rank == W - 1 && size % W != 0 then size - 1
    else StartPos(size, W, rank) + Slice(size, W) - 1
  }

  /** The rows of rank `rank`: in a configured group a non-empty range of
      rows of the grid. */
  function Owned(size: nat, W: nat, rank: nat): (rows: Range)
    requires 1 <= W
    ensures Configured(size, W) && rank < W ==> 0 <= rows.lo <= rows.hi < size
  {
    var rows := Range(StartPos(size, W, rank), EndPos(size, W, rank));
    if Configured(size, W) then SlicesTile(size, W); rows else rows
  }

  /** The rank whose slice holds row x (x / slice, capped at the last rank). */
  function Owner(size: nat, W: nat, x: nat): (r: nat)
    requires Configured(size, W)
    ensures r < W
  {
    if x / Slice(size, W) < W then x / Slice(size, W) else W - 1
  }

  // ---------------------------------------------------------------------
  // Arithmetic helpers

  lemma MulMono(s: int, a: int, b: int)
    requires 0 <= s && a <= b
    ensures s * a <= s * b
  {
    assert s * b - s * a == s * (b - a);
  }

  /** x lies in the r-th block of width s exactly when x / s == r. */
  lemma DivInBlock(x: int, s: int, r: int)
    requires 0 < s && s * r <= x < s * r + s
    ensures x / s == r
  {
    var q := x / s;
    assert x == s * q + x % s;
    assert s * (q + 1) == s * q + s;
    assert s * (r + 1) == s * r + s;
    if q < r {
      MulMono(s, q + 1, r);
    } else if q > r {
      MulMono(s, r + 1, q);
    }
  }

  lemma DivLowerBound(x: int, s: int, r: int)
    requires 0 < s && 0 <= r && s * r <= x
    ensures r <= x / s
  {
    var q := x / s;
    assert x == s * q + x % s;
    assert s * (q + 1) == s * q + s;
    if q < r {
      MulMono(s, q + 1, r);
    }
  }

  lemma SliceFacts(size: nat, W: nat)
    requires Configured(size, W)
    ensures 1 <= Slice(size, W)
    ensures Slice(size, W) * W <= size < Slice(size, W) * W + W
  {
    var s := Slice(size, W);
    assert size == W * s + size % W;
  }

  // ---------------------------------------------------------------------
  // Properties of the decomposition

  /** The slices start at row 0, end at row size-1, follow each other with
      no gap or overlap, and none of them is empty. */
  lemma {:induction false} SlicesTile(size: nat, W: nat)
    requires Configured(size, W)
    ensures StartPos(size, W, 0) == 0
    ensures EndPos(size, W, W - 1) == size - 1
    ensures forall r :: 0 <= r < W - 1 ==> EndPos(size, W, r) + 1 == StartPos(size, W, r + 1)
    ensures forall r :: 0 <= r < W ==> 0 <= StartPos(size, W, r) <= EndPos(size, W, r) <= size - 1
  {
    var s := Slice(size, W);
    SliceFacts(size, W);
    assert size == W * s + size % W;
    forall r | 0 <= r < W - 1
      ensures EndPos(size, W, r) + 1 == StartPos(size, W, r + 1)
    {
      assert s * (r + 1) == s * r + s;
    }
    forall r | 0 <= r < W
      ensures 0 <= StartPos(size, W, r) <= EndPos(size, W, r) <= size - 1
    {
      MulMono(s, 0, r);
      MulMono(s, r + 1, W);
      assert s * (r + 1) == s * r + s;
    }
    assert s * (W - 1) + s == s * W;
  }

  /** The last slice ends at the last row. */
  lemma LastSliceEnd(size: nat, W: nat)
    requires Configured(size, W)
    ensures EndPos(size, W, W - 1) == size - 1
  {
    var s := Slice(size, W);
    assert size == W * s + size % W;
    assert s * (W - 1) + s == s * W;
  }

  /** The owner of a row holds it in its slice. */
  lemma OwnerOwns(size: nat, W: nat, x: nat)
    requires Configured(size, W) && x < size
    ensures Owned(size, W, Owner(size, W, x)).Contains(x)
  {
    var s := Slice(size, W);
    SliceFacts(size, W);
    var k := x / s;
    var m := x % s;
    assert x == s * k + m && 0 <= m < s;
    var start := s * k;
    if k < W {
      assert Owner(size, W, x) == k && StartPos(size, W, k) == start;
      assert start <= x <= start + s - 1;
      if k == W - 1 {
        LastSliceEnd(size, W);
      }
      assert x <= EndPos(size, W, k);
    } else {
      assert Owner(size, W, x) == W - 1;
      MulMono(s, W - 1, k);
      assert StartPos(size, W, W - 1) <= start <= x;
      LastSliceEnd(size, W);
    }
  }

  /** Only the owner of a row holds it in its slice. */
  lemma OwnedOnlyByOwner(size: nat, W: nat, r: nat, x: nat)
    requires Configured(size, W) && r < W && x < size
    requires Owned(size, W, r).Contains(x)
    ensures r == Owner(size, W, x)
  {
    var s := Slice(size, W);
    SliceFacts(size, W);
    if r < W - 1 {
      assert EndPos(size, W, r) == s * r + s - 1;
      DivInBlock(x, s, r);
    } else {
      DivLowerBound(x, s, r);
    }
  }

  /** Every row of the grid belongs to exactly one slice: row x lies in the
      slice of rank r if and only if r is the owner of x. */
  lemma OwnedIffOwner(size: nat, W: nat, r: nat, x: nat)
    requires Configured(size, W) && r < W && x < size
    ensures Owned(size, W, r).Contains(x) <==> r == Owner(size, W, x)
  {
    OwnerOwns(size, W, x);
    if Owned(size, W, r).Contains(x) {
      OwnedOnlyByOwner(size, W, r, x);
    }
  }

  /** The single-worker configuration owns the whole grid. */
  lemma SingleWorkerOwnsAll(size: nat)
    requires 1 <= size
    ensures Owned(size, 1, 0) == Range(0, size - 1)
  {
  }

  // ---------------------------------------------------------------------
  // determinePositions: the loop the root would use to hand out the slices

  /** Computes, rank by rank, the (start, end) pair the root keeps for
      itself (rank 0) or sends to rank i; the result agrees with the
      rank-local formula for every rank. */
  method DeterminePositions(size: nat, W: nat) returns (positions: seq<Range>)
    requires 1 <= W
    ensures |positions| == W
    ensures forall i :: 0 <= i < W ==> positions[i] == Owned(size, W, i)
  {
    var remainder := size % W;
    var remainderPresent := remainder != 0;
    var partition := size / W;
    var start, end := 0, 0;
    positions := [];
    var i := 0;
    while i < W
      invariant 0 <= i <= W
      invariant |positions| == i
      invariant i < W ==> start == end == i * partition
      invariant forall k :: 0 <= k < i ==> positions[k] == Owned(size, W, k)
    {
      end := end + partition - 1;
      if i == W - 1 && remainderPresent {
        end := size - 1;
      }
      positions := positions + [Range(start, end)];
      start := end + 1;
      end := end + 1;
      i := i + 1;
    }
  }
}
