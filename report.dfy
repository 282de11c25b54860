/** When a snapshot of the grid is printed: printMaster in Heat2D_mpi.java
    (run by rank 0 only) and the display block of Heat2D.java use the same
    condition. Only the condition is modelled; the printing is not. */
module Report {

  function Abs(a: int): nat
  {
    if a < 0 then -a else a
  }

  /** Java's `%` on int: the remainder of the division truncated toward
      zero, so it takes the sign of the dividend (Dafny's `%` is Euclidean
      and never negative). */
  function JavaRem(a: int, b: int): (r: int)
    requires b != 0
    ensures Abs(r) < Abs(b)
    ensures a >= 0 ==> r >= 0
    ensures a <= 0 ==> r <= 0
  {
    if a < 0 then -((-a) % Abs(b)) else a % Abs(b)
  }

  /** Java's `/` on int, truncating toward zero. */
  function JavaQuot(a: int, b: int): int
    requires b != 0
  {
    var q := Abs(a) / Abs(b);
    if (a < 0) == (b < 0) then q else -q
  }

  /** JavaRem is the remainder of JavaQuot: a == (a / b) * b + a % b in
      Java's arithmetic. */
  lemma JavaDivision(a: int, b: int)
    requires b != 0
    ensures a == JavaQuot(a, b) * b + JavaRem(a, b)
  {
    var q, m := Abs(a) / Abs(b), Abs(a) % Abs(b);
    assert Abs(a) == Abs(b) * q + m;
    if b < 0 {
      assert Abs(b) * q == -(b * q);
    } else {
      assert Abs(b) * q == b * q;
    }
  }

  /** |d * b| is at least |b| unless d is 0. */
  lemma ProductAtLeast(d: int, b: int)
    requires d != 0
    ensures Abs(d * b) >= Abs(b)
  {
    var m := Abs(d) - 1;
    assert Abs(d * b) == Abs(d) * Abs(b) by {
      if d < 0 && b < 0 {
        assert d * b == (-d) * (-b);
      } else if d < 0 {
        assert -(d * b) == (-d) * b;
      } else if b < 0 {
        assert -(d * b) == d * (-b);
      }
    }
    assert Abs(d) * Abs(b) == m * Abs(b) + Abs(b);
  }

  /** A multiple of b leaves no Euclidean remainder. */
  lemma MultipleHasNoRemainder(k: int, b: int)
    requires b != 0
    ensures (k * b) % b == 0
  {
    var q, r := (k * b) / b, (k * b) % b;
    assert k * b == b * q + r;
    assert r == (k - q) * b;
    if k != q {
      ProductAtLeast(k - q, b);
    }
  }

  /** Java's remainder is zero exactly when Dafny's is: both say that b
      divides a. */
  lemma JavaRemZero(a: int, b: int)
    requires b != 0
    ensures JavaRem(a, b) == 0 <==> a % b == 0
  {
    JavaDivision(a, b);
    if JavaRem(a, b) == 0 {
      MultipleHasNoRemainder(JavaQuot(a, b), b);
    } else {
      var q, r := a / b, a % b;
      assert a == b * q + r;
      if r == 0 {
        // then a is a multiple of b, and so is |a| of |b|
        var k := if (a < 0) == (b < 0) then q else -q;
        assert Abs(a) == k * Abs(b) by {
          if b < 0 { assert Abs(b) * q == -(b * q); }
        }
        MultipleHasNoRemainder(k, Abs(b));
      }
    }
  }

  /** The snapshot condition of printMaster and of Heat2D.java at step t of
      maxTime steps. */
  predicate ShouldPrint(interval: int, t: int, maxTime: int)
  {
    interval != 0 && (JavaRem(t, interval) == 0 || t == maxTime - 1)
  }

  /** A snapshot is printed exactly at the steps that are multiples of the
      interval and at the last step, and never when the interval is 0. */
  lemma ShouldPrintIff(interval: int, t: int, maxTime: int)
    ensures ShouldPrint(interval, t, maxTime) <==>
            interval != 0 && (t == (t / interval) * interval || t == maxTime - 1)
  {
    if interval != 0 {
      JavaRemZero(t, interval);
      var q := t / interval;
      assert t == interval * q + t % interval;
      if t == q * interval {
        MultipleHasNoRemainder(q, interval);
      }
    }
  }

  /** Every multiple of a non-zero interval prints, whatever its sign. */
  lemma MultiplesPrint(interval: int, k: int, maxTime: int)
    requires interval != 0
    ensures ShouldPrint(interval, k * interval, maxTime)
  {
    MultipleHasNoRemainder(k, interval);
    JavaRemZero(k * interval, interval);
  }
}
