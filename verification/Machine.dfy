/** Machine integers, bytes and page arithmetic shared by every component. */
module Machine {

  const PAGE: nat := 0x1000
  const BLOCK: nat := 0x20_0000  // what one page-directory entry spans
  const TWO32: nat := 0x1_0000_0000
  const TWO64: nat := 0x1_0000_0000_0000_0000

  datatype Option<+T> = None | Some(value: T) {
    function GetOr(default: T): T { if Some? then value else default }
  }

  type byte = x: int | 0 <= x < 256

  predicate NoNul(s: seq<byte>) { forall i | 0 <= i < |s| :: s[i] != 0 }

  function Min(a: nat, b: nat): nat { if a < b then a else b }

  /** uint32_t arithmetic: keep the low 32 bits. */
  function U32(x: int): nat { x % TWO32 }

  lemma U32Small(x: nat)
    requires x < TWO32
    ensures U32(x) == x
  {
  }

  /** uint64_t arithmetic: keep the low 64 bits. */
  function U64(x: int): nat { x % TWO64 }

  /** Conversion of an unsigned value to a 32-bit int, as gcc does it. */
  function ToInt32(x: nat): int {
    if x % TWO32 < 0x8000_0000 then x % TWO32 else x % TWO32 - TWO32
  }

  /** How many steps of width step a loop `for (x = 0; x < size; x += step)` makes. */
  function Steps(size: nat, step: nat): (n: nat)
    requires step > 0
  {
    (size + step - 1) / step
  }

  function PageCount(size: nat): nat { Steps(size, PAGE) }

  /** Does a loop over [start, start + size) in strides of step land in the step-aligned unit of a? */
  predicate Visited(start: nat, size: nat, step: nat, a: nat)
    requires step > 0
  {
    a / step < start / step + Steps(size, step)
  }

  /**
   A loop that starts at start and advances by step visits the step-aligned unit of
   every byte of [start, start + size) exactly when the misaligned head still fits.
   */
  lemma StepCoverage(start: nat, size: nat, step: nat)
    requires step > 0
    ensures (forall a | start <= a < start + size :: Visited(start, size, step, a))
       <==> (size == 0 || start % step + size <= Steps(size, step) * step)
  {
    if size > 0 {
      var last := start + size - 1;
      LastVisited(start, size, step);
      if Visited(start, size, step, last) {
        forall a | start <= a < start + size ensures Visited(start, size, step, a) {
          DivMonotone(a, last, step);
        }
      }
    }
  }

  lemma LastVisited(start: nat, size: nat, step: nat)
    requires step > 0 && size > 0
    ensures Visited(start, size, step, start + size - 1)
       <==> start % step + size <= Steps(size, step) * step
  {
    var n := Steps(size, step);
    DivMod(start, step);
    DivBound(start + size - 1, start / step + n, step);
    assert (start / step + n) * step == start / step * step + n * step;
  }

  lemma DivMod(a: int, d: nat)
    requires d > 0
    ensures a == a / d * d + a % d
  {
  }

  lemma DivMonotone(a: nat, b: nat, d: nat)
    requires d > 0 && a <= b
    ensures a / d <= b / d
  {
    DivMod(a, d);
    DivMod(b, d);
    if a / d > b / d {
      MulMonotone(b / d + 1, a / d, d);
      assert false;
    }
  }

  lemma DivBound(a: nat, q: nat, d: nat)
    requires d > 0
    ensures a / d < q <==> a < q * d
  {
    DivMod(a, d);
    if a / d < q {
      assert (a / d + 1) * d <= q * d;
    } else {
      assert a / d * d >= q * d;
    }
  }

  lemma MulMonotone(x: int, y: int, d: nat)
    requires x <= y
    ensures x * d <= y * d
  {
  }

  lemma DivUnique(a: int, d: nat, q: int, r: nat)
    requires d > 0 && a == q * d + r && r < d
    ensures a / d == q && a % d == r
  {
    var q', r' := a / d, a % d;
    assert a == q' * d + r';
    if q > q' {
      MulMonotone(q' + 1, q, d);
      assert false;
    } else if q < q' {
      MulMonotone(q + 1, q', d);
      assert false;
    }
  }

  lemma DivDiv(a: nat, b: nat, c: nat)
    requires b > 0 && c > 0
    ensures b * c > 0 && a / b / c == a / (b * c)
  {
    DivMod(a, b);
    DivMod(a / b, c);
    var r := b * (a / b % c) + a % b;
    assert b * (a / b % c) <= b * (c - 1) by { MulMonotone(a / b % c, c - 1, b); }
    assert a == (a / b / c) * (b * c) + r by {
      assert a == (a / b / c * c + a / b % c) * b + a % b;
    }
    DivUnique(a, b * c, a / b / c, r);
  }

  lemma Regroup(q: nat, m: nat, s: nat, d: nat, e: nat)
    ensures q * (m * d) + (s * d + e) == (q * m + s) * d + e
  {
  }

  lemma Positive(m: nat, d: nat)
    requires m > 0 && d > 0
    ensures m * d > 0
  {
  }

  /** Dropping low bits commutes with keeping a range of bits. */
  lemma ModDiv(a: nat, m: nat, d: nat)
    requires m > 0 && d > 0
    ensures m * d > 0 && a % (m * d) / d == a / d % m && a % (m * d) % d == a % d
  {
    Positive(m, d);
    var q, r := a / (m * d), a % (m * d);
    DivMod(a, m * d);
    DivMod(r, d);
    DivBound(r, m, d);
    Regrouped(a, m, d, q, r / d, r % d);
  }

  lemma Regrouped(a: nat, m: nat, d: nat, q: nat, s: nat, e: nat)
    requires s < m && e < d && a == q * (m * d) + (s * d + e)
    ensures a / d % m == s && a % d == e
  {
    Regroup(q, m, s, d, e);
    DivUnique(a, d, q * m + s, e);
    DivUnique(q * m + s, m, q, s);
  }

  lemma Congruent(a: int, b: int, m: nat)
    requires m > 0
    ensures (a - b) % m == 0 <==> a % m == b % m
  {
    var qa, qb, qd := a / m, b / m, (a - b) / m;
    assert a == qa * m + a % m && b == qb * m + b % m && a - b == qd * m + (a - b) % m;
    if (a - b) % m == 0 {
      assert a == (qb + qd) * m + b % m;
      DivUnique(a, m, qb + qd, b % m);
    } else if a % m == b % m {
      assert a - b == (qa - qb) * m + 0;
      DivUnique(a - b, m, qa - qb, 0);
      assert false;
    }
  }

  /** Positions on a ring of m slots: w lies n steps after a. */
  lemma RingPosition(a: nat, n: nat, w: nat, m: nat)
    requires a < m && w < m
    ensures w == (a + n) % m <==> (n - (w - a) % m) % m == 0
  {
    Congruent(a + n, w, m);
    Congruent(n, w - a, m);
    DivUnique((w - a) % m, m, 0, (w - a) % m);
    Congruent(n, (w - a) % m, m);
    DivUnique(w, m, 0, w);
  }

  lemma Distribute(x: nat, n: nat, d: nat)
    ensures (x + n + 1) * d == x * d + n * d + d
  {
  }

  /** The unit of a byte of the range is at most one past the units a step loop visits. */
  lemma StepsReach(start: nat, size: nat, step: nat, a: nat)
    requires step > 0 && start <= a < start + size
    ensures a / step <= start / step + Steps(size, step)
  {
    var n := Steps(size, step);
    DivMod(start, step);
    DivMod(size + step - 1, step);
    Distribute(start / step, n, step);
    DivBound(a, start / step + n + 1, step);
  }

  lemma NearZero(x: int, m: nat)
    requires x < m && -x < m && x % m == 0
    ensures x == 0
  {
    DivMod(x, m);
    if x / m >= 1 { MulMonotone(1, x / m, m); }
    if x / m <= -1 { MulMonotone(x / m, -1, m); }
  }

  // ----- loops over a 64-bit cursor

  /** The cursor of `for (x = start; x < start + size; x += step)` in 64-bit words does not wrap before it leaves the range. */
  predicate LoopEnds(start: nat, size: nat, step: nat)
    requires step > 0
  {
    start + size >= TWO64 || start + Steps(size, step) * step < TWO64
  }

  lemma StepsDone(size: nat, k: nat, step: nat)
    requires step > 0 && k <= Steps(size, step) && size <= k * step
    ensures k == Steps(size, step)
  {
    DivBound(size + step - 1, k + 1, step);
    assert (k + 1) * step == k * step + step;
  }

  lemma StepsLeft(size: nat, k: nat, step: nat)
    requires step > 0 && k * step < size
    ensures k < Steps(size, step)
  {
    DivBound(size + step - 1, k + 1, step);
    assert (k + 1) * step == k * step + step;
  }

  lemma StepsCover(size: nat, step: nat)
    requires step > 0
    ensures size <= Steps(size, step) * step < size + step
  {
    DivMod(size + step - 1, step);
  }

  ghost predicate Leaves(start: nat, size: nat, step: nat, k: nat) { U64(start + k * step) >= U64(start + size) }

  /** Some round of the loop finds the cursor out of range exactly when LoopEnds says so; otherwise it runs forever. */
  lemma LoopEndsExactlyWhen(start: nat, size: nat, step: nat)
    requires 0 < step && TWO64 % step == 0 && start < TWO64 && size < TWO64
    ensures (exists k: nat :: Leaves(start, size, step, k)) <==> LoopEnds(start, size, step)
  {
    var n := Steps(size, step);
    StepsCover(size, step);
    DivUnique(start, TWO64, 0, start);
    if start + size >= TWO64 {
      DivUnique(start + size, TWO64, 1, start + size - TWO64);
      assert Leaves(start, size, step, 0);
    } else {
      DivUnique(start + size, TWO64, 0, start + size);
      if start + n * step < TWO64 {
        DivUnique(start + n * step, TWO64, 0, start + n * step);
        assert Leaves(start, size, step, n);
      } else {
        forall k: nat ensures !Leaves(start, size, step, k) {
          CursorStaysInside(start, size, step, k);
        }
      }
    }
  }

  lemma CursorStaysInside(start: nat, size: nat, step: nat, k: nat)
    requires 0 < step && TWO64 % step == 0 && start + size < TWO64 <= start + Steps(size, step) * step
    ensures U64(start + k * step) < start + size
  {
    var x, q, m := U64(start + k * step), (start + k * step) / TWO64, TWO64 / step;
    DivMod(start + k * step, TWO64);
    DivMod(TWO64, step);
    var j := k - q * m;
    assert q * TWO64 == q * m * step by { assert TWO64 == m * step; }
    assert x == start + j * step;
    var n := Steps(size, step);
    StepsCover(size, step);
    assert (n - 1) * step == n * step - step;
    if j < n { MulMonotone(j, n - 1, step); } else { MulMonotone(n, j, step); }
  }
}
