/** Remainders of natural numbers, as ring indices use them. */
module Modular {

  lemma MulLe(n: nat, a: int, b: int)
    requires a <= b
    ensures n * a <= n * b
  {
  }

  lemma DivModUnique(x: int, n: nat, q: int, r: nat)
    requires n > 0 && x == n * q + r && r < n
    ensures x / n == q && x % n == r
  {
    var a, b := x / n, x % n;
    assert x == n * a + b;
    assert n * (a - q) == r - b;
    if a < q {
      MulLe(n, a - q, -1);
      assert false;
    }
    if a > q {
      MulLe(n, 1, a - q);
      assert false;
    }
  }

  lemma ModShift(x: nat, n: nat)
    requires n > 0
    ensures (x + n) % n == x % n
  {
    assert x + n == n * (x / n + 1) + x % n;
    DivModUnique(x + n, n, x / n + 1, x % n);
  }

  lemma ModAdd(x: nat, y: nat, n: nat)
    requires n > 0
    ensures (x % n + y) % n == (x + y) % n
  {
    var z := x % n + y;
    assert x + y == n * (x / n) + z;
    assert z == n * (z / n) + z % n;
    assert x + y == n * (x / n + z / n) + z % n by {
      assert n * (x / n + z / n) == n * (x / n) + n * (z / n);
    }
    DivModUnique(x + y, n, x / n + z / n, z % n);
  }

  /** Numbers with the same remainder are at least `n` apart. */
  lemma ModGap(a: nat, b: nat, n: nat)
    requires n > 0 && a < b && a % n == b % n
    ensures b >= a + n
  {
    var d := b / n - a / n;
    assert b - a == n * d by {
      assert n * d == n * (b / n) - n * (a / n);
    }
    if d <= 0 {
      MulLe(n, d, 0);
      assert false;
    }
    MulLe(n, 1, d);
  }

  /** Within a window of `n` consecutive numbers remainders are distinct. */
  lemma ModDistinct(a: nat, b: nat, low: nat, n: nat)
    requires n > 0 && low <= a < low + n && low <= b < low + n && a != b
    ensures a % n != b % n
  {
    if a % n == b % n {
      if a < b {
        ModGap(a, b, n);
      } else {
        ModGap(b, a, n);
      }
    }
  }

  lemma ModSmall(x: nat, n: nat)
    requires x < n
    ensures x % n == x
  {
  }

  // ---- wrapped ring indices -------------------------------------------------

  /** Where counter value `i` falls in a ring of `capacity` slots. */
  function Index(i: nat, capacity: nat): (r: nat)
    requires capacity > 0
    ensures r < capacity
  {
    i % capacity
  }

  /** The index after `i`, wrapped. */
  function Advance(i: nat, capacity: nat): (r: nat)
    requires capacity > 0
    ensures r < capacity
  {
    (i + 1) % capacity
  }

  lemma AdvanceIndex(i: nat, capacity: nat)
    requires capacity > 0
    ensures Advance(Index(i, capacity), capacity) == Index(i + 1, capacity)
  {
    ModAdd(i, 1, capacity);
  }

  /** Two wrapped counters at most `capacity` apart meet only when equal or exactly that far apart. */
  lemma IndicesMeet(low: nat, high: nat, capacity: nat)
    requires capacity > 0 && low <= high <= low + capacity
    ensures Index(low, capacity) == Index(high, capacity) <==> high == low || high == low + capacity
  {
    if high == low + capacity {
      ModShift(low, capacity);
    } else if low < high {
      ModDistinct(low, high, low, capacity);
    }
  }
}
