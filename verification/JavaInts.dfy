/** Java's 32-bit signed integers. */
module JavaInts {

  const MAX_INT: int := 0x7FFF_FFFF
  const MIN_INT: int := -0x8000_0000
  const RANGE: int := 0x1_0000_0000

  /** The value a 32-bit variable shows after computing `n`. */
  function Narrow(n: int): int {
    (n - MIN_INT) % RANGE + MIN_INT
  }

  function Increment(n: int): int {
    if n == MAX_INT then MIN_INT else n + 1
  }

  lemma NarrowFits(n: int)
    ensures MIN_INT <= Narrow(n) <= MAX_INT
    ensures Narrow(n) == n <==> MIN_INT <= n <= MAX_INT
  {
  }

  /** A count never shows as more than it is, and as less once it does not fit. */
  lemma NarrowLoses(n: nat)
    ensures Narrow(n) <= n
    ensures Narrow(n) == n <==> n <= MAX_INT
  {
  }

  lemma ModAdd(m: int, n: int)
    ensures (m % RANGE + n) % RANGE == (m + n) % RANGE
  {
    var q, r := m / RANGE, (m % RANGE + n) / RANGE;
    assert m == q * RANGE + m % RANGE;
    assert m + n == (q + r) * RANGE + (m % RANGE + n) % RANGE;
  }

  /** Adding step by step in 32 bits shows the same as narrowing the whole sum once. */
  lemma NarrowAdd(m: int, n: int)
    ensures Narrow(Narrow(m) + n) == Narrow(m + n)
  {
    ModAdd(m - MIN_INT, n);
  }

  lemma NarrowStep(n: int)
    ensures Narrow(n + 1) == Increment(Narrow(n))
  {
    NarrowAdd(n, 1);
    NarrowFits(n);
    NarrowFits(Narrow(n) + 1);
    if Narrow(n) == MAX_INT {
      assert Narrow(MAX_INT + 1) == MIN_INT;
    }
  }
}
