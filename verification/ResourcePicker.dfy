/** The round-robin slot picker of the resource manager: an atomic counter with an overflow guard,
    used by many threads at once. */
module ResourcePicker {

  /** `size_t` is 64 bits wide. */
  const SIZE_LIMIT: nat := 0x1_0000_0000_0000_0000
  /** `kMaxDigit`. */
  const MAX_DIGIT: nat := 0x7FFF_FFFF_FFFF_FFFF

  // ----- arithmetic -----

  lemma MulBound(d: int, n: nat)
    ensures d >= 1 ==> d * n >= n
    ensures d <= -1 ==> d * n <= -(n as int)
  {
  }

  lemma ModOf(q: int, r: nat, n: nat)
    requires r < n
    ensures (q * n + r) % n == r
  {
    var x := q * n + r;
    var d := x / n - q;
    assert x == x / n * n + x % n;
    assert d * n == r - x % n;
    MulBound(d, n);
  }

  lemma ModShift(x: int, d: int, n: nat)
    requires n > 0
    ensures (x % n + d) % n == (x + d) % n
  {
    var q, q' := x / n, (x + d) / n;
    assert x % n + d == (q' - q) * n + (x + d) % n;
    ModOf(q' - q, (x + d) % n, n);
  }

  lemma ModPlus(x: int, n: nat)
    requires n > 0
    ensures (x + n) % n == x % n
  {
    assert (x / n + 1) * n + x % n == x + n;
    ModOf(x / n + 1, x % n, n);
  }

  /** Numbers less than `n` apart have different remainders. */
  lemma ModDistinct(a: int, b: int, n: nat)
    requires a < b < a + n
    ensures a % n != b % n
  {
    var d := b / n - a / n;
    assert b - a == d * n + (b % n - a % n);
    MulBound(d, n);
  }

  // ----- one thread -----

  /** The counter after a call that found it at `curr`. */
  function Store(curr: nat, n: nat): nat
    requires n > 0 && curr + 1 < SIZE_LIMIT
  {
    if curr + 1 > MAX_DIGIT then (curr + 2) % n else curr + 1
  }

  /** A picker over `n` slots (`ResourceTempSpace`, `ResourceParallelRandom`). */
  class Picker {
    const n: nat
    var curr: nat

    ghost predicate Valid() reads this { 0 < n <= MAX_DIGIT && curr <= MAX_DIGIT }

    constructor (ncopy: nat)
      requires 0 < ncopy <= MAX_DIGIT
      ensures Valid() && n == ncopy && curr == 0
    {
      n, curr := ncopy, 0;
    }

    method GetNext() returns (slot: nat)
      requires Valid()
      modifies this
      ensures Valid() && slot < n
      ensures slot == (old(curr) + 1) % n && curr == Store(old(curr), n)
      ensures curr == if old(curr) >= 0x7FFF_FFFF_FFFF_FFFF then (old(curr) + 2) % n else old(curr) + 1
    {
      var ptr := (curr + 1) % SIZE_LIMIT;
      curr := ptr;
      if ptr > MAX_DIGIT {
        curr := (ptr + 1) % n;
      }
      slot := ptr % n;
    }
  }

  /** The counter before the `k`-th of the calls that follow (counting from 0). */
  function Counter(curr: nat, n: nat, k: nat): (c: nat)
    requires 0 < n <= MAX_DIGIT && curr <= MAX_DIGIT
    ensures c <= MAX_DIGIT
  {
    if k == 0 then curr else Store(Counter(curr, n, k - 1), n)
  }

  function Slot(curr: nat, n: nat, k: nat): nat
    requires 0 < n <= MAX_DIGIT && curr <= MAX_DIGIT
  {
    (Counter(curr, n, k) + 1) % n
  }

  ghost predicate EachSlotOnce(curr: nat, n: nat)
    requires 0 < n <= MAX_DIGIT && curr <= MAX_DIGIT
  {
    forall i, j | 0 <= i < j < n :: Slot(curr, n, i) != Slot(curr, n, j)
  }

  lemma {:induction false} CounterBeforeReset(curr: nat, n: nat, k: nat)
    requires 0 < n <= MAX_DIGIT && curr + k <= MAX_DIGIT
    ensures Counter(curr, n, k) == curr + k
  {
    if k > 0 { CounterBeforeReset(curr, n, k - 1); }
  }

  /** The call that finds the counter at its limit resets it; counting then goes on one slot further
      than it should. */
  lemma {:induction false} CounterAfterReset(curr: nat, n: nat, k: nat)
    requires 0 < n && 2 * n <= MAX_DIGIT && curr <= MAX_DIGIT && MAX_DIGIT - curr < k <= MAX_DIGIT - curr + n
    ensures Counter(curr, n, k) <= 2 * n
    ensures Counter(curr, n, k) % n == (curr + k + 1) % n
    ensures Counter(curr, n, k) == (MAX_DIGIT + 2) % n + (k - (MAX_DIGIT - curr) - 1)
    decreases k
  {
    var first := MAX_DIGIT - curr + 1;
    if k == first {
      CounterBeforeReset(curr, n, first - 1);
      ModShift(MAX_DIGIT + 2, 0, n);
    } else {
      CounterAfterReset(curr, n, k - 1);
      ModShift(MAX_DIGIT + 2, k - first, n);
    }
  }

  /** `n` calls in a row return each slot exactly once if and only if the counter is not reset
      before the last of them. */
  lemma RoundRobinExactly(curr: nat, n: nat)
    requires 0 < n && 2 * n <= MAX_DIGIT && curr <= MAX_DIGIT
    ensures EachSlotOnce(curr, n) <==> n == 1 || curr + n <= 0x8000_0000_0000_0000
  {
    if curr + n <= MAX_DIGIT + 1 {
      forall i, j | 0 <= i < j < n ensures Slot(curr, n, i) != Slot(curr, n, j) {
        CounterBeforeReset(curr, n, i);
        CounterBeforeReset(curr, n, j);
        ModDistinct(curr + i + 1, curr + j + 1, n);
      }
    } else if n > 1 {
      FirstAndLastCollide(curr, n);
    }
  }

  lemma FirstAndLastCollide(curr: nat, n: nat)
    requires 1 < n && 2 * n <= MAX_DIGIT && curr <= MAX_DIGIT && curr + n > MAX_DIGIT + 1
    ensures Slot(curr, n, 0) == Slot(curr, n, n - 1)
  {
    CounterAfterReset(curr, n, n - 1);
    ModShift(Counter(curr, n, n - 1), 1, n);
    ModShift(curr + n, 1, n);
    ModPlus(curr + 1, n);
  }
}
