/** Seeding the parallel random resource (`ResourceParallelRandom`). */
module ResourceSeed {
  import opened ResourcePicker

  const SEED_LIMIT: nat := 0x1_0000_0000
  /** `kMaxNumGPUs` and `kRandMagic`. */
  const MAX_NUM_GPUS: nat := 16
  const RAND_MAGIC: nat := 127

  /** The seed of copy `i` on device `dev`, truncated to 32 bits. */
  function SeedOf(dev: nat, i: nat, s: nat): nat { (dev + i * MAX_NUM_GPUS + s * RAND_MAGIC) % SEED_LIMIT }

  /** With a global seed, all copies on all devices get different seeds. */
  lemma SeedsDistinct(dev: nat, i: nat, dev': nat, i': nat, s: nat)
    requires dev < 16 && dev' < 16 && i < 0x1000_0000 && i' < 0x1000_0000
    requires SeedOf(dev, i, s) == SeedOf(dev', i', s)
    ensures dev == dev' && i == i'
  {
    var a, b := dev + i * MAX_NUM_GPUS, dev' + i' * MAX_NUM_GPUS;
    var x := s * RAND_MAGIC;
    if a + x < b + x { ModDistinct(a + x, b + x, SEED_LIMIT); }
    else if b + x < a + x { ModDistinct(b + x, a + x, SEED_LIMIT); }
  }

  /** One copy more and seeds repeat. */
  lemma SeedsRepeatBeyondLimit(dev: nat, i: nat, s: nat)
    ensures SeedOf(dev, i + 0x1000_0000, s) == SeedOf(dev, i, s)
  {
    ModPlus(dev + i * MAX_NUM_GPUS + s * RAND_MAGIC, SEED_LIMIT);
  }

  /** One more on the global seed is 127 more on every generator seed. */
  lemma SeedStep(dev: nat, i: nat, s: nat)
    ensures SeedOf(dev, i, s + 1) == (SeedOf(dev, i, s) + 127) % 0x1_0000_0000
  {
    ModShift(dev + i * MAX_NUM_GPUS + s * RAND_MAGIC, 127, SEED_LIMIT);
  }

  /** Different 32-bit global seeds reseed every generator differently: 127 is odd, and 4024418175 is
      its inverse modulo 2^32. */
  lemma GlobalSeedsMatter(dev: nat, i: nat, s: nat, s': nat)
    requires s < 0x1_0000_0000 && s' < 0x1_0000_0000
    requires SeedOf(dev, i, s) == SeedOf(dev, i, s')
    ensures s == s'
  {
    var a, b := dev + i * MAX_NUM_GPUS + s * RAND_MAGIC, dev + i * MAX_NUM_GPUS + s' * RAND_MAGIC;
    var d, q := s - s', a / SEED_LIMIT - b / SEED_LIMIT;
    assert 127 * d == SEED_LIMIT * q;
    assert d == SEED_LIMIT * (4024418175 * q - 119 * d);
  }

  /** A generator: the seed it was last given and how many numbers were drawn from it since. */
  datatype Generator = Generator(seed: nat, drawn: nat)

  datatype Rand = Rand(sampler: seq<Generator>, curr: nat)

  /** The state right after reseeding with the device's seeds: nothing of the past is left. */
  function Seeded(n: nat, dev: nat, s: nat): (r: Rand)
    ensures 0 < n <= MAX_DIGIT ==> Usable(r) && |r.sampler| == n
  {
    Rand(seq(n, i requires 0 <= i < n => Generator(SeedOf(dev, i, s), 0)), 0)
  }

  /** Every sampler carries the seed made of the device, its number and the given seed, undrawn, and
      the counter is at its start. */
  predicate FreshlySeeded(r: Rand, n: nat, dev: nat, s: nat) {
    && |r.sampler| == n && r.curr == 0
    && forall i | 0 <= i < n :: r.sampler[i] == Generator((dev + i * 16 + s * 127) % 0x1_0000_0000, 0)
  }

  predicate Usable(r: Rand) { 0 < |r.sampler| <= MAX_DIGIT && r.curr <= MAX_DIGIT }

  /** Request a sampler and draw from it: the slot, the generator as found, and the state after. */
  function Draw(r: Rand): (nat, Generator, Rand)
    requires Usable(r)
  {
    var n := |r.sampler|;
    var slot := (r.curr + 1) % n;
    var g := r.sampler[slot];
    (slot, g, Rand(r.sampler[slot := g.(drawn := g.drawn + 1)], Store(r.curr, n)))
  }

  /** The state after `k` draws. */
  function AfterDraws(r: Rand, k: nat): (r': Rand)
    requires Usable(r)
    ensures Usable(r') && |r'.sampler| == |r.sampler|
  {
    if k == 0 then r else Draw(AfterDraws(r, k - 1)).2
  }

  /** The slot and the generator the `k`-th draw finds, counting from 1. */
  function KthDraw(r: Rand, k: nat): (nat, Generator)
    requires Usable(r) && k > 0
  {
    var (slot, g, _) := Draw(AfterDraws(r, k - 1)); (slot, g)
  }

  class ParallelRandom {
    const dev: nat
    var state: Rand

    constructor (ncopy: nat, device: nat, globalSeed: nat)
      requires 0 < ncopy <= MAX_DIGIT
      ensures dev == device && state == Seeded(ncopy, device, globalSeed)
      ensures FreshlySeeded(state, ncopy, device, globalSeed)
    {
      dev := device;
      var sampler: seq<Generator> := [];
      for i := 0 to ncopy
        invariant |sampler| == i && forall j | 0 <= j < i :: sampler[j] == Generator(SeedOf(device, j, globalSeed), 0)
      {
        sampler := sampler + [Generator(SeedOf(device, i, globalSeed), 0)];
      }
      state := Rand(sampler, 0);
    }

    /** Reseeds every sampler, then resets the counter. */
    method SeedWithDeviceID(globalSeed: nat)
      requires Usable(state)
      modifies this
      ensures state == Seeded(|old(state).sampler|, dev, globalSeed)
      ensures FreshlySeeded(state, |old(state).sampler|, dev, globalSeed)
    {
      Reseed(dev, globalSeed);
    }

    /** As above, but leaving out the device id. */
    method Seed(seed: nat)
      requires Usable(state)
      modifies this
      ensures state == Seeded(|old(state).sampler|, 0, seed)
      ensures FreshlySeeded(state, |old(state).sampler|, 0, seed)
    {
      Reseed(0, seed);
    }

    method Reseed(device: nat, seed: nat)
      requires Usable(state)
      modifies this
      ensures state == Seeded(|old(state).sampler|, device, seed)
    {
      var n := |state.sampler|;
      for i := 0 to n
        invariant |state.sampler| == n && state.curr == old(state).curr
        invariant forall j | 0 <= j < i :: state.sampler[j] == Generator(SeedOf(device, j, seed), 0)
      {
        state := state.(sampler := state.sampler[i := Generator(SeedOf(device, i, seed), 0)]);
      }
      state := state.(curr := 0);
    }
  }

  // ----- which numbers the draws return -----

  lemma Division(x: nat, n: nat)
    requires n > 0
    ensures x == x / n * n + x % n
  {
  }

  lemma Succ(q: nat, n: nat)
    ensures (q + 1) * n == q * n + n
  {
  }

  lemma DivMod(x: nat, n: nat, q: nat, r: nat)
    requires r < n && x == q * n + r
    ensures x / n == q && x % n == r
  {
    ModOf(q, r, n);
    var d := x / n - q;
    assert d * n == 0;
    MulBound(d, n);
  }

  /** Calls come to slot `j` for the first time at call number `Turn(j, n)`. */
  function Turn(j: nat, n: nat): nat
    requires j < n
  {
    if j == 0 then n else j
  }

  /** How many of the calls 1 to `m` come to slot `j`. */
  function Hits(m: nat, j: nat, n: nat): nat
    requires j < n
  {
    (m + n - Turn(j, n)) / n
  }

  lemma HitsAt(m: nat, j: nat, n: nat)
    requires j < n
    ensures Hits(m, j, n) == m / n + if Turn(j, n) <= m % n then 1 else 0
  {
    var q, r, t := m / n, m % n, Turn(j, n);
    Division(m, n);
    if t <= r {
      Succ(q, n);
      DivMod(m + n - t, n, q + 1, r - t);
    } else {
      DivMod(m + n - t, n, q, r + n - t);
    }
  }

  lemma NextDivMod(m: nat, n: nat)
    requires n > 0
    ensures if m % n + 1 == n then (m + 1) % n == 0 && (m + 1) / n == m / n + 1
            else (m + 1) % n == m % n + 1 && (m + 1) / n == m / n
  {
    var q, r := m / n, m % n;
    Division(m, n);
    if r + 1 == n { Succ(q, n); DivMod(m + 1, n, q + 1, 0); }
    else { DivMod(m + 1, n, q, r + 1); }
  }

  /** Call number `m + 1` comes to one slot, and only that slot's count goes up. */
  lemma HitsStep(m: nat, j: nat, n: nat)
    requires j < n
    ensures Hits(m + 1, j, n) == Hits(m, j, n) + if (m + 1) % n == j then 1 else 0
    ensures (m + 1) % n == j ==> Hits(m, j, n) == m / n
  {
    hide Hits;
    HitsAt(m, j, n);
    HitsAt(m + 1, j, n);
    NextDivMod(m, n);
  }

  lemma {:induction false} SamplersAfterDraws(n: nat, dev: nat, s: nat, k: nat)
    requires 0 < n <= MAX_DIGIT && k <= MAX_DIGIT
    ensures var r := AfterDraws(Seeded(n, dev, s), k);
      r.curr == k && forall j | 0 <= j < n :: r.sampler[j] == Generator(SeedOf(dev, j, s), Hits(k, j, n))
    decreases k
  {
    hide Hits, SeedOf;
    if k > 0 {
      SamplersAfterDraws(n, dev, s, k - 1);
      forall j | 0 <= j < n ensures Hits(k, j, n) == Hits(k - 1, j, n) + if k % n == j then 1 else 0 {
        HitsStep(k - 1, j, n);
      }
    } else {
      forall j | 0 <= j < n ensures Hits(0, j, n) == 0 { NoHits(j, n); }
    }
  }

  lemma NoHits(j: nat, n: nat)
    requires j < n
    ensures Hits(0, j, n) == 0
  {
    DivMod(n - Turn(j, n), n, 0, n - Turn(j, n));
  }

  function RoundRobinDraw(n: nat, dev: nat, s: nat, k: nat): (nat, Generator)
    requires 0 < n && 0 < k
  {
    (k % n, Generator(SeedOf(dev, k % n, s), (k - 1) / n))
  }

  /** After reseeding, whatever happened before, the `k`-th draw (from 1) returns number `(k-1)/n`
      of the generator in slot `k mod n` freshly seeded with that slot's seed. */
  lemma DrawsAfterReseeding(n: nat, dev: nat, s: nat, k: nat)
    requires 0 < n <= MAX_DIGIT && 0 < k <= MAX_DIGIT
    ensures KthDraw(Seeded(n, dev, s), k) == RoundRobinDraw(n, dev, s, k)
    ensures RoundRobinDraw(n, dev, s, k).0 == k % n
    ensures RoundRobinDraw(n, dev, s, k).1.seed == (dev + (k % n) * 16 + s * 127) % 0x1_0000_0000
    ensures RoundRobinDraw(n, dev, s, k).1.drawn == (k - 1) / n
  {
    hide Hits;
    SamplersAfterDraws(n, dev, s, k - 1);
    HitsStep(k - 1, k % n, n);
  }
}
