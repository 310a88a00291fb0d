/** `GetNext` called by many threads: the atomic increment and the reset store interleave freely. */
module ResourceThreads {
  import opened ResourcePicker

  /** A thread is outside `GetNext`, or has incremented the counter and got `ptr`. */
  datatype Thread = Ready | Took(ptr: nat)

  /** `taken` lists the numbers handed out since the counter was last stored to, when it was `base`. */
  datatype State = State(curr: nat, threads: seq<Thread>, base: nat, taken: seq<nat>)

  datatype Step = Take(t: nat) | Return(t: nat)

  predicate Enabled(s: State, step: Step) {
    step.t < |s.threads| && (step.Take? <==> s.threads[step.t].Ready?)
  }

  /** `Take` is `++curr_ptr`, which wraps at the width of `size_t`; `Return` is the rest of the call. */
  function Do(s: State, step: Step, n: nat): State
    requires n > 0 && Enabled(s, step)
  {
    match step
    case Take(t) =>
      var ptr := (s.curr + 1) % SIZE_LIMIT;
      s.(curr := ptr, threads := s.threads[t := Took(ptr)], taken := s.taken + [ptr])
    case Return(t) =>
      var ptr := s.threads[t].ptr;
      var s1 := s.(threads := s.threads[t := Ready]);
      if ptr > MAX_DIGIT then s1.(curr := (ptr + 1) % n, base := (ptr + 1) % n, taken := []) else s1
  }

  ghost predicate Next(s: State, s': State, n: nat)
    requires n > 0
  {
    exists step :: Enabled(s, step) && s' == Do(s, step, n)
  }

  ghost predicate IsRun(run: seq<State>, n: nat)
    requires n > 0
  {
    && run != [] && run[0].curr == run[0].base == 0 && run[0].taken == []
    && (forall t | 0 <= t < |run[0].threads| :: run[0].threads[t].Ready?)
    && forall k | 0 < k < |run| :: Next(run[k - 1], run[k], n)
  }

  // ----- the invariant -----

  predicate Resetting(t: Thread) { t.Took? && t.ptr > MAX_DIGIT }

  /** Threads that still have to store. */
  function Pending(threads: seq<Thread>): (p: nat)
    ensures p <= |threads|
  {
    if threads == [] then 0 else (if Resetting(threads[0]) then 1 else 0) + Pending(threads[1..])
  }

  lemma {:induction false} PendingUpdate(threads: seq<Thread>, t: nat, x: Thread)
    requires t < |threads|
    ensures Pending(threads[t := x])
         == Pending(threads) - (if Resetting(threads[t]) then 1 else 0) + (if Resetting(x) then 1 else 0)
  {
    if t > 0 {
      PendingUpdate(threads[1..], t - 1, x);
      assert threads[t := x][1..] == threads[1..][t - 1 := x];
    } else {
      assert threads[t := x][1..] == threads[1..];
    }
  }

  /** The counter exceeds its limit by at most the number of stores still to come. */
  ghost predicate Inv(s: State) {
    && s.curr <= MAX_DIGIT + Pending(s.threads)
    && s.curr == s.base + |s.taken|
    && (forall k | 0 <= k < |s.taken| :: s.taken[k] == s.base + k + 1)
    && forall t | 0 <= t < |s.threads| && s.threads[t].Took? :: s.threads[t].ptr <= MAX_DIGIT + |s.threads|
  }

  lemma StepInv(s: State, step: Step, n: nat)
    requires Inv(s) && 0 < n <= MAX_DIGIT && |s.threads| <= MAX_DIGIT && Enabled(s, step)
    ensures Inv(Do(s, step, n)) && |Do(s, step, n).threads| == |s.threads|
    ensures step.Take? ==> Do(s, step, n).curr == s.curr + 1
  {
    var x := Do(s, step, n).threads[step.t];
    PendingUpdate(s.threads, step.t, x);
  }

  lemma {:induction false} RunInv(run: seq<State>, n: nat, k: nat)
    requires 0 < n <= MAX_DIGIT && IsRun(run, n) && |run[0].threads| <= MAX_DIGIT && k < |run|
    ensures Inv(run[k]) && |run[k].threads| == |run[0].threads|
    decreases k
  {
    if k > 0 {
      RunInv(run, n, k - 1);
      assert Next(run[k - 1], run[k], n);
      var step :| Enabled(run[k - 1], step) && run[k] == Do(run[k - 1], step, n);
      StepInv(run[k - 1], step, n);
    }
  }

  // ----- main results -----

  /** A call that no other thread interrupts moves the counter as a single thread would see it. */
  lemma UninterruptedCall(s: State, t: nat, n: nat)
    requires Inv(s) && 0 < n <= MAX_DIGIT && |s.threads| <= MAX_DIGIT && t < |s.threads| && s.threads[t].Ready?
    ensures var s1 := Do(s, Take(t), n); var s2 := Do(s1, Return(t), n);
      && s1.curr == s.curr + 1 && s1.threads[t] == Took(s.curr + 1) && s2.threads == s.threads
      && s2.curr == if s.curr >= 0x7FFF_FFFF_FFFF_FFFF then (s.curr + 2) % n else s.curr + 1
  {
    StepInv(s, Take(t), n);
    assert s.threads[t := Took(s.curr + 1)][t := Ready] == s.threads;
  }

  /** In every run the counter stays within its limit plus the number of threads, so it never wraps. */
  lemma CounterNeverOverflows(run: seq<State>, n: nat, k: nat)
    requires 0 < n <= MAX_DIGIT && IsRun(run, n) && |run[0].threads| <= MAX_DIGIT && k < |run|
    ensures run[k].curr <= 0x7FFF_FFFF_FFFF_FFFF + |run[0].threads| < 0x1_0000_0000_0000_0000
  {
    RunInv(run, n, k);
  }

  /** Whichever threads make them, up to `n` takes in a row with no store in between get different slots. */
  lemma TakesGetDifferentSlots(run: seq<State>, n: nat, k: nat, i: nat, j: nat)
    requires 0 < n <= MAX_DIGIT && IsRun(run, n) && |run[0].threads| <= MAX_DIGIT && k < |run|
    requires i < j < |run[k].taken| && j - i < n
    ensures run[k].taken[i] % n != run[k].taken[j] % n
  {
    RunInv(run, n, k);
    ModDistinct(run[k].taken[i], run[k].taken[j], n);
  }
}
