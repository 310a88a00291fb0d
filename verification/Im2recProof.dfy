/** Safety and progress of the `im2rec` pipeline over every interleaving. */
module Im2recProof {
  import opened Im2recPipeline

  // ----- queues -----

  lemma JobsPush(q: seq<Job>, m: Job)
    ensures Jobs(q + [m]) == Jobs(q) + if m.Job? then {m.i} else {}
  {
    var q1 := q + [m];
    assert forall k | 0 <= k < |q| :: q1[k] == q[k];
    assert q1[|q|] == m;
    forall i ensures i in Jobs(q1) <==> i in Jobs(q) || (m.Job? && i == m.i) {
      if i in Jobs(q) { var k :| 0 <= k < |q| && q[k].Job? && q[k].i == i; assert q1[k] == q[k]; }
    }
  }

  lemma JobsPop(q: seq<Job>)
    requires q != [] && DistinctJobs(q)
    ensures DistinctJobs(q[1..])
    ensures Jobs(q[1..]) == Jobs(q) - if q[0].Job? then {q[0].i} else {}
    ensures q[0].Job? ==> q[0].i in Jobs(q)
  {
    forall i ensures i in Jobs(q[1..]) <==> i in Jobs(q) && !(q[0].Job? && i == q[0].i) {
      if i in Jobs(q) && !(q[0].Job? && i == q[0].i) {
        var k :| 0 <= k < |q| && q[k].Job? && q[k].i == i;
        assert q[1..][k - 1] == q[k];
      }
    }
  }

  lemma ResultsPush(q: seq<Result>, m: Result)
    ensures Results(q + [m]) == Results(q) + if m.Result? then {m.i} else {}
  {
    var q1 := q + [m];
    assert q1[|q|] == m;
    forall i ensures i in Results(q1) <==> i in Results(q) || (m.Result? && i == m.i) {
      if i in Results(q) { var k :| 0 <= k < |q| && q[k].Result? && q[k].i == i; assert q1[k] == q[k]; }
    }
  }

  lemma ResultsPop(q: seq<Result>)
    requires q != [] && DistinctResults(q)
    ensures DistinctResults(q[1..])
    ensures Results(q[1..]) == Results(q) - if q[0].Result? then {q[0].i} else {}
    ensures q[0].Result? ==> q[0].i in Results(q)
  {
    forall i ensures i in Results(q[1..]) <==> i in Results(q) && !(q[0].Result? && i == q[0].i) {
      if i in Results(q) && !(q[0].Result? && i == q[0].i) {
        var k :| 0 <= k < |q| && q[k].Result? && q[k].i == i;
        assert q[1..][k - 1] == q[k];
      }
    }
  }

  // ----- every step keeps the invariant -----

  lemma StartInv(c: Config)
    requires c.Ok()
    ensures Inv(c, Start(c))
  {
  }

  lemma DealInv(c: Config, s: State)
    requires Inv(c, s) && Enabled(c, s, Deal)
    ensures Inv(c, Do(c, s, Deal))
  {
    hide Encoded, DistinctResults, Results;
    var s1, t, m := Do(c, s, Deal), Lane(c, s.dealt), Job(s.dealt, c.items[s.dealt]);
    assert LaneOk(c, s, t) && Placed(c, s, s.dealt);
    JobsPush(s.qin[t], m);
    DealLane(c, s);
    forall t' | 0 <= t' < c.threads && t' != t ensures LaneOk(c, s1, t') { assert LaneOk(c, s, t'); }
    hide DistinctJobs, Jobs, ItemAt;
    forall i: nat ensures Placed(c, s1, i) { assert Placed(c, s, i); }
  }

  /** The lane that is dealt an item. */
  lemma DealLane(c: Config, s: State)
    requires Shaped(c, s) && MainOk(c, s) && Enabled(c, s, Deal) && LaneOk(c, s, Lane(c, s.dealt))
    ensures LaneOk(c, Do(c, s, Deal), Lane(c, s.dealt))
  {
    JobsPush(s.qin[Lane(c, s.dealt)], Job(s.dealt, c.items[s.dealt]));
  }

  lemma StopInv(c: Config, s: State)
    requires Inv(c, s) && Enabled(c, s, StopWorker)
    ensures Inv(c, Do(c, s, StopWorker))
  {
    hide Encoded, DistinctResults, Results;
    var s1 := Do(c, s, StopWorker);
    JobsPush(s.qin[s.stopped], Stop);
    forall t' | 0 <= t' < c.threads ensures LaneOk(c, s1, t') { assert LaneOk(c, s, t'); }
    hide DistinctJobs, Jobs, ItemAt;
    forall i: nat ensures Placed(c, s1, i) { assert Placed(c, s, i); }
  }

  lemma JoinInv(c: Config, s: State)
    requires Inv(c, s) && Enabled(c, s, JoinWorker)
    ensures Inv(c, Do(c, s, JoinWorker))
  {
    var s1 := Do(c, s, JoinWorker);
    forall t' | 0 <= t' < c.threads ensures LaneOk(c, s1, t') { assert LaneOk(c, s, t'); }
    forall i: nat ensures Placed(c, s1, i) { assert Placed(c, s, i); }
  }

  lemma CloseInv(c: Config, s: State)
    requires Inv(c, s) && Enabled(c, s, Close)
    ensures Inv(c, Do(c, s, Close))
  {
    var s1 := Do(c, s, Close);
    ResultsPush(s.qout, Last);
    forall t' | 0 <= t' < c.threads ensures LaneOk(c, s1, t') { assert LaneOk(c, s, t'); }
    forall i: nat ensures Placed(c, s1, i) { assert Placed(c, s, i); }
  }

  lemma EndInv(c: Config, s: State)
    requires Inv(c, s) && Enabled(c, s, End)
    ensures Inv(c, Do(c, s, End))
  {
    var s1 := Do(c, s, End);
    forall t' | 0 <= t' < c.threads ensures LaneOk(c, s1, t') { assert LaneOk(c, s, t'); }
    forall i: nat ensures Placed(c, s1, i) { assert Placed(c, s, i); }
  }

  lemma GetInv(c: Config, s: State, t: nat)
    requires Inv(c, s) && Enabled(c, s, Get(t))
    ensures Inv(c, Do(c, s, Get(t)))
  {
    hide Encoded, DistinctResults, Results;
    var s1 := Do(c, s, Get(t));
    assert LaneOk(c, s, t);
    JobsPop(s.qin[t]);
    GetLane(c, s, t);
    forall t' | 0 <= t' < c.threads && t' != t ensures LaneOk(c, s1, t') { assert LaneOk(c, s, t'); }
    hide DistinctJobs, Jobs, ItemAt;
    forall i: nat ensures Placed(c, s1, i) { assert Placed(c, s, i); }
  }

  /** The lane whose worker takes a message. */
  lemma GetLane(c: Config, s: State, t: nat)
    requires Shaped(c, s) && Enabled(c, s, Get(t)) && LaneOk(c, s, t)
    ensures LaneOk(c, Do(c, s, Get(t)), t)
  {
    JobsPop(s.qin[t]);
  }

  lemma PutInv(c: Config, s: State, t: nat)
    requires Inv(c, s) && Enabled(c, s, Put(t))
    ensures Inv(c, Do(c, s, Put(t)))
  {
    hide Encoded, DistinctJobs, Jobs;
    var s1, w := Do(c, s, Put(t)), s.workers[t];
    assert LaneOk(c, s, t) && Placed(c, s, w.i);
    ResultsPush(s.qout, Result(w.i, c.encode(w.item), w.item));
    forall t' | 0 <= t' < c.threads ensures LaneOk(c, s1, t') { assert LaneOk(c, s, t'); }
    forall i: nat ensures Placed(c, s1, i) { assert Placed(c, s, i); }
  }

  lemma ReceiveInv(c: Config, s: State)
    requires Inv(c, s) && Enabled(c, s, Receive)
    ensures Inv(c, Do(c, s, Receive))
  {
    hide Encoded, DistinctJobs, Jobs;
    var s1 := Do(c, s, Receive);
    ResultsPop(s.qout);
    if s.qout[0].Result? { assert Placed(c, s, s.qout[0].i); }
    forall t' | 0 <= t' < c.threads ensures LaneOk(c, s1, t') { assert LaneOk(c, s, t'); }
    forall i: nat ensures Placed(c, s1, i) { assert Placed(c, s, i); }
  }

  lemma EmitInv(c: Config, s: State)
    requires Inv(c, s) && Enabled(c, s, Emit)
    ensures Inv(c, Do(c, s, Emit))
  {
    var s1 := Do(c, s, Emit);
    assert Placed(c, s, s.count);
    assert c.items[..s.count + 1][..s.count] == c.items[..s.count];
    forall t' | 0 <= t' < c.threads ensures LaneOk(c, s1, t') { assert LaneOk(c, s, t'); }
    forall i: nat ensures Placed(c, s1, i) { assert Placed(c, s, i); }
  }

  lemma LoopInv(c: Config, s: State)
    requires Inv(c, s) && Enabled(c, s, Loop)
    ensures Inv(c, Do(c, s, Loop))
  {
    var s1 := Do(c, s, Loop);
    forall t' | 0 <= t' < c.threads ensures LaneOk(c, s1, t') { assert LaneOk(c, s, t'); }
    forall i: nat ensures Placed(c, s1, i) { assert Placed(c, s, i); }
  }

  lemma StepInv(c: Config, s: State, step: Step)
    requires Inv(c, s) && Enabled(c, s, step)
    ensures Inv(c, Do(c, s, step))
  {
    hide *;
    match step
    case Deal => DealInv(c, s);
    case StopWorker => StopInv(c, s);
    case JoinWorker => JoinInv(c, s);
    case Close => CloseInv(c, s);
    case End => EndInv(c, s);
    case Get(t) => GetInv(c, s, t);
    case Put(t) => PutInv(c, s, t);
    case Receive => ReceiveInv(c, s);
    case Emit => EmitInv(c, s);
    case Loop => LoopInv(c, s);
  }

  lemma {:induction false} RunInv(c: Config, run: seq<State>, k: nat)
    requires c.Ok() && IsRun(c, run) && k < |run|
    ensures Inv(c, run[k])
    decreases k
  {
    hide Inv, Enabled, Do;
    if k == 0 {
      StartInv(c);
    } else {
      RunInv(c, run, k - 1);
      assert Next(c, run[k - 1], run[k]);
      var step :| Enabled(c, run[k - 1], step) && run[k] == Do(c, run[k - 1], step);
      StepInv(c, run[k - 1], step);
    }
  }

  // ----- what the writer writes -----

  /** At every moment of every run the file holds exactly the records of the items counted so far. */
  lemma WrittenInOrder(c: Config, run: seq<State>, k: nat)
    requires c.Ok() && IsRun(c, run) && k < |run|
    ensures run[k].count <= |c.items| && run[k].written == Encoded(c, c.items[..run[k].count])
    ensures HoldsRecords(c, c.items[..run[k].count], run[k].written)
  {
    hide HoldsRecords;
    RunInv(c, run, k);
    EncodedHoldsRecords(c, c.items[..run[k].count]);
  }

  /** When the main process ends, all items have been written in order and nothing is left over. */
  lemma EndedComplete(c: Config, s: State)
    requires Inv(c, s) && s.ended
    ensures s.written == Encoded(c, c.items) && HoldsRecords(c, c.items, s.written)
    ensures s.buf == map[] && s.qout == [] && forall t | 0 <= t < c.threads :: s.qin[t] == [] && s.workers[t].Exited?
  {
    forall t | 0 <= t < c.threads ensures s.qin[t] == [] && s.workers[t].Exited? { assert LaneOk(c, s, t); }
    assert Results(s.qout) == {};
    assert Waiting(s, Lane(c, s.count)) == {};
    assert Placed(c, s, s.count);
    assert s.count == |c.items|;
    NothingBuffered(c, s);
    assert c.items[..s.count] == c.items;
    EncodedHoldsRecords(c, c.items);
  }

  lemma NothingBuffered(c: Config, s: State)
    requires Inv(c, s) && s.count == s.dealt
    ensures s.buf == map[]
  {
    forall i ensures i !in s.buf { assert i in s.buf ==> Placed(c, s, i); }
  }

  // ----- no deadlock -----

  /** Until the main process ends, some process can take a step. */
  lemma NoDeadlock(c: Config, s: State)
    requires Inv(c, s) && !s.ended
    ensures exists step :: Enabled(c, s, step)
  {
    if s.writer.Draining? {
      assert Enabled(c, s, if s.count in s.buf then Emit else Loop);
    } else if s.writer.Getting? && s.qout != [] {
      assert Enabled(c, s, Receive);
    } else if exists t :: 0 <= t < c.threads && (Enabled(c, s, Put(t)) || Enabled(c, s, Get(t))) {
    } else {
      MainCanStep(c, s);
    }
  }

  /** With the output queue empty and no worker able to move, the main process can. */
  lemma MainCanStep(c: Config, s: State)
    requires Inv(c, s) && !s.ended && !s.writer.Draining? && (s.writer.Getting? ==> s.qout == [])
    requires forall t | 0 <= t < c.threads :: !Enabled(c, s, Put(t)) && !Enabled(c, s, Get(t))
    ensures exists step :: Enabled(c, s, step)
  {
    assert s.qout == [];
    forall t | 0 <= t < c.threads ensures s.qin[t] == [] && !s.workers[t].Busy? {
      assert LaneOk(c, s, t) && !Enabled(c, s, Put(t)) && !Enabled(c, s, Get(t));
    }
    if s.dealt < |c.items| {
      assert Enabled(c, s, Deal);
    } else if s.stopped < c.threads {
      assert Enabled(c, s, StopWorker);
    } else if s.joined < c.threads {
      assert LaneOk(c, s, s.joined);
      assert Enabled(c, s, JoinWorker);
    } else if !s.closed {
      assert Enabled(c, s, Close);
    } else {
      assert Enabled(c, s, End);
    }
  }

  // ----- every run ends -----

  function JobsWeight(q: seq<Job>): nat {
    if q == [] then 0 else (if q[0].Job? then 5 else 1) + JobsWeight(q[1..])
  }

  function ResultsWeight(q: seq<Result>): nat {
    if q == [] then 0 else (if q[0].Result? then 3 else 2) + ResultsWeight(q[1..])
  }

  lemma {:induction false} JobsWeightPush(q: seq<Job>, m: Job)
    ensures JobsWeight(q + [m]) == JobsWeight(q) + if m.Job? then 5 else 1
  {
    if q != [] {
      assert (q + [m])[1..] == q[1..] + [m];
      JobsWeightPush(q[1..], m);
    }
  }

  lemma {:induction false} ResultsWeightPush(q: seq<Result>, m: Result)
    ensures ResultsWeight(q + [m]) == ResultsWeight(q) + if m.Result? then 3 else 2
  {
    if q != [] {
      assert (q + [m])[1..] == q[1..] + [m];
      ResultsWeightPush(q[1..], m);
    }
  }

  function LaneWeight(q: seq<Job>, w: Worker): nat { JobsWeight(q) + if w.Busy? then 4 else 0 }

  function LanesWeight(qin: seq<seq<Job>>, workers: seq<Worker>): nat
    requires |qin| == |workers|
  {
    if qin == [] then 0 else LaneWeight(qin[0], workers[0]) + LanesWeight(qin[1..], workers[1..])
  }

  lemma {:induction false} LanesWeightUpdate(qin: seq<seq<Job>>, workers: seq<Worker>, t: nat, q: seq<Job>, w: Worker)
    requires |qin| == |workers| && t < |qin|
    ensures LanesWeight(qin[t := q], workers[t := w])
         == LanesWeight(qin, workers) - LaneWeight(qin[t], workers[t]) + LaneWeight(q, w)
  {
    if t > 0 {
      LanesWeightUpdate(qin[1..], workers[1..], t - 1, q, w);
      assert qin[t := q][1..] == qin[1..][t - 1 := q] && workers[t := w][1..] == workers[1..][t - 1 := w];
    } else {
      assert qin[t := q][1..] == qin[1..] && workers[t := w][1..] == workers[1..];
    }
  }

  lemma QueueWeightUpdate(qin: seq<seq<Job>>, workers: seq<Worker>, t: nat, q: seq<Job>)
    requires |qin| == |workers| && t < |qin|
    ensures LanesWeight(qin[t := q], workers) == LanesWeight(qin, workers) - JobsWeight(qin[t]) + JobsWeight(q)
  {
    LanesWeightUpdate(qin, workers, t, q, workers[t]);
    assert workers[t := workers[t]] == workers;
  }

  /** The work left to do. */
  function Measure(c: Config, s: State): nat
    requires Shaped(c, s) && MainOk(c, s)
  {
    6 * (|c.items| - s.dealt) + 2 * (c.threads - s.stopped) + (c.threads - s.joined)
    + (if s.closed then 0 else 3) + (if s.ended then 0 else 1)
    + LanesWeight(s.qin, s.workers) + ResultsWeight(s.qout)
    + |s.buf| + if s.writer.Draining? then 1 else 0
  }

  lemma MainDecreases(c: Config, s: State, step: Step)
    requires Shaped(c, s) && MainOk(c, s) && Enabled(c, s, step) && MainOk(c, Do(c, s, step))
    requires step.Deal? || step.StopWorker? || step.JoinWorker? || step.Close? || step.End?
    ensures Measure(c, Do(c, s, step)) < Measure(c, s)
  {
    hide Lane;
    if step.Deal? {
      var t, m := Lane(c, s.dealt), Job(s.dealt, c.items[s.dealt]);
      JobsWeightPush(s.qin[t], m);
      QueueWeightUpdate(s.qin, s.workers, t, s.qin[t] + [m]);
    } else if step.StopWorker? {
      JobsWeightPush(s.qin[s.stopped], Stop);
      QueueWeightUpdate(s.qin, s.workers, s.stopped, s.qin[s.stopped] + [Stop]);
    } else if step.Close? {
      ResultsWeightPush(s.qout, Last);
    }
  }

  lemma WorkerDecreases(c: Config, s: State, step: Step)
    requires Shaped(c, s) && MainOk(c, s) && Enabled(c, s, step) && (step.Get? || step.Put?)
    ensures Measure(c, Do(c, s, step)) < Measure(c, s)
  {
    var t, s1 := step.t, Do(c, s, step);
    if step.Get? {
      LanesWeightUpdate(s.qin, s.workers, t, s1.qin[t], s1.workers[t]);
    } else {
      ResultsWeightPush(s.qout, s1.qout[|s.qout|]);
      LanesWeightUpdate(s.qin, s.workers, t, s.qin[t], Idle);
      assert s.qin[t := s.qin[t]] == s.qin;
    }
  }

  lemma WriterDecreases(c: Config, s: State, step: Step)
    requires Shaped(c, s) && MainOk(c, s) && Enabled(c, s, step) && (step.Receive? || step.Emit? || step.Loop?)
    requires MainOk(c, Do(c, s, step))
    ensures Measure(c, Do(c, s, step)) < Measure(c, s)
  {
    hide LanesWeight, Encoded, Lane;
    if step.Emit? {
      SmallerBuffer(s.buf, s.count);
    } else if step.Receive? && s.qout[0].Result? {
      LargerBuffer(s.buf, s.qout[0].i, (s.qout[0].rec, s.qout[0].item));
    }
  }

  lemma SmallerBuffer<T>(buf: map<nat, T>, i: nat)
    requires i in buf
    ensures |buf - {i}| < |buf|
  {
    assert buf.Keys == (buf - {i}).Keys + {i};
  }

  lemma LargerBuffer<T>(buf: map<nat, T>, i: nat, x: T)
    ensures |buf[i := x]| <= |buf| + 1
  {
    assert buf[i := x].Keys == buf.Keys + {i};
  }

  /** Every step leaves less work to do. */
  lemma StepDecreases(c: Config, s: State, step: Step)
    requires Inv(c, s) && Enabled(c, s, step)
    ensures Inv(c, Do(c, s, step)) && Measure(c, Do(c, s, step)) < Measure(c, s)
  {
    hide LaneOk, OutOk, BufOk, Placed, WriterOk, MainOk, Enabled, Do, Measure;
    StepInv(c, s, step);
    match step
    case Get(_) => WorkerDecreases(c, s, step);
    case Put(_) => WorkerDecreases(c, s, step);
    case Receive => WriterDecreases(c, s, step);
    case Emit => WriterDecreases(c, s, step);
    case Loop => WriterDecreases(c, s, step);
    case _ => MainDecreases(c, s, step);
  }

  lemma {:induction false} IdleWeight(n: nat)
    ensures LanesWeight(NoJobs(n), AllIdle(n)) == 0
  {
    if n > 0 {
      IdleWeight(n - 1);
      assert NoJobs(n)[1..] == NoJobs(n - 1) && AllIdle(n)[1..] == AllIdle(n - 1);
    }
  }

  lemma {:induction false} MeasureAlongRun(c: Config, run: seq<State>, k: nat)
    requires c.Ok() && IsRun(c, run) && k < |run|
    ensures Inv(c, run[k]) && k + Measure(c, run[k]) <= 6 * |c.items| + 3 * c.threads + 4
    decreases k
  {
    hide LaneOk, OutOk, BufOk, Placed, WriterOk, MainOk, Enabled, Do;
    if k == 0 {
      StartInv(c);
      IdleWeight(c.threads);
    } else {
      MeasureAlongRun(c, run, k - 1);
      assert Next(c, run[k - 1], run[k]);
      var step :| Enabled(c, run[k - 1], step) && run[k] == Do(c, run[k - 1], step);
      StepDecreases(c, run[k - 1], step);
    }
  }

  /** No run takes more steps than this, whatever the queue capacities. */
  lemma RunsAreBounded(c: Config, run: seq<State>)
    requires c.Ok() && IsRun(c, run)
    ensures |run| <= 6 * |c.items| + 3 * c.threads + 5
  {
    MeasureAlongRun(c, run, |run| - 1);
  }

  ghost predicate CanStep(c: Config, s: State) { exists s' :: Next(c, s, s') }

  lemma LiveUntilEnded(c: Config, s: State)
    requires Inv(c, s)
    ensures s.ended || CanStep(c, s)
  {
    hide LaneOk, OutOk, BufOk, Placed, WriterOk, MainOk, Enabled, Do;
    if !s.ended {
      NoDeadlock(c, s);
      var step :| Enabled(c, s, step);
      assert Next(c, s, Do(c, s, step));
    }
  }

  /** A run that cannot be continued has ended with exactly the successfully encoded items
      written, in input order, and an empty reorder buffer: the interleaving does not matter. */
  lemma MaximalRunsComplete(c: Config, run: seq<State>)
    requires c.Ok() && IsRun(c, run)
    requires !CanStep(c, run[|run| - 1])
    ensures var last := run[|run| - 1];
      last.ended && last.buf == map[] && last.written == Encoded(c, c.items) && HoldsRecords(c, c.items, last.written)
  {
    hide LaneOk, OutOk, BufOk, Placed, WriterOk, MainOk, Enabled, Do;
    var last := run[|run| - 1];
    RunInv(c, run, |run| - 1);
    LiveUntilEnded(c, last);
    EndedComplete(c, last);
  }

  // ----- queues and lanes -----

  predicate WithinCapacity(c: Config, s: State) {
    (forall t | 0 <= t < |s.qin| :: |s.qin[t]| <= c.capIn) && |s.qout| <= c.capOut
  }

  lemma StepWithinCapacity(c: Config, s: State, step: Step)
    requires Shaped(c, s) && Enabled(c, s, step) && WithinCapacity(c, s)
    ensures WithinCapacity(c, Do(c, s, step))
  {
    hide Lane;
  }

  /** Item `i` is handled by worker `i mod threads` only. */
  ghost predicate RoundRobin(c: Config, s: State) {
    && |s.qin| == |s.workers| == c.threads > 0
    && (forall t, j | 0 <= t < c.threads && 0 <= j < |s.qin[t]| && s.qin[t][j].Job? :: s.qin[t][j].i % c.threads == t)
    && forall t | 0 <= t < c.threads && s.workers[t].Busy? :: s.workers[t].i % c.threads == t
  }

  lemma LanesKept(c: Config, s: State)
    requires Inv(c, s)
    ensures RoundRobin(c, s)
  {
    hide Placed, OutOk, BufOk, WriterOk, MainOk;
    forall t, j | 0 <= t < c.threads && 0 <= j < |s.qin[t]| && s.qin[t][j].Job?
      ensures s.qin[t][j].i % c.threads == t
    {
      assert LaneOk(c, s, t);
      assert Lane(c, s.qin[t][j].i) == t;
    }
    forall t | 0 <= t < c.threads && s.workers[t].Busy? ensures s.workers[t].i % c.threads == t {
      assert LaneOk(c, s, t);
      assert Lane(c, s.workers[t].i) == t;
    }
  }

  /** In every run no queue ever holds more than its capacity, and items stay in their lanes. */
  lemma {:induction false} QueuesAndLanes(c: Config, run: seq<State>, k: nat)
    requires c.Ok() && IsRun(c, run) && k < |run|
    ensures WithinCapacity(c, run[k]) && RoundRobin(c, run[k])
    decreases k
  {
    hide Placed, OutOk, BufOk, WriterOk, MainOk, LaneOk, Do, Enabled, RoundRobin;
    RunInv(c, run, k);
    LanesKept(c, run[k]);
    if k > 0 {
      QueuesAndLanes(c, run, k - 1);
      RunInv(c, run, k - 1);
      assert Next(c, run[k - 1], run[k]);
      var step :| Enabled(c, run[k - 1], step) && run[k] == Do(c, run[k - 1], step);
      StepWithinCapacity(c, run[k - 1], step);
    }
  }

  // ----- the single-process mode -----

  /** With one thread every result is written as it comes, failures included. */
  function SingleProcess(c: Config, items: seq<Item>): seq<(int, Option<Record>)> {
    seq(|items|, k requires 0 <= k < |items| => (items[k].id, c.encode(items[k])))
  }

  function AsOptions(w: seq<(int, Record)>): seq<(int, Option<Record>)> {
    seq(|w|, k requires 0 <= k < |w| => (w[k].0, Some(w[k].1)))
  }

  lemma {:induction false} EncodedLength(c: Config, items: seq<Item>)
    ensures |Encoded(c, items)| <= |items|
    ensures |Encoded(c, items)| == |items| <==> forall k | 0 <= k < |items| :: c.encode(items[k]).Some?
    decreases |items|
  {
    if items != [] { EncodedLength(c, items[..|items| - 1]); }
  }

  lemma {:induction false} EncodedAll(c: Config, items: seq<Item>)
    requires forall k | 0 <= k < |items| :: c.encode(items[k]).Some?
    ensures AsOptions(Encoded(c, items)) == SingleProcess(c, items)
    decreases |items|
  {
    if items != [] {
      EncodedAll(c, items[..|items| - 1]);
      var last := items[|items| - 1];
      assert SingleProcess(c, items) == SingleProcess(c, items[..|items| - 1]) + [(last.id, c.encode(last))];
    }
  }

  /** The two modes write the same file exactly when no item fails to encode. */
  lemma ModesAgreeExactly(c: Config)
    ensures AsOptions(Encoded(c, c.items)) == SingleProcess(c, c.items)
       <==> forall k | 0 <= k < |c.items| :: c.encode(c.items[k]).Some?
  {
    EncodedLength(c, c.items);
    if forall k | 0 <= k < |c.items| :: c.encode(c.items[k]).Some? { EncodedAll(c, c.items); }
  }
}
