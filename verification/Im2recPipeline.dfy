/** The multi-process mode of `im2rec`: the main process deals items round-robin to the workers'
    bounded queues, the workers put encoded records on one bounded output queue, and a writer
    restores the input order. Processes interleave freely; queues are FIFO. */
module Im2recPipeline {

  datatype Option<T> = None | Some(value: T)

  /** One line of a list file: the index stored in the record, the path and the labels. */
  datatype Item = Item(id: int, path: string, labels: seq<real>)

  type Record = string

  /** `encode` is `image_encode` seen as a function: the packed record, or `None` on failure. */
  datatype Config = Config(items: seq<Item>, threads: nat, capIn: nat, capOut: nat, encode: Item -> Option<Record>)
  {
    predicate Ok() { threads >= 1 && capIn >= 1 && capOut >= 1 }
  }

  /** What travels on an input queue: an indexed item, or the `None` that ends a worker. */
  datatype Job = Job(i: nat, item: Item) | Stop

  /** What travels on the output queue: an indexed result, or the `None` that ends the writer. */
  datatype Result = Result(i: nat, rec: Option<Record>, item: Item) | Last

  datatype Worker = Idle | Busy(i: nat, item: Item) | Exited

  /** The writer waits for a result, empties the buffer in order, or has returned. */
  datatype Writer = Getting | Draining | Finished

  datatype State = State(
    dealt: nat, stopped: nat, joined: nat, closed: bool, ended: bool,
    qin: seq<seq<Job>>, workers: seq<Worker>, qout: seq<Result>,
    buf: map<nat, (Option<Record>, Item)>, count: nat, more: bool, writer: Writer,
    written: seq<(int, Record)>)

  function NoJobs(n: nat): seq<seq<Job>> { seq(n, _ => []) }

  function AllIdle(n: nat): seq<Worker> { seq(n, _ => Idle) }

  function Start(c: Config): State {
    State(0, 0, 0, false, false, NoJobs(c.threads), AllIdle(c.threads), [],
          map[], 0, true, Getting, [])
  }

  function Lane(c: Config, i: nat): (t: nat)
    requires c.Ok()
    ensures t < c.threads
  {
    i % c.threads
  }

  // ----- steps -----

  datatype Step =
    | Deal | StopWorker | JoinWorker | Close | End
    | Get(t: nat) | Put(t: nat)
    | Receive | Emit | Loop

  predicate Shaped(c: Config, s: State) { c.Ok() && |s.qin| == |s.workers| == c.threads }

  predicate Enabled(c: Config, s: State, step: Step)
    requires Shaped(c, s)
  {
    match step
    case Deal => s.dealt < |c.items| && |s.qin[Lane(c, s.dealt)]| < c.capIn
    case StopWorker => s.dealt == |c.items| && s.stopped < c.threads && |s.qin[s.stopped]| < c.capIn
    case JoinWorker => s.stopped == c.threads && s.joined < c.threads && s.workers[s.joined].Exited?
    case Close => s.joined == c.threads && !s.closed && |s.qout| < c.capOut
    case End => s.closed && !s.ended && s.writer.Finished?
    case Get(t) => t < c.threads && s.workers[t].Idle? && s.qin[t] != []
    case Put(t) => t < c.threads && s.workers[t].Busy? && |s.qout| < c.capOut
    case Receive => s.writer.Getting? && s.qout != []
    case Emit => s.writer.Draining? && s.count in s.buf
    case Loop => s.writer.Draining? && s.count !in s.buf
  }

  function Do(c: Config, s: State, step: Step): State
    requires Shaped(c, s) && Enabled(c, s, step)
  {
    match step
    case Deal =>
      var t := Lane(c, s.dealt);
      s.(qin := s.qin[t := s.qin[t] + [Job(s.dealt, c.items[s.dealt])]], dealt := s.dealt + 1)
    case StopWorker =>
      s.(qin := s.qin[s.stopped := s.qin[s.stopped] + [Stop]], stopped := s.stopped + 1)
    case JoinWorker => s.(joined := s.joined + 1)
    case Close => s.(qout := s.qout + [Last], closed := true)
    case End => s.(ended := true)
    case Get(t) =>
      var w := match s.qin[t][0] case Job(i, item) => Busy(i, item) case Stop => Exited;
      s.(qin := s.qin[t := s.qin[t][1..]], workers := s.workers[t := w])
    case Put(t) =>
      var w := s.workers[t];
      s.(qout := s.qout + [Result(w.i, c.encode(w.item), w.item)], workers := s.workers[t := Idle])
    case Receive =>
      var s1 := s.(qout := s.qout[1..], writer := Draining);
      (match s.qout[0]
       case Result(i, rec, item) => s1.(buf := s.buf[i := (rec, item)])
       case Last => s1.(more := false))
    case Emit =>
      var (rec, item) := s.buf[s.count];
      s.(buf := s.buf - {s.count}, count := s.count + 1,
         written := s.written + if rec.Some? then [(item.id, rec.value)] else [])
    case Loop => s.(writer := if s.more then Getting else Finished)
  }

  ghost predicate Next(c: Config, s: State, s': State) {
    Shaped(c, s) && exists step :: Enabled(c, s, step) && s' == Do(c, s, step)
  }

  /** A finite run of the pipeline from its start. */
  ghost predicate IsRun(c: Config, run: seq<State>) {
    && run != [] && run[0] == Start(c)
    && forall k | 0 < k < |run| :: Next(c, run[k - 1], run[k])
  }

  // ----- the sequential specification -----

  /** Encode the items in order and keep the records of those that succeed. */
  function Encoded(c: Config, items: seq<Item>): seq<(int, Record)> {
    if items == [] then []
    else
      var item := items[|items| - 1];
      var rec := c.encode(item);
      Encoded(c, items[..|items| - 1]) + if rec.Some? then [(item.id, rec.value)] else []
  }

  /** `idx` lists the positions of the items that encode, in order, and `written` holds the id and
      the record of each of them, and nothing else. */
  ghost predicate RecordsAt(c: Config, items: seq<Item>, written: seq<(int, Record)>, idx: seq<nat>) {
    && (forall i, j | 0 <= i < j < |idx| :: idx[i] < idx[j])
    && (forall j | 0 <= j < |idx| :: idx[j] < |items|)
    && (forall k | 0 <= k < |items| :: k in idx <==> c.encode(items[k]).Some?)
    && |written| == |idx|
    && forall j | 0 <= j < |idx| :: Some(written[j].1) == c.encode(items[idx[j]]) && written[j].0 == items[idx[j]].id
  }

  ghost predicate HoldsRecords(c: Config, items: seq<Item>, written: seq<(int, Record)>) {
    exists idx :: RecordsAt(c, items, written, idx)
  }

  lemma {:induction false} EncodedRecords(c: Config, items: seq<Item>) returns (idx: seq<nat>)
    ensures RecordsAt(c, items, Encoded(c, items), idx)
    decreases |items|
  {
    if items == [] {
      idx := [];
    } else {
      var l := |items| - 1;
      var init := EncodedRecords(c, items[..l]);
      if c.encode(items[l]).Some? {
        idx := init + [l];
        assert idx[|init|] == l;
        assert forall k | k in init :: k in idx;
      } else {
        idx := init;
      }
      forall k | 0 <= k < |items| ensures k in idx <==> c.encode(items[k]).Some? {
        if k < l { assert items[..l][k] == items[k]; }
      }
    }
  }

  /** The sequential output is what the file should hold. */
  lemma EncodedHoldsRecords(c: Config, items: seq<Item>)
    ensures HoldsRecords(c, items, Encoded(c, items))
  {
    var idx := EncodedRecords(c, items);
  }

  // ----- where an item is -----

  function Jobs(q: seq<Job>): set<nat> { set k | 0 <= k < |q| && q[k].Job? :: q[k].i }

  function Results(q: seq<Result>): set<nat> { set k | 0 <= k < |q| && q[k].Result? :: q[k].i }

  /** The items of lane `t` that are queued for its worker or in its hands. */
  function Waiting(s: State, t: nat): set<nat>
    requires t < |s.qin| && t < |s.workers|
  {
    Jobs(s.qin[t]) + if s.workers[t].Busy? then {s.workers[t].i} else {}
  }

  /** Every dealt item is in exactly one place, and no other item is anywhere. */
  ghost predicate Placed(c: Config, s: State, i: nat)
    requires Shaped(c, s)
  {
    var w, b, o, q := i < s.count, i in s.buf, i in Results(s.qout), i in Waiting(s, Lane(c, i));
    && (i < s.dealt <==> w || b || o || q)
    && !(w && b) && !(w && o) && !(w && q) && !(b && o) && !(b && q) && !(o && q)
  }

  // ----- the invariant -----

  predicate DistinctJobs(q: seq<Job>) {
    forall j, k | 0 <= j < k < |q| && q[j].Job? && q[k].Job? :: q[j].i != q[k].i
  }

  predicate DistinctResults(q: seq<Result>) {
    forall j, k | 0 <= j < k < |q| && q[j].Result? && q[k].Result? :: q[j].i != q[k].i
  }

  /** The main process has done its phases in order. */
  predicate MainOk(c: Config, s: State) {
    && s.dealt <= |c.items| && s.stopped <= c.threads && s.joined <= c.threads
    && (s.stopped > 0 ==> s.dealt == |c.items|)
    && (s.joined > 0 ==> s.stopped == c.threads)
    && (s.closed ==> s.joined == c.threads && s.stopped == c.threads && s.dealt == |c.items|)
    && (s.ended ==> s.closed && s.writer.Finished?)
  }

  predicate ItemAt(c: Config, s: State, i: nat, item: Item) { i < s.dealt <= |c.items| && item == c.items[i] }

  /** Lane `t` carries its own items, each once, and its stop message last. */
  predicate LaneOk(c: Config, s: State, t: nat)
    requires Shaped(c, s) && t < c.threads
  {
    var q, w := s.qin[t], s.workers[t];
    && (forall k | 0 <= k < |q| && q[k].Job? :: ItemAt(c, s, q[k].i, q[k].item) && Lane(c, q[k].i) == t)
    && DistinctJobs(q)
    && (w.Busy? ==> ItemAt(c, s, w.i, w.item) && Lane(c, w.i) == t && w.i !in Jobs(q))
    && (forall k | 0 <= k < |q| - 1 :: q[k].Job?)
    && (if t >= s.stopped then !w.Exited? && (q != [] ==> q[|q| - 1].Job?)
        else if w.Exited? then q == []
        else q != [] && q[|q| - 1].Stop?)
    && (t < s.joined ==> w.Exited?)
  }

  /** The output queue carries true results, each once, and the writer's stop message last. */
  predicate OutOk(c: Config, s: State) {
    var q := s.qout;
    && (forall k | 0 <= k < |q| && q[k].Result? :: ItemAt(c, s, q[k].i, q[k].item) && q[k].rec == c.encode(q[k].item))
    && DistinctResults(q)
    && (forall k | 0 <= k < |q| - 1 :: q[k].Result?)
    && (if !s.closed then s.more && (q != [] ==> q[|q| - 1].Result?)
        else if s.more then q != [] && q[|q| - 1].Last?
        else q == [])
  }

  predicate BufOk(c: Config, s: State) {
    forall i | i in s.buf :: ItemAt(c, s, i, s.buf[i].1) && s.buf[i].0 == c.encode(s.buf[i].1)
  }

  predicate WriterOk(c: Config, s: State) {
    && s.count <= s.dealt <= |c.items|
    && s.written == Encoded(c, c.items[..s.count])
    && (s.writer.Getting? ==> s.more && s.count !in s.buf)
    && (s.writer.Finished? ==> !s.more && s.count !in s.buf)
  }

  ghost predicate Inv(c: Config, s: State) {
    && Shaped(c, s) && MainOk(c, s) && OutOk(c, s) && BufOk(c, s) && WriterOk(c, s)
    && (forall t | 0 <= t < c.threads :: LaneOk(c, s, t))
    && forall i: nat :: Placed(c, s, i)
  }
}
