/** The nested loops of `write_worker`, run on the results in the order they arrive. */
module Im2recWriter {
  import opened Im2recPipeline
  import opened Im2recProof

  type Buffer = map<nat, (Option<Record>, Item)>

  /** Results of `c`'s items, each at most once. */
  predicate TrueResults(c: Config, q: seq<Result>) {
    && DistinctResults(q)
    && forall k | 0 <= k < |q| :: q[k].Result? && q[k].i < |c.items| && q[k].item == c.items[q[k].i]
                                  && q[k].rec == c.encode(q[k].item)
  }

  /** The results received so far are either written or buffered. */
  ghost predicate Kept(c: Config, received: set<nat>, buf: Buffer, count: nat) {
    && count <= |c.items|
    && (forall i: nat :: i in received <==> i < count || i in buf)
    && forall i | i in buf :: count <= i < |c.items| && buf[i] == (c.encode(c.items[i]), c.items[i])
  }

  /** The inner loop: writes buffered results as long as the next one in order is there. */
  method Drain(c: Config, ghost received: set<nat>, buf: Buffer, start: nat, before: seq<(int, Record)>)
    returns (rest: Buffer, count: nat, written: seq<(int, Record)>)
    requires Kept(c, received, buf, start) && before == Encoded(c, c.items[..start])
    ensures Kept(c, received, rest, count) && count <= |c.items| && written == Encoded(c, c.items[..count])
    ensures count !in rest && HoldsRecords(c, c.items[..count], written)
  {
    rest, count, written := buf, start, before;
    while count in rest
      invariant Kept(c, received, rest, count) && written == Encoded(c, c.items[..count])
      decreases |c.items| - count
    {
      var (rec, item) := rest[count];
      rest := rest - {count};
      if rec != None {
        written := written + [(item.id, rec.value)];
      }
      assert c.items[..count + 1][..count] == c.items[..count];
      count := count + 1;
    }
    EncodedHoldsRecords(c, c.items[..count]);
  }

  /** `write_worker`: reads results until the stop message, which follows `arrivals`. Whatever the
      order of arrival, it writes the records of the longest unbroken prefix of the items in input
      order; `rest` is what the reorder buffer still holds. */
  method WriteWorker(c: Config, arrivals: seq<Result>)
    returns (written: seq<(int, Record)>, count: nat, rest: Buffer)
    requires TrueResults(c, arrivals)
    ensures count <= |c.items| && written == Encoded(c, c.items[..count])
    ensures HoldsRecords(c, c.items[..count], written)
    ensures count !in Results(arrivals) && forall i | 0 <= i < count :: i in Results(arrivals)
    ensures forall i: nat :: i in rest <==> i in Results(arrivals) && i >= count
  {
    hide Kept, DistinctResults;
    count, written, rest := 0, [], map[];
    NothingReceived(c, arrivals);
    var q, more := arrivals + [Last], true;
    ghost var all, k := q, 0;
    while more
      invariant 0 <= k <= |all| && q == all[k..] && (more <==> k < |all|)
      invariant var n := if k < |arrivals| then k else |arrivals|;
        Kept(c, Results(arrivals[..n]), rest, count) && count !in rest && count <= |c.items|
      invariant written == Encoded(c, c.items[..count])
      decreases |q|
    {
      var deq := q[0];
      q := q[1..];
      if deq != Last {
        Received(c, arrivals, k, rest, count);
        rest := rest[deq.i := (deq.rec, deq.item)];
      } else {
        more := false;
      }
      k := k + 1;
      ghost var n := if k < |arrivals| then k else |arrivals|;
      rest, count, written := Drain(c, Results(arrivals[..n]), rest, count, written);
      KeptMeans(c, Results(arrivals[..n]), rest, count);
    }
    assert arrivals[..|arrivals|] == arrivals;
    KeptMeans(c, Results(arrivals), rest, count);
    EncodedHoldsRecords(c, c.items[..count]);
  }

  lemma NothingReceived(c: Config, arrivals: seq<Result>)
    ensures Kept(c, Results(arrivals[..0]), map[], 0)
  {
  }

  lemma KeptMeans(c: Config, received: set<nat>, buf: Buffer, count: nat)
    requires Kept(c, received, buf, count)
    ensures count <= |c.items| && (forall i | 0 <= i < count :: i in received)
    ensures forall i: nat :: i in buf <==> i in received && i >= count
  {
  }

  lemma Received(c: Config, arrivals: seq<Result>, k: nat, buf: Buffer, count: nat)
    requires TrueResults(c, arrivals) && k < |arrivals| && Kept(c, Results(arrivals[..k]), buf, count)
    ensures Kept(c, Results(arrivals[..k + 1]), buf[arrivals[k].i := (arrivals[k].rec, arrivals[k].item)], count)
  {
    assert arrivals[..k + 1] == arrivals[..k] + [arrivals[k]];
    ResultsPush(arrivals[..k], arrivals[k]);
    assert arrivals[k].i !in Results(arrivals[..k]);
  }

  /** When every item has arrived, all are written and the buffer is empty. */
  method WriteAll(c: Config, arrivals: seq<Result>) returns (written: seq<(int, Record)>, rest: Buffer)
    requires TrueResults(c, arrivals) && forall i | 0 <= i < |c.items| :: i in Results(arrivals)
    ensures written == Encoded(c, c.items) && HoldsRecords(c, c.items, written) && rest == map[]
  {
    var count;
    written, count, rest := WriteWorker(c, arrivals);
    assert c.items[..|c.items|] == c.items;
  }
}
