/** What a written map means: which keys it has, and which value wins when a key is repeated. */
module JsonBinding {
  import opened JsonValue
  import opened JsonParser
  import opened JsonGrammar

  /** The key `k`, written as a string. */
  predicate IsKey(d: Doc, k: string) { d.DStr? && d.text == k }

  /** The key of pair `j`. */
  function KeyAt(ds: seq<Doc>, j: nat): Doc
    requires j < |ds| / 2
  {
    ds[2 * j]
  }

  /** The last item is a key without a value, and filler stands before the closing bracket. */
  predicate Dangling(ds: seq<Doc>, tail: string) { |ds| % 2 == 1 && tail != "" }

  /** Every key that gets a value is a string. */
  predicate KeysAreStrings(ds: seq<Doc>, tail: string) {
    && (forall j | 0 <= j < |ds| / 2 :: KeyAt(ds, j).DStr?)
    && (Dangling(ds, tail) ==> ds[|ds| - 1].DStr?)
  }

  /** The last pair written with key `k`, or -1. */
  function LastPair(ds: seq<Doc>, k: string): (p: int)
    ensures -1 <= p < |ds| / 2
    ensures p >= 0 ==> IsKey(KeyAt(ds, p), k)
    ensures forall j | p < j < |ds| / 2 :: !IsKey(KeyAt(ds, j), k)
    decreases |ds|
  {
    if |ds| < 2 then -1
    else
      var p := LastPair(ds[2..], k);
      assert forall j | 1 <= j < |ds| / 2 :: KeyAt(ds, j) == KeyAt(ds[2..], j - 1);
      if p >= 0 then p + 1 else if IsKey(ds[0], k) then 0 else -1
  }

  lemma {:induction false} ItemValid(ds: seq<Doc>, i: nat)
    requires AllValid(ds) && i < |ds|
    ensures Valid(ds[i])
    decreases i
  {
    if i > 0 { ItemValid(ds[1..], i - 1); }
  }

  /** `entries` extends `m` by the pairs of `ds`, as seen at the key `k`. */
  predicate BoundAt(m: map<string, JsonVal>, ds: seq<Doc>, tail: string, entries: map<string, JsonVal>, k: string)
    requires AllValid(ds)
  {
    var p := LastPair(ds, k);
    if Dangling(ds, tail) && IsKey(ds[|ds| - 1], k) then k in entries && entries[k] == Err
    else if p >= 0 then
      ItemValid(ds, 2 * p + 1);
      k in entries && entries[k] == Value(ds[2 * p + 1])
    else if k in m then k in entries && entries[k] == m[k]
    else k !in entries
  }

  lemma {:induction false} BindAllMeans(m: map<string, JsonVal>, ds: seq<Doc>, tail: string, k: string)
    requires AllValid(ds)
    ensures var v := BindAll(Map(m), Err, ds, tail);
      if KeysAreStrings(ds, tail) then v.Map? && BoundAt(m, ds, tail, v.entries, k) else v.OddMap?
    decreases |ds|
  {
    if |ds| == 1 {
      LoneKey(m, ds, tail, k);
    } else if |ds| >= 2 {
      var key, x, rest := Value(ds[0]), Value(ds[1..][0]), ds[2..];
      ValueNotErr(ds[0]);
      assert ds[1..][1..] == rest;
      assert BindAll(Map(m), Err, ds, tail) == BindAll(Bind(Map(m), key, x), Err, rest, tail);
      ShiftedKeys(ds, tail);
      if ds[0].DStr? {
        BindAllMeans(m[ds[0].text := x], rest, tail, k);
        ShiftedBound(m, ds, tail, BindAll(Map(m), Err, ds, tail), k);
      } else {
        MapIsNoString(ds[0]);
        OddStaysOdd(Err, rest, tail);
      }
    }
  }

  lemma LoneKey(m: map<string, JsonVal>, ds: seq<Doc>, tail: string, k: string)
    requires AllValid(ds) && |ds| == 1
    ensures var v := BindAll(Map(m), Err, ds, tail);
      if KeysAreStrings(ds, tail) then v.Map? && BoundAt(m, ds, tail, v.entries, k) else v.OddMap?
  {
    assert ds[1..] == [];
    ValueNotErr(ds[0]);
    if !ds[0].DStr? { MapIsNoString(ds[0]); }
  }

  lemma ShiftedBound(m: map<string, JsonVal>, ds: seq<Doc>, tail: string, v: JsonVal, k: string)
    requires |ds| >= 2 && AllValid(ds) && AllValid(ds[2..]) && Valid(ds[1]) && ds[0].DStr?
    requires v.Map? ==> BoundAt(m[ds[0].text := Value(ds[1])], ds[2..], tail, v.entries, k)
    ensures v.Map? ==> BoundAt(m, ds, tail, v.entries, k)
  {
    hide Value, Valid, AllValid;
    var rest := ds[2..];
    var p := LastPair(rest, k);
    if |ds| % 2 == 1 { assert rest[|rest| - 1] == ds[|ds| - 1]; }
    if p >= 0 { assert rest[2 * p + 1] == ds[2 * (p + 1) + 1]; }
  }

  lemma ShiftedKeys(ds: seq<Doc>, tail: string)
    requires |ds| >= 2
    ensures KeysAreStrings(ds, tail) <==> ds[0].DStr? && KeysAreStrings(ds[2..], tail)
    ensures Dangling(ds, tail) <==> Dangling(ds[2..], tail)
  {
    var rest := ds[2..];
    assert KeyAt(ds, 0) == ds[0];
    assert |ds| % 2 == 1 ==> rest[|rest| - 1] == ds[|ds| - 1];
    assert forall j | 0 <= j < |rest| / 2 :: KeyAt(rest, j) == KeyAt(ds, j + 1);
    if KeysAreStrings(ds, tail) {
      forall j | 0 <= j < |rest| / 2 ensures KeyAt(rest, j).DStr? {
        assert KeyAt(ds, j + 1).DStr?;
      }
    }
    if KeysAreStrings(rest, tail) && ds[0].DStr? {
      forall j | 0 <= j < |ds| / 2 ensures KeyAt(ds, j).DStr? {
        if j > 0 { assert KeyAt(rest, j - 1).DStr?; }
      }
    }
  }

  lemma MapIsNoString(d: Doc)
    requires Valid(d) && !d.DStr?
    ensures !Value(d).Str?
  {
    if d.DMap? { BindAllIsMap(Map(map[]), Err, d.items, d.tail); }
  }

  lemma {:induction false} OddStaysOdd(key: JsonVal, ds: seq<Doc>, tail: string)
    requires AllValid(ds)
    ensures BindAll(OddMap, key, ds, tail) == OddMap
    decreases |ds|
  {
    if ds != [] {
      if key == Err { OddStaysOdd(Value(ds[0]), ds[1..], tail); }
      else { OddStaysOdd(Err, ds[1..], tail); }
    }
  }

  /** A written map has string keys exactly when each key that gets a value is a string. It then
      holds a key exactly when the key is written with a value or left dangling before filler; a
      dangling key is bound to `Err`, and otherwise the last pair written wins. */
  lemma LastBindingWins(d: Doc, k: string)
    requires d.DMap? && Valid(d)
    ensures Value(d).Map? <==> KeysAreStrings(d.items, d.tail)
    ensures Value(d).Map? || Value(d).OddMap?
    ensures Value(d).Map? ==> BoundAt(map[], d.items, d.tail, Value(d).entries, k)
  {
    BindAllMeans(map[], d.items, d.tail, k);
  }
}
