/** Printing and parsing undo each other. */
module JsonRoundTrip {
  import opened JsonValue
  import opened JsonParser
  import opened JsonGrammar

  /** No error value and no unordered map inside. */
  predicate ErrFree(v: JsonVal) {
    match v
    case Err => false
    case OddMap => false
    case List(xs) => forall x | x in xs :: ErrFree(x)
    case Map(m) => forall k | k in m :: ErrFree(m[k])
    case _ => true
  }

  /** Strings keep their end when quoted, and digits denote the number they stand for. */
  predicate WellFormed(v: JsonVal) {
    match v
    case Str(s) => StringOk(s)
    case Num(n, digits) => DigitsOk(digits) && n == DecValue(digits)
    case List(xs) => forall x | x in xs :: WellFormed(x)
    case Map(m) => forall k | k in m :: StringOk(k) && WellFormed(m[k])
    case _ => true
  }

  predicate Printable(v: JsonVal) { ErrFree(v) && WellFormed(v) }

  // ----- the printed form is one valid layout -----

  function DocOf(v: JsonVal, lead: string): Doc
    requires Printable(v)
    decreases v, 1, 0
  {
    match v
    case Str(s) => DStr(lead, s)
    case Num(_, digits) => DNum(lead, digits)
    case List(xs) => DList(lead, DocsOf(xs, ""), "")
    case Map(m) => DMap(lead, PairsOf(v, SortedKeys(m.Keys), ""), "")
  }

  function DocsOf(xs: seq<JsonVal>, lead: string): seq<Doc>
    requires forall x | x in xs :: Printable(x)
    decreases xs, 0, 0
  {
    if xs == [] then [] else [DocOf(xs[0], lead)] + DocsOf(xs[1..], ",")
  }

  function PairsOf(v: JsonVal, keys: seq<string>, lead: string): seq<Doc>
    requires v.Map? && Printable(v) && forall k | k in keys :: k in v.entries
    decreases v, 0, |keys|
  {
    if keys == [] then []
    else [DStr(lead, keys[0]), DocOf(v.entries[keys[0]], " : ")] + PairsOf(v, keys[1..], ",")
  }

  lemma {:induction false} DocOfValue(v: JsonVal, lead: string)
    requires Printable(v) && AllFiller(lead)
    ensures Valid(DocOf(v, lead)) && Value(DocOf(v, lead)) == v
    ensures DocOf(v, lead).lead == lead
    decreases v, 2, 0
  {
    match v
    case Str(_) =>
    case Num(_, _) =>
    case List(xs) => DocsOfValue(xs, "");
    case Map(m) => MapOfValue(v, lead);
  }

  lemma {:induction false} MapOfValue(v: JsonVal, lead: string)
    requires v.Map? && Printable(v) && AllFiller(lead)
    ensures Valid(DocOf(v, lead)) && Value(DocOf(v, lead)) == v
    decreases v, 1, 0
  {
    var keys := SortedKeys(v.entries.Keys);
    PairsOfValue(v, keys, "", map[]);
    assert map[] + Restrict(v.entries, keys) == v.entries;
  }

  lemma {:induction false} DocsOfValue(xs: seq<JsonVal>, lead: string)
    requires (forall x | x in xs :: Printable(x)) && AllFiller(lead)
    ensures AllValid(DocsOf(xs, lead)) && Separated(DocsOf(xs, lead))
    ensures xs != [] ==> DocsOf(xs, lead)[0].lead == lead
    ensures Values(DocsOf(xs, lead)) == xs
    decreases xs, 0, 0
  {
    if xs != [] {
      DocOfValue(xs[0], lead);
      DocsOfValue(xs[1..], ",");
      assert DocsOf(xs, lead)[1..] == DocsOf(xs[1..], ",");
      assert xs == [xs[0]] + xs[1..];
    }
  }

  function Restrict(m: map<string, JsonVal>, keys: seq<string>): map<string, JsonVal>
    requires forall k | k in keys :: k in m
  {
    map k | k in keys :: m[k]
  }

  lemma {:induction false} PairsOfValue(v: JsonVal, keys: seq<string>, lead: string, acc: map<string, JsonVal>)
    requires v.Map? && Printable(v) && (forall k | k in keys :: k in v.entries) && AllFiller(lead)
    ensures AllValid(PairsOf(v, keys, lead)) && Separated(PairsOf(v, keys, lead))
    ensures keys != [] ==> PairsOf(v, keys, lead)[0].DStr?
    ensures BindAll(Map(acc), Err, PairsOf(v, keys, lead), "") == Map(acc + Restrict(v.entries, keys))
    decreases v, 0, |keys|
  {
    if keys == [] {
      assert acc + Restrict(v.entries, keys) == acc;
    } else {
      var k, x := keys[0], v.entries[keys[0]];
      DocOfValue(x, " : ");
      PairsOfValue(v, keys[1..], ",", acc[k := x]);
      PairInFront(DStr(lead, k), DocOf(x, " : "), PairsOf(v, keys[1..], ","), Map(acc));
      RestrictStep(v.entries, keys, acc);
    }
  }

  lemma RestrictStep(m: map<string, JsonVal>, keys: seq<string>, acc: map<string, JsonVal>)
    requires keys != [] && forall k | k in keys :: k in m
    ensures acc + Restrict(m, keys) == acc[keys[0] := m[keys[0]]] + Restrict(m, keys[1..])
  {
  }

  lemma PairInFront(key: Doc, x: Doc, rest: seq<Doc>, m: JsonVal)
    requires Valid(key) && Valid(x) && AllValid(rest) && Separated(rest)
    requires key.DStr? && m.Map? && (x.DNum? && rest != [] ==> !BareNumber(rest[0]))
    ensures AllValid([key, x] + rest) && Separated([key, x] + rest)
    ensures BindAll(m, Err, [key, x] + rest, "") == BindAll(Bind(m, Value(key), Value(x)), Err, rest, "")
  {
    var ds := [key, x] + rest;
    assert ds[1..] == [x] + rest && ds[1..][1..] == rest;
    ValueNotErr(key);
  }

  lemma {:induction false} DocOfText(v: JsonVal, lead: string)
    requires Printable(v)
    ensures Text(DocOf(v, lead)) == lead + Dump(v)
    decreases v, 1, 0
  {
    match v
    case Str(_) =>
    case Num(_, _) =>
    case List(xs) => DocsOfText(xs, "", "" + "]"); BracketText(lead, "[", DumpList(xs), "]");
    case Map(m) =>
      var keys := SortedKeys(m.Keys);
      PairsOfText(v, keys, "", "" + "}");
      BracketText(lead, "{", DumpEntries(v, keys), "}");
  }

  lemma BracketText(lead: string, open: string, inside: string, close: string)
    ensures lead + (open + ("" + inside + ("" + close))) == lead + (open + inside + close)
  {
  }

  lemma {:induction false} DocsOfText(xs: seq<JsonVal>, lead: string, end: string)
    requires forall x | x in xs :: Printable(x)
    ensures Inside(DocsOf(xs, lead), end) == (if xs == [] then "" else lead) + DumpList(xs) + end
    decreases xs, 0, 0
  {
    if xs != [] {
      DocOfText(xs[0], lead);
      DocsOfText(xs[1..], ",", end);
      assert DocsOf(xs, lead)[1..] == DocsOf(xs[1..], ",");
      ItemText(lead, Dump(xs[0]), if |xs| > 1 then "," else "", DumpList(xs[1..]), end);
    }
  }

  lemma ItemText(lead: string, x: string, comma: string, rest: string, end: string)
    ensures (lead + x) + (comma + rest + end) == lead + (x + comma + rest) + end
  {
  }

  lemma {:induction false} PairsOfText(v: JsonVal, keys: seq<string>, lead: string, end: string)
    requires v.Map? && Printable(v) && forall k | k in keys :: k in v.entries
    ensures Inside(PairsOf(v, keys, lead), end) == (if keys == [] then "" else lead) + DumpEntries(v, keys) + end
    decreases v, 0, |keys|
  {
    if keys != [] {
      var k, x := DStr(lead, keys[0]), DocOf(v.entries[keys[0]], " : ");
      DocOfText(v.entries[keys[0]], " : ");
      PairsOfText(v, keys[1..], ",", end);
      var rest := PairsOf(v, keys[1..], ",");
      InsidePair(k, x, rest, end);
      var comma := if |keys| > 1 then "," else "";
      EntryText(lead, Quoted(keys[0]), Dump(v.entries[keys[0]]), comma, DumpEntries(v, keys[1..]), end);
    }
  }

  lemma InsidePair(k: Doc, x: Doc, rest: seq<Doc>, end: string)
    ensures Inside([k, x] + rest, end) == Text(k) + (Text(x) + Inside(rest, end))
  {
    var ds := [k, x] + rest;
    assert ds[1..] == [x] + rest && ds[1..][1..] == rest;
  }

  lemma EntryText(lead: string, k: string, x: string, comma: string, rest: string, end: string)
    ensures (lead + k) + ((" : " + x) + (comma + rest + end)) == lead + (k + " : " + x + comma + rest) + end
  {
  }

  // ----- what the parser returns is well formed -----

  lemma {:induction false} ValueWellFormed(d: Doc)
    requires Valid(d)
    ensures WellFormed(Value(d))
    decreases d, 0
  {
    match d
    case DStr(_, _) =>
    case DNum(_, _) =>
    case DList(_, items, _) => ValuesWellFormed(items);
    case DMap(_, items, tail) => BindAllWellFormed(Map(map[]), Err, items, tail);
  }

  lemma {:induction false} ValuesWellFormed(ds: seq<Doc>)
    requires AllValid(ds)
    ensures forall x | x in Values(ds) :: WellFormed(x)
    decreases ds, 1
  {
    if ds != [] {
      ValueWellFormed(ds[0]);
      ValuesWellFormed(ds[1..]);
    }
  }

  lemma {:induction false} BindAllWellFormed(m: JsonVal, key: JsonVal, ds: seq<Doc>, tail: string)
    requires AllValid(ds) && WellFormed(m) && WellFormed(key)
    ensures WellFormed(BindAll(m, key, ds, tail))
    decreases ds, 1
  {
    if ds != [] {
      ValueWellFormed(ds[0]);
      if key == Err { BindAllWellFormed(m, Value(ds[0]), ds[1..], tail); }
      else { BindAllWellFormed(Bind(m, key, Value(ds[0])), Err, ds[1..], tail); }
    }
  }

  // ----- main results -----

  /** Wherever a printable value is printed, the parser reads back exactly that value. */
  lemma ParseUndoesDump(s: string, i: nat, v: JsonVal)
    requires Printable(v) && At(s, i, Dump(v))
    requires v.Num? ==> NoDigitAt(s, i + |Dump(v)|)
    ensures ParseAt(s, i) == Ret(v, i + |Dump(v)|)
  {
    DocOfValue(v, "");
    DocOfText(v, "");
    assert Text(DocOf(v, "")) == Dump(v);
    LayoutParses(s, i, DocOf(v, ""));
  }

  lemma DumpAtStart(v: JsonVal)
    ensures At(Dump(v), 0, Dump(v)) && NoDigitAt(Dump(v), |Dump(v)|)
  {
  }

  /** An error-free value survives printing and parsing exactly when its strings and numbers are
      well formed. */
  lemma RoundTripExactly(v: JsonVal)
    requires ErrFree(v)
    ensures Parse(Dump(v)) == Ret(v, |Dump(v)|) <==> WellFormed(v)
  {
    if WellFormed(v) {
      DumpAtStart(v);
      ParseUndoesDump(Dump(v), 0, v);
    }
    if Parse(Dump(v)) == Ret(v, |Dump(v)|) {
      var d := ValueWritten(Dump(v), 0);
      ValueWellFormed(d);
    }
  }

  /** Whatever error-free value the parser returns, printing and parsing it changes nothing. */
  lemma ParsedValuesRoundTrip(s: string, i: nat)
    requires ParseAt(s, i).Ret? && ErrFree(ParseAt(s, i).v)
    ensures WellFormed(ParseAt(s, i).v)
    ensures var v := ParseAt(s, i).v; Parse(Dump(v)) == Ret(v, |Dump(v)|)
  {
    var d := ValueWritten(s, i);
    ValueWellFormed(d);
    RoundTripExactly(ParseAt(s, i).v);
  }

  /** The minus sign of a negative number is skipped as filler. */
  lemma NegativeNumbersLoseTheirSign(n: int)
    requires -INT_MAX <= n < 0
    ensures Parse(Dump(FromInt(n))) == Ret(FromInt(-n), |Dump(FromInt(n))|)
  {
    hide ToDigits, ParseAt, At, AllDigits, NoDigitAt;
    var d := DNum("-", ToDigits(-n));
    assert Text(d) == Dump(FromInt(n));
    DumpAtStart(FromInt(n));
    LayoutParses(Dump(FromInt(n)), 0, d);
  }

  lemma IntegersRoundTripExactly(n: int)
    requires -INT_MAX <= n <= INT_MAX
    ensures Parse(Dump(FromInt(n))) == Ret(FromInt(n), |Dump(FromInt(n))|) <==> n >= 0
  {
    if n < 0 { NegativeNumbersLoseTheirSign(n); } else { RoundTripExactly(FromInt(n)); }
  }
}
