/** The language the parser accepts. A `Doc` is a concrete syntax tree: every token keeps the
    filler written before it. The parser returns a value at a cursor exactly when some valid
    `Doc` with that value is written there, so layout never matters. */
module JsonGrammar {
  import opened JsonValue
  import opened JsonParser

  /** `items` of a `DMap` are its keys and values in turn; `tail` is the filler before the
      closing bracket. */
  datatype Doc =
    | DStr(lead: string, text: string)
    | DNum(lead: string, digits: string)
    | DList(lead: string, items: seq<Doc>, tail: string)
    | DMap(lead: string, items: seq<Doc>, tail: string)

  function Text(d: Doc): string
    decreases d, 1
  {
    d.lead + Body(d)
  }

  function Body(d: Doc): string
    decreases d, 0
  {
    match d
    case DStr(_, text) => Quoted(text)
    case DNum(_, digits) => digits
    case DList(_, items, tail) => "[" + Inside(items, tail + "]")
    case DMap(_, items, tail) => "{" + Inside(items, tail + "}")
  }

  /** The items of a bracket followed by `end`. */
  function Inside(ds: seq<Doc>, end: string): string
    decreases ds, 0
  {
    if ds == [] then end else Text(ds[0]) + Inside(ds[1..], end)
  }

  function Value(d: Doc): JsonVal
    requires Valid(d)
    decreases d, 0
  {
    match d
    case DStr(_, text) => Str(text)
    case DNum(_, digits) => Num(DecValue(digits), digits)
    case DList(_, items, _) => List(Values(items))
    case DMap(_, items, tail) => BindAll(Map(map[]), Err, items, tail)
  }

  function Values(ds: seq<Doc>): seq<JsonVal>
    requires AllValid(ds)
    decreases ds, 1
  {
    if ds == [] then [] else [Value(ds[0])] + Values(ds[1..])
  }

  /** Pairs keys with values. A last key without a value is dropped when the bracket closes at
      once, and bound to `Err` when filler stands in between. */
  function BindAll(m: JsonVal, key: JsonVal, ds: seq<Doc>, tail: string): JsonVal
    requires AllValid(ds)
    decreases ds, 1
  {
    if ds == [] then (if key != Err && tail != "" then Bind(m, key, Err) else m)
    else if key == Err then BindAll(m, Value(ds[0]), ds[1..], tail)
    else BindAll(Bind(m, key, Value(ds[0])), Err, ds[1..], tail)
  }

  // ----- validity -----

  /** Every quote is escaped. */
  predicate QuotesEscaped(s: string) {
    forall k | 0 <= k < |s| :: s[k] == '"' ==> k > 0 && s[k - 1] == '\\'
  }

  /** Strings that keep their end when quoted. Escapes are kept as written. */
  predicate StringOk(s: string) {
    QuotesEscaped(s) && (s != [] ==> s[|s| - 1] != '\\')
  }

  predicate DigitsOk(s: string) {
    s != [] && AllDigits(s) && DecValue(s) <= 2147483647
  }

  predicate Valid(d: Doc) {
    && AllFiller(d.lead)
    && match d
       case DStr(_, text) => StringOk(text)
       case DNum(_, digits) => DigitsOk(digits)
       case DList(_, items, tail) => AllValid(items) && Separated(items) && AllFiller(tail)
       case DMap(_, items, tail) => AllValid(items) && Separated(items) && AllFiller(tail)
  }

  predicate AllValid(ds: seq<Doc>) {
    ds == [] || (Valid(ds[0]) && AllValid(ds[1..]))
  }

  /** A number written directly at the cursor. */
  predicate BareNumber(d: Doc) { d.DNum? && d.lead == "" }

  /** Two numbers in a row need filler between them. */
  predicate Separated(ds: seq<Doc>) {
    |ds| > 1 ==> (ds[0].DNum? ==> !BareNumber(ds[1])) && Separated(ds[1..])
  }

  // ----- texts at a position -----

  predicate At(s: string, i: nat, t: string) { i + |t| <= |s| && s[i..i + |t|] == t }

  lemma AtSplit(s: string, i: nat, a: string, b: string)
    ensures At(s, i, a + b) <==> At(s, i, a) && At(s, i + |a|, b)
  {
    if At(s, i, a + b) {
      assert s[i..i + |a|] == (a + b)[..|a|];
      assert s[i + |a|..i + |a| + |b|] == (a + b)[|a|..];
    }
    if At(s, i, a) && At(s, i + |a|, b) {
      assert s[i..i + |a + b|] == s[i..i + |a|] + s[i + |a|..i + |a| + |b|];
    }
  }

  lemma AtIndex(s: string, i: nat, t: string, k: nat)
    requires At(s, i, t) && k < |t|
    ensures s[i + k] == t[k]
  {
    assert s[i..i + |t|][k] == t[k];
  }

  lemma AtInside(s: string, i: nat, t: string)
    requires At(s, i, t)
    ensures i + |t| <= |s|
  {
  }

  /** Splitting off a first character. */
  lemma AtCons(s: string, i: nat, c: char, t: string)
    ensures At(s, i, [c] + t) <==> i < |s| && s[i] == c && At(s, i + 1, t)
  {
    AtSplit(s, i, [c], t);
    if i < |s| { assert s[i..i + 1] == [s[i]]; }
  }

  predicate NoDigitAt(s: string, i: nat) { i < |s| ==> !IsDigit(s[i]) }

  // ----- tokens -----

  lemma {:induction false} ParseSkipsFiller(s: string, i: nat, f: string)
    requires At(s, i, f) && AllFiller(f)
    ensures ParseAt(s, i) == ParseAt(s, i + |f|)
    decreases |f|
  {
    if f != [] {
      assert f == [f[0]] + f[1..];
      AtCons(s, i, f[0], f[1..]);
      ParseSkipsFiller(s, i + 1, f[1..]);
    }
  }

  lemma {:induction false} ParseStringReads(s: string, i: nat, text: string, k: nat)
    requires StringOk(text) && k <= |text|
    requires At(s, i, text) && i + |text| < |s| && s[i + |text|] == '"'
    ensures ParseStringAt(s, i + k, text[..k]) == Ret(Str(text), i + |text| + 1)
    decreases |text| - k
  {
    if k < |text| {
      AtIndex(s, i, text, k);
      assert text[..k] + [text[k]] == text[..k + 1];
      ParseStringReads(s, i, text, k + 1);
    } else {
      assert text[..k] == text;
    }
  }

  lemma {:induction false} DigitsEndReads(s: string, i: nat, digits: string)
    requires AllDigits(digits) && At(s, i, digits) && NoDigitAt(s, i + |digits|)
    ensures DigitsEnd(s, i) == i + |digits|
    decreases |digits|
  {
    if digits != [] {
      assert digits == [digits[0]] + digits[1..];
      AtCons(s, i, digits[0], digits[1..]);
      DigitsEndReads(s, i + 1, digits[1..]);
    }
  }

  // ----- every valid layout parses to its value -----

  /** Filler before the closing bracket: the loop calls `parse` once more, which returns `Err`
      at the bracket. */
  lemma ListTail(s: string, i: nat, acc: seq<JsonVal>, tail: string)
    requires AllFiller(tail) && At(s, i, tail + "]")
    ensures ParseListAt(s, i, acc) == Ret(List(acc), i + |tail| + 1)
  {
    AtSplit(s, i, tail, "]");
    AtIndex(s, i + |tail|, "]", 0);
    if tail != [] {
      AtIndex(s, i, tail, 0);
      ParseSkipsFiller(s, i, tail);
    }
  }

  lemma MapTail(s: string, i: nat, m: JsonVal, key: JsonVal, tail: string)
    requires AllFiller(tail) && At(s, i, tail + "}")
    ensures ParseMapAt(s, i, m, key) == Ret(BindAll(m, key, [], tail), i + |tail| + 1)
  {
    hide ParseListAt, ParseStringAt, ParseNumAt, Value, At, Bind;
    AtSplit(s, i, tail, "}");
    AtIndex(s, i + |tail|, "}", 0);
    AtInside(s, i, tail + "}");
    if tail != [] {
      AtIndex(s, i, tail, 0);
      ParseSkipsFiller(s, i, tail);
      assert ParseAt(s, i) == Ret(Err, i + |tail|);
    }
  }

  /** The first character of a text is a digit only for a number without filler. */
  lemma FirstChar(d: Doc)
    requires Valid(d)
    ensures Text(d) != []
    ensures !IsCloser(Text(d)[0])
    ensures IsDigit(Text(d)[0]) <==> BareNumber(d)
  {
    if d.lead != "" { assert Text(d)[0] == d.lead[0]; }
  }

  lemma InsideFirstChar(ds: seq<Doc>, end: string)
    requires AllValid(ds) && end != [] && !IsDigit(end[0])
    ensures Inside(ds, end) != []
    ensures IsDigit(Inside(ds, end)[0]) <==> ds != [] && BareNumber(ds[0])
  {
    if ds != [] { FirstChar(ds[0]); }
  }

  lemma ValueNotErr(d: Doc)
    requires Valid(d)
    ensures Value(d) != Err
  {
    if d.DMap? { BindAllIsMap(Map(map[]), Err, d.items, d.tail); }
  }

  lemma {:induction false} BindAllIsMap(m: JsonVal, key: JsonVal, ds: seq<Doc>, tail: string)
    requires AllValid(ds) && (m.Map? || m.OddMap?)
    ensures var v := BindAll(m, key, ds, tail); v.Map? || v.OddMap?
    decreases ds
  {
    if ds != [] {
      if key == Err { BindAllIsMap(m, Value(ds[0]), ds[1..], tail); }
      else { BindAllIsMap(Bind(m, key, Value(ds[0])), Err, ds[1..], tail); }
    }
  }

  /** Splits the first item off; when it is a number, what follows is not a digit. */
  lemma FirstItem(s: string, i: nat, ds: seq<Doc>, end: string)
    requires ds != [] && AllValid(ds) && Separated(ds) && end != [] && !IsDigit(end[0])
    requires At(s, i, Inside(ds, end))
    ensures At(s, i, Text(ds[0])) && At(s, i + |Text(ds[0])|, Inside(ds[1..], end))
    ensures ds[0].DNum? ==> NoDigitAt(s, i + |Text(ds[0])|)
    ensures i < |s| && !IsCloser(s[i])
    ensures Valid(ds[0]) && AllValid(ds[1..]) && Separated(ds[1..])
  {
    var rest := Inside(ds[1..], end);
    AtSplit(s, i, Text(ds[0]), rest);
    FirstChar(ds[0]);
    AtIndex(s, i, Text(ds[0]), 0);
    InsideFirstChar(ds[1..], end);
    AtIndex(s, i + |Text(ds[0])|, rest, 0);
  }

  lemma {:induction false} LayoutParses(s: string, i: nat, d: Doc)
    requires Valid(d) && At(s, i, Text(d))
    requires d.DNum? ==> NoDigitAt(s, i + |Text(d)|)
    ensures ParseAt(s, i) == Ret(Value(d), i + |Text(d)|)
    decreases d, 2
  {
    hide ParseAt, At, Body, Value, AllValid, Separated;
    AtSplit(s, i, d.lead, Body(d));
    ParseSkipsFiller(s, i, d.lead);
    var b := i + |d.lead|;
    assert At(s, b, Body(d)) && b + |Body(d)| == i + |Text(d)|;
    match d
    case DStr(_, _) => StringParses(s, b, d);
    case DNum(_, _) => NumberParses(s, b, d);
    case DList(_, _, _) => ListParses(s, b, d);
    case DMap(_, _, _) => MapParses(s, b, d);
  }

  lemma StringParses(s: string, b: nat, d: Doc)
    requires d.DStr? && Valid(d) && At(s, b, Body(d))
    ensures ParseAt(s, b) == Ret(Value(d), b + |Body(d)|)
  {
    hide ParseListAt, ParseMapAt, ParseNumAt, Inside, AllValid;
    var text := d.text;
    assert Body(d) == ['"'] + (text + "\"");
    AtCons(s, b, '"', text + "\"");
    AtSplit(s, b + 1, text, "\"");
    AtIndex(s, b + 1 + |text|, "\"", 0);
    ParseStringReads(s, b + 1, text, 0);
    assert text[..0] == [];
  }

  lemma NumberParses(s: string, b: nat, d: Doc)
    requires d.DNum? && Valid(d) && At(s, b, Body(d)) && NoDigitAt(s, b + |Body(d)|)
    ensures ParseAt(s, b) == Ret(Value(d), b + |Body(d)|)
  {
    AtIndex(s, b, d.digits, 0);
    DigitsEndReads(s, b, d.digits);
  }

  lemma {:induction false} ListParses(s: string, b: nat, d: Doc)
    requires d.DList? && Valid(d) && At(s, b, Body(d))
    ensures ParseAt(s, b) == Ret(Value(d), b + |Body(d)|)
    decreases d, 1
  {
    AtCons(s, b, '[', Inside(d.items, d.tail + "]"));
    ItemsParse(s, b + 1, [], d.items, d.tail);
    assert [] + Values(d.items) == Values(d.items);
  }

  lemma {:induction false} MapParses(s: string, b: nat, d: Doc)
    requires d.DMap? && Valid(d) && At(s, b, Body(d))
    ensures ParseAt(s, b) == Ret(Value(d), b + |Body(d)|)
    decreases d, 1
  {
    AtCons(s, b, '{', Inside(d.items, d.tail + "}"));
    PairsParse(s, b + 1, Map(map[]), Err, d.items, d.tail);
    ValueNotErr(d);
  }

  lemma {:induction false} ItemsParse(s: string, i: nat, acc: seq<JsonVal>, ds: seq<Doc>, tail: string)
    requires AllValid(ds) && Separated(ds) && AllFiller(tail) && At(s, i, Inside(ds, tail + "]"))
    ensures ParseListAt(s, i, acc) == Ret(List(acc + Values(ds)), i + |Inside(ds, tail + "]")|)
    decreases ds, 3
  {
    hide Text, Value, Valid, ParseAt, At, AllValid, Separated;
    if ds == [] {
      ListTail(s, i, acc, tail);
      assert acc + Values(ds) == acc;
    } else {
      FirstItem(s, i, ds, tail + "]");
      LayoutParses(s, i, ds[0]);
      ValueNotErr(ds[0]);
      ItemsParse(s, i + |Text(ds[0])|, acc + [Value(ds[0])], ds[1..], tail);
      assert acc + Values(ds) == acc + [Value(ds[0])] + Values(ds[1..]);
    }
  }

  lemma {:induction false} PairsParse(s: string, i: nat, m: JsonVal, key: JsonVal, ds: seq<Doc>, tail: string)
    requires AllValid(ds) && Separated(ds) && AllFiller(tail) && At(s, i, Inside(ds, tail + "}"))
    ensures ParseMapAt(s, i, m, key) == Ret(BindAll(m, key, ds, tail), i + |Inside(ds, tail + "}")|)
    decreases ds, 3
  {
    hide Text, Value, Valid, ParseAt, At, AllValid, Separated, Bind;
    if ds == [] {
      MapTail(s, i, m, key, tail);
    } else {
      FirstItem(s, i, ds, tail + "}");
      LayoutParses(s, i, ds[0]);
      var e := i + |Text(ds[0])|;
      if key == Err { PairsParse(s, e, m, Value(ds[0]), ds[1..], tail); }
      else { PairsParse(s, e, Bind(m, key, Value(ds[0])), Err, ds[1..], tail); }
    }
  }

  // ----- every parsed value was written by a valid layout -----

  lemma {:induction false} StringWritten(s: string, i: nat, acc: string) returns (more: string)
    requires i <= |s| && ParseStringAt(s, i, acc).v != Err
    requires QuotesEscaped(acc)
    ensures ParseStringAt(s, i, acc) == Ret(Str(acc + more), i + |more| + 1)
    ensures StringOk(acc + more)
    ensures At(s, i, more + "\"")
    decreases |s| - i
  {
    hide At;
    if s[i] == '"' && (acc == [] || acc[|acc| - 1] != '\\') {
      more := [];
      TailWritten(s, i, i, '"');
      assert acc + more == acc;
      assert more + "\"" == s[i..i] + ['"'];
    } else {
      var rest := StringWritten(s, i + 1, acc + [s[i]]);
      more := [s[i]] + rest;
      assert acc + more == acc + [s[i]] + rest;
      assert more + "\"" == [s[i]] + (rest + "\"");
      AtCons(s, i, s[i], rest + "\"");
    }
  }

  /** Prefixing one more filler character to a layout. */
  function WithFiller(c: char, d: Doc): Doc {
    d.(lead := [c] + d.lead)
  }

  lemma WithFillerValid(c: char, d: Doc)
    requires IsFiller(c) && Valid(d)
    ensures Valid(WithFiller(c, d)) && Value(WithFiller(c, d)) == Value(d)
    ensures Text(WithFiller(c, d)) == [c] + Text(d)
  {
    hide Inside, AllValid, Separated, Values, BindAll, StringOk, DigitsOk;
    var e := WithFiller(c, d);
    assert Body(e) == Body(d);
    assert [c] + d.lead + Body(d) == [c] + (d.lead + Body(d));
  }

  /** `parse` comes back without a value only at a closing bracket or past the end. */
  lemma {:induction false} ErrStops(s: string, i: nat)
    requires ParseAt(s, i).Ret? && ParseAt(s, i).v == Err
    ensures var j := ParseAt(s, i).next; j < |s| ==> IsCloser(s[j]) && AllFiller(s[i..j])
    decreases |s| - i, 0
  {
    if i < |s| && IsFiller(s[i]) {
      ErrStops(s, i + 1);
      var j := ParseAt(s, i).next;
      if j < |s| { assert s[i..j] == [s[i]] + s[i + 1..j]; }
    } else if i < |s| && s[i] == '[' {
      ListErrStops(s, i + 1, []);
    } else if i < |s| && s[i] == '{' {
      MapErrStops(s, i + 1, Map(map[]), Err);
    }
  }

  lemma {:induction false} ListErrStops(s: string, i: nat, acc: seq<JsonVal>)
    ensures ParseListAt(s, i, acc).Ret? && ParseListAt(s, i, acc).v == Err ==> ParseListAt(s, i, acc).next == |s|
    decreases |s| - i, 1
  {
    if i < |s| && !IsCloser(s[i]) && ParseAt(s, i).Ret? {
      var r := ParseAt(s, i);
      ListErrStops(s, r.next, if r.v == Err then acc else acc + [r.v]);
    }
  }

  lemma {:induction false} MapErrStops(s: string, i: nat, m: JsonVal, key: JsonVal)
    requires m != Err
    ensures var r := ParseMapAt(s, i, m, key); r.Ret? && r.v == Err ==> r.next == |s|
    decreases |s| - i, 1
  {
    if i < |s| && !IsCloser(s[i]) && ParseAt(s, i).Ret? {
      var r := ParseAt(s, i);
      if key == Err { MapErrStops(s, r.next, m, r.v); }
      else { MapErrStops(s, r.next, Bind(m, key, r.v), Err); }
    }
  }

  /** `d` is written at `i`, ends at `j`, and is not cut short by a further digit. */
  ghost predicate WrittenAs(s: string, i: nat, d: Doc, j: nat) {
    && Valid(d) && At(s, i, Text(d)) && j == i + |Text(d)|
    && (d.DNum? ==> NoDigitAt(s, j))
  }

  lemma {:induction false} ValueWritten(s: string, i: nat) returns (d: Doc)
    requires ParseAt(s, i).Ret? && ParseAt(s, i).v != Err
    ensures WrittenAs(s, i, d, ParseAt(s, i).next) && Value(d) == ParseAt(s, i).v
    decreases |s| - i, 0
  {
    hide At, Separated, ParseListAt, ParseMapAt, ParseStringAt;
    if IsFiller(s[i]) {
      var e := ValueWritten(s, i + 1);
      d := WithFiller(s[i], e);
      WithFillerValid(s[i], e);
      AtCons(s, i, s[i], Text(e));
    } else if s[i] == '"' {
      var text := StringWritten(s, i + 1, []);
      assert [] + text == text;
      d := DStr("", text);
      AtCons(s, i, '"', text + "\"");
      assert Text(d) == ['"'] + (text + "\"");
    } else if s[i] == '[' {
      ListErrStops(s, i + 1, []);
      var ds, tail := ItemsWritten(s, i + 1, []);
      d := DList("", ds, tail);
      BracketWritten(s, i, d);
      assert [] + Values(ds) == Values(ds);
    } else if s[i] == '{' {
      MapErrStops(s, i + 1, Map(map[]), Err);
      var ds, tail := PairsWritten(s, i + 1, Map(map[]), Err);
      d := DMap("", ds, tail);
      BracketWritten(s, i, d);
    } else {
      d := NumberWritten(s, i);
    }
  }

  lemma NumberWritten(s: string, i: nat) returns (d: Doc)
    requires i < |s| && IsDigit(s[i]) && ParseNumAt(s, i).Ret?
    ensures WrittenAs(s, i, d, ParseNumAt(s, i).next) && Value(d) == ParseNumAt(s, i).v
  {
    d := DNum("", s[i..DigitsEnd(s, i)]);
    assert Text(d) == d.digits;
  }

  lemma BracketWritten(s: string, i: nat, d: Doc)
    requires (d.DList? || d.DMap?) && d.lead == "" && Valid(d)
    requires i < |s| && s[i] == (if d.DList? then '[' else '{')
    requires At(s, i + 1, Inside(d.items, d.tail + if d.DList? then "]" else "}"))
    ensures WrittenAs(s, i, d, i + 1 + |Inside(d.items, d.tail + if d.DList? then "]" else "}")|)
  {
    var inside := Inside(d.items, d.tail + if d.DList? then "]" else "}");
    AtCons(s, i, s[i], inside);
    assert Text(d) == [s[i]] + inside;
  }

  /** Puts an item in front of the items that follow it. */
  lemma ConsItem(s: string, i: nat, j: nat, d: Doc, ds: seq<Doc>, end: string)
    requires WrittenAs(s, i, d, j) && AllValid(ds) && Separated(ds)
    requires end != [] && !IsDigit(end[0]) && At(s, j, Inside(ds, end))
    ensures AllValid([d] + ds) && Separated([d] + ds)
    ensures At(s, i, Inside([d] + ds, end)) && |Inside([d] + ds, end)| == j - i + |Inside(ds, end)|
  {
    assert ([d] + ds)[1..] == ds;
    AtSplit(s, i, Text(d), Inside(ds, end));
    InsideFirstChar(ds, end);
    AtIndex(s, j, Inside(ds, end), 0);
  }

  /** Filler up to a closing bracket. */
  lemma TailWritten(s: string, i: nat, j: nat, c: char)
    requires i <= j < |s| && s[j] == c && AllFiller(s[i..j])
    ensures At(s, i, s[i..j] + [c])
  {
    assert s[i..j + 1] == s[i..j] + [c];
  }

  lemma {:induction false} ItemsWritten(s: string, i: nat, acc: seq<JsonVal>) returns (ds: seq<Doc>, tail: string)
    requires ParseListAt(s, i, acc).Ret? && ParseListAt(s, i, acc).v != Err
    ensures AllValid(ds) && Separated(ds) && AllFiller(tail)
    ensures At(s, i, Inside(ds, tail + "]"))
    ensures ParseListAt(s, i, acc) == Ret(List(acc + Values(ds)), i + |Inside(ds, tail + "]")|)
    decreases |s| - i, 1
  {
    hide Body, Value, Valid, ParseAt, At;
    if s[i] == ']' {
      ds, tail := [], [];
      assert acc + Values(ds) == acc;
      TailWritten(s, i, i, ']');
    } else {
      var r := ParseAt(s, i);
      if r.v == Err {
        ErrStops(s, i);
        ds, tail := [], s[i..r.next];
        assert acc + Values(ds) == acc;
        assert r.next < |s| && s[r.next] == ']';
        TailWritten(s, i, r.next, ']');
      } else {
        var d := ValueWritten(s, i);
        var es;
        es, tail := ItemsWritten(s, r.next, acc + [r.v]);
        ds := [d] + es;
        ConsItem(s, i, r.next, d, es, tail + "]");
        assert ds[1..] == es;
        assert acc + Values(ds) == acc + [r.v] + Values(es);
      }
    }
  }

  lemma {:induction false} PairsWritten(s: string, i: nat, m: JsonVal, key: JsonVal) returns (ds: seq<Doc>, tail: string)
    requires m != Err
    requires ParseMapAt(s, i, m, key).Ret? && ParseMapAt(s, i, m, key).v != Err
    ensures AllValid(ds) && Separated(ds) && AllFiller(tail)
    ensures At(s, i, Inside(ds, tail + "}"))
    ensures ParseMapAt(s, i, m, key) == Ret(BindAll(m, key, ds, tail), i + |Inside(ds, tail + "}")|)
    decreases |s| - i, 1
  {
    hide Body, Value, Valid, ParseAt, At;
    if s[i] == '}' {
      ds, tail := [], [];
      TailWritten(s, i, i, '}');
    } else {
      var r := ParseAt(s, i);
      if r.v == Err {
        ErrStops(s, i);
        ds, tail := [], s[i..r.next];
        TailWritten(s, i, r.next, '}');
      } else {
        var d := ValueWritten(s, i);
        var es;
        if key == Err {
          es, tail := PairsWritten(s, r.next, m, r.v);
        } else {
          es, tail := PairsWritten(s, r.next, Bind(m, key, r.v), Err);
        }
        ds := [d] + es;
        ConsItem(s, i, r.next, d, es, tail + "}");
        assert ds[1..] == es;
      }
    }
  }

  /** The parser returns `v` and stops at `j` exactly when a valid layout of `v` is written there. */
  lemma ParserMeetsGrammar(s: string, i: nat, v: JsonVal, j: nat)
    requires v != Err
    ensures ParseAt(s, i) == Ret(v, j) <==> exists d :: WrittenAs(s, i, d, j) && Value(d) == v
  {
    if ParseAt(s, i) == Ret(v, j) {
      var d := ValueWritten(s, i);
    }
    forall d | WrittenAs(s, i, d, j) && Value(d) == v ensures ParseAt(s, i) == Ret(v, j) {
      LayoutParses(s, i, d);
    }
  }
}
