/** The cursor-based recursive parser (`JsonVal::parse` and its helpers): a specification that
    says what every text yields, and the loops of the source proved against it. */
module JsonParser {
  import opened JsonValue

  /** What a parsing call does: return a value and the cursor after it, throw
      `std::out_of_range` (from `stoi`, or from `substr` while reporting an unterminated bracket),
      or loop forever. */
  datatype Outcome =
    | Ret(v: JsonVal, next: nat)
    | OutOfRange
    | Hang

  // ----- specification -----

  function ParseStringAt(s: string, i: nat, acc: string): (r: Outcome)
    requires i <= |s|
    ensures r.Ret? && r.next >= i
    ensures r.v != Err ==> i < r.next <= |s|
    ensures r.v == Err ==> r.next == |s|
    decreases |s| - i
  {
    if i == |s| then Ret(Err, i)
    else if s[i] == '"' && (acc == [] || acc[|acc| - 1] != '\\') then Ret(Str(acc), i + 1)
    else ParseStringAt(s, i + 1, acc + [s[i]])
  }

  /** The end of the run of digits that starts at `i`. */
  function DigitsEnd(s: string, i: nat): (e: nat)
    requires i <= |s|
    ensures i <= e <= |s| && AllDigits(s[i..e])
    ensures e < |s| ==> !IsDigit(s[e])
    decreases |s| - i
  {
    if i < |s| && IsDigit(s[i]) then
      var e := DigitsEnd(s, i + 1);
      assert s[i..e] == [s[i]] + s[i + 1..e];
      e
    else i
  }

  function ParseNumAt(s: string, i: nat): Outcome
    requires i < |s| && IsDigit(s[i])
  {
    var e := DigitsEnd(s, i);
    if DecValue(s[i..e]) > INT_MAX then OutOfRange else Ret(Num(DecValue(s[i..e]), s[i..e]), e)
  }

  /** `ret.map[key] = item`. */
  function Bind(m: JsonVal, key: JsonVal, v: JsonVal): JsonVal {
    if m.Map? && key.Str? then Map(m.entries[key.str := v]) else OddMap
  }

  function ParseAt(s: string, i: nat): (r: Outcome)
    ensures r.Ret? ==> r.next >= i
    ensures r.Ret? && i < |s| && !IsCloser(s[i]) ==> r.next > i
    decreases |s| - i, 0
  {
    if i >= |s| then Ret(Err, i)
    else if IsCloser(s[i]) then Ret(Err, i)
    else if IsFiller(s[i]) then ParseAt(s, i + 1)
    else
      var r := if s[i] == '"' then ParseStringAt(s, i + 1, [])
               else if s[i] == '[' then ParseListAt(s, i + 1, [])
               else if s[i] == '{' then ParseMapAt(s, i + 1, Map(map[]), Err)
               else ParseNumAt(s, i);
      if r.Ret? && r.v == Err then ParseAt(s, r.next + 1) else r
  }

  /** The `parse_list` loop with `acc` already collected. A closing brace is not consumed by
      `parse`, so the loop repeats for ever on it. */
  function ParseListAt(s: string, i: nat, acc: seq<JsonVal>): (r: Outcome)
    ensures r.Ret? ==> r.next >= i
    decreases |s| - i, 1
  {
    if i >= |s| then EndOfText(s, i)
    else if s[i] == ']' then Ret(List(acc), i + 1)
    else if s[i] == '}' then Hang
    else
      var r := ParseAt(s, i);
      if !r.Ret? then r
      else ParseListAt(s, r.next, if r.v == Err then acc else acc + [r.v])
  }

  /** The `parse_map` loop; `key` is `Err` while a key is awaited. */
  function ParseMapAt(s: string, i: nat, m: JsonVal, key: JsonVal): (r: Outcome)
    ensures r.Ret? ==> r.next >= i
    decreases |s| - i, 1
  {
    if i >= |s| then EndOfText(s, i)
    else if s[i] == '}' then Ret(m, i + 1)
    else if s[i] == ']' then Hang
    else
      var r := ParseAt(s, i);
      if !r.Ret? then r
      else if key == Err then ParseMapAt(s, r.next, m, r.v)
      else ParseMapAt(s, r.next, Bind(m, key, r.v), Err)
  }

  /** Reporting an unterminated bracket evaluates `json.substr(*idx)`, which throws when the
      cursor is past the end. */
  function EndOfText(s: string, i: nat): Outcome {
    if i > |s| then OutOfRange else Ret(Err, i)
  }

  function Parse(s: string): Outcome { ParseAt(s, 0) }

  // ----- the source's loops -----

  method ParseString(json: string, start: nat) returns (r: Outcome)
    requires start <= |json|
    ensures r == ParseStringAt(json, start, [])
  {
    var idx, str := start, [];
    while idx < |json|
      invariant start <= idx <= |json|
      invariant ParseStringAt(json, start, []) == ParseStringAt(json, idx, str)
    {
      if json[idx] == '"' && (|str| == 0 || (|str| > 0 && str[|str| - 1] != '\\')) {
        idx := idx + 1;
        return Ret(Str(str), idx);
      } else {
        str := str + [json[idx]];
        idx := idx + 1;
      }
    }
    return Ret(Err, idx);
  }

  method ParseNum(json: string, start: nat) returns (r: Outcome)
    requires start < |json| && IsDigit(json[start])
    ensures r == ParseNumAt(json, start)
  {
    var idx, str := start, [];
    while idx < |json|
      invariant start <= idx <= |json|
      invariant str == json[start..idx] && AllDigits(str)
      invariant DigitsEnd(json, start) == DigitsEnd(json, idx)
    {
      if '0' <= json[idx] <= '9' {
        str := str + [json[idx]];
        idx := idx + 1;
      } else {
        break;
      }
    }
    if DecValue(str) > INT_MAX { return OutOfRange; }
    return Ret(Num(DecValue(str), str), idx);
  }

  method ParseList(json: string, start: nat) returns (r: Outcome)
    requires ParseListAt(json, start, []) != Hang
    ensures r == ParseListAt(json, start, [])
    decreases |json| - start, 1
  {
    var idx, list := start, [];
    while idx < |json|
      invariant start <= idx
      invariant ParseListAt(json, start, []) == ParseListAt(json, idx, list)
      decreases |json| - idx
    {
      if json[idx] == ']' {
        idx := idx + 1;
        return Ret(List(list), idx);
      } else {
        var item := ParseValue(json, idx);
        if item == OutOfRange { return item; }
        idx := item.next;
        if item.v != Err {
          list := list + [item.v];
        }
      }
    }
    if idx > |json| { return OutOfRange; }
    return Ret(Err, idx);
  }

  method ParseMap(json: string, start: nat) returns (r: Outcome)
    requires ParseMapAt(json, start, Map(map[]), Err) != Hang
    ensures r == ParseMapAt(json, start, Map(map[]), Err)
    decreases |json| - start, 1
  {
    var idx, ret, key := start, Map(map[]), Err;
    while idx < |json|
      invariant start <= idx
      invariant ParseMapAt(json, start, Map(map[]), Err) == ParseMapAt(json, idx, ret, key)
      decreases |json| - idx
    {
      if json[idx] == '}' {
        idx := idx + 1;
        return Ret(ret, idx);
      } else {
        var item := ParseValue(json, idx);
        if item == OutOfRange { return item; }
        idx := item.next;
        if key == Err {
          key := item.v;
        } else {
          ret := Bind(ret, key, item.v);
          key := Err;
        }
      }
    }
    if idx > |json| { return OutOfRange; }
    return Ret(Err, idx);
  }

  /** `JsonVal::parse(json, idx)`. */
  method ParseValue(json: string, start: nat) returns (r: Outcome)
    requires ParseAt(json, start) != Hang
    ensures r == ParseAt(json, start)
    decreases |json| - start, 0
  {
    hide ParseStringAt, ParseListAt, ParseMapAt, DecValue;
    var idx := start;
    r := Ret(Err, idx);
    while idx < |json|
      invariant start <= idx
      invariant ParseAt(json, start) == ParseAt(json, idx)
      invariant r == Ret(Err, idx)
      decreases |json| - idx
    {
      if json[idx] == '"' {
        r := ParseString(json, idx + 1);
      } else if '0' <= json[idx] <= '9' {
        r := ParseNum(json, idx);
      } else if json[idx] == '[' {
        r := ParseList(json, idx + 1);
      } else if json[idx] == '{' {
        r := ParseMap(json, idx + 1);
      } else if json[idx] == ']' || json[idx] == '}' {
        return Ret(Err, idx);
      }
      if r == OutOfRange || r.v != Err { return; }
      idx := r.next + 1;
      r := Ret(Err, idx);
    }
  }
}
