/** When the parser stops. Its loops make no progress on a closing bracket of the wrong kind;
    a left-to-right bracket scan tells in advance whether a text leads there. */
module JsonTermination {
  import opened JsonValue
  import opened JsonParser

  // ----- the bracket scan -----

  /** Scanning from `i` with the closers in `open` still expected (innermost last), the value being
      read runs into a closing bracket of the wrong kind. The scan ends when the value is complete,
      at the end of the text, or at a number `stoi` rejects. */
  predicate Mismatch(s: string, i: nat, open: seq<char>)
    decreases |s| - i
  {
    if i >= |s| then false
    else if s[i] == '"' then
      var r := ParseStringAt(s, i + 1, []);
      r.v != Err && open != [] && Mismatch(s, r.next, open)
    else if IsDigit(s[i]) then
      DigitsAdvance(s, i);
      ParseNumAt(s, i).Ret? && open != [] && Mismatch(s, DigitsEnd(s, i), open)
    else if s[i] == '[' then Mismatch(s, i + 1, open + [']'])
    else if s[i] == '{' then Mismatch(s, i + 1, open + ['}'])
    else if IsCloser(s[i]) then
      open != [] &&
      if s[i] != open[|open| - 1] then true
      else |open| > 1 && Mismatch(s, i + 1, open[..|open| - 1])
    else Mismatch(s, i + 1, open)
  }

  lemma DigitsAdvance(s: string, i: nat)
    requires i < |s| && IsDigit(s[i])
    ensures DigitsEnd(s, i) > i
  {
  }

  /** What the scan says about a text on which a parsing call has outcome `r`. */
  predicate ScanAgrees(s: string, i: nat, open: seq<char>, r: Outcome) {
    match r
    case Hang => Mismatch(s, i, open)
    case OutOfRange => !Mismatch(s, i, open)
    case Ret(v, j) => Mismatch(s, i, open) <==> (v == Err || open != []) && Mismatch(s, j, open)
  }

  lemma {:induction false} ParseScan(s: string, i: nat, open: seq<char>)
    ensures ScanAgrees(s, i, open, ParseAt(s, i))
    decreases |s| - i, 2
  {
    hide ParseListAt, ParseMapAt, ParseStringAt, DigitsEnd;
    if i < |s| && !IsCloser(s[i]) {
      if IsFiller(s[i]) { ParseScan(s, i + 1, open); }
      else if s[i] == '[' {
        ListScan(s, i + 1, [], open);
        assert Mismatch(s, i, open) <==> Mismatch(s, i + 1, open + [']']);
      } else if s[i] == '{' {
        MapScan(s, i + 1, Map(map[]), Err, open);
        assert Mismatch(s, i, open) <==> Mismatch(s, i + 1, open + ['}']);
      }
    }
  }

  /** A bracket's loop against the scan with its closer pushed; once closed, the value is complete
      when nothing else is open. */
  predicate BracketAgrees(s: string, i: nat, open: seq<char>, closer: char, r: Outcome) {
    match r
    case Hang => Mismatch(s, i, open + [closer])
    case OutOfRange => !Mismatch(s, i, open + [closer])
    case Ret(v, j) =>
      if v == Err then !Mismatch(s, i, open + [closer]) && j >= |s|
      else Mismatch(s, i, open + [closer]) <==> open != [] && Mismatch(s, j, open)
  }

  lemma {:induction false} ListScan(s: string, i: nat, acc: seq<JsonVal>, open: seq<char>)
    ensures BracketAgrees(s, i, open, ']', ParseListAt(s, i, acc))
    decreases |s| - i, 3
  {
    if i < |s| {
      assert (open + [']'])[..|open|] == open;
      if !IsCloser(s[i]) {
        ParseScan(s, i, open + [']']);
        var r := ParseAt(s, i);
        if r.Ret? { ListScan(s, r.next, if r.v == Err then acc else acc + [r.v], open); }
      }
    }
  }

  lemma {:induction false} MapScan(s: string, i: nat, m: JsonVal, key: JsonVal, open: seq<char>)
    requires m != Err
    ensures BracketAgrees(s, i, open, '}', ParseMapAt(s, i, m, key))
    decreases |s| - i, 3
  {
    if i < |s| {
      assert (open + ['}'])[..|open|] == open;
      if !IsCloser(s[i]) {
        ParseScan(s, i, open + ['}']);
        var r := ParseAt(s, i);
        if r.Ret? {
          if key == Err { MapScan(s, r.next, m, r.v, open); }
          else { MapScan(s, r.next, Bind(m, key, r.v), Err, open); }
        }
      }
    }
  }

  /** The specification hangs exactly on the texts whose brackets mismatch. */
  lemma HangExactlyOnMismatch(s: string)
    ensures Parse(s) == Hang <==> Mismatch(s, 0, [])
  {
    ParseScan(s, 0, []);
    var r := ParseAt(s, 0);
    if r.Ret? && r.v == Err && Mismatch(s, r.next, []) { ErrAtCloser(s, 0); }
  }

  lemma {:induction false} ErrAtCloser(s: string, i: nat)
    requires ParseAt(s, i).Ret? && ParseAt(s, i).v == Err
    ensures !Mismatch(s, ParseAt(s, i).next, [])
    decreases |s| - i
  {
    if i < |s| && !IsCloser(s[i]) {
      if IsFiller(s[i]) { ErrAtCloser(s, i + 1); }
      else if s[i] == '[' { ListScan(s, i + 1, [], []); }
      else if s[i] == '{' { MapScan(s, i + 1, Map(map[]), Err, []); }
    }
  }

  // ----- when the parser throws -----

  /** Scanning as above, the value being read makes the parser throw: at a number above the limit, at
      an unterminated string inside a bracket, or at the end of the text inside two brackets. */
  predicate Throws(s: string, i: nat, open: seq<char>)
    decreases |s| - i
  {
    if i >= |s| then |open| >= 2
    else if s[i] == '"' then
      var r := ParseStringAt(s, i + 1, []);
      open != [] && (r.v == Err || Throws(s, r.next, open))
    else if IsDigit(s[i]) then
      DigitsAdvance(s, i);
      DecValue(s[i..DigitsEnd(s, i)]) > 2147483647 || (open != [] && Throws(s, DigitsEnd(s, i), open))
    else if s[i] == '[' then Throws(s, i + 1, open + [']'])
    else if s[i] == '{' then Throws(s, i + 1, open + ['}'])
    else if IsCloser(s[i]) then
      |open| > 1 && s[i] == open[|open| - 1] && Throws(s, i + 1, open[..|open| - 1])
    else Throws(s, i + 1, open)
  }

  /** A call that comes back without a value stops at a closer, at the end, or past it. */
  predicate ThrowAgrees(s: string, i: nat, open: seq<char>, r: Outcome) {
    match r
    case Hang => !Throws(s, i, open)
    case OutOfRange => Throws(s, i, open)
    case Ret(v, j) =>
      if v != Err then j <= |s| && (Throws(s, i, open) <==> open != [] && Throws(s, j, open))
      else if j < |s| then Throws(s, i, open) <==> Throws(s, j, open)
      else Throws(s, i, open) <==> |open| >= if j == |s| then 2 else 1
  }

  predicate BracketThrowAgrees(s: string, i: nat, open: seq<char>, closer: char, r: Outcome) {
    match r
    case Hang => !Throws(s, i, open + [closer])
    case OutOfRange => Throws(s, i, open + [closer])
    case Ret(v, j) =>
      if v != Err then j <= |s| && (Throws(s, i, open + [closer]) <==> open != [] && Throws(s, j, open))
      else j == |s| && (Throws(s, i, open + [closer]) <==> open != [])
  }

  lemma {:induction false} ParseThrows(s: string, i: nat, open: seq<char>)
    requires i <= |s|
    ensures ThrowAgrees(s, i, open, ParseAt(s, i))
    decreases |s| - i, 2
  {
    hide ParseListAt, ParseMapAt, ParseStringAt, DigitsEnd;
    if i < |s| && !IsCloser(s[i]) {
      if IsFiller(s[i]) { ParseThrows(s, i + 1, open); }
      else if s[i] == '[' {
        ListThrows(s, i + 1, [], open);
        assert Throws(s, i, open) <==> Throws(s, i + 1, open + [']']);
      } else if s[i] == '{' {
        MapThrows(s, i + 1, Map(map[]), Err, open);
        assert Throws(s, i, open) <==> Throws(s, i + 1, open + ['}']);
      }
    }
  }

  lemma {:induction false} ListThrows(s: string, i: nat, acc: seq<JsonVal>, open: seq<char>)
    requires i <= |s|
    ensures BracketThrowAgrees(s, i, open, ']', ParseListAt(s, i, acc))
    decreases |s| - i, 3
  {
    if i < |s| {
      assert (open + [']'])[..|open|] == open;
      if !IsCloser(s[i]) {
        ParseThrows(s, i, open + [']']);
        var r := ParseAt(s, i);
        if r.Ret? {
          var acc' := if r.v == Err then acc else acc + [r.v];
          assert ParseListAt(s, i, acc) == ParseListAt(s, r.next, acc');
          if r.next <= |s| { ListThrows(s, r.next, acc', open); }
        }
      }
    }
  }

  lemma {:induction false} MapThrows(s: string, i: nat, m: JsonVal, key: JsonVal, open: seq<char>)
    requires i <= |s| && m != Err
    ensures BracketThrowAgrees(s, i, open, '}', ParseMapAt(s, i, m, key))
    decreases |s| - i, 3
  {
    if i < |s| {
      assert (open + ['}'])[..|open|] == open;
      if !IsCloser(s[i]) {
        ParseThrows(s, i, open + ['}']);
        var r := ParseAt(s, i);
        if r.Ret? && r.next <= |s| {
          if key == Err { MapThrows(s, r.next, m, r.v, open); }
          else { MapThrows(s, r.next, Bind(m, key, r.v), Err, open); }
        }
      }
    }
  }

  /** On every text: the parser hangs exactly on a mismatch, throws exactly as the scan says, and
      returns otherwise. */
  lemma ParserOutcomeExactly(s: string)
    ensures Parse(s) == Hang <==> Mismatch(s, 0, [])
    ensures Parse(s) == OutOfRange <==> Throws(s, 0, [])
    ensures Parse(s).Ret? <==> !Mismatch(s, 0, []) && !Throws(s, 0, [])
  {
    HangExactlyOnMismatch(s);
    ParseThrows(s, 0, []);
    var r := ParseAt(s, 0);
    if r.Ret? && r.v == Err && r.next < |s| { ErrThrowsNot(s, 0); }
  }

  lemma {:induction false} ErrThrowsNot(s: string, i: nat)
    requires ParseAt(s, i).Ret? && ParseAt(s, i).v == Err && ParseAt(s, i).next < |s|
    ensures !Throws(s, ParseAt(s, i).next, [])
    decreases |s| - i
  {
    if i < |s| && !IsCloser(s[i]) {
      if IsFiller(s[i]) { ErrThrowsNot(s, i + 1); }
      else if s[i] == '[' { ListThrows(s, i + 1, [], []); }
      else if s[i] == '{' { MapThrows(s, i + 1, Map(map[]), Err, []); }
    }
  }

  // ----- the loops as written, with a step budget -----

  /** The source's loops run literally, `fuel` bounding the nesting of calls and iterations;
      `OutOfFuel` when the budget runs out. */
  datatype Timed = OutOfFuel | Done(outcome: Outcome)

  function RunParse(fuel: nat, s: string, i: nat): Timed {
    if fuel == 0 then OutOfFuel
    else if i >= |s| then Done(Ret(Err, i))
    else if IsCloser(s[i]) then Done(Ret(Err, i))
    else
      var t := if s[i] == '"' then Done(ParseStringAt(s, i + 1, []))
               else if IsDigit(s[i]) then Done(ParseNumAt(s, i))
               else if s[i] == '[' then RunList(fuel - 1, s, i + 1, [])
               else if s[i] == '{' then RunMap(fuel - 1, s, i + 1, Map(map[]), Err)
               else Done(Ret(Err, i));
      if t.Done? && t.outcome.Ret? && t.outcome.v == Err then RunParse(fuel - 1, s, t.outcome.next + 1) else t
  }

  function RunList(fuel: nat, s: string, i: nat, acc: seq<JsonVal>): Timed {
    if fuel == 0 then OutOfFuel
    else if i >= |s| then Done(EndOfText(s, i))
    else if s[i] == ']' then Done(Ret(List(acc), i + 1))
    else
      var t := RunParse(fuel - 1, s, i);
      if t.OutOfFuel? || !t.outcome.Ret? then t
      else RunList(fuel - 1, s, t.outcome.next, if t.outcome.v == Err then acc else acc + [t.outcome.v])
  }

  function RunMap(fuel: nat, s: string, i: nat, m: JsonVal, key: JsonVal): Timed {
    if fuel == 0 then OutOfFuel
    else if i >= |s| then Done(EndOfText(s, i))
    else if s[i] == '}' then Done(Ret(m, i + 1))
    else
      var t := RunParse(fuel - 1, s, i);
      if t.OutOfFuel? || !t.outcome.Ret? then t
      else if key == Err then RunMap(fuel - 1, s, t.outcome.next, m, t.outcome.v)
      else RunMap(fuel - 1, s, t.outcome.next, Bind(m, key, t.outcome.v), Err)
  }

  /** A run that finishes yields what the specification says, and never finishes where the
      specification hangs. */
  predicate RunAgrees(t: Timed, r: Outcome) { t.OutOfFuel? || (t == Done(r) && r != Hang) }

  lemma {:induction false} RunParseAgrees(fuel: nat, s: string, i: nat)
    ensures RunAgrees(RunParse(fuel, s, i), ParseAt(s, i))
    decreases fuel
  {
    if fuel > 0 && i < |s| && !IsCloser(s[i]) {
      if s[i] == '[' {
        RunListAgrees(fuel - 1, s, i + 1, []);
        var r := ParseListAt(s, i + 1, []);
        if r.Ret? && r.v == Err { RunParseAgrees(fuel - 1, s, r.next + 1); }
      } else if s[i] == '{' {
        RunMapAgrees(fuel - 1, s, i + 1, Map(map[]), Err);
        var r := ParseMapAt(s, i + 1, Map(map[]), Err);
        if r.Ret? && r.v == Err { RunParseAgrees(fuel - 1, s, r.next + 1); }
      } else if s[i] == '"' {
        RunParseAgrees(fuel - 1, s, ParseStringAt(s, i + 1, []).next + 1);
      } else if IsFiller(s[i]) {
        RunParseAgrees(fuel - 1, s, i + 1);
      }
    }
  }

  lemma {:induction false} RunListAgrees(fuel: nat, s: string, i: nat, acc: seq<JsonVal>)
    ensures RunAgrees(RunList(fuel, s, i, acc), ParseListAt(s, i, acc))
    decreases fuel
  {
    if fuel > 0 && i < |s| && s[i] != ']' {
      RunParseAgrees(fuel - 1, s, i);
      var r := ParseAt(s, i);
      if r.Ret? { RunListAgrees(fuel - 1, s, r.next, if r.v == Err then acc else acc + [r.v]); }
    }
  }

  lemma {:induction false} RunMapAgrees(fuel: nat, s: string, i: nat, m: JsonVal, key: JsonVal)
    ensures RunAgrees(RunMap(fuel, s, i, m, key), ParseMapAt(s, i, m, key))
    decreases fuel
  {
    if fuel > 0 && i < |s| && s[i] != '}' {
      RunParseAgrees(fuel - 1, s, i);
      var r := ParseAt(s, i);
      if r.Ret? {
        if key == Err { RunMapAgrees(fuel - 1, s, r.next, m, r.v); }
        else { RunMapAgrees(fuel - 1, s, r.next, Bind(m, key, r.v), Err); }
      }
    }
  }

  /** A budget that suffices from position `i` on. */
  function Budget(s: string, i: nat): nat { if i < |s| then 2 * (|s| - i) + 1 else 1 }

  lemma {:induction false} RunParseFinishes(fuel: nat, s: string, i: nat)
    requires ParseAt(s, i) != Hang && fuel >= Budget(s, i)
    ensures RunParse(fuel, s, i).Done?
    decreases |s| - i, 0
  {
    hide RunList, RunMap, ParseListAt, ParseMapAt, ParseStringAt, DigitsEnd, DecValue;
    if i < |s| && !IsCloser(s[i]) {
      if s[i] == '[' {
        RunListFinishes(fuel - 1, s, i + 1, []);
        RunListAgrees(fuel - 1, s, i + 1, []);
        RetryFinishes(fuel, s, i, ParseListAt(s, i + 1, []));
      } else if s[i] == '{' {
        RunMapFinishes(fuel - 1, s, i + 1, Map(map[]), Err);
        RunMapAgrees(fuel - 1, s, i + 1, Map(map[]), Err);
        RetryFinishes(fuel, s, i, ParseMapAt(s, i + 1, Map(map[]), Err));
      } else if s[i] == '"' {
        RetryFinishes(fuel, s, i, ParseStringAt(s, i + 1, []));
      } else if IsFiller(s[i]) {
        RunParseFinishes(fuel - 1, s, i + 1);
      }
    }
  }

  /** After a token without a value the loop of `parse` goes on one character further. */
  lemma {:induction false} RetryFinishes(fuel: nat, s: string, i: nat, r: Outcome)
    requires i < |s| && fuel >= Budget(s, i) && r != Hang
    requires r.Ret? ==> r.next > i && (r.v == Err ==> ParseAt(s, r.next + 1) != Hang)
    ensures r.Ret? && r.v == Err ==> RunParse(fuel - 1, s, r.next + 1).Done?
    decreases |s| - i - 1, 2
  {
    if r.Ret? && r.v == Err { RunParseFinishes(fuel - 1, s, r.next + 1); }
  }

  lemma {:induction false} RunListFinishes(fuel: nat, s: string, i: nat, acc: seq<JsonVal>)
    requires ParseListAt(s, i, acc) != Hang && fuel >= Budget(s, i) + 1
    ensures RunList(fuel, s, i, acc).Done?
    decreases |s| - i, 1
  {
    if i < |s| && s[i] != ']' {
      RunParseFinishes(fuel - 1, s, i);
      RunParseAgrees(fuel - 1, s, i);
      var r := ParseAt(s, i);
      if r.Ret? { RunListFinishes(fuel - 1, s, r.next, if r.v == Err then acc else acc + [r.v]); }
    }
  }

  lemma {:induction false} RunMapFinishes(fuel: nat, s: string, i: nat, m: JsonVal, key: JsonVal)
    requires ParseMapAt(s, i, m, key) != Hang && fuel >= Budget(s, i) + 1
    ensures RunMap(fuel, s, i, m, key).Done?
    decreases |s| - i, 1
  {
    if i < |s| && s[i] != '}' {
      RunParseFinishes(fuel - 1, s, i);
      RunParseAgrees(fuel - 1, s, i);
      var r := ParseAt(s, i);
      if r.Ret? {
        if key == Err { RunMapFinishes(fuel - 1, s, r.next, m, r.v); }
        else { RunMapFinishes(fuel - 1, s, r.next, Bind(m, key, r.v), Err); }
      }
    }
  }

  /** On every text: the loops as written finish exactly when no bracket is closed by the wrong
      closer, and then they yield the specified outcome within a linear budget. */
  lemma ParserTerminatesExactly(s: string)
    ensures Mismatch(s, 0, []) ==> forall fuel :: RunParse(fuel, s, 0) == OutOfFuel
    ensures !Mismatch(s, 0, []) ==> forall fuel | fuel >= 2 * |s| + 1 :: RunParse(fuel, s, 0) == Done(Parse(s))
  {
    HangExactlyOnMismatch(s);
    forall fuel: nat ensures RunAgrees(RunParse(fuel, s, 0), Parse(s)) { RunParseAgrees(fuel, s, 0); }
    if !Mismatch(s, 0, []) {
      forall fuel: nat | fuel >= 2 * |s| + 1 ensures RunParse(fuel, s, 0) == Done(Parse(s)) {
        RunParseFinishes(fuel, s, 0);
      }
    }
  }

  /** `JsonVal::parse(json)`: a caller may rely on it returning once the bracket scan finds no mismatch. */
  method ParseText(json: string) returns (r: Outcome)
    requires !Mismatch(json, 0, [])
    ensures r == Parse(json) && r != Hang
  {
    HangExactlyOnMismatch(json);
    r := ParseValue(json, 0);
  }
}
