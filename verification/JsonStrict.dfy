/** What `JsonVal::dump` prints, character for character: not every text the parser accepts, but
    the one notation without anything between tokens except the separators. */
module JsonStrict {
  import opened JsonValue

  // ----- the notation -----

  /** `t` is `n` in decimal notation, without leading zeros. */
  predicate IsDecimal(t: string, n: int) {
    if n < 0 then t != [] && t[0] == '-' && IsNatural(t[1..], -n) else IsNatural(t, n)
  }

  predicate IsNatural(t: string, n: nat) {
    t != [] && AllDigits(t) && DecValue(t) == n && (if n == 0 then t == "0" else t[0] != '0')
  }

  /** `t` is the parts one after the other with exactly one comma between neighbours. */
  predicate CommaSeparated(t: string, parts: seq<string>) {
    if |parts| == 0 then t == ""
    else if |parts| == 1 then t == parts[0]
    else
      && |parts[0]| + 1 <= |t| && t[..|parts[0]|] == parts[0] && t[|parts[0]|] == ','
      && CommaSeparated(t[|parts[0]| + 1..], parts[1..])
  }

  predicate IsQuoted(t: string, s: string) { |t| == |s| + 2 && t[0] == '"' && t[1..|t| - 1] == s && t[|t| - 1] == '"' }

  /** `t` is a quoted key, a blank, a colon, a blank, and `x`. */
  predicate IsPair(t: string, key: string, x: string) {
    var k := |key| + 2;
    |t| == k + 3 + |x| && IsQuoted(t[..k], key) && t[k..k + 3] == [' ', ':', ' '] && t[k + 3..] == x
  }

  /** `t` is `inside` within the given brackets. */
  predicate Enclosed(t: string, open: char, inside: string, close: char) {
    |t| == |inside| + 2 && t[0] == open && t[1..|t| - 1] == inside && t[|t| - 1] == close
  }

  /** `keys` lists the keys of `m` in ascending order. */
  ghost predicate ListsKeys(keys: seq<string>, m: map<string, JsonVal>) {
    SortedStrictly(keys) && forall k :: k in keys <==> k in m
  }

  /** `t` is `v` in strict notation. The text of an unordered map is not modelled. */
  ghost predicate Strict(v: JsonVal, t: string)
    decreases v, 2
  {
    match v
    case Err => t == "json(Error)"
    case Str(s) => IsQuoted(t, s)
    case Num(_, digits) => t == digits
    case List(xs) => exists parts, inside ::
      StrictItems(xs, parts) && CommaSeparated(inside, parts) && Enclosed(t, '[', inside, ']')
    case Map(m) => exists keys, parts, inside ::
      ListsKeys(keys, m) && StrictPairs(v, keys, parts) && CommaSeparated(inside, parts) && Enclosed(t, '{', inside, '}')
    case OddMap => true
  }

  ghost predicate StrictItems(xs: seq<JsonVal>, parts: seq<string>)
    decreases xs, 0
  {
    |parts| == |xs| && forall i | 0 <= i < |xs| :: Strict(xs[i], parts[i])
  }

  ghost predicate StrictPairs(v: JsonVal, keys: seq<string>, parts: seq<string>)
    requires v.Map?
    decreases v, 1
  {
    && |parts| == |keys|
    && forall i | 0 <= i < |keys| :: keys[i] in v.entries && StrictPair(v, keys[i], parts[i])
  }

  ghost predicate StrictPair(v: JsonVal, key: string, t: string)
    requires v.Map? && key in v.entries
    decreases v, 0
  {
    exists x :: Strict(v.entries[key], x) && IsPair(t, key, x)
  }

  // ----- what is printed is in this notation -----

  /** The text of an `int` value. */
  lemma IntText(n: int)
    ensures FromInt(n).Num? && FromInt(n).num == n && IsDecimal(FromInt(n).digits, n)
  {
    if n < 0 { assert FromInt(n).digits[1..] == ToDigits(-n); }
  }

  lemma QuotedText(s: string)
    ensures IsQuoted(Quoted(s), s)
  {
  }

  function Dumps(xs: seq<JsonVal>): seq<string> { seq(|xs|, i requires 0 <= i < |xs| => Dump(xs[i])) }

  lemma JoinStep(x: string, rest: string, parts: seq<string>)
    requires |parts| > 1 && parts[0] == x && CommaSeparated(rest, parts[1..])
    ensures CommaSeparated(x + "," + rest, parts)
  {
    var t := x + "," + rest;
    assert t[..|x|] == x && t[|x|] == ',' && t[|x| + 1..] == rest;
  }

  lemma {:induction false} ListSeparated(xs: seq<JsonVal>)
    ensures CommaSeparated(DumpList(xs), Dumps(xs))
    decreases |xs|
  {
    hide Dump;
    if |xs| == 1 {
      assert DumpList(xs) == Dump(xs[0]) + "" + "" == Dump(xs[0]);
    } else if |xs| > 1 {
      ListSeparated(xs[1..]);
      assert Dumps(xs)[1..] == Dumps(xs[1..]);
      JoinStep(Dump(xs[0]), DumpList(xs[1..]), Dumps(xs));
    }
  }

  function PairText(v: JsonVal, key: string): string
    requires v.Map? && key in v.entries
  {
    Quoted(key) + " : " + Dump(v.entries[key])
  }

  function PairTexts(v: JsonVal, keys: seq<string>): seq<string>
    requires v.Map? && forall k | k in keys :: k in v.entries
  {
    seq(|keys|, i requires 0 <= i < |keys| => PairText(v, keys[i]))
  }

  lemma {:induction false} EntriesSeparated(v: JsonVal, keys: seq<string>)
    requires v.Map? && forall k | k in keys :: k in v.entries
    ensures CommaSeparated(DumpEntries(v, keys), PairTexts(v, keys))
    decreases |keys|
  {
    hide Dump;
    if |keys| == 1 {
      assert DumpEntries(v, keys) == PairText(v, keys[0]) + "" + "" == PairText(v, keys[0]);
    } else if |keys| > 1 {
      EntriesSeparated(v, keys[1..]);
      assert PairTexts(v, keys)[1..] == PairTexts(v, keys[1..]);
      JoinStep(PairText(v, keys[0]), DumpEntries(v, keys[1..]), PairTexts(v, keys));
    }
  }

  lemma PairPrinted(v: JsonVal, key: string)
    requires v.Map? && key in v.entries && Strict(v.entries[key], Dump(v.entries[key]))
    ensures StrictPair(v, key, PairText(v, key))
  {
    hide Dump, Strict;
    var t, k, x := PairText(v, key), |key| + 2, Dump(v.entries[key]);
    QuotedText(key);
    assert t[..k] == Quoted(key) && t[k..k + 3] == " : " && t[k + 3..] == x;
  }

  /** Every value is printed in strict notation. */
  lemma {:induction false} DumpStrict(v: JsonVal)
    ensures Strict(v, Dump(v))
  {
    match v
    case Str(s) => QuotedText(s);
    case List(xs) =>
      forall i | 0 <= i < |xs| ensures Strict(xs[i], Dumps(xs)[i]) { DumpStrict(xs[i]); }
      ListSeparated(xs);
      assert StrictItems(xs, Dumps(xs)) && Enclosed(Dump(v), '[', DumpList(xs), ']');
    case Map(m) =>
      var keys := SortedKeys(m.Keys);
      forall i | 0 <= i < |keys| ensures StrictPair(v, keys[i], PairTexts(v, keys)[i]) {
        DumpStrict(m[keys[i]]);
        PairPrinted(v, keys[i]);
      }
      EntriesSeparated(v, keys);
      assert ListsKeys(keys, m) && StrictPairs(v, keys, PairTexts(v, keys));
      assert Enclosed(Dump(v), '{', DumpEntries(v, keys), '}');
    case _ =>
  }
}
