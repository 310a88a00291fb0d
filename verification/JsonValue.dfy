/** JSON values of the extension-library API and their printed form (`JsonVal`, `dump`, `operator<`). */
module JsonValue {

  /** Largest value `std::stoi` returns on the platforms the library targets. */
  const INT_MAX := 2147483647

  /** A `JsonVal`. A number keeps both its value and the digits it was written with.
      `OddMap` is a MAP that received a key that is not a string: `operator<` does not order
      such keys, so the contents of the resulting `std::map` are not modelled. */
  datatype JsonVal =
    | Err
    | Str(str: string)
    | Num(num: int, digits: string)
    | List(list: seq<JsonVal>)
    | Map(entries: map<string, JsonVal>)
    | OddMap

  // ----- characters and numbers -----

  predicate IsDigit(c: char) { '0' <= c <= '9' }

  predicate AllDigits(s: string) { forall k | 0 <= k < |s| :: IsDigit(s[k]) }

  predicate IsCloser(c: char) { c == ']' || c == '}' }

  /** Characters that `parse` skips between tokens. */
  predicate IsFiller(c: char) { c != '"' && !IsDigit(c) && c != '[' && c != '{' && !IsCloser(c) }

  predicate AllFiller(s: string) { forall k | 0 <= k < |s| :: IsFiller(s[k]) }

  /** The number a run of decimal digits denotes. */
  function DecValue(s: string): nat
    requires AllDigits(s)
  {
    if s == [] then 0 else 10 * DecValue(s[..|s| - 1]) + (s[|s| - 1] as int - '0' as int)
  }

  /** `std::to_string` on a non-negative integer. */
  function ToDigits(n: nat): (s: string)
    ensures s != [] && AllDigits(s)
    ensures DecValue(s) == n
    ensures if n == 0 then s == "0" else s[0] != '0'
  {
    var last := [(n % 10 + '0' as int) as char];
    if n < 10 then assert last[..0] == []; last
    else
      var s := ToDigits(n / 10) + last;
      assert s[..|s| - 1] == ToDigits(n / 10);
      s
  }

  /** `JsonVal(int)`. */
  function FromInt(n: int): JsonVal {
    Num(n, if n < 0 then "-" + ToDigits(-n) else ToDigits(n))
  }

  // ----- the order of map keys -----

  /** `std::string`'s lexicographic order. */
  predicate Less(a: string, b: string) {
    b != [] && (a == [] || a[0] < b[0] || (a[0] == b[0] && Less(a[1..], b[1..])))
  }

  /** `a` and `b` agree before `k`, and there `a` ends or has the smaller character. */
  predicate DiffersAt(a: string, b: string, k: nat) {
    k < |b| && k <= |a| && a[..k] == b[..k] && (k == |a| || a[k] < b[k])
  }

  /** The first difference decides. */
  lemma {:induction false} LessByFirstDifference(a: string, b: string)
    ensures Less(a, b) <==> exists k :: DiffersAt(a, b, k)
  {
    if Less(a, b) {
      var k := LessDiffers(a, b);
    }
    forall k | DiffersAt(a, b, k) ensures Less(a, b) { DiffersLess(a, b, k); }
  }

  lemma {:induction false} LessDiffers(a: string, b: string) returns (k: nat)
    requires Less(a, b)
    ensures DiffersAt(a, b, k)
  {
    if a == [] || a[0] < b[0] {
      k := 0;
    } else {
      var l := LessDiffers(a[1..], b[1..]);
      k := l + 1;
      assert a[..k] == [a[0]] + a[1..][..l] && b[..k] == [b[0]] + b[1..][..l];
    }
  }

  lemma {:induction false} DiffersLess(a: string, b: string, k: nat)
    requires DiffersAt(a, b, k)
    ensures Less(a, b)
    decreases k
  {
    if k > 0 {
      assert a[0] == a[..k][0] == b[..k][0] == b[0];
      assert a[1..][..k - 1] == a[..k][1..] && b[1..][..k - 1] == b[..k][1..];
      DiffersLess(a[1..], b[1..], k - 1);
    }
  }

  lemma {:induction false} LessIrreflexive(a: string)
    ensures !Less(a, a)
  {
    if a != [] { LessIrreflexive(a[1..]); }
  }

  lemma {:induction false} LessTotal(a: string, b: string)
    ensures Less(a, b) || Less(b, a) || a == b
  {
    if a != [] && b != [] && a[0] == b[0] {
      LessTotal(a[1..], b[1..]);
      if a[1..] == b[1..] {
        assert a == [a[0]] + a[1..] && b == [b[0]] + b[1..];
      }
    }
  }

  lemma {:induction false} LessTransitive(a: string, b: string, c: string)
    requires Less(a, b) && Less(b, c)
    ensures Less(a, c)
  {
    if a != [] && a[0] == b[0] == c[0] { LessTransitive(a[1..], b[1..], c[1..]); }
  }

  predicate IsLeast(k: string, ks: set<string>) {
    k in ks && forall x | x in ks :: x == k || Less(k, x)
  }

  lemma {:induction false} LeastExists(ks: set<string>) returns (k: string)
    requires ks != {}
    ensures IsLeast(k, ks)
  {
    var x :| x in ks;
    if ks == {x} {
      k := x;
    } else {
      var rest := ks - {x};
      assert ks == rest + {x};
      var l := LeastExists(rest);
      LessTotal(x, l);
      if Less(x, l) {
        k := x;
        forall y | y in ks ensures y == k || Less(k, y) {
          if y != x && y != l { LessTransitive(x, l, y); }
        }
      } else {
        k := l;
      }
    }
  }

  lemma LeastUnique(ks: set<string>)
    ensures forall a, b | IsLeast(a, ks) && IsLeast(b, ks) :: a == b
  {
    forall a, b | IsLeast(a, ks) && IsLeast(b, ks) ensures a == b {
      if a != b { LessTransitive(a, b, a); LessIrreflexive(a); }
    }
  }

  predicate SortedStrictly(keys: seq<string>) {
    forall i, j | 0 <= i < j < |keys| :: Less(keys[i], keys[j])
  }

  /** The keys in the order a `std::map` iterates over them. */
  function SortedKeys(ks: set<string>): (keys: seq<string>)
    ensures SortedStrictly(keys)
    ensures forall x :: x in keys <==> x in ks
  {
    if ks == {} then [] else
      LeastUnique(ks);
      assert exists k :: IsLeast(k, ks) by { var k := LeastExists(ks); }
      var k :| IsLeast(k, ks);
      [k] + SortedKeys(ks - {k})
  }

  // ----- printing -----

  function Quoted(s: string): string { "\"" + s + "\"" }

  function Dump(v: JsonVal): string
    decreases v, 1, 0
  {
    match v
    case Err => "json(Error)"
    case Str(s) => Quoted(s)
    case Num(_, digits) => digits
    case List(xs) => "[" + DumpList(xs) + "]"
    case Map(m) => "{" + DumpEntries(v, SortedKeys(m.Keys)) + "}"
    case OddMap => "{}"
  }

  function DumpList(xs: seq<JsonVal>): string
    decreases xs, 0, 0
  {
    if xs == [] then ""
    else Dump(xs[0]) + (if |xs| > 1 then "," else "") + DumpList(xs[1..])
  }

  function DumpEntries(v: JsonVal, keys: seq<string>): string
    requires v.Map? && forall k | k in keys :: k in v.entries
    decreases v, 0, |keys|
  {
    if keys == [] then ""
    else Quoted(keys[0]) + " : " + Dump(v.entries[keys[0]])
         + (if |keys| > 1 then "," else "") + DumpEntries(v, keys[1..])
  }
}
