/** `JsonVal::operator<`, the comparison `std::map<JsonVal, JsonVal>` relies on. */
module JsonOrder {
  import opened JsonValue

  /** The list and map fields, which are empty in values of other types. */
  function ListOf(v: JsonVal): seq<JsonVal> { if v.List? then v.list else [] }

  function MapOf(v: JsonVal): map<string, JsonVal> { if v.Map? then v.entries else map[] }

  /** The comparison as written, on values whose maps have string keys. */
  predicate Before(a: JsonVal, b: JsonVal) {
    match a
    case Str(s) => b.Str? && Less(s, b.str)
    case Num(n, _) => b.Num? && n < b.num
    case List(xs) => |xs| == |ListOf(b)| && forall i | 0 <= i < |xs| :: !Before(xs[i], ListOf(b)[i])
    case Map(m) => |m| == |MapOf(b)| && forall k | k in m :: k in MapOf(b) && !Before(m[k], MapOf(b)[k])
    case Err => b != Err
    case OddMap => false
  }

  /** Neither value comes before the other: a `std::map` takes the two for the same key. */
  predicate Tied(a: JsonVal, b: JsonVal) { !Before(a, b) && !Before(b, a) }

  predicate IsPlain(v: JsonVal) { v.Str? || v.Num? }

  /** A list or a map none of whose parts is of this kind in turn. */
  predicate SelfPreceding(v: JsonVal) {
    match v
    case List(xs) => forall x | x in xs :: !SelfPreceding(x)
    case Map(m) => forall k | k in m :: !SelfPreceding(m[k])
    case _ => false
  }

  /** Strings among themselves are strictly and totally ordered, and tied only when equal. */
  lemma StringsOrdered(a: string, b: string, c: string)
    ensures !Before(Str(a), Str(a))
    ensures Before(Str(a), Str(b)) && Before(Str(b), Str(c)) ==> Before(Str(a), Str(c))
    ensures Tied(Str(a), Str(b)) <==> a == b
  {
    LessIrreflexive(a);
    LessIrreflexive(b);
    if Less(a, b) && Less(b, c) { LessTransitive(a, b, c); }
    LessTotal(a, b);
  }

  /** Strings compare by their first difference, numbers by value, lists of different lengths never. */
  lemma ComparedBy(a: string, b: string, n: int, m: int, d: string, e: string, xs: seq<JsonVal>, ys: seq<JsonVal>)
    ensures Before(Str(a), Str(b)) <==> exists k :: DiffersAt(a, b, k)
    ensures Before(Num(n, d), Num(m, e)) <==> n < m
    ensures Before(List(xs), List(ys)) <==> |xs| == |ys| && forall i | 0 <= i < |xs| :: !Before(xs[i], ys[i])
  {
    LessByFirstDifference(a, b);
  }

  /** A string key and a number key are always tied, so being tied is not transitive: keys must be of
      one type. */
  lemma MixedKeysTied(a: string, b: string, n: int, digits: string)
    requires Less(a, b)
    ensures Tied(Str(a), Num(n, digits)) && Tied(Num(n, digits), Str(b)) && !Tied(Str(a), Str(b))
  {
  }

  /** Which values come before themselves, which no order allows. */
  lemma {:induction false} ComesBeforeItself(v: JsonVal)
    ensures Before(v, v) <==> SelfPreceding(v)
  {
    match v
    case Str(s) => LessIrreflexive(s);
    case List(xs) => forall x | x in xs ensures Before(x, x) <==> SelfPreceding(x) { ComesBeforeItself(x); }
    case Map(m) => forall k | k in m ensures Before(m[k], m[k]) <==> SelfPreceding(m[k]) { ComesBeforeItself(m[k]); }
    case _ =>
  }

  /** A list of plain values does, so lists cannot be keys. */
  lemma PlainListsPrecedeThemselves(xs: seq<JsonVal>)
    requires forall x | x in xs :: IsPlain(x)
    ensures Before(List(xs), List(xs))
  {
    ComesBeforeItself(List(xs));
  }
}
