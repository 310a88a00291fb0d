/** Picking one element out of a printed list of shapes or types (`getShapeAt`, `getDtypeAt`). */
module ShapeStrings {
  import opened JsonGrammar

  datatype Option<T> = None | Some(value: T)

  /** `std::string::find` stored in an `int`: the first occurrence from `from` on, or -1. */
  function Find(s: string, c: char, from: nat): (i: int)
    ensures -1 <= i < |s|
    decreases |s| - from
  {
    if from >= |s| then -1 else if s[from] == c then from else Find(s, c, from + 1)
  }

  /** `std::string::substr`; `None` when it throws. A negative count, as `size_t`, takes everything. */
  function Substr(s: string, pos: int, count: int): Option<string> {
    if pos < 0 || pos > |s| then None
    else if count < 0 || pos + count > |s| then Some(s[pos..])
    else Some(s[pos..pos + count])
  }

  /** Skipping to the `k`-th next occurrence of `c`. */
  function Skip(s: string, c: char, i: int, k: nat): (j: int)
    requires i >= -1
    ensures j >= -1
    decreases k
  {
    if k == 0 then i else Skip(s, c, Find(s, c, i + 1), k - 1)
  }

  lemma {:induction false} FindsFirst(s: string, c: char, from: nat, p: nat)
    requires from <= p < |s| && s[p] == c && forall i | from <= i < p :: s[i] != c
    ensures Find(s, c, from) == p
    decreases p - from
  {
    if from < p { FindsFirst(s, c, from + 1, p); }
  }

  lemma {:induction false} FindsNothing(s: string, c: char, from: nat)
    requires forall i | from <= i < |s| :: s[i] != c
    ensures Find(s, c, from) == -1
    decreases |s| - from
  {
    if from < |s| { FindsNothing(s, c, from + 1); }
  }

  /** Everything from the first element to the closing bracket. */
  function Rest(xs: seq<string>): string
    requires xs != []
  {
    if |xs| == 1 then xs[0] + "]" else xs[0] + ("," + Rest(xs[1..]))
  }

  /** A printed list. */
  function Printed(xs: seq<string>): string
    requires xs != []
  {
    "[" + Rest(xs)
  }

  predicate Avoids(s: string, c: char) { forall i | 0 <= i < |s| :: s[i] != c }

  lemma AtChars(s: string, i: nat, t: string)
    requires At(s, i, t)
    ensures forall k | i <= k < i + |t| :: s[k] == t[k - i]
  {
    forall k | i <= k < i + |t| ensures s[k] == t[k - i] { AtIndex(s, i, t, k - i); }
  }

  // ----- shapes -----

  /** A shape: brackets around text without brackets. */
  predicate IsShape(x: string) {
    && |x| >= 2 && x[0] == '[' && x[|x| - 1] == ']'
    && forall i | 0 < i < |x| - 1 :: x[i] != '[' && x[i] != ']'
  }

  lemma {:induction false} SkipShapes(s: string, i: nat, xs: seq<string>, k: nat)
    requires (forall x | x in xs :: IsShape(x)) && k < |xs| && At(s, i, Rest(xs))
    ensures Skip(s, '[', i, k) >= 0 && At(s, Skip(s, '[', i, k), xs[k])
    decreases k
  {
    hide At;
    assert xs[0] in xs;
    if |xs| == 1 {
      AtSplit(s, i, xs[0], "]");
    } else {
      AtSplit(s, i, xs[0], "," + Rest(xs[1..]));
      if k > 0 {
        var x, j := xs[0], i + |xs[0]| + 1;
        AtSplit(s, j - 1, ",", Rest(xs[1..]));
        assert xs[1] in xs && forall y | y in xs[1..] :: y in xs;
        RestStarts(xs[1..]);
        AtIndex(s, j, Rest(xs[1..]), 0);
        AtIndex(s, j - 1, ",", 0);
        AtInside(s, j, Rest(xs[1..]));
        AtChars(s, i, x);
        assert forall l | i < l < j :: s[l] != '[';
        FindsFirst(s, '[', i + 1, j);
        SkipShapes(s, j, xs[1..], k - 1);
      }
    }
  }

  lemma RestStarts(xs: seq<string>)
    requires xs != [] && xs[0] != []
    ensures Rest(xs) != [] && Rest(xs)[0] == xs[0][0]
  {
  }

  function ShapeAt(s: string, k: nat): Option<string> {
    var idx := Skip(s, '[', 1, k);
    if idx < 0 then None else Substr(s, idx, Find(s, ']', idx) - idx + 1)
  }

  /** `getShapeAt`. */
  method GetShapeAt(shape: string, index: nat) returns (r: Option<string>)
    ensures r == ShapeAt(shape, index)
  {
    var idx: int := 1;
    for x := 0 to index
      invariant idx >= -1 && Skip(shape, '[', 1, index) == Skip(shape, '[', idx, index - x)
    {
      idx := Find(shape, '[', idx + 1);
    }
    if idx < 0 { return None; }
    var stop := Find(shape, ']', idx);
    r := Substr(shape, idx, stop - idx + 1);
  }

  /** In a printed list of shapes, `getShapeAt` finds the shape it is asked for. */
  lemma ShapeAtPrinted(xs: seq<string>, k: nat)
    requires k < |xs| && forall x | x in xs :: IsShape(x)
    ensures ShapeAt(Printed(xs), k) == Some(xs[k])
  {
    hide Rest;
    var s, x := Printed(xs), xs[k];
    assert s[1..1 + |Rest(xs)|] == Rest(xs);
    SkipShapes(s, 1, xs, k);
    var p := Skip(s, '[', 1, k);
    assert x in xs;
    AtChars(s, p, x);
    FindsFirst(s, ']', p, p + |x| - 1);
  }

  lemma {:induction false} SkipTwice(s: string, c: char, i: int, j: nat, k: nat)
    requires i >= -1
    ensures Skip(s, c, Skip(s, c, i, j), k) == Skip(s, c, i, j + k)
    decreases j
  {
    if j > 0 { SkipTwice(s, c, Find(s, c, i + 1), j - 1, k); }
  }

  lemma SkipNext(s: string, c: char, i: int, k: nat)
    requires i >= -1
    ensures Skip(s, c, i, k + 1) == Find(s, c, Skip(s, c, i, k) + 1)
  {
    hide Find;
    SkipTwice(s, c, i, k, 1);
    assert Skip(s, c, Skip(s, c, i, k), 1) == Skip(s, c, Find(s, c, Skip(s, c, i, k) + 1), 0);
  }

  /** Whole rounds of `p` steps from `i` back to `i` make no difference. */
  lemma {:induction false} SkipRounds(s: string, c: char, i: int, p: nat, rounds: nat, k: nat)
    requires i >= -1 && Skip(s, c, i, p) == i
    ensures rounds * p + k >= 0 && Skip(s, c, i, rounds * p + k) == Skip(s, c, i, k)
    decreases rounds
  {
    if rounds > 0 {
      assert rounds * p == p + (rounds - 1) * p;
      SkipRounds(s, c, i, p, rounds - 1, k);
      SkipTwice(s, c, i, p, (rounds - 1) * p + k);
    }
  }

  /** From the last shape there is no further opening bracket: the search gives -1, then starts over
      at the front. */
  lemma SkipPastShapes(xs: seq<string>)
    requires xs != [] && forall x | x in xs :: IsShape(x)
    ensures var s, n := Printed(xs), |xs|;
      Skip(s, '[', 1, n) == -1 && Skip(s, '[', 1, n + 1) == 0 && Skip(s, '[', 1, n + 2) == 1
  {
    hide IsShape, Rest, Skip, Find;
    var s, n := Printed(xs), |xs|;
    assert s[1..1 + |Rest(xs)|] == Rest(xs) && xs[0] in xs;
    LastShape(s, 1, xs);
    FindsNothing(s, '[', Skip(s, '[', 1, n - 1) + 1);
    SkipNext(s, '[', 1, n - 1);
    FindsFirst(s, '[', 0, 0);
    SkipNext(s, '[', 1, n);
    FirstIsOpen(xs);
    FindsFirst(s, '[', 1, 1);
    SkipNext(s, '[', 1, n + 1);
  }

  lemma FirstIsOpen(xs: seq<string>)
    requires xs != [] && IsShape(xs[0])
    ensures Rest(xs) != [] && Rest(xs)[0] == '['
  {
  }

  /** Nothing opens after the last shape. */
  lemma {:induction false} LastShape(s: string, i: nat, xs: seq<string>)
    requires xs != [] && (forall x | x in xs :: IsShape(x)) && At(s, i, Rest(xs)) && i + |Rest(xs)| == |s|
    ensures var p := Skip(s, '[', i, |xs| - 1); p >= i && forall l | p < l < |s| :: s[l] != '['
    decreases |xs|
  {
    hide At;
    assert xs[0] in xs;
    var x, j := xs[0], i + |xs[0]| + 1;
    if |xs| == 1 {
      AtSplit(s, i, x, "]");
      AtChars(s, i, x);
      AtIndex(s, j - 1, "]", 0);
    } else {
      AtSplit(s, i, x, "," + Rest(xs[1..]));
      AtSplit(s, j - 1, ",", Rest(xs[1..]));
      assert xs[1] in xs && forall y | y in xs[1..] :: y in xs;
      RestStarts(xs[1..]);
      AtIndex(s, j, Rest(xs[1..]), 0);
      AtIndex(s, j - 1, ",", 0);
      AtChars(s, i, x);
      assert forall l | i < l < j :: s[l] != '[';
      FindsFirst(s, '[', i + 1, j);
      LastShape(s, j, xs[1..]);
    }
  }

  /** Every index, in or out of range. In a list of n shapes an index counts modulo n + 2: it finds
      its shape below n, throws at n, and at n + 1 takes the first shape with the outer bracket. */
  lemma ShapeAtAny(xs: seq<string>, rounds: nat, k: nat)
    requires xs != [] && (forall x | x in xs :: IsShape(x)) && k < |xs| + 2
    ensures rounds * (|xs| + 2) + k >= 0
    ensures ShapeAt(Printed(xs), rounds * (|xs| + 2) + k) ==
      if k < |xs| then Some(xs[k]) else if k == |xs| then None else Some("[" + xs[0])
  {
    hide Rest, IsShape;
    var s := Printed(xs);
    SkipPastShapes(xs);
    SkipRounds(s, '[', 1, |xs| + 2, rounds, k);
    assert ShapeAt(s, rounds * (|xs| + 2) + k) == ShapeAt(s, k);
    if k < |xs| {
      ShapeAtPrinted(xs, k);
    } else if k > |xs| {
      assert xs[0] in xs;
      var e := |xs[0]|;
      FirstShape(xs);
      FindsFirst(s, ']', 0, e);
      assert s[0..e + 1] == "[" + xs[0];
    }
  }

  lemma FirstShape(xs: seq<string>)
    requires xs != [] && IsShape(xs[0])
    ensures var s, e := Printed(xs), |xs[0]|;
      e < |s| && s[1..e + 1] == xs[0] && s[e] == ']' && forall i | 0 <= i < e :: s[i] != ']'
  {
    var s, x := Printed(xs), xs[0];
    assert forall i | 0 <= i < |x| :: s[i + 1] == x[i];
    forall i | 0 <= i < |x| ensures s[i] != ']' { if i > 0 { assert s[i] == x[i - 1]; } }
  }

  // ----- types -----

  predicate IsType(x: string) { Avoids(x, ',') && Avoids(x, ']') }

  /** `i` is the delimiter before the first of `xs`, which run to the end of `s`. */
  lemma {:induction false} SkipTypes(s: string, i: nat, xs: seq<string>, k: nat) returns (p: nat)
    requires (forall x | x in xs :: IsType(x)) && k < |xs| && At(s, i + 1, Rest(xs)) && |s| == i + 1 + |Rest(xs)|
    ensures Skip(s, ',', i, k) == p && At(s, p + 1, Rest(xs[k..])) && |s| == p + 1 + |Rest(xs[k..])|
    decreases k
  {
    hide At;
    if k == 0 {
      p := i;
      assert xs[0..] == xs;
    } else {
      var x, j := xs[0], i + 1 + |xs[0]|;
      assert x in xs && forall y | y in xs[1..] :: y in xs;
      AtSplit(s, i + 1, x, "," + Rest(xs[1..]));
      AtSplit(s, j, ",", Rest(xs[1..]));
      AtIndex(s, j, ",", 0);
      AtInside(s, j, ",");
      AtChars(s, i + 1, x);
      assert forall l | i < l < j :: s[l] != ',';
      FindsFirst(s, ',', i + 1, j);
      p := SkipTypes(s, j, xs[1..], k - 1);
      assert xs[1..][k - 1..] == xs[k..];
    }
  }

  /** Where the element after delimiter `p` ends. */
  lemma TypeEnds(s: string, p: nat, xs: seq<string>)
    requires xs != [] && IsType(xs[0]) && At(s, p + 1, Rest(xs)) && |s| == p + 1 + |Rest(xs)|
    ensures At(s, p + 1, xs[0])
    ensures var comma := Find(s, ',', p + 1);
      p + 1 + |xs[0]| == if comma == -1 then Find(s, ']', p + 1) else comma
  {
    var x, e := xs[0], p + 1 + |xs[0]|;
    var after := if |xs| == 1 then "]" else "," + Rest(xs[1..]);
    AtSplit(s, p + 1, x, after);
    AtIndex(s, e, after, 0);
    AtChars(s, p + 1, x);
    if |xs| == 1 {
      FindsNothing(s, ',', p + 1);
      FindsFirst(s, ']', p + 1, e);
    } else {
      FindsFirst(s, ',', p + 1, e);
    }
  }

  function DtypeAt(s: string, k: nat): Option<string> {
    TypeAfter(s, Skip(s, ',', 0, k))
  }

  /** The element between delimiter `idx` and the next. */
  function TypeAfter(s: string, idx: int): Option<string>
    requires idx >= -1
  {
    var comma := Find(s, ',', idx + 1);
    Substr(s, idx + 1, (if comma == -1 then Find(s, ']', idx + 1) else comma) - idx - 1)
  }

  /** `getDtypeAt`. */
  method GetDtypeAt(dtype: string, index: nat) returns (r: Option<string>)
    ensures r == DtypeAt(dtype, index)
  {
    var idx: int := 0;
    for x := 0 to index
      invariant idx >= -1 && Skip(dtype, ',', 0, index) == Skip(dtype, ',', idx, index - x)
    {
      idx := Find(dtype, ',', idx + 1);
    }
    var stop := Find(dtype, ',', idx + 1);
    if stop == -1 { stop := Find(dtype, ']', idx + 1); }
    r := Substr(dtype, idx + 1, stop - idx - 1);
  }

  /** In a printed list of types, `getDtypeAt` finds the type it is asked for. */
  lemma DtypeAtPrinted(xs: seq<string>, k: nat)
    requires k < |xs| && forall x | x in xs :: IsType(x)
    ensures DtypeAt(Printed(xs), k) == Some(xs[k])
  {
    hide Rest;
    var s := Printed(xs);
    assert s[1..1 + |Rest(xs)|] == Rest(xs);
    var p := SkipTypes(s, 0, xs, k);
    assert xs[k..][0] == xs[k];
    TypeEnds(s, p, xs[k..]);
  }

  /** From the last type there is no further comma. The outer bracket counts as a first comma. */
  lemma SkipPastTypes(xs: seq<string>)
    requires xs != [] && forall x | x in xs :: IsType(x)
    ensures Skip(Printed(xs), ',', 0, |xs|) == -1
  {
    hide Rest, Skip, Find, IsType;
    var s, n := Printed(xs), |xs|;
    assert s[1..1 + |Rest(xs)|] == Rest(xs);
    var p := SkipTypes(s, 0, xs, n - 1);
    assert xs[n - 1..] == [xs[n - 1]] && xs[n - 1] in xs;
    LastType(s, p, xs[n - 1]);
    FindsNothing(s, ',', p + 1);
    SkipNext(s, ',', 0, n - 1);
  }

  lemma LastType(s: string, p: nat, x: string)
    requires IsType(x) && At(s, p + 1, Rest([x])) && |s| == p + 1 + |Rest([x])|
    ensures forall l | p < l < |s| :: s[l] != ','
  {
    assert Rest([x]) == x + "]";
    AtChars(s, p + 1, Rest([x]));
  }

  /** The search from -1 finds what the search from 0 finds. */
  lemma SkipFromFront(s: string, k: nat)
    requires s != [] && s[0] != ',' && k > 0
    ensures Skip(s, ',', -1, k) == Skip(s, ',', 0, k)
  {
  }

  /** Every index, in or out of range. After the first, an index counts modulo the length n of the
      list, and where the first type is due it comes with the outer bracket. */
  lemma DtypeAtAny(xs: seq<string>, rounds: nat, k: nat)
    requires xs != [] && (forall x | x in xs :: IsType(x)) && k < |xs|
    ensures rounds * |xs| + k >= 0
    ensures DtypeAt(Printed(xs), rounds * |xs| + (k + 1)) == Some(if k + 1 < |xs| then xs[k + 1] else "[" + xs[0])
  {
    hide Rest, IsType, Skip, Find, TypeAfter;
    var s, n := Printed(xs), |xs|;
    SkipPastTypes(xs);
    SkipFromFront(s, n);
    SkipRounds(s, ',', -1, n, rounds, k + 1);
    SkipFromFront(s, k + 1);
    assert rounds * n >= 0;
    SkipFromFront(s, rounds * n + (k + 1));
    assert DtypeAt(s, rounds * n + (k + 1)) == DtypeAt(s, k + 1);
    if k + 1 < n { DtypeAtPrinted(xs, k + 1); } else { BracketedType(xs); assert DtypeAt(s, n) == TypeAfter(s, -1); }
  }

  lemma BracketedType(xs: seq<string>)
    requires xs != [] && forall x | x in xs :: IsType(x)
    ensures TypeAfter(Printed(xs), -1) == Some("[" + xs[0])
  {
    hide Rest, Find;
    var s, e := Printed(xs), |xs[0]| + 1;
    assert s[1..1 + |Rest(xs)|] == Rest(xs) && xs[0] in xs;
    TypeEnds(s, 0, xs);
    FindFromFront(s, ',');
    FindFromFront(s, ']');
    AtInside(s, 1, xs[0]);
    assert s[0..e] == [s[0]] + s[1..e];
  }

  lemma FindFromFront(s: string, c: char)
    requires s != [] && s[0] != c
    ensures Find(s, c, 0) == Find(s, c, 1)
  {
  }
}
