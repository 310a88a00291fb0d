/** The `.lst` file format: `write_list` and `read_list`. */
module ListFile {
  import opened JsonValue
  import opened JsonStrict
  import opened Im2recPipeline

  // ----- numbers as text -----

  const MICRO: nat := 1000000

  /** `'%d' % n`. */
  function FormatInt(n: int): string { if n < 0 then "-" + ToDigits(-n) else ToDigits(n) }

  /** The nearest integer, ties to the even one. */
  function RoundHalfEven(x: real): nat
    requires x >= 0.0
  {
    var f := x.Floor;
    var d := x - f as real;
    if d < 0.5 || (d == 0.5 && f % 2 == 0) then f else f + 1
  }

  function Abs(r: real): real { if r < 0.0 then -r else r }

  /** Magnitude in millionths. */
  function Millionths(r: real): nat { RoundHalfEven(Abs(r) * 1000000.0) }

  /** `r` rounded to six decimals. */
  function Rounded(r: real): real {
    var m := Millionths(r) as real / 1000000.0;
    if r < 0.0 then -m else m
  }

  /** `w` digits with leading zeros. */
  function Pad(n: nat, w: nat): (s: string)
    ensures |s| == w && AllDigits(s)
    decreases w
  {
    if w == 0 then [] else Pad(n / 10, w - 1) + [(n % 10 + '0' as int) as char]
  }

  /** `'%f' % r`. */
  function FormatFloat(r: real): string { (if r < 0.0 then "-" else "") + Decimal(Millionths(r)) }

  /** `m` millionths in decimal notation. */
  function Decimal(m: nat): string { ToDigits(m / MICRO) + ("." + Pad(m % MICRO, 6)) }

  function Negative(s: string): bool { s != [] && s[0] == '-' }

  function Unsigned(s: string): string { if s != [] && (s[0] == '-' || s[0] == '+') then s[1..] else s }

  /** `int(s)` on plain decimal notation; `None` where it raises. */
  function ReadInt(s: string): Option<int> {
    var d := Unsigned(s);
    if d == [] || !AllDigits(d) then None
    else
      var n: int := DecValue(d);
      Some(if Negative(s) then -n else n)
  }

  /** The position of the first decimal point, or the length. */
  function Point(s: string): (p: nat)
    ensures p <= |s|
  {
    if s == [] || s[0] == '.' then 0 else 1 + Point(s[1..])
  }

  function Pow10(k: nat): (p: nat)
    ensures p > 0
  {
    if k == 0 then 1 else 10 * Pow10(k - 1)
  }

  /** `float(s)` on plain decimal notation; `None` where it raises. */
  function ReadFloat(s: string): Option<real> {
    var d := Unsigned(s);
    var p := Point(d);
    var whole, part := d[..p], if p < |d| then d[p + 1..] else [];
    if whole + part == [] || !AllDigits(whole + part) then None
    else
      var x := DecValue(whole + part) as real / Pow10(|part|) as real;
      Some(if Negative(s) then -x else x)
  }

  lemma IntReadsBack(n: int)
    ensures ReadInt(FormatInt(n)) == Some(n)
  {
    hide ToDigits, DecValue;
    if n < 0 { assert FormatInt(n)[1..] == ToDigits(-n); }
  }

  lemma {:induction false} PadValue(a: string, n: nat, w: nat)
    requires AllDigits(a) && n < Pow10(w)
    ensures AllDigits(a + Pad(n, w)) && DecValue(a + Pad(n, w)) == DecValue(a) * Pow10(w) + n
    decreases w
  {
    if w == 0 {
      assert a + Pad(n, w) == a;
    } else {
      PadValue(a, n / 10, w - 1);
      var s := a + Pad(n, w);
      assert s[..|s| - 1] == a + Pad(n / 10, w - 1) && s[|s| - 1] == (n % 10 + '0' as int) as char;
      PadArithmetic(DecValue(a), Pow10(w - 1), n);
    }
  }

  lemma PadArithmetic(x: nat, p: nat, n: nat)
    ensures 10 * (x * p + n / 10) + n % 10 == x * (10 * p) + n
  {
    assert x * (10 * p) == 10 * (x * p);
  }

  lemma {:induction false} PointAfterDigits(a: string, b: string)
    requires AllDigits(a)
    ensures Point(a + ("." + b)) == |a|
  {
    if a != [] {
      assert (a + ("." + b))[1..] == a[1..] + ("." + b);
      PointAfterDigits(a[1..], b);
    } else {
      assert a + ("." + b) == "." + b;
    }
  }

  lemma Pow10Six()
    ensures Pow10(6) == MICRO
  {
    assert Pow10(3) == 1000;
  }

  /** Reading decimal notation without a sign. */
  lemma DecimalReadsBack(m: nat)
    ensures var d := Decimal(m); var p := Point(d);
      && p < |d| && |d[p + 1..]| == 6 && d[..p] + d[p + 1..] != []
      && AllDigits(d[..p] + d[p + 1..]) && DecValue(d[..p] + d[p + 1..]) == m
  {
    hide ToDigits, Pad, DecValue, Point, Pow10;
    var a, b := ToDigits(m / MICRO), Pad(m % MICRO, 6);
    var d := a + ("." + b);
    PointAfterDigits(a, b);
    assert d[..|a|] == a && d[|a| + 1..] == b;
    Pow10Six();
    PadValue(a, m % MICRO, 6);
  }

  lemma SignOfFormat(r: real)
    ensures Unsigned(FormatFloat(r)) == Decimal(Millionths(r)) && (Negative(FormatFloat(r)) <==> r < 0.0)
  {
    var d := Decimal(Millionths(r));
    assert d[0] == ToDigits(Millionths(r) / MICRO)[0];
    if r < 0.0 { assert FormatFloat(r)[1..] == d; } else { assert FormatFloat(r) == d; }
  }

  /** Reading what was written gives the value rounded to six decimals. */
  lemma FloatReadsBack(r: real)
    ensures ReadFloat(FormatFloat(r)) == Some(Rounded(r))
  {
    hide Decimal, Millionths, FormatFloat, Unsigned, Negative, Point, DecValue, AllDigits, Pow10;
    SignOfFormat(r);
    DecimalReadsBack(Millionths(r));
    Pow10Six();
  }

  // ----- writing -----

  function FloatFields(labels: seq<real>): seq<string> {
    seq(|labels|, j requires 0 <= j < |labels| => FormatFloat(labels[j]))
  }

  function Fields(item: Item): seq<string> { [FormatInt(item.id)] + FloatFields(item.labels) + [item.path] }

  function Joined(fields: seq<string>): string
    requires fields != []
  {
    if |fields| == 1 then fields[0] else fields[0] + ("\t" + Joined(fields[1..]))
  }

  function Line(item: Item): string { Joined(Fields(item)) + "\n" }

  function Text(items: seq<Item>): string {
    if items == [] then "" else Line(items[0]) + Text(items[1..])
  }

  // ----- reading -----

  /** The characters `str.strip` removes, of those below 128. */
  predicate IsSpace(c: char) { c == ' ' || '\t' <= c <= '\r' || '\U{1C}' <= c <= '\U{1F}' }

  function StripLeft(s: string): string { if s != [] && IsSpace(s[0]) then StripLeft(s[1..]) else s }

  function StripRight(s: string): string {
    if s != [] && IsSpace(s[|s| - 1]) then StripRight(s[..|s| - 1]) else s
  }

  function Strip(s: string): string { StripRight(StripLeft(s)) }

  /** `s.split('\t')`. */
  function Split(s: string): (fs: seq<string>)
    ensures fs != []
  {
    if s == [] then [""]
    else
      var fs := Split(s[1..]);
      if s[0] == '\t' then [""] + fs else [[s[0]] + fs[0]] + fs[1..]
  }

  /** The lines of a text, each with its line break. */
  function Lines(s: string): seq<string> {
    if s == [] then []
    else
      var ls := Lines(s[1..]);
      if s[0] == '\n' then ["\n"] + ls
      else if ls == [] then [[s[0]]]
      else [[s[0]] + ls[0]] + ls[1..]
  }

  function ReadFloats(fs: seq<string>): Option<seq<real>> {
    if fs == [] then Some([])
    else
      var x, rest := ReadFloat(fs[0]), ReadFloats(fs[1..]);
      if x.None? || rest.None? then None else Some([x.value] + rest.value)
  }

  /** One line: skipped (`None`) with fewer than three fields or an unreadable number. */
  function ReadLine(line: string): Option<Item> {
    var raw := Split(Strip(line));
    var fs := seq(|raw|, k requires 0 <= k < |raw| => Strip(raw[k]));
    if |fs| < 3 then None
    else
      var id, labels := ReadInt(fs[0]), ReadFloats(fs[1..|fs| - 1]);
      if id.None? || labels.None? then None else Some(Item(id.value, fs[|fs| - 1], labels.value))
  }

  function ReadLines(lines: seq<string>): seq<Item> {
    if lines == [] then []
    else
      var item := ReadLine(lines[0]);
      (if item.Some? then [item.value] else []) + ReadLines(lines[1..])
  }

  // ----- lines and fields -----

  /** A field that survives splitting and stripping: not empty, no tab or line break, no space at
      either end. */
  predicate FieldOk(f: string) {
    && f != [] && !IsSpace(f[0]) && !IsSpace(f[|f| - 1])
    && forall i | 0 <= i < |f| :: f[i] != '\t' && f[i] != '\n' && f[i] != '\r'
  }

  predicate NumberChar(c: char) { IsDigit(c) || c == '-' || c == '.' }

  lemma NumberFieldOk(f: string)
    requires f != [] && forall i | 0 <= i < |f| :: NumberChar(f[i])
    ensures FieldOk(f)
  {
    assert NumberChar(f[0]) && NumberChar(f[|f| - 1]);
  }

  lemma IntFieldOk(n: int)
    ensures FieldOk(FormatInt(n))
  {
    NumberFieldOk(FormatInt(n));
  }

  lemma FloatFieldOk(r: real)
    ensures FieldOk(FormatFloat(r))
  {
    hide Millionths, FieldOk;
    var m := Millionths(r);
    var a, b := ToDigits(m / MICRO), Pad(m % MICRO, 6);
    forall i | 0 <= i < |Decimal(m)| ensures NumberChar(Decimal(m)[i]) {
      if i > |a| { assert Decimal(m)[i] == b[i - |a| - 1]; }
    }
    NumberFieldOk(FormatFloat(r));
  }

  lemma FieldsOk(item: Item, k: nat)
    requires FieldOk(item.path) && k < |Fields(item)|
    ensures FieldOk(Fields(item)[k])
  {
    hide FieldOk, FormatInt, FormatFloat;
    if k == 0 {
      IntFieldOk(item.id);
    } else if k < |item.labels| + 1 {
      FloatFieldOk(item.labels[k - 1]);
    }
  }

  predicate AllFieldsOk(fs: seq<string>) { forall k | 0 <= k < |fs| :: FieldOk(fs[k]) }

  lemma {:induction false} SplitField(f: string, rest: string)
    requires forall i | 0 <= i < |f| :: f[i] != '\t'
    ensures Split(f + ("\t" + rest)) == [f] + Split(rest)
    decreases |f|
  {
    var s := f + ("\t" + rest);
    if f == [] {
      assert s == "\t" + rest && s[1..] == rest;
    } else {
      assert s[1..] == f[1..] + ("\t" + rest) && s[0] == f[0];
      SplitField(f[1..], rest);
      assert [f[0]] + f[1..] == f;
      assert ([f[1..]] + Split(rest))[1..] == Split(rest);
    }
  }

  lemma {:induction false} SplitLast(f: string)
    requires forall i | 0 <= i < |f| :: f[i] != '\t'
    ensures Split(f) == [f]
    decreases |f|
  {
    if f != [] {
      SplitLast(f[1..]);
      assert [f[0]] + f[1..] == f;
    }
  }

  predicate NoTab(f: string) { forall i | 0 <= i < |f| :: f[i] != '\t' }

  lemma {:induction false} SplitJoined(fs: seq<string>)
    requires fs != [] && forall k | 0 <= k < |fs| :: NoTab(fs[k])
    ensures Split(Joined(fs)) == fs
    decreases |fs|
  {
    if |fs| == 1 {
      SplitLast(fs[0]);
    } else {
      SplitJoined(fs[1..]);
      SplitField(fs[0], Joined(fs[1..]));
      assert fs == [fs[0]] + fs[1..];
    }
  }

  lemma {:induction false} JoinedEnds(fs: seq<string>)
    requires fs != [] && AllFieldsOk(fs)
    ensures var j := Joined(fs); j != [] && !IsSpace(j[0]) && !IsSpace(j[|j| - 1]) && forall i | 0 <= i < |j| :: j[i] != '\n'
    decreases |fs|
  {
    if |fs| > 1 {
      JoinedEnds(fs[1..]);
      var j, rest := Joined(fs), Joined(fs[1..]);
      assert j == fs[0] + ("\t" + rest);
      assert j[0] == fs[0][0] && j[|j| - 1] == rest[|rest| - 1];
      forall i | 0 <= i < |j| ensures j[i] != '\n' {
        if i > |fs[0]| { assert j[i] == rest[i - |fs[0]| - 1]; }
      }
    }
  }

  /** Fields written on a line come back one by one. */
  lemma LineSplits(fs: seq<string>)
    requires fs != [] && AllFieldsOk(fs)
    ensures Split(Strip(Joined(fs) + "\n")) == fs
    ensures seq(|fs|, k requires 0 <= k < |fs| => Strip(fs[k])) == fs
  {
    hide Joined, Split, StripLeft, StripRight, IsSpace;
    JoinedEnds(fs);
    SplitJoined(fs);
    StripNewline(Joined(fs));
    forall k | 0 <= k < |fs| ensures Strip(fs[k]) == fs[k] { StripField(fs[k]); }
  }

  lemma StripNewline(j: string)
    requires j != [] && !IsSpace(j[0]) && !IsSpace(j[|j| - 1])
    ensures Strip(j + "\n") == j
  {
    var line := j + "\n";
    assert line[0] == j[0] && line[..|line| - 1] == j;
    assert StripRight(line) == StripRight(j);
  }

  lemma StripField(f: string)
    requires FieldOk(f)
    ensures Strip(f) == f
  {
  }

  lemma {:induction false} FloatsReadBack(labels: seq<real>)
    ensures ReadFloats(FloatFields(labels)) == Some(RoundedAll(labels))
    decreases |labels|
  {
    hide FormatFloat, ReadFloat, Rounded;
    if labels == [] {
      assert FloatFields(labels) == [] && RoundedAll(labels) == [];
    } else {
      FloatReadsBack(labels[0]);
      FloatsReadBack(labels[1..]);
      assert FloatFields(labels)[1..] == FloatFields(labels[1..]);
      assert RoundedAll(labels) == [Rounded(labels[0])] + RoundedAll(labels[1..]);
    }
  }

  function RoundedAll(labels: seq<real>): seq<real> {
    seq(|labels|, j requires 0 <= j < |labels| => Rounded(labels[j]))
  }

  lemma LineReadsBack(item: Item)
    requires FieldOk(item.path)
    ensures ReadLine(Line(item)) == if item.labels == [] then None else Some(item.(labels := RoundedAll(item.labels)))
  {
    hide FieldOk, FormatInt, FormatFloat, Joined, Strip, ReadInt, Rounded;
    var fs := Fields(item);
    forall k | 0 <= k < |fs| ensures FieldOk(fs[k]) { FieldsOk(item, k); }
    LineSplits(fs);
    IntReadsBack(item.id);
    FloatsReadBack(item.labels);
    assert fs[1..|fs| - 1] == FloatFields(item.labels);
  }

  lemma {:induction false} LinesOf(body: string, rest: string)
    requires forall i | 0 <= i < |body| :: body[i] != '\n'
    ensures Lines(body + "\n" + rest) == [body + "\n"] + Lines(rest)
    decreases |body|
  {
    var s := body + "\n" + rest;
    if body == [] {
      assert s[1..] == rest && s[0] == '\n' && body + "\n" == "\n";
    } else {
      assert s[1..] == body[1..] + "\n" + rest && s[0] == body[0];
      LinesOf(body[1..], rest);
      assert [body[0]] + (body[1..] + "\n") == body + "\n";
      assert ([body[1..] + "\n"] + Lines(rest))[1..] == Lines(rest);
    }
  }

  // ----- the round trip -----

  /** What survives writing and reading: items with a label, labels rounded to six decimals. */
  function Surviving(items: seq<Item>): seq<Item> {
    if items == [] then []
    else (if items[0].labels == [] then [] else [items[0].(labels := RoundedAll(items[0].labels))]) + Surviving(items[1..])
  }

  /** Reading a written list returns the items that have a label, in order. */
  lemma {:induction false} ReadUndoesWrite(items: seq<Item>)
    requires forall i | 0 <= i < |items| :: FieldOk(items[i].path)
    ensures ReadLines(Lines(Text(items))) == Surviving(items)
    decreases |items|
  {
    hide FieldOk, ReadLine, Joined, FormatInt, FormatFloat;
    if items != [] {
      ReadUndoesWrite(items[1..]);
      LineReadsBack(items[0]);
      NoInnerBreak(items[0]);
      LinesOf(Joined(Fields(items[0])), Text(items[1..]));
      var ls := Lines(Text(items));
      assert ls[0] == Line(items[0]) && ls[1..] == Lines(Text(items[1..]));
    }
  }

  lemma NoInnerBreak(item: Item)
    requires FieldOk(item.path)
    ensures forall i | 0 <= i < |Joined(Fields(item))| :: Joined(Fields(item))[i] != '\n'
  {
    var fs := Fields(item);
    forall k | 0 <= k < |fs| ensures FieldOk(fs[k]) { FieldsOk(item, k); }
    JoinedEnds(fs);
  }

  /** `r` is a whole number of millionths. */
  predicate SixDecimals(r: real) { Whole(r * 1000000.0) }

  predicate Whole(x: real) { x.Floor as real == x }

  lemma RoundWhole(x: real)
    requires x >= 0.0
    ensures RoundHalfEven(x) as real == x <==> Whole(x)
  {
  }

  lemma WholeNegated(x: real)
    ensures Whole(-x) <==> Whole(x)
  {
    if Whole(x) { assert -x == (-x.Floor) as real; }
    if Whole(-x) { assert x == (-(-x).Floor) as real; }
  }

  lemma RoundedExactly(r: real)
    ensures Rounded(r) == r <==> SixDecimals(r)
  {
    hide RoundHalfEven;
    var y := r * 1000000.0;
    var x := if r < 0.0 then -y else y;
    assert Abs(r) * 1000000.0 == x;
    RoundWhole(x);
    assert Rounded(r) == r <==> RoundHalfEven(x) as real == x;
    WholeNegated(y);
  }

  lemma RoundedAllExactly(labels: seq<real>)
    ensures RoundedAll(labels) == labels <==> forall j | 0 <= j < |labels| :: SixDecimals(labels[j])
  {
    forall j | 0 <= j < |labels| ensures RoundedAll(labels)[j] == labels[j] <==> SixDecimals(labels[j]) {
      RoundedExactly(labels[j]);
    }
  }

  /** The item has a label, and all its labels are exact to six decimals. */
  predicate Exact(item: Item) { item.labels != [] && forall j | 0 <= j < |item.labels| :: SixDecimals(item.labels[j]) }

  /** The list comes back unchanged exactly when every item has a label and all labels are exact to
      six decimals. */
  lemma {:induction false} SurvivingExactly(items: seq<Item>)
    ensures |Surviving(items)| <= |items|
    ensures Surviving(items) == items <==> forall i | 0 <= i < |items| :: Exact(items[i])
    decreases |items|
  {
    hide RoundedAll, SixDecimals;
    if items != [] {
      SurvivingExactly(items[1..]);
      RoundedAllExactly(items[0].labels);
      var s := Surviving(items[1..]);
      assert items == [items[0]] + items[1..];
      if items[0].labels != [] {
        var first := items[0].(labels := RoundedAll(items[0].labels));
        assert Surviving(items)[1..] == s && Surviving(items)[0] == first;
      }
      var tail := items[1..];
      assert forall i | 0 < i < |items| :: items[i] == tail[i - 1];
      assert forall i | 0 <= i < |tail| :: tail[i] == items[i + 1];
    }
  }

  // ----- blanks around fields -----

  predicate AllBlank(s: string) { forall i | 0 <= i < |s| :: s[i] == ' ' }

  lemma {:induction false} StripLeftBlanks(a: string, t: string)
    requires AllBlank(a) && t != [] && !IsSpace(t[0])
    ensures StripLeft(a + t) == t
    decreases |a|
  {
    if a == [] {
      assert a + t == t;
    } else {
      assert (a + t)[1..] == a[1..] + t;
      StripLeftBlanks(a[1..], t);
    }
  }

  lemma {:induction false} StripRightBlanks(t: string, b: string)
    requires AllBlank(b) && t != [] && !IsSpace(t[|t| - 1])
    ensures StripRight(t + b) == t
    decreases |b|
  {
    if b == [] {
      assert t + b == t;
    } else {
      assert (t + b)[..|t + b| - 1] == t + b[..|b| - 1];
      StripRightBlanks(t, b[..|b| - 1]);
    }
  }

  lemma StripBlanks(a: string, f: string, b: string)
    requires AllBlank(a) && AllBlank(b) && f != [] && !IsSpace(f[0]) && !IsSpace(f[|f| - 1])
    ensures Strip(a + f + b) == f
  {
    assert a + f + b == a + (f + b);
    StripLeftBlanks(a, f + b);
    StripRightBlanks(f, b);
  }

  /** Field `k` with blanks before and after it. */
  function Padded(fs: seq<string>, pads: seq<(string, string)>): seq<string>
    requires |pads| == |fs|
  {
    seq(|fs|, k requires 0 <= k < |fs| => pads[k].0 + fs[k] + pads[k].1)
  }

  /** The same line without the blanks at its two ends. */
  function Trimmed(fs: seq<string>, pads: seq<(string, string)>): seq<string>
    requires |pads| == |fs| > 1
  {
    Padded(fs, pads[0 := ("", pads[0].1)][|pads| - 1 := (pads[|pads| - 1].0, "")])
  }

  lemma {:induction false} JoinedLast(fs: seq<string>, b: string)
    requires fs != []
    ensures Joined(fs[|fs| - 1 := fs[|fs| - 1] + b]) == Joined(fs) + b
    decreases |fs|
  {
    if |fs| > 1 {
      var l := |fs| - 1;
      assert fs[l := fs[l] + b][1..] == fs[1..][l - 1 := fs[1..][l - 1] + b];
      JoinedLast(fs[1..], b);
      assert fs[0] + ("\t" + (Joined(fs[1..]) + b)) == fs[0] + ("\t" + Joined(fs[1..])) + b;
    }
  }

  lemma JoinedFirst(fs: seq<string>, a: string)
    requires |fs| > 1
    ensures Joined(fs[0 := a + fs[0]]) == a + Joined(fs)
  {
    assert fs[0 := a + fs[0]][1..] == fs[1..];
    assert (a + fs[0]) + ("\t" + Joined(fs[1..])) == a + (fs[0] + ("\t" + Joined(fs[1..])));
  }

  lemma JoinedPadded(fs: seq<string>, pads: seq<(string, string)>)
    requires |pads| == |fs| > 1
    ensures Joined(Padded(fs, pads)) == pads[0].0 + Joined(Trimmed(fs, pads)) + pads[|pads| - 1].1
  {
    var l, t := |fs| - 1, Trimmed(fs, pads);
    var t1 := t[0 := pads[0].0 + t[0]];
    JoinedFirst(t, pads[0].0);
    JoinedLast(t1, pads[l].1);
    assert t[0] == "" + fs[0] + pads[0].1 == fs[0] + pads[0].1;
    assert t[l] == pads[l].0 + fs[l] + "" == pads[l].0 + fs[l];
    assert t1[0] == pads[0].0 + fs[0] + pads[0].1;
    assert t1[l := t1[l] + pads[l].1] == Padded(fs, pads);
  }

  lemma {:induction false} JoinedChars(fs: seq<string>)
    requires fs != [] && fs[0] != [] && fs[|fs| - 1] != []
    ensures var j, last := Joined(fs), fs[|fs| - 1]; j != [] && j[0] == fs[0][0] && j[|j| - 1] == last[|last| - 1]
    decreases |fs|
  {
    if |fs| > 1 {
      var rest := Joined(fs[1..]);
      JoinedLastChar(fs[1..]);
      assert Joined(fs) == fs[0] + ("\t" + rest);
    }
  }

  lemma {:induction false} JoinedLastChar(fs: seq<string>)
    requires fs != [] && fs[|fs| - 1] != []
    ensures var j, last := Joined(fs), fs[|fs| - 1]; j != [] && j[|j| - 1] == last[|last| - 1]
    decreases |fs|
  {
    if |fs| > 1 { JoinedLastChar(fs[1..]); }
  }

  lemma StripLine(a: string, j: string, b: string)
    requires AllBlank(a) && AllBlank(b) && j != [] && !IsSpace(j[0]) && !IsSpace(j[|j| - 1])
    ensures Strip(a + j + b + "\n") == j
  {
    var t := j + b + "\n";
    assert a + j + b + "\n" == a + t;
    StripLeftBlanks(a, t);
    assert t[..|t| - 1] == j + b && t[|t| - 1] == '\n';
    StripRightBlanks(j, b);
  }

  /** Blanks around the fields of a line make no difference. */
  lemma BlanksIgnored(item: Item, pads: seq<(string, string)>)
    requires FieldOk(item.path) && |pads| == |Fields(item)|
    requires forall k | 0 <= k < |pads| :: AllBlank(pads[k].0) && AllBlank(pads[k].1)
    ensures ReadLine(Joined(Padded(Fields(item), pads)) + "\n") == ReadLine(Line(item))
  {
    hide FormatInt, FormatFloat, Joined, Strip, ReadInt, ReadFloats, StripLeft, StripRight;
    var fs := Fields(item);
    var l, t := |fs| - 1, Trimmed(fs, pads);
    var ends := pads[0 := ("", pads[0].1)][l := (pads[l].0, "")];
    forall k | 0 <= k < |fs| ensures FieldOk(fs[k]) { FieldsOk(item, k); }
    LineSplits(fs);
    forall k | 0 <= k < |fs| ensures Strip(t[k]) == fs[k] && NoTab(t[k]) && t[k] != [] {
      StripBlanks(ends[k].0, fs[k], ends[k].1);
    }
    assert t[0] == fs[0] + pads[0].1 && t[l] == pads[l].0 + fs[l];
    JoinedChars(t);
    JoinedPadded(fs, pads);
    StripLine(pads[0].0, Joined(t), pads[l].1);
    SplitJoined(t);
    assert seq(|t|, k requires 0 <= k < |t| => Strip(t[k])) == fs;
  }

  // ----- what is written, field by field -----

  /** `m` is the integer nearest to `x`, the even one of two. */
  predicate Nearest(m: int, x: real) {
    var d := m as real - x;
    -0.5 <= d <= 0.5 && (d == 0.5 || d == -0.5 ==> m % 2 == 0)
  }

  /** Digits without a needless leading zero, a point, six digits: the millionths nearest to `x`. */
  predicate ToMillionths(t: string, x: real) {
    && |t| >= 8 && t[|t| - 7] == '.'
    && var digits := t[..|t| - 7] + t[|t| - 6..];
       AllDigits(digits) && (|t| > 8 ==> t[0] != '0') && Nearest(DecValue(digits), x * 1000000.0)
  }

  predicate IsFixedPoint(t: string, r: real) {
    if r < 0.0 then t != [] && t[0] == '-' && ToMillionths(t[1..], -r) else ToMillionths(t, r)
  }

  /** The fields one after the other with exactly one tab between neighbours. */
  predicate TabSeparated(t: string, fs: seq<string>)
    requires fs != []
  {
    if |fs| == 1 then t == fs[0]
    else
      && |t| > |fs[0]| && t[..|fs[0]|] == fs[0] && t[|fs[0]|] == '\t'
      && TabSeparated(t[|fs[0]| + 1..], fs[1..])
  }

  /** The index, the labels in order with six decimals each, the path. */
  predicate ItemFields(fs: seq<string>, item: Item) {
    && |fs| == |item.labels| + 2
    && IsDecimal(fs[0], item.id)
    && (forall j | 0 <= j < |item.labels| :: IsFixedPoint(fs[j + 1], item.labels[j]))
    && fs[|fs| - 1] == item.path
  }

  ghost predicate IsLine(line: string, item: Item) {
    && line != [] && line[|line| - 1] == '\n'
    && exists fs :: ItemFields(fs, item) && TabSeparated(line[..|line| - 1], fs)
  }

  lemma RoundNearest(x: real)
    requires x >= 0.0
    ensures Nearest(RoundHalfEven(x), x)
  {
  }

  lemma DecimalText(m: nat, x: real)
    requires Nearest(m, x * 1000000.0)
    ensures ToMillionths(Decimal(m), x)
  {
    hide ToDigits, Pad, DecValue, Point, Pow10, Nearest;
    var a, b := ToDigits(m / MICRO), Pad(m % MICRO, 6);
    var t := Decimal(m);
    assert t == a + ("." + b) && |t| == |a| + 7;
    assert t[..|t| - 7] == a && t[|t| - 6..] == b;
    Pow10Six();
    PadValue(a, m % MICRO, 6);
  }

  lemma FloatText(r: real)
    ensures IsFixedPoint(FormatFloat(r), r)
  {
    hide Decimal, ToMillionths, RoundHalfEven;
    RoundNearest(Abs(r) * 1000000.0);
    DecimalText(Millionths(r), Abs(r));
    if r < 0.0 { assert FormatFloat(r)[1..] == Decimal(Millionths(r)); }
    else { assert FormatFloat(r) == Decimal(Millionths(r)); }
  }

  lemma {:induction false} JoinedSeparates(fs: seq<string>)
    requires fs != []
    ensures TabSeparated(Joined(fs), fs)
    decreases |fs|
  {
    if |fs| > 1 {
      JoinedSeparates(fs[1..]);
      var t := Joined(fs);
      assert t[..|fs[0]|] == fs[0] && t[|fs[0]| + 1..] == Joined(fs[1..]);
    }
  }

  /** A line holds the index, every label to the nearest millionth, and the path, and nothing else. */
  lemma LineText(item: Item)
    ensures IsLine(Line(item), item)
  {
    hide FormatInt, FormatFloat, Joined, IsDecimal, IsFixedPoint, TabSeparated, FromInt;
    var fs := Fields(item);
    IntText(item.id);
    assert FormatInt(item.id) == FromInt(item.id).digits by { FormatIntDigits(item.id); }
    forall j | 0 <= j < |item.labels| ensures IsFixedPoint(fs[j + 1], item.labels[j]) {
      FloatText(item.labels[j]);
    }
    JoinedSeparates(fs);
    assert Line(item)[..|Line(item)| - 1] == Joined(fs);
    assert ItemFields(fs, item);
  }

  lemma FormatIntDigits(n: int)
    ensures FormatInt(n) == FromInt(n).digits
  {
  }

  // ----- the loops -----

  /** `write_list`. */
  method WriteList(items: seq<Item>) returns (text: string)
    ensures text == Text(items)
  {
    text := "";
    var i := 0;
    while i < |items|
      invariant 0 <= i <= |items| && text + Text(items[i..]) == Text(items)
    {
      var line := WriteLine(items[i]);
      assert items[i..][0] == items[i] && items[i..][1..] == items[i + 1..];
      assert text + Text(items[i..]) == text + line + Text(items[i + 1..]);
      text := text + line;
      i := i + 1;
    }
  }

  method WriteLine(item: Item) returns (line: string)
    ensures line == Line(item) && IsLine(line, item)
  {
    hide FormatInt, FormatFloat, IsLine;
    LineText(item);
    line := FormatInt(item.id) + "\t";
    ghost var fs := Fields(item);
    var j := 0;
    while j < |item.labels|
      invariant 0 <= j <= |item.labels|
      invariant line + Joined(fs[j + 1..]) == Joined(fs)
    {
      assert fs[j + 1..][0] == FormatFloat(item.labels[j]) && fs[j + 1..][1..] == fs[j + 2..];
      line := line + FormatFloat(item.labels[j]) + "\t";
      j := j + 1;
    }
    assert fs[j + 1..] == [item.path];
    line := line + item.path + "\n";
  }

  /** `read_list`, over the lines of the file. */
  method ReadList(lines: seq<string>) returns (items: seq<Item>)
    ensures items == ReadLines(lines)
  {
    hide ReadLine;
    items := [];
    var i := 0;
    while i < |lines|
      invariant 0 <= i <= |lines| && items + ReadLines(lines[i..]) == ReadLines(lines)
    {
      var item := ReadLine(lines[i]);
      assert lines[i..][0] == lines[i] && lines[i..][1..] == lines[i + 1..];
      ghost var before, rest := items, ReadLines(lines[i + 1..]);
      if item.Some? { items := items + [item.value]; }
      assert before + ReadLines(lines[i..]) == items + rest;
      i := i + 1;
    }
  }
}
