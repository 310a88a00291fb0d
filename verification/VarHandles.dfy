/** `Engine::DeduplicateVarHandle`: the read and write sets of an engine operation. Handles are
    pointers, compared by address. */
module VarHandles {

  predicate Sorted(s: seq<int>) { forall i, j | 0 <= i < j < |s| :: s[i] <= s[j] }

  predicate Increasing(s: seq<int>) { forall i, j | 0 <= i < j < |s| :: s[i] < s[j] }

  /** The same handles, repetitions aside. */
  ghost predicate SameSet(a: seq<int>, b: seq<int>) { forall x :: x in a <==> x in b }

  // ----- std::sort -----

  function Insert(s: seq<int>, x: int): seq<int> {
    if s == [] || s[|s| - 1] <= x then s + [x] else Insert(s[..|s| - 1], x) + [s[|s| - 1]]
  }

  lemma {:induction false} InsertSorted(s: seq<int>, x: int)
    requires Sorted(s)
    ensures Sorted(Insert(s, x)) && multiset(Insert(s, x)) == multiset(s) + multiset{x}
    ensures |Insert(s, x)| == |s| + 1
    decreases |s|
  {
    if s != [] {
      var init := s[..|s| - 1];
      assert s == init + [s[|s| - 1]];
      if s[|s| - 1] > x {
        InsertSorted(init, x);
        var t := Insert(init, x);
        forall i | 0 <= i < |t| ensures t[i] <= s[|s| - 1] {
          assert t[i] in multiset(t);
        }
      }
    }
  }

  /** Sorts the array in place. */
  method Sort(a: array<int>)
    modifies a
    ensures Sorted(a[..]) && multiset(a[..]) == old(multiset(a[..]))
  {
    ghost var all := a[..];
    var sorted: seq<int> := [];
    for i := 0 to a.Length
      invariant a[..] == all && Sorted(sorted) && |sorted| == i
      invariant multiset(sorted) == multiset(all[..i])
    {
      InsertSorted(sorted, a[i]);
      assert all[..i + 1] == all[..i] + [a[i]];
      sorted := Insert(sorted, a[i]);
    }
    assert all[..a.Length] == all;
    forall i | 0 <= i < a.Length { a[i] := sorted[i]; }
    assert a[..] == sorted;
  }

  // ----- std::unique -----

  /** Moves the first of each run of equal elements to the front; `len` of them are left. */
  method Unique(a: array<int>) returns (len: nat)
    requires Sorted(a[..])
    modifies a
    ensures len <= a.Length && Increasing(a[..len]) && SameSet(a[..len], old(a[..]))
  {
    ghost var all := a[..];
    len := 0;
    for i := 0 to a.Length
      invariant len <= i && a[i..] == all[i..]
      invariant Increasing(a[..len]) && SameSet(a[..len], all[..i])
      invariant (i == 0 <==> len == 0) && (i > 0 ==> a[len - 1] == all[i - 1])
    {
      assert a[i] == all[i] && all[..i + 1] == all[..i] + [all[i]];
      ghost var before := a[..len];
      if len == 0 || a[len - 1] != a[i] {
        a[len] := a[i];
        len := len + 1;
        assert a[..len] == before + [all[i]];
      } else {
        assert a[len - 1] in a[..len];
      }
    }
    assert all[..a.Length] == all;
  }

  // ----- the two-cursor difference -----

  /** All of `w[..wit]` lies below `x`. */
  ghost predicate Below(w: seq<int>, wit: nat, x: int)
    requires wit <= |w|
  {
    forall k | 0 <= k < wit :: w[k] < x
  }

  /** With everything before the cursor below `x` and nothing from it on below `x`, looking at the
      cursor decides membership. */
  lemma CursorDecides(w: seq<int>, wit: nat, x: int)
    requires Increasing(w) && wit <= |w| && Below(w, wit, x) && (wit < |w| ==> w[wit] >= x)
    ensures x in w <==> wit < |w| && w[wit] == x
  {
  }

  /** Removes from `r[..rlen]` whatever occurs in `w`, in place: the write cursor `rtop` never
      passes the read cursor. */
  method RemoveWritten(r: array<int>, rlen: nat, w: seq<int>) returns (rtop: nat)
    requires rlen <= r.Length && Increasing(r[..rlen]) && Increasing(w)
    modifies r
    ensures rtop <= rlen && Increasing(r[..rtop])
    ensures forall x :: x in r[..rtop] <==> x in old(r[..rlen]) && x !in w
  {
    ghost var all := r[..rlen];
    var wit := 0;
    rtop := 0;
    for rit := 0 to rlen
      invariant rtop <= rit && wit <= |w| && r[rit..rlen] == all[rit..]
      invariant Increasing(r[..rtop]) && forall x :: x in r[..rtop] <==> x in all[..rit] && x !in w
      invariant rit < rlen ==> Below(w, wit, all[rit])
    {
      var x := r[rit];
      assert x == all[rit] && all[..rit + 1] == all[..rit] + [x];
      while wit < |w| && w[wit] < x
        invariant wit <= |w| && Below(w, wit, x)
      {
        wit := wit + 1;
      }
      CursorDecides(w, wit, x);
      ghost var kept := r[..rtop];
      assert forall k | 0 <= k < rtop :: kept[k] in kept;
      if wit == |w| || w[wit] != x {
        r[rtop] := x;
        rtop := rtop + 1;
        assert r[..rtop] == kept + [x];
      }
      assert r[rit + 1..rlen] == all[rit + 1..];
    }
    assert all[..rlen] == all;
  }

  /** `DeduplicateVarHandle`. `read[..rlen]` and `write[..wlen]` are the resized vectors. */
  method Deduplicate(read: array<int>, write: array<int>) returns (rlen: nat, wlen: nat)
    requires read != write
    modifies read, write
    ensures rlen <= read.Length && wlen <= write.Length
    ensures Increasing(write[..wlen]) && SameSet(write[..wlen], old(write[..]))
    ensures Increasing(read[..rlen])
    ensures forall x :: x in read[..rlen] <==> x in old(read[..]) && x !in old(write[..])
  {
    ghost var allReads, allWrites := read[..], write[..];
    Sort(write);
    SameElements(write[..], allWrites);
    wlen := Unique(write);
    Sort(read);
    SameElements(read[..], allReads);
    rlen := Unique(read);
    rlen := RemoveWritten(read, rlen, write[..wlen]);
  }

  lemma SameElements(a: seq<int>, b: seq<int>)
    requires multiset(a) == multiset(b)
    ensures SameSet(a, b)
  {
    forall x ensures x in a <==> x in b { assert x in a <==> x in multiset(a); }
  }
}
