/** `make_list`: cutting the image list into chunks, and each chunk into test, training and
    validation lists. Ratios are exact numbers. */
module ImageLists {

  /** A Python slice with non-negative bounds. */
  function Slice<T>(s: seq<T>, lo: nat, hi: nat): seq<T> {
    var a, b := if lo < |s| then lo else |s|, if hi < |s| then hi else |s|;
    if a <= b then s[a..b] else []
  }

  /** The lists written for one chunk; `None` where no file is written. */
  datatype Files<T> = Files(test: Option<seq<T>>, val: Option<seq<T>>, train: seq<T>)

  datatype Option<T> = None | Some(value: T)

  function Contents<T>(o: Option<seq<T>>): seq<T> { if o.Some? then o.value else [] }

  /** The files of one chunk. `size` is the nominal chunk size, which the last chunks may not reach. */
  function SplitChunk<T>(chunk: seq<T>, size: nat, trainRatio: real, testRatio: real): Files<T>
    requires trainRatio >= 0.0 && testRatio >= 0.0
  {
    var sep, sepTest := Cut(size, trainRatio), Cut(size, testRatio);
    if trainRatio == 1.0 then Files(None, None, chunk)
    else Files(if testRatio != 0.0 then Some(Slice(chunk, 0, sepTest)) else None,
               if trainRatio + testRatio < 1.0 then Some(Slice(chunk, sepTest + sep, |chunk|)) else None,
               Slice(chunk, sepTest, sepTest + sep))
  }

  /** `int(size * ratio)`. */
  function Cut(size: nat, ratio: real): nat
    requires ratio >= 0.0
  {
    (size as real * ratio).Floor
  }

  /** How many images of a chunk end up in no list. */
  function Lost<T>(chunk: seq<T>, f: Files<T>): int {
    |chunk| - |Contents(f.test)| - |f.train| - |Contents(f.val)|
  }

  /** The lists follow each other in the chunk, and at most one image after them is lost. */
  predicate Covers<T(==)>(chunk: seq<T>, f: Files<T>) {
    Contents(f.test) + f.train + Contents(f.val) <= chunk && 0 <= Lost(chunk, f) <= 1
  }

  predicate CoversAll<T(==)>(chunk: seq<T>, f: Files<T>) { Contents(f.test) + f.train + Contents(f.val) == chunk }

  /** The ratios leave room for validation, or everything is for training. */
  predicate NothingLost(trainRatio: real, testRatio: real) { trainRatio == 1.0 || trainRatio + testRatio < 1.0 }

  /** Test, training and validation lists, put together, are the chunk; only when the ratios leave
      no room for validation can an image be lost, and then at most one. */
  lemma SplitPartitions<T>(chunk: seq<T>, size: nat, trainRatio: real, testRatio: real)
    requires trainRatio >= 0.0 && testRatio >= 0.0 && |chunk| <= size
    ensures Covers(chunk, SplitChunk(chunk, size, trainRatio, testRatio))
    ensures CoversAll(chunk, SplitChunk(chunk, size, trainRatio, testRatio))
       <==> NothingLost(trainRatio, testRatio) || Cut(size, trainRatio) + Cut(size, testRatio) >= |chunk|
  {
    var sep, sepTest := Cut(size, trainRatio), Cut(size, testRatio);
    if trainRatio != 1.0 {
      if testRatio == 0.0 { assert sepTest == 0; }
      SlicesJoin(chunk, sepTest, sepTest + sep);
      assert Slice(chunk, 0, 0) == [];
      if trainRatio + testRatio >= 1.0 { CutsCover(size, trainRatio, testRatio); }
    }
  }

  /** Which files are written. */
  lemma FilesWritten<T>(chunk: seq<T>, size: nat, trainRatio: real, testRatio: real)
    requires trainRatio >= 0.0 && testRatio >= 0.0
    ensures var f := SplitChunk(chunk, size, trainRatio, testRatio);
      && (f.test.Some? <==> trainRatio != 1.0 && testRatio != 0.0)
      && (f.val.Some? <==> trainRatio != 1.0 && trainRatio + testRatio < 1.0)
      && (trainRatio == 1.0 ==> f.train == chunk)
  {
  }

  /** `n` is `size * ratio` truncated. */
  predicate Truncated(n: nat, size: nat, ratio: real) { n as real <= size as real * ratio < n as real + 1.0 }

  /** `n` is `size * ratio` truncated, or all of `room` when that is less. */
  predicate Share(n: nat, room: nat, size: nat, ratio: real) {
    n <= room && if n < room then Truncated(n, size, ratio) else room as real <= size as real * ratio
  }

  /** The test list gets its share of the nominal chunk size, the training list its share of what is
      left; a full chunk whose ratios fit has enough for both. */
  lemma SplitSizes<T>(chunk: seq<T>, size: nat, trainRatio: real, testRatio: real)
    requires trainRatio >= 0.0 && testRatio >= 0.0 && trainRatio != 1.0
    ensures var f := SplitChunk(chunk, size, trainRatio, testRatio);
      && Share(|Contents(f.test)|, |chunk|, size, testRatio)
      && Share(|f.train|, |chunk| - |Contents(f.test)|, size, trainRatio)
    ensures |chunk| == size && trainRatio + testRatio <= 1.0 ==>
      var f := SplitChunk(chunk, size, trainRatio, testRatio);
      Truncated(|Contents(f.test)|, size, testRatio) && Truncated(|f.train|, size, trainRatio)
  {
    hide Cut, Slice, Share, Truncated;
    var sep, sepTest := Cut(size, trainRatio), Cut(size, testRatio);
    SlicesJoin(chunk, sepTest, sepTest + sep);
    SliceLength(chunk, sepTest);
    if testRatio == 0.0 { NoShare(size); }
    CutShare(|chunk|, size, testRatio);
    CutShare(|chunk| - AtMost(sepTest, |chunk|), size, trainRatio);
    CutTruncates(size, testRatio);
    CutTruncates(size, trainRatio);
    if trainRatio + testRatio <= 1.0 { CutsFit(size, trainRatio, testRatio); }
  }

  function AtMost(n: nat, room: nat): nat { if n < room then n else room }

  lemma SliceLength<T>(s: seq<T>, n: nat)
    ensures |Slice(s, 0, n)| == AtMost(n, |s|)
  {
  }

  lemma NoShare(size: nat)
    ensures Cut(size, 0.0) == 0
  {
    assert size as real * 0.0 == 0.0;
  }

  lemma CutShare(room: nat, size: nat, ratio: real)
    requires ratio >= 0.0
    ensures Share(AtMost(Cut(size, ratio), room), room, size, ratio)
  {
  }

  lemma CutsFit(size: nat, x: real, y: real)
    requires x >= 0.0 && y >= 0.0 && x + y <= 1.0
    ensures Cut(size, x) + Cut(size, y) <= size
  {
    var n := size as real;
    assert n * x + n * y == n * (x + y);
    MulAtMost(n, x + y);
  }

  lemma CutTruncates(size: nat, ratio: real)
    requires ratio >= 0.0
    ensures Truncated(Cut(size, ratio), size, ratio)
  {
  }

  lemma MulAtMost(n: real, r: real)
    requires n >= 0.0 && r <= 1.0
    ensures n * r <= n
  {
    assert n - n * r == n * (1.0 - r);
  }

  lemma SlicesJoin<T>(s: seq<T>, a: nat, b: nat)
    requires a <= b
    ensures Slice(s, 0, a) + Slice(s, a, b) + Slice(s, b, |s|) == s
    ensures Slice(s, 0, a) + Slice(s, a, b) == if b < |s| then s[..b] else s
    ensures |Slice(s, 0, a)| + |Slice(s, a, b)| == if b < |s| then b else |s|
  {
  }

  lemma CutsCover(size: nat, x: real, y: real)
    requires x >= 0.0 && y >= 0.0 && x + y >= 1.0
    ensures Cut(size, x) + Cut(size, y) >= size - 1
  {
    var n := size as real;
    assert n * x + n * y == n * (x + y);
    MulAtLeast(n, x + y);
    assert n * x < (n * x).Floor as real + 1.0 && n * y < (n * y).Floor as real + 1.0;
  }

  lemma MulAtLeast(n: real, r: real)
    requires n >= 0.0 && r >= 1.0
    ensures n * r >= n
  {
    assert n * r - n == n * (r - 1.0);
  }

  // ----- chunks -----

  function Concat<T>(parts: seq<seq<T>>): seq<T> {
    if parts == [] then [] else Concat(parts[..|parts| - 1]) + parts[|parts| - 1]
  }

  lemma ChunksReachEnd(total: nat, chunks: nat)
    requires chunks >= 1
    ensures chunks * ((total + chunks - 1) / chunks) >= total
  {
    var x := total + chunks - 1;
    assert x == chunks * (x / chunks) + x % chunks;
  }

  /** Chunks are full until the images run out. */
  function ChunkLength(total: nat, size: nat, i: nat): nat {
    if (i + 1) * size <= total then size else if i * size <= total then total - i * size else 0
  }

  /** Chunk `i` of `total` images, and its files. */
  predicate ChunkSplit<T(==)>(chunk: seq<T>, f: Files<T>, total: nat, size: nat, i: nat, trainRatio: real, testRatio: real)
    requires trainRatio >= 0.0 && testRatio >= 0.0
  {
    && |chunk| == ChunkLength(total, size, i)
    && f == SplitChunk(chunk, size, trainRatio, testRatio)
    && Covers(chunk, f)
    && (NothingLost(trainRatio, testRatio) ==> CoversAll(chunk, f))
  }

  lemma ChunkIsSplit<T>(chunk: seq<T>, total: nat, size: nat, i: nat, trainRatio: real, testRatio: real)
    requires trainRatio >= 0.0 && testRatio >= 0.0 && |chunk| == ChunkLength(total, size, i) <= size
    ensures ChunkSplit(chunk, SplitChunk(chunk, size, trainRatio, testRatio), total, size, i, trainRatio, testRatio)
  {
    hide SplitChunk, ChunkLength, Covers, CoversAll;
    SplitPartitions(chunk, size, trainRatio, testRatio);
  }

  /** `make_list` after the images have been listed and shuffled. The chunks, put together, are the
      whole list; each is split as specified. */
  method MakeLists<T(==)>(images: seq<T>, chunks: nat, trainRatio: real, testRatio: real)
    returns (parts: seq<seq<T>>, files: seq<Files<T>>)
    requires chunks >= 1 && trainRatio >= 0.0 && testRatio >= 0.0
    ensures |parts| == |files| == chunks && Concat(parts) == images
    ensures forall i | 0 <= i < chunks ::
      ChunkSplit(parts[i], files[i], |images|, (|images| + chunks - 1) / chunks, i, trainRatio, testRatio)
  {
    hide ChunkSplit, SplitChunk, ChunkLength;
    var size := (|images| + chunks - 1) / chunks;
    parts, files := [], [];
    var i := 0;
    while i < chunks
      invariant 0 <= i <= chunks && |parts| == |files| == i
      invariant Concat(parts) == Slice(images, 0, i * size)
      invariant forall j | 0 <= j < i :: ChunkSplit(parts[j], files[j], |images|, size, j, trainRatio, testRatio)
    {
      var chunk := Slice(images, i * size, (i + 1) * size);
      NextChunk(images, i, size);
      ChunkIsSplit(chunk, |images|, size, i, trainRatio, testRatio);
      assert (parts + [chunk])[..i] == parts;
      parts, files := parts + [chunk], files + [SplitChunk(chunk, size, trainRatio, testRatio)];
      i := i + 1;
    }
    ChunksReachEnd(|images|, chunks);
  }

  lemma NextChunk<T>(images: seq<T>, i: nat, size: nat)
    ensures i * size <= (i + 1) * size
    ensures |Slice(images, i * size, (i + 1) * size)| == ChunkLength(|images|, size, i) <= size
    ensures Slice(images, 0, i * size) + Slice(images, i * size, (i + 1) * size) == Slice(images, 0, (i + 1) * size)
  {
    assert (i + 1) * size == i * size + size;
    SlicesJoin(images, i * size, (i + 1) * size);
  }
}
