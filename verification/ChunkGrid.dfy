/**
 The whole buffer: every chunk origin in loop order, the dataset after a write, the buffer after
 a read, and the end-to-end round trip.
 */
module ChunkGrid {
  import opened Arith
  import opened Memory
  import opened RowCopy
  import opened Tiling
  import opened FilterChain

  /** The dataset: chunk offset to what H5Dwrite_chunk stored there. */
  type Dataset = map<seq<nat>, Stored>

  /** The chunk offset in the dataset's own order, slowest dimension first. */
  function Key(o: seq<nat>): (key: seq<nat>)
    ensures |key| == |o|
  {
    seq(|o|, k requires 0 <= k < |o| => o[|o| - k - 1])
  }

  lemma KeyInjective(a: seq<nat>, b: seq<nat>)
    requires Key(a) == Key(b)
    ensures a == b
  {
    assert |a| == |Key(a)| == |b|;
    forall k | 0 <= k < |a|
      ensures a[k] == b[k]
    {
      assert Key(a)[|a| - k - 1] == a[k] && Key(b)[|a| - k - 1] == b[k];
    }
  }

  /** Chunk origins in the order of the outer nest: dimension d - 1 outermost of what is left. */
  function Grid(s: Shape, d: nat, suffix: seq<nat>): (os: seq<seq<nat>>)
    requires s.Valid() && d + |suffix| == |s.n|
    decreases d, 0, 0
  {
    if d == 0 then [suffix] else GridLoop(s, d, 0, suffix)
  }

  function GridLoop(s: Shape, d: nat, j: nat, suffix: seq<nat>): (os: seq<seq<nat>>)
    requires s.Valid() && 0 < d && d + |suffix| == |s.n|
    decreases d - 1, 1, s.n[d - 1] - j
  {
    if j >= s.n[d - 1] then []
    else Grid(s, d - 1, [j] + suffix) + GridLoop(s, d, j + s.b[d - 1], suffix)
  }

  function Origins(s: Shape): (os: seq<seq<nat>>)
    requires s.Valid()
  {
    Grid(s, |s.n|, [])
  }

  /** The coordinates chosen so far are legal. */
  ghost predicate Suffix(s: Shape, d: nat, suffix: seq<nat>) {
    s.Valid() && d + |suffix| == |s.n|
    && forall k :: 0 <= k < |suffix| ==> suffix[k] < s.n[d + k] && Multiple(suffix[k], s.b[d + k])
  }

  ghost predicate AllOrigins(s: Shape, os: seq<seq<nat>>) {
    forall k :: 0 <= k < |os| ==> Origin(s, os[k])
  }

  lemma {:induction false} GridOrigins(s: Shape, d: nat, suffix: seq<nat>)
    requires Suffix(s, d, suffix)
    ensures AllOrigins(s, Grid(s, d, suffix))
    decreases d, 0, 0
  {
    if d > 0 { GridLoopOrigins(s, d, 0, suffix); }
  }

  lemma SuffixCons(s: Shape, d: nat, j: nat, suffix: seq<nat>)
    requires 0 < d && Suffix(s, d, suffix) && j < s.n[d - 1] && Multiple(j, s.b[d - 1])
    ensures Suffix(s, d - 1, [j] + suffix) && Multiple(j + s.b[d - 1], s.b[d - 1])
  {}

  lemma {:induction false} GridLoopOrigins(s: Shape, d: nat, j: nat, suffix: seq<nat>)
    requires 0 < d && Suffix(s, d, suffix) && Multiple(j, s.b[d - 1])
    ensures AllOrigins(s, GridLoop(s, d, j, suffix))
    decreases d - 1, 1, s.n[d - 1] - j
  {
    if j < s.n[d - 1] {
      GridOrigins(s, d - 1, [j] + suffix);
      GridLoopOrigins(s, d, j + s.b[d - 1], suffix);
    }
  }

  /** Every legal origin is visited. */
  lemma {:induction false} GridComplete(s: Shape, d: nat, pre: seq<nat>, suffix: seq<nat>)
    requires s.Valid() && |pre| == d && d + |suffix| == |s.n|
    requires forall k :: 0 <= k < d ==> pre[k] < s.n[k] && Multiple(pre[k], s.b[k])
    ensures pre + suffix in Grid(s, d, suffix)
    decreases d, 0, 0
  {
    if d == 0 {
      assert pre + suffix == suffix;
    } else {
      GridLoopComplete(s, d, 0, pre, suffix);
    }
  }

  lemma {:induction false} NextMultiple(j: nat, k: nat, b: nat)
    requires b > 0 && Multiple(j, b) && Multiple(k, b) && j < k
    ensures j + b <= k
    decreases k
  {
    if j > 0 { NextMultiple(j - b, k - b, b); }
  }

  lemma {:induction false} GridLoopComplete(s: Shape, d: nat, j: nat, pre: seq<nat>, suffix: seq<nat>)
    requires s.Valid() && 0 < d == |pre| && d + |suffix| == |s.n|
    requires forall k :: 0 <= k < d ==> pre[k] < s.n[k] && Multiple(pre[k], s.b[k])
    requires j <= pre[d - 1] && Multiple(j, s.b[d - 1])
    ensures pre + suffix in GridLoop(s, d, j, suffix)
    decreases d - 1, 1, s.n[d - 1] - j
  {
    if j == pre[d - 1] {
      GridComplete(s, d - 1, pre[..d - 1], [j] + suffix);
      assert pre[..d - 1] + ([j] + suffix) == pre + suffix;
    } else {
      NextMultiple(j, pre[d - 1], s.b[d - 1]);
      GridLoopComplete(s, d, j + s.b[d - 1], pre, suffix);
    }
  }

  // ---- write and read as functions ----

  /** The dataset after writing the chunks of src at the given origins, in order. */
  function StoreAll(ds: Dataset, s: Shape, filters: seq<Filter>, src: seq<byte>, os: seq<seq<nat>>): (ds': Dataset)
    requires s.Valid() && AllOrigins(s, os) && |src| == s.TotalBytes()
    decreases |os|
  {
    if os == [] then ds
    else StoreAll(ds[Key(os[0]) := Encode(filters, Image(s, os[0], src))], s, filters, src, os[1..])
  }

  /** All the chunks are present, decode to whole blocks and decode within the scratch buffers. */
  ghost predicate Readable(ds: Dataset, s: Shape, filters: seq<Filter>, os: seq<seq<nat>>, cap: nat) {
    s.Valid() && forall k :: 0 <= k < |os| ==> ChunkReadable(ds, s, filters, os[k], cap)
  }

  ghost predicate ChunkReadable(ds: Dataset, s: Shape, filters: seq<Filter>, o: seq<nat>, cap: nat)
    requires s.Valid()
  {
    && Key(o) in ds
    && |Decode(filters, ds[Key(o)])| == s.BlockBytes()
    && CanDecode(filters, |filters|, ds[Key(o)].mask, ds[Key(o)].bytes, cap)
  }

  /** The destination after reading the chunks at the given origins, in order. */
  function RestoreAll(ds: Dataset, s: Shape, filters: seq<Filter>, dst: seq<byte>, os: seq<seq<nat>>,
                      ghost cap: nat): (r: seq<byte>)
    requires AllOrigins(s, os) && Readable(ds, s, filters, os, cap) && |dst| == s.TotalBytes()
    ensures |r| == |dst|
    decreases |os|
  {
    if os == [] then dst
    else RestoreAll(ds, s, filters, Restore(s, os[0], dst, Decode(filters, ds[Key(os[0])])), os[1..], cap)
  }

  lemma {:induction false} StoreConcat(ds: Dataset, s: Shape, filters: seq<Filter>, src: seq<byte>,
                                       a: seq<seq<nat>>, b: seq<seq<nat>>)
    requires s.Valid() && AllOrigins(s, a + b) && |src| == s.TotalBytes()
    ensures AllOrigins(s, a) && AllOrigins(s, b)
    ensures StoreAll(ds, s, filters, src, a + b) == StoreAll(StoreAll(ds, s, filters, src, a), s, filters, src, b)
    decreases |a|
  {
    assert forall k :: 0 <= k < |a| ==> (a + b)[k] == a[k];
    assert forall k :: 0 <= k < |b| ==> (a + b)[|a| + k] == b[k];
    if a == [] {
      assert a + b == b;
    } else {
      assert (a + b)[1..] == a[1..] + b;
      StoreConcat(ds[Key(a[0]) := Encode(filters, Image(s, a[0], src))], s, filters, src, a[1..], b);
    }
  }

  lemma {:induction false} RestoreConcat(ds: Dataset, s: Shape, filters: seq<Filter>, dst: seq<byte>,
                                         a: seq<seq<nat>>, b: seq<seq<nat>>, cap: nat)
    requires AllOrigins(s, a + b) && Readable(ds, s, filters, a + b, cap) && |dst| == s.TotalBytes()
    ensures AllOrigins(s, a) && AllOrigins(s, b) && Readable(ds, s, filters, a, cap) && Readable(ds, s, filters, b, cap)
    ensures RestoreAll(ds, s, filters, dst, a + b, cap)
         == RestoreAll(ds, s, filters, RestoreAll(ds, s, filters, dst, a, cap), b, cap)
    decreases |a|
  {
    assert forall k :: 0 <= k < |a| ==> (a + b)[k] == a[k];
    assert forall k :: 0 <= k < |b| ==> (a + b)[|a| + k] == b[k];
    if a == [] {
      assert a + b == b;
    } else {
      assert (a + b)[1..] == a[1..] + b;
      RestoreConcat(ds, s, filters, Restore(s, a[0], dst, Decode(filters, ds[Key(a[0])])), a[1..], b, cap);
    }
  }

  /** What the outer nest still has to do: restoring the chunks at `os` yields `goal`. */
  ghost predicate RestoresTo(ds: Dataset, s: Shape, filters: seq<Filter>, dst: seq<byte>, os: seq<seq<nat>>,
                             cap: nat, goal: seq<byte>) {
    && s.Valid() && AllOrigins(s, os) && Readable(ds, s, filters, os, cap) && |dst| == s.TotalBytes()
    && RestoreAll(ds, s, filters, dst, os, cap) == goal
  }

  lemma RestoresToDone(ds: Dataset, s: Shape, filters: seq<Filter>, dst: seq<byte>, cap: nat, goal: seq<byte>)
    requires RestoresTo(ds, s, filters, dst, [], cap, goal)
    ensures dst == goal
  {}

  lemma StoreOne(ds: Dataset, s: Shape, filters: seq<Filter>, src: seq<byte>, os: seq<seq<nat>>)
    requires s.Valid() && AllOrigins(s, os) && |src| == s.TotalBytes() && |os| == 1
    ensures StoreAll(ds, s, filters, src, os) == ds[Key(os[0]) := Encode(filters, Image(s, os[0], src))]
  {
    var ds1 := ds[Key(os[0]) := Encode(filters, Image(s, os[0], src))];
    assert StoreAll(ds1, s, filters, src, os[1..]) == ds1;
  }

  lemma RestoresToOne(ds: Dataset, s: Shape, filters: seq<Filter>, dst: seq<byte>, o: seq<nat>, cap: nat,
                      goal: seq<byte>)
    requires RestoresTo(ds, s, filters, dst, [o], cap, goal)
    ensures Origin(s, o) && ChunkReadable(ds, s, filters, o, cap)
    ensures goal == Restore(s, o, dst, Decode(filters, ds[Key(o)]))
  {
    RestoreOne(ds, s, filters, dst, [o], cap);
  }

  lemma RestoreOne(ds: Dataset, s: Shape, filters: seq<Filter>, dst: seq<byte>, os: seq<seq<nat>>, cap: nat)
    requires AllOrigins(s, os) && Readable(ds, s, filters, os, cap) && |dst| == s.TotalBytes() && |os| == 1
    ensures Origin(s, os[0]) && ChunkReadable(ds, s, filters, os[0], cap)
    ensures RestoreAll(ds, s, filters, dst, os, cap) == Restore(s, os[0], dst, Decode(filters, ds[Key(os[0])]))
  {
    var dst1 := Restore(s, os[0], dst, Decode(filters, ds[Key(os[0])]));
    assert RestoreAll(ds, s, filters, dst1, os[1..], cap) == dst1;
  }

  lemma RestoresToSplit(ds: Dataset, s: Shape, filters: seq<Filter>, dst: seq<byte>, a: seq<seq<nat>>,
                        b: seq<seq<nat>>, cap: nat, goal: seq<byte>)
    returns (mid: seq<byte>)
    requires RestoresTo(ds, s, filters, dst, a + b, cap, goal)
    ensures RestoresTo(ds, s, filters, dst, a, cap, mid) && RestoresTo(ds, s, filters, mid, b, cap, goal)
  {
    RestoreConcat(ds, s, filters, dst, a, b, cap);
    mid := RestoreAll(ds, s, filters, dst, a, cap);
  }

  /** After a write, every chunk of the grid holds the encoding of its image and nothing else changed. */
  lemma {:induction false} StoredChunks(ds: Dataset, s: Shape, filters: seq<Filter>, src: seq<byte>, os: seq<seq<nat>>)
    requires s.Valid() && AllOrigins(s, os) && |src| == s.TotalBytes()
    ensures var ds' := StoreAll(ds, s, filters, src, os);
            && (forall k :: 0 <= k < |os| ==>
                  Key(os[k]) in ds' && ds'[Key(os[k])] == Encode(filters, Image(s, os[k], src)))
            && (forall key :: key !in ds' ==> key !in ds)
            && (forall key :: key in ds' && (forall k :: 0 <= k < |os| ==> Key(os[k]) != key) ==>
                  key in ds && ds'[key] == ds[key])
    decreases |os|
  {
    if os != [] {
      var o := os[0];
      var ds1 := ds[Key(o) := Encode(filters, Image(s, o, src))];
      StoredChunks(ds1, s, filters, src, os[1..]);
      var ds' := StoreAll(ds, s, filters, src, os);
      hide Image, Key, FilterChain.Encode, Origin;
      if k :| 0 <= k < |os[1..]| && Key(os[1..][k]) == Key(o) {
        KeyInjective(os[1..][k], o);
      }
      forall key | key in ds' && (forall k :: 0 <= k < |os| ==> Key(os[k]) != key)
        ensures key in ds && ds'[key] == ds[key]
      {
        assert key != Key(os[0]);
        forall k | 0 <= k < |os[1..]|
          ensures Key(os[1..][k]) != key
        {
          assert os[1..][k] == os[k + 1];
        }
      }
      forall k | 0 <= k < |os|
        ensures Key(os[k]) in ds' && ds'[Key(os[k])] == Encode(filters, Image(s, os[k], src))
      {
        if k > 0 { assert os[1..][k - 1] == os[k]; }
      }
    }
  }

  // ---- coverage ----

  /** The last multiple of b up to i. */
  function Floor(i: nat, b: nat): (j: nat)
    requires b > 0
  {
    i / b * b
  }

  /** The origin of the chunk that holds source row `row` (below the volume of dimensions 1..d)
      at fastest coordinate j0. */
  function OriginOf(s: Shape, d: nat, j0: nat, row: nat): (o: seq<nat>)
    requires s.Valid() && d < |s.n|
    ensures |o| == d + 1
    decreases d
  {
    if d == 0 then [j0]
    else
      var v := Volume(s.n, d);
      if v == 0 then seq(d + 1, k => 0)
      else OriginOf(s, d - 1, j0, row % v) + [Floor(row / v, s.b[d])]
  }

  lemma {:induction false} IsMultiple(q: nat, b: nat)
    requires b > 0
    ensures Multiple(q * b, b)
    decreases q
  {
    if q > 0 {
      MulSucc(q - 1, b);
      IsMultiple(q - 1, b);
    }
  }

  lemma FloorMultiple(i: nat, b: nat)
    requires b > 0
    ensures Multiple(Floor(i, b), b) && Floor(i, b) <= i < Floor(i, b) + b
  {
    IsMultiple(i / b, b);
  }

  lemma FloorPlus(i: nat, b: nat)
    requires b > 0
    ensures Floor(i, b) + i % b == i && i % b < b
  {}

  lemma QuotientBelow(row: nat, n: nat, v: nat)
    requires v > 0 && row < n * v
    ensures row / v < n
  {
    if row / v >= n { MulMono(n, row / v, v); }
  }

  lemma ProductPositive(n: nat, v: nat, row: nat)
    requires row < n * v
    ensures v > 0
  {}

  lemma {:induction false} OriginOfLegal(s: Shape, d: nat, j0: nat, row: nat)
    requires s.Valid() && d < |s.n| && row < Volume(s.n, d + 1) && j0 < s.n[0] && Multiple(j0, s.b[0])
    ensures forall k :: 0 <= k <= d ==> var o := OriginOf(s, d, j0, row); o[k] < s.n[k] && Multiple(o[k], s.b[k])
    decreases d
  {
    if d > 0 {
      var v := Volume(s.n, d);
      ProductPositive(s.n[d], v, row);
      QuotientBelow(row, s.n[d], v);
      FloorMultiple(row / v, s.b[d]);
      OriginOfLegal(s, d - 1, j0, row % v);
    }
  }

  /** A row number splits into its digit of dimension d and the rest. */
  lemma RowDigit(s: Shape, d: nat, row: nat) returns (x: nat, low: nat)
    requires s.Valid() && 0 < d < |s.n| && row < Volume(s.n, d + 1)
    ensures Volume(s.n, d) > 0 && x == row / Volume(s.n, d) && low == row % Volume(s.n, d)
    ensures x < s.n[d] && low < Volume(s.n, d) && row == x * Volume(s.n, d) + low
  {
    var v := Volume(s.n, d);
    ProductPositive(s.n[d], v, row);
    QuotientBelow(row, s.n[d], v);
    x, low := row / v, row % v;
  }

  /** The chunk at that origin visits that row. */
  lemma {:induction false} RowVisited(s: Shape, o: seq<nat>, d: nat, base: nat, row: nat)
    requires Origin(s, o) && d < |o| && row < Volume(s.n, d + 1)
    requires o[..d + 1] == OriginOf(s, d, o[0], row)
    ensures At(s, o, base + row) in Offs(s, o, d, base)
    decreases d, 0, 0
  {
    if d > 0 {
      var x, low := RowDigit(s, d, row);
      FloorMultiple(x, s.b[d]);
      LastOf(o, d, OriginOf(s, d - 1, o[0], low), Floor(x, s.b[d]));
      LoopVisited(s, o, d, o[d], base, x, low, base + row);
    }
  }

  lemma LastOf(o: seq<nat>, d: nat, front: seq<nat>, last: nat)
    requires d < |o| && |front| == d && o[..d + 1] == front + [last]
    ensures o[d] == last && o[..d] == front
  {
    assert o[d] == o[..d + 1][d];
    assert o[..d] == o[..d + 1][..d];
  }

  lemma {:induction false} LoopVisited(s: Shape, o: seq<nat>, d: nat, i: nat, base: nat, x: nat, low: nat, row: nat)
    requires Origin(s, o) && 0 < d < |o| && low < Volume(s.n, d) && i <= x < End(s, o, d)
    requires o[..d] == OriginOf(s, d - 1, o[0], low) && row == base + x * Volume(s.n, d) + low
    ensures At(s, o, row) in OffsLoop(s, o, d, i, base)
    decreases d - 1, 1, End(s, o, d) - i
  {
    var first, rest := Offs(s, o, d - 1, base + i * Volume(s.n, d)), OffsLoop(s, o, d, i + 1, base);
    if i == x {
      RowVisited(s, o, d - 1, base + i * Volume(s.n, d), low);
    } else {
      LoopVisited(s, o, d, i + 1, base, x, low, row);
    }
    InEither(At(s, o, row), first, rest);
  }

  lemma InEither(x: nat, a: seq<nat>, b: seq<nat>)
    requires x in a || x in b
    ensures x in a + b
  {}

  /** The chunk that holds source row `row` at fastest coordinate x0 visits that row. */
  lemma ElementVisited(s: Shape, x0: nat, row: nat) returns (o: seq<nat>)
    requires s.Valid() && x0 < s.n[0] && row < Volume(s.n, |s.n|)
    ensures o in Origins(s) && Origin(s, o) && At(s, o, row) in ChunkOffs(s, o)
    ensures o[0] <= x0 < o[0] + Min(s.b[0], s.n[0] - o[0])
  {
    var d := |s.n| - 1;
    FloorMultiple(x0, s.b[0]);
    var j0 := Floor(x0, s.b[0]);
    o := OriginOf(s, d, j0, row);
    OriginOfLegal(s, d, j0, row);
    OriginOfFirst(s, d, j0, row);
    GridComplete(s, |s.n|, o, []);
    assert o + [] == o;
    assert o[..d + 1] == o;
    RowVisited(s, o, d, 0, row);
  }

  /** Every byte of the buffer lies in a row of some chunk of the grid. */
  lemma Coverage(s: Shape, p: nat) returns (o: seq<nat>)
    requires s.Valid() && p < s.TotalBytes()
    ensures o in Origins(s) && Origin(s, o) && Covered(p, ChunkOffs(s, o), Len(s, o))
  {
    var row, x := ByteRow(s, p);
    QuotientBelow(x, s.n[0], s.es);
    o := ElementVisited(s, x / s.es, row);
    ByteInRow(x, s.es, o[0], Min(s.b[0], s.n[0] - o[0]));
    var k :| 0 <= k < |ChunkOffs(s, o)| && ChunkOffs(s, o)[k] == At(s, o, row);
  }

  lemma ByteRow(s: Shape, p: nat) returns (row: nat, x: nat)
    requires s.Valid() && p < s.TotalBytes()
    ensures row < Volume(s.n, |s.n|) && x < s.RowBytes() && p == row * s.RowBytes() + x
  {
    var L := s.RowBytes();
    ProductPositive(Volume(s.n, |s.n|), L, p);
    QuotientBelow(p, Volume(s.n, |s.n|), L);
    row, x := p / L, p % L;
  }

  lemma ByteInRow(x: nat, es: nat, j0: nat, m: nat)
    requires es > 0 && j0 <= x / es < j0 + m
    ensures j0 * es <= x < j0 * es + m * es
  {
    var x0 := x / es;
    assert x == x0 * es + x % es;
    MulMono(j0, x0, es);
    MulMono(x0 + 1, j0 + m, es);
    MulSucc(x0, es);
    assert (j0 + m) * es == j0 * es + m * es;
  }

  lemma {:induction false} OriginOfFirst(s: Shape, d: nat, j0: nat, row: nat)
    requires s.Valid() && d < |s.n| && row < Volume(s.n, d + 1)
    ensures OriginOf(s, d, j0, row)[0] == j0
    decreases d
  {
    if d > 0 {
      var v := Volume(s.n, d);
      ProductPositive(s.n[d], v, row);
      OriginOfFirst(s, d - 1, j0, row % v);
    }
  }

  // ---- end to end ----

  /** Some chunk of the list covers byte p. */
  ghost predicate Reached(s: Shape, os: seq<seq<nat>>, p: nat)
    requires s.Valid() && AllOrigins(s, os)
  {
    exists k :: 0 <= k < |os| && Covered(p, ChunkOffs(s, os[k]), Len(s, os[k]))
  }

  /** The stored chunks decode to the images of src. */
  ghost predicate HoldsImages(ds: Dataset, s: Shape, filters: seq<Filter>, src: seq<byte>, os: seq<seq<nat>>)
    requires s.Valid() && AllOrigins(s, os) && |src| == s.TotalBytes()
  {
    forall k :: 0 <= k < |os| ==> Key(os[k]) in ds && Decode(filters, ds[Key(os[k])]) == Image(s, os[k], src)
  }

  /** Restoring one chunk's image. */
  lemma RestoreImage(s: Shape, o: seq<nat>, src: seq<byte>, dst: seq<byte>)
    requires Origin(s, o) && |src| == |dst| == s.TotalBytes()
    ensures var r := Restore(s, o, dst, Image(s, o, src));
            forall p: nat :: p < |r| ==> r[p] == if Covered(p, ChunkOffs(s, o), Len(s, o)) then src[p] else dst[p]
  {
    ChunkBounds(s, o);
    PutHolds(Zeros(s.BlockBytes()), src, ChunkOffs(s, o), 0, Len(s, o), s.ChunkRowBytes());
    FetchHeld(dst, Image(s, o, src), src, ChunkOffs(s, o), 0, Len(s, o), s.ChunkRowBytes());
  }

  /** Reading chunks that hold the images of src restores exactly the bytes they cover. */
  lemma {:induction false} RestoreAllImages(ds: Dataset, s: Shape, filters: seq<Filter>, src: seq<byte>,
                                            dst: seq<byte>, os: seq<seq<nat>>, cap: nat)
    requires s.Valid() && AllOrigins(s, os) && |src| == |dst| == s.TotalBytes()
    requires Readable(ds, s, filters, os, cap) && HoldsImages(ds, s, filters, src, os)
    ensures var r := RestoreAll(ds, s, filters, dst, os, cap);
            forall p: nat :: p < |r| ==> r[p] == if Reached(s, os, p) then src[p] else dst[p]
    decreases |os|
  {
    if os != [] {
      var o, rest := os[0], os[1..];
      RestoreImage(s, o, src, dst);
      var dst' := Restore(s, o, dst, Image(s, o, src));
      RestoreAllImages(ds, s, filters, src, dst', rest, cap);
      var r := RestoreAll(ds, s, filters, dst, os, cap);
      forall p: nat | p < |r|
        ensures r[p] == if Reached(s, os, p) then src[p] else dst[p]
      {
        ReachedCons(s, os, p);
      }
    }
  }

  lemma ReachedCons(s: Shape, os: seq<seq<nat>>, p: nat)
    requires s.Valid() && AllOrigins(s, os) && os != []
    ensures Reached(s, os, p) <==> Covered(p, ChunkOffs(s, os[0]), Len(s, os[0])) || Reached(s, os[1..], p)
  {
    var rest := os[1..];
    if Reached(s, rest, p) {
      var k :| 0 <= k < |rest| && Covered(p, ChunkOffs(s, rest[k]), Len(s, rest[k]));
      assert os[k + 1] == rest[k];
    }
    if Reached(s, os, p) && !Covered(p, ChunkOffs(s, os[0]), Len(s, os[0])) {
      var k :| 0 <= k < |os| && Covered(p, ChunkOffs(s, os[k]), Len(s, os[k]));
      assert rest[k - 1] == os[k];
    }
  }

  /** On every chunk image of src the chain is reversible. */
  ghost predicate ChainReversible(s: Shape, filters: seq<Filter>, src: seq<byte>)
    requires s.Valid() && |src| == s.TotalBytes()
  {
    forall o {:trigger Image(s, o, src)} :: Origin(s, o) ==> Reversible(filters, 0, Image(s, o, src))
  }

  /** And gets through scratch buffers of the given capacity. */
  ghost predicate ChainFits(s: Shape, filters: seq<Filter>, src: seq<byte>, cap: nat)
    requires s.Valid() && |src| == s.TotalBytes()
  {
    forall o {:trigger Image(s, o, src)} :: Origin(s, o) ==> CanEncode(filters, 0, Image(s, o, src), cap)
  }

  ghost predicate ChainOk(s: Shape, filters: seq<Filter>, src: seq<byte>, cap: nat)
    requires s.Valid() && |src| == s.TotalBytes()
  {
    ChainReversible(s, filters, src) && ChainFits(s, filters, src, cap)
  }

  lemma OriginsLegal(s: Shape)
    requires s.Valid()
    ensures AllOrigins(s, Origins(s))
  {
    GridOrigins(s, |s.n|, []);
  }

  /** A freshly written dataset holds every image and can be read. */
  lemma WrittenReadable(ds: Dataset, s: Shape, filters: seq<Filter>, src: seq<byte>, cap: nat)
    requires s.Valid() && |src| == s.TotalBytes() && ChainOk(s, filters, src, cap)
    ensures AllOrigins(s, Origins(s))
    ensures var ds' := StoreAll(ds, s, filters, src, Origins(s));
            HoldsImages(ds', s, filters, src, Origins(s)) && Readable(ds', s, filters, Origins(s), cap)
  {
    OriginsLegal(s);
    var os := Origins(s);
    var ds' := StoreAll(ds, s, filters, src, os);
    StoredChunks(ds, s, filters, src, os);
    forall k | 0 <= k < |os|
      ensures Key(os[k]) in ds' && Decode(filters, ds'[Key(os[k])]) == Image(s, os[k], src)
      ensures ChunkReadable(ds', s, filters, os[k], cap)
    {
      FilterChain.RoundTrip(filters, Image(s, os[k], src));
      DecodeFits(filters, Image(s, os[k], src), cap);
    }
  }

  /** Chunks that hold the images of a source restore all of it. */
  lemma WholeRestored(ds: Dataset, s: Shape, filters: seq<Filter>, src: seq<byte>, dst: seq<byte>, cap: nat)
    requires s.Valid() && |src| == |dst| == s.TotalBytes() && AllOrigins(s, Origins(s))
    requires HoldsImages(ds, s, filters, src, Origins(s)) && Readable(ds, s, filters, Origins(s), cap)
    ensures RestoreAll(ds, s, filters, dst, Origins(s), cap) == src
  {
    var os := Origins(s);
    RestoreAllImages(ds, s, filters, src, dst, os, cap);
    var r := RestoreAll(ds, s, filters, dst, os, cap);
    forall p: nat | p < |r|
      ensures r[p] == src[p]
    {
      var o := Coverage(s, p);
      var k :| 0 <= k < |os| && os[k] == o;
      assert Reached(s, os, p);
    }
  }

  /** End-to-end round trip: for every rank, shape and chunk shape, writing a buffer through any
      reversible filter chain and reading the dataset back restores the buffer, whatever the
      dataset and the destination held before. */
  lemma RoundTrip(ds: Dataset, s: Shape, filters: seq<Filter>, src: seq<byte>, dst: seq<byte>, cap: nat)
    requires s.Valid() && |src| == |dst| == s.TotalBytes() && ChainOk(s, filters, src, cap)
    ensures AllOrigins(s, Origins(s))
    ensures var ds' := StoreAll(ds, s, filters, src, Origins(s));
            Readable(ds', s, filters, Origins(s), cap) && RestoreAll(ds', s, filters, dst, Origins(s), cap) == src
  {
    WrittenReadable(ds, s, filters, src, cap);
    WholeRestored(StoreAll(ds, s, filters, src, Origins(s)), s, filters, src, dst, cap);
  }
}
