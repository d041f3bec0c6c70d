/**
 Cutting an N-dimensional buffer into chunks: the rows a chunk visits, the image it stores and
 the buffer it restores, as functions of the shape.
 */
module Tiling {
  import opened Arith
  import opened Memory
  import opened RowCopy

  /** Dimensions fastest first (the source reverses dims into N and the chunk into B). The source
      pads both to seven with ones; those loops make a single pass at index 0. */
  datatype Shape = Shape(n: seq<nat>, b: seq<nat>, es: nat) {
    predicate Valid() {
      0 < |n| == |b| && es > 0 && forall k :: 0 <= k < |b| ==> b[k] > 0
    }

    /** Bytes of one source row and of one chunk row. */
    function RowBytes(): nat
      requires |n| > 0
    {
      n[0] * es
    }

    function ChunkRowBytes(): nat
      requires |b| > 0
    {
      b[0] * es
    }

    function TotalBytes(): nat
      requires |n| > 0
    {
      Volume(n, |n|) * RowBytes()
    }

    /** block_size */
    function BlockBytes(): nat
      requires |b| > 0
    {
      Volume(b, |b|) * ChunkRowBytes()
    }
  }

  /** dims[1] * ... * dims[d-1]: the rows spanned by one step of dimension d. */
  function Volume(dims: seq<nat>, d: nat): (v: nat)
    requires 1 <= d <= |dims|
    decreases d
  {
    if d == 1 then 1 else dims[d - 1] * Volume(dims, d - 1)
  }

  function Min(a: nat, b: nat): (m: nat) {
    if a < b then a else b
  }

  /** j is one of 0, b, 2b, ...: where the outer loops put a chunk. */
  predicate Multiple(j: nat, b: nat)
    requires b > 0
  {
    j == 0 || (j >= b && Multiple(j - b, b))
  }

  /** A chunk origin: one multiple of the chunk extent per dimension, inside the data. */
  ghost predicate Origin(s: Shape, j: seq<nat>) {
    s.Valid() && |j| == |s.n| && forall k :: 0 <= k < |j| ==> j[k] < s.n[k] && Multiple(j[k], s.b[k])
  }

  /** Where the loop over dimension d of a chunk ends: min(j + b, n). */
  function End(s: Shape, j: seq<nat>, d: nat): (e: nat)
    requires s.Valid() && d < |j| == |s.n|
  {
    Min(j[d] + s.b[d], s.n[d])
  }

  /** Byte offset of a chunk's part of source row `row`. */
  function At(s: Shape, j: seq<nat>, row: nat): (p: nat)
    requires s.Valid() && |j| == |s.n|
  {
    row * s.RowBytes() + j[0] * s.es
  }

  /** The source offsets visited inside a chunk, in visiting order: the nest over dimensions
      d..1, `base` rows into the buffer. */
  function Offs(s: Shape, j: seq<nat>, d: nat, base: nat): (offs: seq<nat>)
    requires s.Valid() && d < |j| == |s.n|
    decreases d, 0, 0
  {
    if d == 0 then [At(s, j, base)] else OffsLoop(s, j, d, j[d], base)
  }

  function OffsLoop(s: Shape, j: seq<nat>, d: nat, i: nat, base: nat): (offs: seq<nat>)
    requires s.Valid() && 0 < d < |j| == |s.n|
    decreases d - 1, 1, End(s, j, d) - i
  {
    if i >= End(s, j, d) then []
    else Offs(s, j, d - 1, base + i * Volume(s.n, d)) + OffsLoop(s, j, d, i + 1, base)
  }

  function ChunkOffs(s: Shape, j: seq<nat>): (offs: seq<nat>)
    requires s.Valid() && |j| == |s.n|
  {
    Offs(s, j, |j| - 1, 0)
  }

  /** Bytes copied per row: a full chunk row, or what is left at the trailing edge. */
  function Len(s: Shape, j: seq<nat>): (len: nat)
    requires s.Valid() && |j| == |s.n| && j[0] < s.n[0]
  {
    Min(s.b[0], s.n[0] - j[0]) * s.es
  }

  // ---- bounds: rows stay inside the source, slots inside the chunk ----

  lemma RowInside(s: Shape, j: seq<nat>, row: nat, rows: nat)
    requires s.Valid() && |j| == |s.n| && j[0] < s.n[0] && row < rows
    ensures Len(s, j) <= s.ChunkRowBytes()
    ensures At(s, j, row) + Len(s, j) <= rows * s.RowBytes()
  {
    var m, L := Min(s.b[0], s.n[0] - j[0]), s.RowBytes();
    MulMono(m, s.b[0], s.es);
    assert j[0] * s.es + m * s.es == (j[0] + m) * s.es;
    MulMono(j[0] + m, s.n[0], s.es);
    MulSucc(row, L);
    MulMono(row + 1, rows, L);
  }

  /** Digit d of a row number stays below the volume of the dimensions up to d. */
  lemma StepInside(i: nat, n: nat, v: nat, base: nat, rows: nat)
    requires i < n && base + n * v <= rows
    ensures base + i * v + v <= rows
  {
    MulSucc(i, v);
    MulMono(i + 1, n, v);
  }

  lemma {:induction false} OffsInside(s: Shape, j: seq<nat>, d: nat, base: nat, rows: nat)
    requires s.Valid() && d < |j| == |s.n| && j[0] < s.n[0]
    requires base + Volume(s.n, d + 1) <= rows
    ensures Inside(Offs(s, j, d, base), Len(s, j), rows * s.RowBytes())
    decreases d, 0, 0
  {
    if d == 0 {
      RowInside(s, j, base, rows);
    } else {
      OffsLoopInside(s, j, d, j[d], base, rows);
    }
  }

  lemma {:induction false} OffsLoopInside(s: Shape, j: seq<nat>, d: nat, i: nat, base: nat, rows: nat)
    requires s.Valid() && 0 < d < |j| == |s.n| && j[0] < s.n[0]
    requires base + Volume(s.n, d + 1) <= rows
    ensures Inside(OffsLoop(s, j, d, i, base), Len(s, j), rows * s.RowBytes())
    decreases d - 1, 1, End(s, j, d) - i
  {
    if i < End(s, j, d) {
      var v := Volume(s.n, d);
      StepInside(i, s.n[d], v, base, rows);
      OffsInside(s, j, d - 1, base + i * v, rows);
      OffsLoopInside(s, j, d, i + 1, base, rows);
      InsideConcat(Offs(s, j, d - 1, base + i * v), OffsLoop(s, j, d, i + 1, base), Len(s, j), rows * s.RowBytes());
    }
  }

  /** Slots used by the nest over dimensions d..1: the product of its clipped extents. */
  function Slots(s: Shape, j: seq<nat>, d: nat): (c: nat)
    requires s.Valid() && d < |j| == |s.n| && forall k :: 0 <= k < |j| ==> j[k] <= s.n[k]
    decreases d
  {
    if d == 0 then 1 else (End(s, j, d) - j[d]) * Slots(s, j, d - 1)
  }

  lemma {:induction false} OffsCount(s: Shape, j: seq<nat>, d: nat, base: nat)
    requires s.Valid() && d < |j| == |s.n| && forall k :: 0 <= k < |j| ==> j[k] <= s.n[k]
    ensures |Offs(s, j, d, base)| == Slots(s, j, d)
    decreases d, 0, 0
  {
    if d > 0 { OffsLoopCount(s, j, d, j[d], base); }
  }

  lemma {:induction false} OffsLoopCount(s: Shape, j: seq<nat>, d: nat, i: nat, base: nat)
    requires s.Valid() && 0 < d < |j| == |s.n| && forall k :: 0 <= k < |j| ==> j[k] <= s.n[k]
    requires i <= End(s, j, d)
    ensures |OffsLoop(s, j, d, i, base)| == (End(s, j, d) - i) * Slots(s, j, d - 1)
    decreases d - 1, 1, End(s, j, d) - i
  {
    if i < End(s, j, d) {
      OffsCount(s, j, d - 1, base + i * Volume(s.n, d));
      OffsLoopCount(s, j, d, i + 1, base);
      MulSucc(End(s, j, d) - i - 1, Slots(s, j, d - 1));
    }
  }

  lemma {:induction false} SlotsBound(s: Shape, j: seq<nat>, d: nat)
    requires s.Valid() && d < |j| == |s.n| && forall k :: 0 <= k < |j| ==> j[k] <= s.n[k]
    ensures Slots(s, j, d) <= Volume(s.b, d + 1)
  {
    if d > 0 {
      SlotsBound(s, j, d - 1);
      var e, c, v := End(s, j, d) - j[d], Slots(s, j, d - 1), Volume(s.b, d);
      MulMono(e, s.b[d], c);
      MulMono(c, v, s.b[d]);
      assert s.b[d] * c == c * s.b[d] && s.b[d] * v == v * s.b[d];
    }
  }

  /** The rows of a chunk lie inside the source buffer and their slots inside the block. */
  lemma ChunkBounds(s: Shape, j: seq<nat>)
    requires Origin(s, j)
    ensures Len(s, j) <= s.ChunkRowBytes()
    ensures Inside(ChunkOffs(s, j), Len(s, j), s.TotalBytes())
    ensures Fits(ChunkOffs(s, j), 0, s.ChunkRowBytes(), s.BlockBytes())
  {
    var d := |j| - 1;
    RowInside(s, j, 0, 1);
    OffsInside(s, j, d, 0, Volume(s.n, d + 1));
    OffsCount(s, j, d, 0);
    AdvanceBy(ChunkOffs(s, j), 0, s.ChunkRowBytes());
    SlotsBound(s, j, d);
    MulMono(Slots(s, j, d), Volume(s.b, d + 1), s.ChunkRowBytes());
    FitsAdvance(ChunkOffs(s, j), 0, s.ChunkRowBytes(), s.BlockBytes());
  }

  /** The image handed to write_chunk: rows in their slots, zeros elsewhere. */
  function Image(s: Shape, j: seq<nat>, src: seq<byte>): (img: seq<byte>)
    requires Origin(s, j) && |src| == s.TotalBytes()
    ensures |img| == s.BlockBytes()
  {
    ChunkBounds(s, j);
    PutRows(Zeros(s.BlockBytes()), src, ChunkOffs(s, j), 0, Len(s, j), s.ChunkRowBytes())
  }

  /** What reading a chunk image leaves in the destination. */
  function Restore(s: Shape, j: seq<nat>, dst: seq<byte>, img: seq<byte>): (r: seq<byte>)
    requires Origin(s, j) && |dst| == s.TotalBytes() && s.BlockBytes() <= |img|
    ensures |r| == |dst|
  {
    ChunkBounds(s, j);
    FitsAdvance(ChunkOffs(s, j), 0, s.ChunkRowBytes(), s.BlockBytes());
    FitsAdvance(ChunkOffs(s, j), 0, s.ChunkRowBytes(), |img|);
    FetchRows(dst, img, ChunkOffs(s, j), 0, Len(s, j), s.ChunkRowBytes())
  }

  /** The chunk touches the end of some dimension: j + b > n. */
  predicate Edge(s: Shape, j: seq<nat>)
    requires s.Valid() && |j| == |s.n|
  {
    exists k :: 0 <= k < |j| && j[k] + s.b[k] > s.n[k]
  }

  lemma {:induction false} FullSlots(s: Shape, j: seq<nat>, d: nat)
    requires s.Valid() && d < |j| == |s.n| && !Edge(s, j)
    ensures Slots(s, j, d) == Volume(s.b, d + 1)
  {
    if d > 0 { FullSlots(s, j, d - 1); }
  }

  /** Away from the edges the rows fill the whole block, so a stale chunk buffer does no harm. */
  lemma InnerImage(s: Shape, j: seq<nat>, src: seq<byte>, stale: seq<byte>)
    requires Origin(s, j) && !Edge(s, j) && |src| == s.TotalBytes() && |stale| == s.BlockBytes()
    ensures Len(s, j) == s.ChunkRowBytes() && Fits(ChunkOffs(s, j), 0, s.ChunkRowBytes(), s.BlockBytes())
    ensures Inside(ChunkOffs(s, j), Len(s, j), s.TotalBytes())
    ensures PutRows(stale, src, ChunkOffs(s, j), 0, Len(s, j), s.ChunkRowBytes()) == Image(s, j, src)
  {
    ChunkBounds(s, j);
    assert j[0] + s.b[0] <= s.n[0];
    OffsCount(s, j, |j| - 1, 0);
    AdvanceBy(ChunkOffs(s, j), 0, s.ChunkRowBytes());
    FullSlots(s, j, |j| - 1);
    PutFills(stale, Zeros(s.BlockBytes()), src, ChunkOffs(s, j), 0, Len(s, j));
  }
}
