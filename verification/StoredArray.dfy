/**
 The dataset as its callers see it: dimensions and chunk offsets slowest first, elements in C order. What a
 chunk holds after a write, and what a read makes of such chunks, without the reversed coordinates of
 the loops.
 */
module StoredArray {
  import opened Arith
  import opened Memory
  import opened Tiling
  import opened FilterChain
  import opened ChunkGrid
  import opened BasicPipeline
  import opened CallOrder
  import Layout
  import InPlace

  // ---- C order ----

  /** Elements of an array with these dimensions. */
  function Cells(dims: seq<nat>): (n: nat) {
    if dims == [] then 1 else Cells(dims[..|dims| - 1]) * dims[|dims| - 1]
  }

  /** Position of the element at coordinates x: the last dimension varies fastest. */
  function CIndex(dims: seq<nat>, x: seq<nat>): (i: nat)
    requires |x| == |dims|
  {
    if dims == [] then 0 else CIndex(dims[..|dims| - 1], x[..|dims| - 1]) * dims[|dims| - 1] + x[|dims| - 1]
  }

  predicate Below(x: seq<nat>, dims: seq<nat>) {
    |x| == |dims| && forall i :: 0 <= i < |x| ==> x[i] < dims[i]
  }

  function Plus(c: seq<nat>, x: seq<nat>): (y: seq<nat>)
    requires |c| == |x|
    ensures |y| == |c| && forall i :: 0 <= i < |y| ==> y[i] == c[i] + x[i]
  {
    seq(|c|, i requires 0 <= i < |c| => c[i] + x[i])
  }

  lemma {:induction false} CellsFront(dims: seq<nat>)
    requires dims != []
    ensures Cells(dims) == dims[0] * Cells(dims[1..])
  {
    if |dims| == 1 {
      assert dims[..0] == [] && dims[1..] == [];
    } else {
      var init, last := dims[..|dims| - 1], dims[|dims| - 1];
      CellsFront(init);
      assert dims[1..][..|dims| - 2] == init[1..];
      assert (dims[0] * Cells(init[1..])) * last == dims[0] * (Cells(init[1..]) * last);
    }
  }

  lemma {:induction false} CIndexFront(dims: seq<nat>, x: seq<nat>)
    requires dims != [] && |x| == |dims|
    ensures CIndex(dims, x) == x[0] * Cells(dims[1..]) + CIndex(dims[1..], x[1..])
  {
    if |dims| == 1 {
      assert dims[..0] == x[..0] == dims[1..] == x[1..] == [];
    } else {
      var n, last := |dims| - 1, dims[|dims| - 1];
      CIndexFront(dims[..n], x[..n]);
      assert dims[1..][..n - 1] == dims[..n][1..] && x[1..][..n - 1] == x[..n][1..];
      var a, v, r := x[0], Cells(dims[..n][1..]), CIndex(dims[..n][1..], x[..n][1..]);
      assert CIndex(dims, x) == CIndex(dims[..n], x[..n]) * last + x[n];
      assert CIndex(dims[1..], x[1..]) == r * last + x[n] && Cells(dims[1..]) == v * last;
      hide CIndex, Cells;
      Distribute(a, v, r, last);
    }
  }

  lemma Distribute(a: nat, v: nat, r: nat, last: nat)
    ensures (a * v + r) * last == a * (v * last) + r * last
  {
    assert (a * v) * last == a * (v * last);
  }

  lemma {:induction false} CIndexBelow(dims: seq<nat>, x: seq<nat>)
    requires Below(x, dims)
    ensures CIndex(dims, x) < Cells(dims)
  {
    if dims != [] {
      var n := |dims| - 1;
      CIndexBelow(dims[..n], x[..n]);
      MulMono(CIndex(dims[..n], x[..n]) + 1, Cells(dims[..n]), dims[n]);
      MulSucc(CIndex(dims[..n], x[..n]), dims[n]);
    }
  }

  /** Every position belongs to some coordinates. */
  lemma {:induction false} Coordinates(dims: seq<nat>, i: nat) returns (x: seq<nat>)
    requires i < Cells(dims)
    ensures Below(x, dims) && CIndex(dims, x) == i
  {
    if dims == [] {
      x := [];
    } else {
      var n := |dims| - 1;
      QuotientBelow(i, Cells(dims[..n]), dims[n]);
      var y := Coordinates(dims[..n], i / dims[n]);
      x := y + [i % dims[n]];
      assert x[..n] == y;
    }
  }

  // ---- a chunk of an array ----

  /** Where the dataset keeps chunks: at multiples of the chunk extents inside the data. */
  ghost predicate ChunkOffset(c: seq<nat>, dims: seq<nat>, chunk: seq<nat>) {
    |chunk| == |dims| && Below(c, dims) && forall i :: 0 <= i < |c| ==> chunk[i] > 0 && c[i] % chunk[i] == 0
  }

  /** A middle dimension the data's edge cuts has no slower one with several rows in this chunk. */
  ghost predicate Aligned(c: seq<nat>, dims: seq<nat>, chunk: seq<nat>)
    requires |c| == |dims| == |chunk|
  {
    forall m, i :: 0 <= m < i < |dims| - 1 ==> c[i] + chunk[i] <= dims[i] || chunk[m] == 1 || c[m] + 1 == dims[m]
  }

  /** Byte p of a block and byte q of a buffer are byte t of the chunk's element x. */
  predicate SameByte(c: seq<nat>, dims: seq<nat>, chunk: seq<nat>, es: nat, x: seq<nat>, t: nat, p: nat, q: nat) {
    && |c| == |dims| == |chunk| && Below(x, chunk) && t < es
    && p == CIndex(chunk, x) * es + t && q == CIndex(dims, Plus(c, x)) * es + t
  }

  /** The block holds the array's elements from offset c on, and zero where there are none. */
  ghost predicate ChunkHolds(block: seq<byte>, c: seq<nat>, dims: seq<nat>, chunk: seq<nat>, es: nat, src: seq<byte>)
    requires |c| == |dims| == |chunk|
  {
    && |block| == Cells(chunk) * es && |src| == Cells(dims) * es
    && forall x: seq<nat>, t: nat, p: nat, q: nat {:trigger SameByte(c, dims, chunk, es, x, t, p, q)} ::
         SameByte(c, dims, chunk, es, x, t, p, q) ==>
           p < |block| && if Below(Plus(c, x), dims) then q < |src| && block[p] == src[q] else block[p] == 0
  }

  // ---- the loops' coordinates ----

  /** The rows spanned by a step of loop dimension d. */
  lemma {:induction false} VolumeCells(dims: seq<nat>, d: nat)
    requires 1 <= d <= |dims|
    ensures Volume(Key(dims), d) == Cells(dims[|dims| - d..|dims| - 1])
    decreases d
  {
    var r := |dims|;
    if d > 1 {
      VolumeCells(dims, d - 1);
      var tail := dims[r - d..r - 1];
      CellsFront(tail);
      assert tail[1..] == dims[r - (d - 1)..r - 1] && tail[0] == dims[r - d] == Key(dims)[d - 1];
    }
  }

  lemma SizesAre(dims: seq<nat>, chunk: seq<nat>, es: nat)
    requires |dims| == |chunk| > 0
    ensures var s := Shape(Key(dims), Key(chunk), es);
            s.TotalBytes() == Cells(dims) * es && s.BlockBytes() == Cells(chunk) * es
  {
    SizeIs(dims, es);
    SizeIs(chunk, es);
  }

  lemma SizeIs(dims: seq<nat>, es: nat)
    requires dims != []
    ensures Volume(Key(dims), |dims|) * (Key(dims)[0] * es) == Cells(dims) * es
  {
    var r := |dims|;
    VolumeCells(dims, r);
    assert dims[r - r..r - 1] == dims[..r - 1] && Key(dims)[0] == dims[r - 1];
    Associate(Cells(dims[..r - 1]), dims[r - 1], es);
  }

  lemma Associate(a: nat, b: nat, c: nat)
    ensures a * (b * c) == (a * b) * c
  {}

  lemma DivisibleMultiple(j: nat, b: nat)
    requires b > 0 && j % b == 0
    ensures Multiple(j, b)
  {
    IsMultiple(j / b, b);
    assert j == j / b * b;
  }

  lemma {:induction false} MultipleDivisible(j: nat, b: nat)
    requires b > 0 && Multiple(j, b)
    ensures j % b == 0
  {
    if j > 0 {
      MultipleDivisible(j - b, b);
      AddMultiple(j - b, 1, b);
    }
  }

  /** Offsets of the dataset are origins of the loops, reversed. */
  lemma OffsetOrigin(c: seq<nat>, dims: seq<nat>, chunk: seq<nat>, es: nat)
    requires ChunkOffset(c, dims, chunk) && dims != [] && es > 0
    ensures Origin(Shape(Key(dims), Key(chunk), es), Key(c)) && Key(Key(c)) == c
  {
    forall k | 0 <= k < |c|
      ensures Key(c)[k] < Key(dims)[k] && Key(chunk)[k] > 0 && Multiple(Key(c)[k], Key(chunk)[k])
    {
      DivisibleMultiple(c[|c| - k - 1], chunk[|c| - k - 1]);
    }
  }

  lemma OriginOffset(o: seq<nat>, dims: seq<nat>, chunk: seq<nat>, es: nat)
    requires |dims| == |chunk| && Origin(Shape(Key(dims), Key(chunk), es), o)
    ensures ChunkOffset(Key(o), dims, chunk) && Key(Key(o)) == o
  {
    forall i | 0 <= i < |o|
      ensures Key(o)[i] < dims[i] && chunk[i] > 0 && Key(o)[i] % chunk[i] == 0
    {
      var k := |o| - i - 1;
      assert Key(dims)[k] == dims[i] && Key(chunk)[k] == chunk[i];
      MultipleDivisible(o[k], chunk[i]);
    }
  }

  lemma AlignedOrigin(c: seq<nat>, dims: seq<nat>, chunk: seq<nat>, es: nat)
    requires ChunkOffset(c, dims, chunk) && dims != [] && es > 0 && Aligned(c, dims, chunk)
    requires Origin(Shape(Key(dims), Key(chunk), es), Key(c))
    ensures Layout.Aligned(Shape(Key(dims), Key(chunk), es), Key(c), |c| - 1)
  {
    var s, o, r := Shape(Key(dims), Key(chunk), es), Key(c), |c|;
    forall q, m | 1 <= q < m <= r - 1
      ensures Layout.Ext(s, o, q) == s.b[q] || Layout.Ext(s, o, m) == 1
    {
      var i, j := r - 1 - q, r - 1 - m;
      assert o[q] == c[i] && s.b[q] == chunk[i] && s.n[q] == dims[i];
      assert o[m] == c[j] && s.b[m] == chunk[j] && s.n[m] == dims[j];
      assert c[i] + chunk[i] <= dims[i] || chunk[j] == 1 || c[j] + 1 == dims[j];
    }
  }

  /** Chunk row k is this source row, and lies inside the data or not. */
  ghost predicate RowIs(s: Shape, o: seq<nat>, d: nat, k: nat, row: nat, inside: bool)
    requires Origin(s, o) && d < |o|
  {
    Layout.LocalRow(s, o, d, k) == row && Layout.InData(s, o, d, k) == inside
  }

  /** The element's row inside the chunk, and the source row it comes from, up to loop dimension d. */
  lemma {:induction false} RowOf(c: seq<nat>, dims: seq<nat>, chunk: seq<nat>, es: nat, x: seq<nat>, y: seq<nat>,
                                 d: nat, lo: nat, hi: nat)
    requires ChunkOffset(c, dims, chunk) && es > 0 && Below(x, chunk) && y == Plus(c, x)
    requires hi + 1 == |c| && lo + d == hi && Origin(Shape(Key(dims), Key(chunk), es), Key(c))
    ensures RowIs(Shape(Key(dims), Key(chunk), es), Key(c), d, CIndex(chunk[lo..hi], x[lo..hi]),
                  CIndex(dims[lo..hi], y[lo..hi]), Below(y[lo..hi], dims[lo..hi]))
    decreases d
  {
    if d > 0 {
      var s, o := Shape(Key(dims), Key(chunk), es), Key(c);
      RowOf(c, dims, chunk, es, x, y, d - 1, lo + 1, hi);
      var low, row := CIndex(chunk[lo + 1..hi], x[lo + 1..hi]), CIndex(dims[lo + 1..hi], y[lo + 1..hi]);
      var inside := Below(y[lo + 1..hi], dims[lo + 1..hi]);
      VolumeBelow(chunk, d, lo, hi);
      VolumeBelow(dims, d, lo, hi);
      CIndexBelow(chunk[lo + 1..hi], x[lo + 1..hi]);
      FrontOf(chunk, x, lo, hi);
      FrontOf(dims, y, lo, hi);
      BelowFront(y, dims, lo, hi);
      assert o[d] == c[lo] && s.n[d] == dims[lo] && y[lo] == o[d] + x[lo];
      hide RowIs, CIndex, Cells, Volume, Below, ChunkOffset, Key, Origin, Plus;
      DigitStep(s, o, d, CIndex(chunk[lo..hi], x[lo..hi]), x[lo], y[lo], low, row, inside, Volume(s.b, d), Volume(s.n, d));
    }
  }

  lemma VolumeBelow(dims: seq<nat>, d: nat, lo: nat, hi: nat)
    requires 1 <= d <= |dims| && lo + 1 == |dims| - d && hi == |dims| - 1
    ensures Volume(Key(dims), d) == Cells(dims[lo + 1..hi])
  {
    VolumeCells(dims, d);
  }

  /** One digit more. */
  lemma DigitStep(s: Shape, o: seq<nat>, d: nat, k: nat, digit: nat, x: nat, low: nat, row: nat, inside: bool, v: nat, v': nat)
    requires Origin(s, o) && 0 < d < |o| && v == Volume(s.b, d) && v' == Volume(s.n, d)
    requires low < v && k == digit * v + low && x == o[d] + digit && RowIs(s, o, d - 1, low, row, inside)
    ensures RowIs(s, o, d, k, x * v' + row, x < s.n[d] && inside)
  {
    DivModUnique(digit, low, v);
  }

  lemma FrontOf(dims: seq<nat>, x: seq<nat>, lo: nat, hi: nat)
    requires |x| == |dims| && lo < hi <= |dims|
    ensures CIndex(dims[lo..hi], x[lo..hi]) == x[lo] * Cells(dims[lo + 1..hi]) + CIndex(dims[lo + 1..hi], x[lo + 1..hi])
  {
    CIndexFront(dims[lo..hi], x[lo..hi]);
    assert dims[lo..hi][1..] == dims[lo + 1..hi] && x[lo..hi][1..] == x[lo + 1..hi];
  }

  lemma BelowFront(y: seq<nat>, dims: seq<nat>, lo: nat, hi: nat)
    requires |y| == |dims| && lo < hi <= |dims|
    ensures Below(y[lo..hi], dims[lo..hi]) <==> y[lo] < dims[lo] && Below(y[lo + 1..hi], dims[lo + 1..hi])
  {
    var a, b := y[lo..hi], dims[lo..hi];
    assert a[0] == y[lo] && b[0] == dims[lo] && a[1..] == y[lo + 1..hi] && b[1..] == dims[lo + 1..hi];
    if y[lo] < dims[lo] && Below(a[1..], b[1..]) {
      forall i | 0 <= i < |a|
        ensures a[i] < b[i]
      {
        if i > 0 { assert a[i] == a[1..][i - 1] && b[i] == b[1..][i - 1]; }
      }
    }
    if Below(a, b) {
      forall i | 0 <= i < |a| - 1
        ensures a[1..][i] < b[1..][i]
      {
        assert a[i + 1] < b[i + 1];
      }
    }
  }

  lemma BelowLast(y: seq<nat>, dims: seq<nat>)
    requires |y| == |dims| > 0
    ensures Below(y, dims) <==> Below(y[..|y| - 1], dims[..|y| - 1]) && y[|y| - 1] < dims[|y| - 1]
  {}

  /** Byte t of element x of a chunk, in chunk rows. */
  lemma InRows(k: nat, last: nat, len: nat, es: nat, t: nat)
    ensures (k * len + last) * es + t == k * (len * es) + (last * es + t)
  {
    Associate(k, len, es);
  }

  lemma InRow(x: nat, len: nat, es: nat, t: nat)
    requires t < es
    ensures x * es + t < len * es <==> x < len
  {
    if x < len {
      MulMono(x + 1, len, es);
      MulSucc(x, es);
    } else {
      MulMono(len, x, es);
    }
  }

  /** The image of an aligned chunk is the chunk of the array. */
  lemma ImageByte(c: seq<nat>, dims: seq<nat>, chunk: seq<nat>, es: nat, src: seq<byte>, x: seq<nat>, t: nat, p: nat, q: nat)
    requires ChunkOffset(c, dims, chunk) && dims != [] && es > 0 && Aligned(c, dims, chunk)
    requires |src| == Cells(dims) * es && SameByte(c, dims, chunk, es, x, t, p, q)
    ensures var s, o := Shape(Key(dims), Key(chunk), es), Key(c);
            && Origin(s, o) && |src| == s.TotalBytes() && p < |Image(s, o, src)|
            && if Below(Plus(c, x), dims) then q < |src| && Image(s, o, src)[p] == src[q] else Image(s, o, src)[p] == 0
  {
    var n, y := |c| - 1, Plus(c, x);
    OffsetOrigin(c, dims, chunk, es);
    SizesAre(dims, chunk, es);
    AlignedOrigin(c, dims, chunk, es);
    var s, o := Shape(Key(dims), Key(chunk), es), Key(c);
    var k, row := CIndex(chunk[..n], x[..n]), CIndex(dims[..n], y[..n]);
    ElementCell(c, dims, chunk, es, x, t, p, q, k, row);
    WholeRow(c, dims, chunk, es, x);
    BelowLast(y, dims);
    KeyEnds(c, dims, chunk);
    hide CIndex, Cells, RowCell, Layout.LocalRow, Layout.InData, Layout.Aligned, Aligned, Origin, Below, ChunkOffset, Key, SameByte;
    RowByte(s, o, src, k, row, x[n], t, p, q);
  }

  /** Byte p of the image and byte q of the source, in chunk row k and source row `row`. */
  ghost predicate RowCell(s: Shape, o: seq<nat>, k: nat, row: nat, x: nat, t: nat, p: nat, q: nat)
    requires Origin(s, o)
  {
    && k < Volume(s.b, |s.b|) && x * s.es + t < s.ChunkRowBytes()
    && (x * s.es + t < Len(s, o) <==> o[0] + x < s.n[0])
    && p == (k * s.b[0] + x) * s.es + t && q == (row * s.n[0] + (o[0] + x)) * s.es + t
  }

  lemma ElementCell(c: seq<nat>, dims: seq<nat>, chunk: seq<nat>, es: nat, x: seq<nat>, t: nat, p: nat, q: nat,
                    k: nat, row: nat)
    requires ChunkOffset(c, dims, chunk) && dims != [] && es > 0 && SameByte(c, dims, chunk, es, x, t, p, q)
    requires Origin(Shape(Key(dims), Key(chunk), es), Key(c))
    requires k == CIndex(chunk[..|c| - 1], x[..|c| - 1]) && row == CIndex(dims[..|c| - 1], Plus(c, x)[..|c| - 1])
    ensures RowCell(Shape(Key(dims), Key(chunk), es), Key(c), k, row, x[|c| - 1], t, p, q)
  {
    IndexEnds(chunk, x, es, t, p, k);
    IndexEnds(dims, Plus(c, x), es, t, q, row);
    KeyEnds(c, dims, chunk);
    LastInRow(c, dims, chunk, es, x, t);
    ChunkRow(chunk, x, |c| - 1);
    hide CIndex, Cells, Volume, SameByte;
  }

  lemma IndexEnds(dims: seq<nat>, x: seq<nat>, es: nat, t: nat, p: nat, k: nat)
    requires |x| == |dims| > 0 && p == CIndex(dims, x) * es + t && k == CIndex(dims[..|x| - 1], x[..|x| - 1])
    ensures p == (k * dims[|x| - 1] + x[|x| - 1]) * es + t
  {}

  /** Element x of chunk row k, which is source row `row`. */
  lemma RowByte(s: Shape, o: seq<nat>, src: seq<byte>, k: nat, row: nat, x: nat, t: nat, p: nat, q: nat)
    requires Origin(s, o) && |src| == s.TotalBytes() && Layout.Aligned(s, o, |o| - 1)
    requires RowCell(s, o, k, row, x, t, p, q) && Layout.LocalRow(s, o, |o| - 1, k) == row
    ensures p < |Image(s, o, src)|
    ensures if Layout.InData(s, o, |o| - 1, k) && o[0] + x < s.n[0] then q < |src| && Image(s, o, src)[p] == src[q]
            else Image(s, o, src)[p] == 0
  {
    InRows(k, x, s.b[0], s.es, t);
    SourceByte(row, s.n[0], o[0], x, s.es, t);
    hide Layout.LocalRow, Layout.InData, Layout.Aligned, Volume;
    Layout.AlignedImage(s, o, src, k, x * s.es + t, p);
  }

  lemma KeyEnds(c: seq<nat>, dims: seq<nat>, chunk: seq<nat>)
    requires |c| == |dims| == |chunk| > 0
    ensures var n := |c| - 1; Key(c)[0] == c[n] && Key(dims)[0] == dims[n] && Key(chunk)[0] == chunk[n]
  {}

  lemma WholeRow(c: seq<nat>, dims: seq<nat>, chunk: seq<nat>, es: nat, x: seq<nat>)
    requires ChunkOffset(c, dims, chunk) && dims != [] && es > 0 && Below(x, chunk)
    requires Origin(Shape(Key(dims), Key(chunk), es), Key(c))
    ensures var s, o, n := Shape(Key(dims), Key(chunk), es), Key(c), |c| - 1;
            var k := CIndex(chunk[..n], x[..n]);
            && Layout.LocalRow(s, o, n, k) == CIndex(dims[..n], Plus(c, x)[..n])
            && (Layout.InData(s, o, n, k) <==> Below(Plus(c, x)[..n], dims[..n]))
  {
    var n, y := |c| - 1, Plus(c, x);
    RowOf(c, dims, chunk, es, x, y, n, 0, n);
    assert chunk[0..n] == chunk[..n] && x[0..n] == x[..n] && dims[0..n] == dims[..n] && y[0..n] == y[..n];
  }

  /** The byte lies in its chunk row, and in the data when its element does. */
  lemma LastInRow(c: seq<nat>, dims: seq<nat>, chunk: seq<nat>, es: nat, x: seq<nat>, t: nat)
    requires ChunkOffset(c, dims, chunk) && dims != [] && Below(x, chunk) && t < es
    requires Origin(Shape(Key(dims), Key(chunk), es), Key(c))
    ensures var s, o, n := Shape(Key(dims), Key(chunk), es), Key(c), |c| - 1;
            && x[n] * es + t < s.ChunkRowBytes()
            && (x[n] * es + t < Len(s, o) <==> c[n] + x[n] < dims[n])
  {
    var n := |c| - 1;
    KeyEnds(c, dims, chunk);
    InRow(x[n], chunk[n], es, t);
    InRow(x[n], Min(chunk[n], dims[n] - c[n]), es, t);
  }

  lemma ChunkRow(chunk: seq<nat>, x: seq<nat>, n: nat)
    requires Below(x, chunk) && |chunk| == n + 1
    ensures CIndex(chunk[..n], x[..n]) < Volume(Key(chunk), |chunk|)
  {
    CIndexBelow(chunk[..n], x[..n]);
    VolumeCells(chunk, |chunk|);
    assert chunk[|chunk| - |chunk|..n] == chunk[..n];
  }

  lemma SourceByte(row: nat, len: nat, c: nat, x: nat, es: nat, t: nat)
    ensures row * (len * es) + c * es + (x * es + t) == (row * len + (c + x)) * es + t
  {
    Associate(row, len, es);
  }

  lemma ImageHolds(c: seq<nat>, dims: seq<nat>, chunk: seq<nat>, es: nat, src: seq<byte>)
    requires ChunkOffset(c, dims, chunk) && dims != [] && es > 0 && Aligned(c, dims, chunk) && |src| == Cells(dims) * es
    ensures var s, o := Shape(Key(dims), Key(chunk), es), Key(c);
            Origin(s, o) && |src| == s.TotalBytes() && ChunkHolds(Image(s, o, src), c, dims, chunk, es, src)
  {
    var s, o := Shape(Key(dims), Key(chunk), es), Key(c);
    OffsetOrigin(c, dims, chunk, es);
    SizesAre(dims, chunk, es);
    forall x: seq<nat>, t: nat, p: nat, q: nat {:trigger SameByte(c, dims, chunk, es, x, t, p, q)} |
      SameByte(c, dims, chunk, es, x, t, p, q)
      ensures p < |Image(s, o, src)|
      ensures if Below(Plus(c, x), dims) then q < |src| && Image(s, o, src)[p] == src[q] else Image(s, o, src)[p] == 0
    {
      ImageByte(c, dims, chunk, es, src, x, t, p, q);
    }
  }

  /** Only one block holds the chunk. */
  lemma OneBlock(a: seq<byte>, b: seq<byte>, c: seq<nat>, dims: seq<nat>, chunk: seq<nat>, es: nat, src: seq<byte>)
    requires |c| == |dims| == |chunk| && es > 0
    requires ChunkHolds(a, c, dims, chunk, es, src) && ChunkHolds(b, c, dims, chunk, es, src)
    ensures a == b
  {
    forall p: nat | p < |a|
      ensures a[p] == b[p]
    {
      var x, t, q := ByteOf(c, dims, chunk, es, p);
      hide SameByte, Below;
      assert SameByte(c, dims, chunk, es, x, t, p, q);
    }
  }

  lemma ByteOf(c: seq<nat>, dims: seq<nat>, chunk: seq<nat>, es: nat, p: nat) returns (x: seq<nat>, t: nat, q: nat)
    requires |c| == |dims| == |chunk| && es > 0 && p < Cells(chunk) * es
    ensures SameByte(c, dims, chunk, es, x, t, p, q)
  {
    QuotientBelow(p, Cells(chunk), es);
    x := Coordinates(chunk, p / es);
    t := p % es;
    DivParts(p, es);
    hide CIndex, Cells, Below;
    q := CIndex(dims, Plus(c, x)) * es + t;
  }

  lemma DivParts(p: nat, es: nat)
    requires es > 0
    ensures p == p / es * es + p % es && p % es < es
  {}

  // ---- writing and reading ----

  /** The chain undoes every chunk of this size, gets through the scratch buffers, and where it runs on
      one buffer no shuffle overlaps itself. */
  ghost predicate ChainGood(filters: seq<Filter>, bytes: nat, scratch: nat, pool: Option<nat>) {
    && (pool.Some? ==> pool.value >= 1)
    && forall x: seq<byte> {:trigger Reversible(filters, 0, x)} :: |x| == bytes ==>
         && Reversible(filters, 0, x) && CanEncode(filters, 0, x, scratch)
         && (pool.None? && filters != [] && InPlace.AllInPlace(filters) ==> InPlace.Overlapless(filters, 0, x))
  }

  /** Shapes the write's unsigned residual is right for. */
  predicate RowsFit(dims: seq<nat>, chunk: seq<nat>)
    requires |dims| == |chunk| > 0 && forall i :: 0 <= i < |chunk| ==> chunk[i] > 0
  {
    var n, b := dims[|dims| - 1], chunk[|chunk| - 1];
    n < TWO_64 && b < TWO_64 && (|dims| == 1 || n == 0 || n >= b || TWO_64 % b == 0)
  }

  /** Every chunk of the array is there, holding what it should. */
  ghost predicate HoldsArray(ds: Dataset, filters: seq<Filter>, dims: seq<nat>, chunk: seq<nat>, es: nat, src: seq<byte>) {
    forall c {:trigger ChunkOffset(c, dims, chunk)} :: ChunkOffset(c, dims, chunk) ==>
      && c in ds
      && (Aligned(c, dims, chunk) ==> ChunkHolds(Decode(filters, ds[c]), c, dims, chunk, es, src))
  }

  /** Nothing else in the dataset has changed. */
  ghost predicate OthersKept(ds: Dataset, ds': Dataset, dims: seq<nat>, chunk: seq<nat>) {
    forall c {:trigger ChunkOffset(c, dims, chunk)} :: !ChunkOffset(c, dims, chunk) ==>
      (c in ds <==> c in ds') && (c in ds ==> ds'[c] == ds[c])
  }

  /** One call for every chunk, in ascending order of the offsets, the slowest dimension counting most. */
  ghost predicate CallsAscend(log: seq<Call>, dims: seq<nat>, chunk: seq<nat>) {
    && (forall i, j :: 0 <= i < j < |log| ==> Precedes(log[i].offset, log[j].offset))
    && (forall c {:trigger ChunkOffset(c, dims, chunk)} ::
          ChunkOffset(c, dims, chunk) <==> exists i :: 0 <= i < |log| && log[i].offset == c)
  }

  /** A pipeline is made for a chunk shape and a buffer written through it. */
  method CreateAndWrite(filters: seq<Filter>, dims: seq<nat>, chunk: seq<nat>, es: nat, scratch: nat, pool: Option<nat>,
                        ds: Dataset, src: array<byte>) returns (p: Pipeline)
    requires |dims| == |chunk| > 0 && es > 0 && forall i :: 0 <= i < |chunk| ==> chunk[i] > 0
    requires RowsFit(dims, chunk) && src.Length == Cells(dims) * es && Cells(chunk) * es <= scratch
    requires ChainGood(filters, Cells(chunk) * es, scratch, pool)
    ensures fresh(p) && p.Valid() && p.filters == filters && p.es == es && src[..] == old(src[..])
    ensures HoldsArray(p.ds, filters, dims, chunk, es, src[..]) && OthersKept(ds, p.ds, dims, chunk)
    ensures CallsAscend(p.log, dims, chunk)
  {
    p := new Pipeline(filters, chunk, es, scratch, pool, ds);
    ghost var s := Shape(Key(dims), Key(chunk), es);
    SizesAre(dims, chunk, es);
    GoodChain(p, s, src[..]);
    p.RightCanStore(s, src[..]);
    p.Write(dims, src);
    p.Drain();
    WrittenHolds(ds, filters, dims, chunk, es, src[..], scratch);
    WrittenKeeps(ds, filters, dims, chunk, es, src[..]);
    WrittenInOrder(filters, dims, chunk, es, src[..], p.log);
  }

  lemma GoodChain(p: Pipeline, s: Shape, src: seq<byte>)
    requires s.Valid() && |src| == s.TotalBytes() && ChainGood(p.filters, s.BlockBytes(), p.chunk0.Length, p.pool)
    ensures p.RightAll(s, src) && ChainOk(s, p.filters, src, p.chunk0.Length)
  {
    forall o {:trigger Image(s, o, src)} | Origin(s, o)
      ensures p.StoresRight(Image(s, o, src))
      ensures Reversible(p.filters, 0, Image(s, o, src)) && CanEncode(p.filters, 0, Image(s, o, src), p.chunk0.Length)
    {
      assert Reversible(p.filters, 0, Image(s, o, src));
    }
  }

  lemma WrittenHolds(ds: Dataset, filters: seq<Filter>, dims: seq<nat>, chunk: seq<nat>, es: nat, src: seq<byte>, scratch: nat)
    requires |dims| == |chunk| > 0 && Shape(Key(dims), Key(chunk), es).Valid()
    requires |src| == Cells(dims) * es && |src| == Shape(Key(dims), Key(chunk), es).TotalBytes()
    requires ChainOk(Shape(Key(dims), Key(chunk), es), filters, src, scratch)
    ensures var s := Shape(Key(dims), Key(chunk), es);
            AllOrigins(s, Origins(s)) && HoldsArray(StoreAll(ds, s, filters, src, Origins(s)), filters, dims, chunk, es, src)
  {
    var s := Shape(Key(dims), Key(chunk), es);
    WrittenReadable(ds, s, filters, src, scratch);
    forall c {:trigger ChunkOffset(c, dims, chunk)} | ChunkOffset(c, dims, chunk)
      ensures c in StoreAll(ds, s, filters, src, Origins(s))
      ensures Aligned(c, dims, chunk) ==>
                ChunkHolds(Decode(filters, StoreAll(ds, s, filters, src, Origins(s))[c]), c, dims, chunk, es, src)
    {
      var k := GridAt(c, dims, chunk, es);
      assert Key(Origins(s)[k]) == c;
      if Aligned(c, dims, chunk) { ImageHolds(c, dims, chunk, es, src); }
    }
  }

  /** The nest visits every chunk offset. */
  lemma GridAt(c: seq<nat>, dims: seq<nat>, chunk: seq<nat>, es: nat) returns (k: nat)
    requires ChunkOffset(c, dims, chunk) && dims != [] && Shape(Key(dims), Key(chunk), es).Valid()
    ensures var s := Shape(Key(dims), Key(chunk), es);
            k < |Origins(s)| && Origins(s)[k] == Key(c) && Key(Key(c)) == c
  {
    var s := Shape(Key(dims), Key(chunk), es);
    OffsetOrigin(c, dims, chunk, es);
    GridComplete(s, |dims|, Key(c), []);
    assert Key(c) + [] == Key(c);
    k :| 0 <= k < |Origins(s)| && Origins(s)[k] == Key(c);
  }

  lemma WrittenInOrder(filters: seq<Filter>, dims: seq<nat>, chunk: seq<nat>, es: nat, src: seq<byte>, log: seq<Call>)
    requires |dims| == |chunk| > 0 && Shape(Key(dims), Key(chunk), es).Valid()
    requires var s := Shape(Key(dims), Key(chunk), es);
             |src| == s.TotalBytes() && AllOrigins(s, Origins(s)) && log == Results(filters, ChunkJobs(s, src, Origins(s)))
    ensures CallsAscend(log, dims, chunk)
  {
    var s := Shape(Key(dims), Key(chunk), es);
    var os := Origins(s);
    OffsetsAscend(s);
    assert forall i :: 0 <= i < |log| ==> log[i].offset == Key(os[i]);
    var offsets := seq(|os|, k requires 0 <= k < |os| => Key(os[k]));
    forall i, j | 0 <= i < j < |log|
      ensures Precedes(log[i].offset, log[j].offset)
    {
      assert Precedes(offsets[i], offsets[j]);
    }
    forall c {:trigger ChunkOffset(c, dims, chunk)}
      ensures ChunkOffset(c, dims, chunk) <==> exists i :: 0 <= i < |log| && log[i].offset == c
    {
      if ChunkOffset(c, dims, chunk) {
        var k := GridAt(c, dims, chunk, es);
        OffsetOrigin(c, dims, chunk, es);
        assert log[k].offset == c;
      }
      if i :| 0 <= i < |log| && log[i].offset == c { OriginOffset(os[i], dims, chunk, es); }
    }
  }

  lemma WrittenKeeps(ds: Dataset, filters: seq<Filter>, dims: seq<nat>, chunk: seq<nat>, es: nat, src: seq<byte>)
    requires |dims| == |chunk| > 0 && Shape(Key(dims), Key(chunk), es).Valid()
    requires |src| == Shape(Key(dims), Key(chunk), es).TotalBytes()
    ensures var s := Shape(Key(dims), Key(chunk), es);
            AllOrigins(s, Origins(s)) && OthersKept(ds, StoreAll(ds, s, filters, src, Origins(s)), dims, chunk)
  {
    var s := Shape(Key(dims), Key(chunk), es);
    OriginsLegal(s);
    var os := Origins(s);
    StoredChunks(ds, s, filters, src, os);
    var ds' := StoreAll(ds, s, filters, src, os);
    forall c {:trigger ChunkOffset(c, dims, chunk)} | !ChunkOffset(c, dims, chunk)
      ensures (c in ds <==> c in ds') && (c in ds ==> ds'[c] == ds[c])
    {
      forall k | 0 <= k < |os|
        ensures Key(os[k]) != c
      {
        OriginOffset(os[k], dims, chunk, es);
      }
    }
  }

  /** A dataset of aligned chunks that holds an array is read back as that array, whoever wrote it. */
  method ReadArray(p: Pipeline, dims: seq<nat>, chunk: seq<nat>, dst: array<byte>, ghost src: seq<byte>)
    requires p.Valid() && |dims| == |chunk| > 0 && p.es > 0 && forall i :: 0 <= i < |chunk| ==> chunk[i] > 0
    requires |p.b| == |chunk| && forall k :: 0 <= k < |chunk| ==> p.b[k] == chunk[|chunk| - 1 - k]
    requires dims[|dims| - 1] < TWO_64 && |src| == dst.Length == Cells(dims) * p.es
    requires Cells(chunk) * p.es <= p.chunk0.Length && dst != p.chunk0 && dst != p.chunk1
    requires HoldsArray(p.ds, p.filters, dims, chunk, p.es, src)
    requires forall c {:trigger ChunkOffset(c, dims, chunk)} :: ChunkOffset(c, dims, chunk) ==>
               && Aligned(c, dims, chunk)
               && CanDecode(p.filters, |p.filters|, p.ds[c].mask, p.ds[c].bytes, p.chunk0.Length)
    modifies p`n, p`ry, p.chunk0, p.chunk1, dst
    ensures dst[..] == src
  {
    ghost var s := Shape(Key(dims), Key(chunk), p.es);
    assert p.b == Key(chunk);
    SizesAre(dims, chunk, p.es);
    ArrayImages(p.ds, p.filters, dims, chunk, p.es, src, p.chunk0.Length);
    WholeRestored(p.ds, s, p.filters, src, dst[..], p.chunk0.Length);
    p.Read(dims, dst);
  }

  lemma ArrayImages(ds: Dataset, filters: seq<Filter>, dims: seq<nat>, chunk: seq<nat>, es: nat, src: seq<byte>, cap: nat)
    requires |dims| == |chunk| > 0 && Shape(Key(dims), Key(chunk), es).Valid()
    requires |src| == Cells(dims) * es && HoldsArray(ds, filters, dims, chunk, es, src)
    requires forall c {:trigger ChunkOffset(c, dims, chunk)} :: ChunkOffset(c, dims, chunk) ==>
               Aligned(c, dims, chunk) && CanDecode(filters, |filters|, ds[c].mask, ds[c].bytes, cap)
    ensures var s := Shape(Key(dims), Key(chunk), es);
            && AllOrigins(s, Origins(s)) && |src| == s.TotalBytes()
            && HoldsImages(ds, s, filters, src, Origins(s)) && Readable(ds, s, filters, Origins(s), cap)
  {
    var s := Shape(Key(dims), Key(chunk), es);
    OriginsLegal(s);
    SizesAre(dims, chunk, es);
    forall k | 0 <= k < |Origins(s)|
      ensures Key(Origins(s)[k]) in ds && Decode(filters, ds[Key(Origins(s)[k])]) == Image(s, Origins(s)[k], src)
      ensures ChunkReadable(ds, s, filters, Origins(s)[k], cap)
    {
      var o := Origins(s)[k];
      OriginOffset(o, dims, chunk, es);
      var c := Key(o);
      ImageHolds(c, dims, chunk, es, src);
      OneBlock(Decode(filters, ds[c]), Image(s, o, src), c, dims, chunk, es, src);
    }
  }
}
