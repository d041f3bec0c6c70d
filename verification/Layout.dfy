/**
 Where rows land inside a chunk image, and exactly when that is the row-major chunk layout that
 HDF5 readers expect. The source advances its write position one row per visited row and never
 steps over the rows a clipped middle dimension lacks.
 */
module Layout {
  import opened Arith
  import opened Memory
  import opened RowCopy
  import opened Tiling
  import opened ChunkGrid

  /** Rows of dimension d inside the chunk: min(j + b, n) - j. */
  function Ext(s: Shape, o: seq<nat>, d: nat): (e: nat)
    requires Origin(s, o) && d < |o|
    ensures 0 < e <= s.b[d] && o[d] + e <= s.n[d]
    ensures e < s.b[d] ==> o[d] + e == s.n[d]
  {
    End(s, o, d) - o[d]
  }

  /** Row number with coordinate x in dimension d and `low` in the faster ones. */
  function RowNo(s: Shape, d: nat, x: nat, low: nat): (row: nat)
    requires 1 <= d <= |s.n|
  {
    x * Volume(s.n, d) + low
  }

  /** Row visited k-th by the nest over dimensions d..1: digits in the clipped extents. */
  function VisitedRow(s: Shape, o: seq<nat>, d: nat, k: nat): (row: nat)
    requires Origin(s, o) && d < |o|
    decreases d
  {
    if d == 0 then 0
    else
      var c := Slots(s, o, d - 1);
      if c == 0 then 0 else RowNo(s, d, o[d] + k / c, VisitedRow(s, o, d - 1, k % c))
  }

  /** Row that belongs at chunk row k in row-major order: digits in the full chunk extents. */
  function LocalRow(s: Shape, o: seq<nat>, d: nat, k: nat): (row: nat)
    requires Origin(s, o) && d < |o|
    decreases d
  {
    if d == 0 then 0
    else
      var c := Volume(s.b, d);
      if c == 0 then 0 else RowNo(s, d, o[d] + k / c, LocalRow(s, o, d - 1, k % c))
  }

  /** Chunk row k lies inside the data. */
  predicate InData(s: Shape, o: seq<nat>, d: nat, k: nat)
    requires Origin(s, o) && d < |o|
    decreases d
  {
    d > 0 ==>
      var c := Volume(s.b, d);
      c > 0 && o[d] + k / c < s.n[d] && InData(s, o, d - 1, k % c)
  }

  lemma {:induction false} SlotsPositive(s: Shape, o: seq<nat>, d: nat)
    requires Origin(s, o) && d < |o|
    ensures 0 < Slots(s, o, d) <= Volume(s.b, d + 1)
    ensures d > 0 ==> Slots(s, o, d) == Ext(s, o, d) * Slots(s, o, d - 1)
  {
    SlotsBound(s, o, d);
    if d > 0 {
      SlotsPositive(s, o, d - 1);
      MulMono(1, Ext(s, o, d), Slots(s, o, d - 1));
    }
  }

  /** A position below e * c splits into a digit below e and a rest below c. */
  lemma SplitDigit(k: nat, e: nat, c: nat)
    requires c > 0 && k < e * c
    ensures k / c < e && k % c < c && k == (k / c) * c + k % c
  {
    QuotientBelow(k, e, c);
  }

  /** The k-th visited offset is the k-th visited row. */
  lemma {:induction false} VisitAt(s: Shape, o: seq<nat>, d: nat, base: nat, k: nat)
    requires Origin(s, o) && d < |o| && k < Slots(s, o, d)
    ensures |Offs(s, o, d, base)| == Slots(s, o, d)
    ensures Offs(s, o, d, base)[k] == At(s, o, base + VisitedRow(s, o, d, k))
    decreases d, 0
  {
    OffsCount(s, o, d, base);
    if d > 0 {
      SlotsPositive(s, o, d - 1);
      SlotsPositive(s, o, d);
      var c := Slots(s, o, d - 1);
      SplitDigit(k, Ext(s, o, d), c);
      LoopVisitAt(s, o, d, o[d], base, k, c);
    }
  }

  lemma {:induction false} LoopVisitAt(s: Shape, o: seq<nat>, d: nat, i: nat, base: nat, k: nat, c: nat)
    requires Origin(s, o) && 0 < d < |o|
    requires c == Slots(s, o, d - 1) > 0 && i + k / c < End(s, o, d)
    ensures k < |OffsLoop(s, o, d, i, base)|
    ensures OffsLoop(s, o, d, i, base)[k]
         == At(s, o, base + RowNo(s, d, i + k / c, VisitedRow(s, o, d - 1, k % c)))
    decreases d - 1, 1, k
  {
    var first, rest := Offs(s, o, d - 1, base + i * Volume(s.n, d)), OffsLoop(s, o, d, i + 1, base);
    OffsCount(s, o, d - 1, base + i * Volume(s.n, d));
    if k < c {
      assert k / c == 0 && k % c == k by { DivModUnique(0, k, c); }
      VisitAt(s, o, d - 1, base + i * Volume(s.n, d), k);
    } else {
      AddMultiple(k - c, 1, c);
      LoopVisitAt(s, o, d, i + 1, base, k - c, c);
      assert (first + rest)[k] == rest[k - c];
    }
  }

  /** Every visited row sits at the chunk row where row-major order puts it. */
  ghost predicate LaidOut(s: Shape, o: seq<nat>, d: nat)
    requires Origin(s, o) && d < |o|
  {
    forall k: nat :: k < Slots(s, o, d) ==> InData(s, o, d, k) && VisitedRow(s, o, d, k) == LocalRow(s, o, d, k)
  }

  /** A clipped dimension has no slower dimension with more than one row in this chunk. */
  ghost predicate Aligned(s: Shape, o: seq<nat>, d: nat)
    requires Origin(s, o) && d < |o|
  {
    forall q, m :: 1 <= q < m <= d ==> Ext(s, o, q) == s.b[q] || Ext(s, o, m) == 1
  }

  // ---- the layout is right exactly for aligned chunks ----

  lemma RowNoBelow(s: Shape, d: nat, x: nat, low: nat)
    requires 1 <= d < |s.n| && x < s.n[d] && low < Volume(s.n, d)
    ensures RowNo(s, d, x, low) < Volume(s.n, d + 1)
  {
    StepInside(x, s.n[d], Volume(s.n, d), 0, Volume(s.n, d + 1));
  }

  lemma RemainderBelow(k: nat, c: nat)
    requires c > 0
    ensures k % c < c
  {}

  lemma {:induction false} InDataRow(s: Shape, o: seq<nat>, d: nat, k: nat)
    requires Origin(s, o) && d < |o| && InData(s, o, d, k)
    ensures LocalRow(s, o, d, k) < Volume(s.n, d + 1)
    decreases d
  {
    if d > 0 {
      var c := Volume(s.b, d);
      RemainderBelow(k, c);
      InDataRow(s, o, d - 1, k % c);
      RowNoBelow(s, d, o[d] + k / c, LocalRow(s, o, d - 1, k % c));
    }
  }

  /** In the first chunk slab of dimension d both digit systems agree with those of d - 1. */
  lemma FirstSlab(s: Shape, o: seq<nat>, d: nat, k: nat)
    requires Origin(s, o) && 0 < d < |o| && k < Slots(s, o, d - 1)
    ensures VisitedRow(s, o, d, k) == RowNo(s, d, o[d], VisitedRow(s, o, d - 1, k))
    ensures LocalRow(s, o, d, k) == RowNo(s, d, o[d], LocalRow(s, o, d - 1, k))
    ensures InData(s, o, d, k) <==> InData(s, o, d - 1, k)
    ensures k < Slots(s, o, d)
  {
    SlotsPositive(s, o, d - 1);
    SlotsPositive(s, o, d);
    DivModUnique(0, k, Slots(s, o, d - 1));
    DivModUnique(0, k, Volume(s.b, d));
    MulMono(1, Ext(s, o, d), Slots(s, o, d - 1));
  }

  lemma LaidOutBelow(s: Shape, o: seq<nat>, d: nat, e: nat)
    requires Origin(s, o) && 0 < d < |o| && e == d - 1 && LaidOut(s, o, d)
    ensures LaidOut(s, o, e)
  {
    forall k: nat | k < Slots(s, o, e)
      ensures InData(s, o, e, k) && VisitedRow(s, o, e, k) == LocalRow(s, o, e, k)
    {
      FirstSlab(s, o, d, k);
    }
  }

  /** Full faster dimensions: the digits coincide. */
  lemma LaidOutFull(s: Shape, o: seq<nat>, d: nat)
    requires Origin(s, o) && 0 < d < |o| && LaidOut(s, o, d - 1) && Slots(s, o, d - 1) == Volume(s.b, d)
    ensures LaidOut(s, o, d)
  {
    forall k: nat | k < Slots(s, o, d)
      ensures InData(s, o, d, k) && VisitedRow(s, o, d, k) == LocalRow(s, o, d, k)
    {
      SlotsPositive(s, o, d - 1);
      SlotsPositive(s, o, d);
      SplitDigit(k, Ext(s, o, d), Slots(s, o, d - 1));
    }
  }

  /** A single row of dimension d: nothing to step over. */
  lemma LaidOutSingle(s: Shape, o: seq<nat>, d: nat)
    requires Origin(s, o) && 0 < d < |o| && LaidOut(s, o, d - 1) && Ext(s, o, d) == 1
    ensures LaidOut(s, o, d)
  {
    SlotsPositive(s, o, d);
    forall k: nat | k < Slots(s, o, d)
      ensures InData(s, o, d, k) && VisitedRow(s, o, d, k) == LocalRow(s, o, d, k)
    {
      FirstSlab(s, o, d, k);
    }
  }

  /** The digits of position c = Slots(d - 1): one step of d when visited, none in the full chunk. */
  lemma SecondSlab(s: Shape, o: seq<nat>, d: nat, c: nat)
    requires Origin(s, o) && 0 < d < |o| && c == Slots(s, o, d - 1) < Volume(s.b, d) && Ext(s, o, d) > 1
    ensures c < Slots(s, o, d)
    ensures VisitedRow(s, o, d, c) == RowNo(s, d, o[d] + 1, VisitedRow(s, o, d - 1, 0))
    ensures LocalRow(s, o, d, c) == RowNo(s, d, o[d], LocalRow(s, o, d - 1, c))
    ensures InData(s, o, d, c) ==> InData(s, o, d - 1, c)
  {
    SlotsPositive(s, o, d - 1);
    SlotsPositive(s, o, d);
    MulMono(2, Ext(s, o, d), c);
    DivModUnique(1, 0, c);
    DivModUnique(0, c, Volume(s.b, d));
  }

  lemma RowNoOrder(s: Shape, d: nat, x: nat, low: nat, high: nat)
    requires 1 <= d < |s.n| && low < Volume(s.n, d)
    ensures RowNo(s, d, x, low) < RowNo(s, d, x + 1, high)
  {
    MulSucc(x, Volume(s.n, d));
  }

  /** A second row of dimension d after a clipped slab is written where the slab ended, not where it belongs. */
  lemma MisplacedRow(s: Shape, o: seq<nat>, d: nat)
    requires Origin(s, o) && 0 < d < |o| && Slots(s, o, d - 1) < Volume(s.b, d) && Ext(s, o, d) > 1
    ensures !LaidOut(s, o, d)
  {
    var c := Slots(s, o, d - 1);
    SecondSlab(s, o, d, c);
    if InData(s, o, d, c) {
      InDataRow(s, o, d - 1, c);
      RowNoOrder(s, d, o[d], LocalRow(s, o, d - 1, c), VisitedRow(s, o, d - 1, 0));
      assert VisitedRow(s, o, d, c) != LocalRow(s, o, d, c);
    }
  }

  lemma {:induction false} FullBelow(s: Shape, o: seq<nat>, d: nat)
    requires Origin(s, o) && d < |o|
    ensures Slots(s, o, d) == Volume(s.b, d + 1) <==> forall q :: 1 <= q <= d ==> Ext(s, o, q) == s.b[q]
  {
    if d > 0 {
      FullBelow(s, o, d - 1);
      SlotsPositive(s, o, d - 1);
      SlotsPositive(s, o, d);
      ProductFull(Ext(s, o, d), s.b[d], Slots(s, o, d - 1), Volume(s.b, d));
    }
  }

  /** A product of two bounded factors reaches the product of the bounds only if both do. */
  lemma ProductFull(e: nat, b: nat, c: nat, v: nat)
    requires 0 < e <= b && 0 < c <= v
    ensures e * c == b * v <==> e == b && c == v
  {
    if e < b {
      MulMono(e + 1, b, v);
      MulSucc(e, v);
      ProductMono(c, v, e);
    } else if c < v {
      ProductMono(c + 1, v, e);
      MulSucc(c, e);
    }
  }

  lemma ProductMono(c: nat, v: nat, e: nat)
    requires c <= v
    ensures e * c <= e * v && c * e == e * c
  {
    MulMono(c, v, e);
  }

  /** Per chunk: the image is in row-major chunk layout exactly when the chunk is aligned. */
  lemma {:induction false} LayoutExact(s: Shape, o: seq<nat>, d: nat)
    requires Origin(s, o) && d < |o|
    ensures LaidOut(s, o, d) <==> Aligned(s, o, d)
  {
    if d > 0 {
      LayoutExact(s, o, d - 1);
      FullBelow(s, o, d - 1);
      SlotsPositive(s, o, d - 1);
      if LaidOut(s, o, d) {
        LaidOutBelow(s, o, d, d - 1);
        if Ext(s, o, d) > 1 && Slots(s, o, d - 1) < Volume(s.b, d) {
          MisplacedRow(s, o, d);
          assert false;
        }
      } else if Aligned(s, o, d - 1) {
        if Slots(s, o, d - 1) == Volume(s.b, d) {
          LaidOutFull(s, o, d);
        } else if Ext(s, o, d) == 1 {
          LaidOutSingle(s, o, d);
        } else {
          var q :| 1 <= q <= d - 1 && Ext(s, o, q) != s.b[q];
          assert !Aligned(s, o, d);
        }
      }
    }
  }

  // ---- the whole dataset ----

  /** Dimensions strictly between fastest and slowest either divide evenly or have no slower
      dimension that puts two rows into one chunk. */
  predicate MiddleOk(s: Shape)
    requires s.Valid()
  {
    forall q, m :: 1 <= q < m < |s.n| ==> Multiple(s.n[q], s.b[q]) || Min(s.b[m], s.n[m]) == 1
  }

  lemma {:induction false} EvenExtent(n: nat, b: nat, j: nat)
    requires b > 0 && Multiple(n, b) && Multiple(j, b) && j < n
    ensures j + b <= n
  {
    NextMultiple(j, n, b);
  }

  /** The origin of the chunk at the far end of dimension q and the near end of the others. */
  function LastOrigin(s: Shape, q: nat): (o: seq<nat>)
    requires s.Valid() && q < |s.n|
    ensures |o| == |s.n|
  {
    seq(|s.n|, k requires 0 <= k < |s.n| => if k == q && s.n[k] > 0 then (s.n[k] - 1) / s.b[k] * s.b[k] else 0)
  }

  lemma LastOriginLegal(s: Shape, q: nat)
    requires s.Valid() && q < |s.n| && forall k :: 0 <= k < |s.n| ==> s.n[k] > 0
    ensures Origin(s, LastOrigin(s, q))
    ensures Ext(s, LastOrigin(s, q), q) == s.b[q] ==> Multiple(s.n[q], s.b[q])
  {
    var o := LastOrigin(s, q);
    FloorMultiple(s.n[q] - 1, s.b[q]);
    if Ext(s, o, q) == s.b[q] {
      assert o[q] + s.b[q] == s.n[q];
    }
  }

  /** For a dataset with elements: every chunk image is in row-major chunk layout exactly when the
      middle dimensions divide evenly or are not followed by a multi-row dimension. */
  lemma DatasetLayoutExact(s: Shape)
    requires s.Valid() && forall k :: 0 <= k < |s.n| ==> s.n[k] > 0
    ensures (forall o :: Origin(s, o) ==> LaidOut(s, o, |o| - 1)) <==> MiddleOk(s)
  {
    if MiddleOk(s) {
      forall o | Origin(s, o)
        ensures LaidOut(s, o, |o| - 1)
      {
        EvenAligned(s, o);
        LayoutExact(s, o, |o| - 1);
      }
    } else {
      var q, m :| 1 <= q < m < |s.n| && !(Multiple(s.n[q], s.b[q]) || Min(s.b[m], s.n[m]) == 1);
      UnevenMisplaced(s, q, m);
    }
  }

  lemma EvenAligned(s: Shape, o: seq<nat>)
    requires Origin(s, o) && MiddleOk(s)
    ensures Aligned(s, o, |o| - 1)
  {
    forall q, m | 1 <= q < m <= |o| - 1
      ensures Ext(s, o, q) == s.b[q] || Ext(s, o, m) == 1
    {
      if Multiple(s.n[q], s.b[q]) { EvenExtent(s.n[q], s.b[q], o[q]); }
    }
  }

  lemma UnevenMisplaced(s: Shape, q: nat, m: nat)
    requires s.Valid() && (forall k :: 0 <= k < |s.n| ==> s.n[k] > 0) && 1 <= q < m < |s.n|
    requires !Multiple(s.n[q], s.b[q]) && Min(s.b[m], s.n[m]) != 1
    ensures Origin(s, LastOrigin(s, q)) && !LaidOut(s, LastOrigin(s, q), |LastOrigin(s, q)| - 1)
  {
    var o := LastOrigin(s, q);
    LastOriginLegal(s, q);
    assert Ext(s, o, m) == Min(s.b[m], s.n[m]);
    LayoutExact(s, o, |o| - 1);
  }

  // ---- the bytes of an image ----

  /** Where slot k starts, when slot 0 starts at `at`. */
  function SlotAt(at: nat, k: nat, pitch: nat): (p: nat)
    ensures p >= at
    decreases k
  {
    if k == 0 then at else SlotAt(at + pitch, k - 1, pitch)
  }

  lemma {:induction false} SlotAtIs(at: nat, k: nat, pitch: nat)
    ensures SlotAt(at, k, pitch) == at + k * pitch
    decreases k
  {
    if k > 0 {
      SlotAtIs(at + pitch, k - 1, pitch);
      MulSucc(k - 1, pitch);
    }
  }

  /** What byte t of slot k (buffer position p) is after a put. */
  function Placed(img: seq<byte>, src: seq<byte>, offs: seq<nat>, len: nat, k: nat, t: nat, p: nat): (x: byte)
    requires Inside(offs, len, |src|) && p < |img|
  {
    if k < |offs| && t < len then src[offs[k] + t] else img[p]
  }

  lemma {:induction false} PutAt(img: seq<byte>, src: seq<byte>, offs: seq<nat>, at: nat, len: nat, pitch: nat,
                                 k: nat, t: nat, p: nat)
    requires len <= pitch && Fits(offs, at, pitch, |img|) && Inside(offs, len, |src|)
    requires p == SlotAt(at, k, pitch) + t < |img| && t < pitch
    ensures PutRows(img, src, offs, at, len, pitch)[p] == Placed(img, src, offs, len, k, t, p)
    decreases |offs|
  {
    if offs == [] {
    } else if k == 0 {
      PutHere(img, src, offs, at, len, pitch, t, p);
    } else {
      var img' := Splice(img, at, src[offs[0]..offs[0] + len]);
      PutRest(img, src, offs, at, len, pitch);
      PutAt(img', src, offs[1..], at + pitch, len, pitch, k - 1, t, p);
      BeyondSplice(img, src, offs[0], at, len, pitch, k, t, p);
      PlacedRest(img, img', src, offs, len, k, t, p);
    }
  }

  /** The bytes up to the second slot are settled by the first row. */
  lemma PutHead(img: seq<byte>, src: seq<byte>, offs: seq<nat>, at: nat, len: nat, pitch: nat, p: nat)
    requires len <= pitch && Fits(offs, at, pitch, |img|) && Inside(offs, len, |src|) && offs != []
    requires p < at + pitch
    ensures PutRows(img, src, offs, at, len, pitch)[p] == Splice(img, at, src[offs[0]..offs[0] + len])[p]
  {
    PutFirst(Splice(img, at, src[offs[0]..offs[0] + len]), src, offs[1..], at + pitch, len, pitch, p);
  }

  lemma PutHere(img: seq<byte>, src: seq<byte>, offs: seq<nat>, at: nat, len: nat, pitch: nat, t: nat, p: nat)
    requires len <= pitch && Fits(offs, at, pitch, |img|) && Inside(offs, len, |src|) && offs != []
    requires p == at + t < |img| && t < pitch
    ensures PutRows(img, src, offs, at, len, pitch)[p] == Placed(img, src, offs, len, 0, t, p)
  {
    PutHead(img, src, offs, at, len, pitch, p);
    SpliceAt(img, src, offs[0], at, len, p);
    PlacedHere(img, src, offs, at, len, t, p);
  }

  lemma PlacedHere(img: seq<byte>, src: seq<byte>, offs: seq<nat>, at: nat, len: nat, t: nat, p: nat)
    requires Inside(offs, len, |src|) && offs != [] && p == at + t < |img|
    ensures Placed(img, src, offs, len, 0, t, p) == if p < at + len then src[offs[0] + (p - at)] else img[p]
  {}

  lemma PutRest(img: seq<byte>, src: seq<byte>, offs: seq<nat>, at: nat, len: nat, pitch: nat)
    requires len <= pitch && Fits(offs, at, pitch, |img|) && Inside(offs, len, |src|) && offs != []
    ensures Inside(offs[1..], len, |src|)
    ensures PutRows(img, src, offs, at, len, pitch)
         == PutRows(Splice(img, at, src[offs[0]..offs[0] + len]), src, offs[1..], at + pitch, len, pitch)
  {}

  lemma PlacedRest(img: seq<byte>, img': seq<byte>, src: seq<byte>, offs: seq<nat>, len: nat, k: nat, t: nat, p: nat)
    requires Inside(offs, len, |src|) && offs != [] && k > 0 && p < |img| == |img'| && img'[p] == img[p]
    ensures Inside(offs[1..], len, |src|)
    ensures Placed(img', src, offs[1..], len, k - 1, t, p) == Placed(img, src, offs, len, k, t, p)
  {}

  lemma BeyondSplice(img: seq<byte>, src: seq<byte>, from: nat, at: nat, len: nat, pitch: nat, k: nat, t: nat, p: nat)
    requires from + len <= |src| && at + pitch <= |img| && len <= pitch && k > 0 && p == SlotAt(at, k, pitch) + t < |img|
    ensures Splice(img, at, src[from..from + len])[p] == img[p]
  {
    assert p >= at + pitch;
  }

  lemma SpliceAt(img: seq<byte>, src: seq<byte>, from: nat, at: nat, len: nat, p: nat)
    requires from + len <= |src| && at + len <= |img| && at <= p < |img|
    ensures Splice(img, at, src[from..from + len])[p] == if p < at + len then src[from + (p - at)] else img[p]
  {}

  lemma PutFirst(img: seq<byte>, src: seq<byte>, offs: seq<nat>, at: nat, len: nat, pitch: nat, p: nat)
    requires len <= pitch && Fits(offs, at, pitch, |img|) && Inside(offs, len, |src|) && p < at
    ensures PutRows(img, src, offs, at, len, pitch)[p] == img[p]
  {
    PutBelow(img, src, offs, at, len, pitch);
    assert PutRows(img, src, offs, at, len, pitch)[..at][p] == img[..at][p];
  }

  lemma QuotientAtLeast(k: nat, e: nat, c: nat)
    requires c > 0 && k >= e * c
    ensures k / c >= e
  {
    DivMono(e * c, k, c);
    DivModUnique(e, 0, c);
  }

  /** Past the rows of dimension d the data has ended. */
  lemma PastRows(s: Shape, o: seq<nat>, d: nat, k: nat)
    requires Origin(s, o) && 0 < d < |o| && Volume(s.b, d) > 0
    requires Ext(s, o, d) * Volume(s.b, d) <= k && Ext(s, o, d) < s.b[d]
    ensures !InData(s, o, d, k)
  {
    QuotientAtLeast(k, Ext(s, o, d), Volume(s.b, d));
  }

  /** Chunk rows the nest does not visit lie outside the data. */
  lemma {:induction false} UnvisitedOutside(s: Shape, o: seq<nat>, d: nat, k: nat)
    requires Origin(s, o) && d < |o| && Aligned(s, o, d) && Slots(s, o, d) <= k < Volume(s.b, d + 1)
    ensures !InData(s, o, d, k)
    decreases d
  {
    if d > 0 {
      SlotsPositive(s, o, d - 1);
      SlotsPositive(s, o, d);
      FullBelow(s, o, d - 1);
      if Slots(s, o, d - 1) == Volume(s.b, d) {
        PastRows(s, o, d, k);
      } else {
        var q :| 1 <= q <= d - 1 && Ext(s, o, q) != s.b[q];
        assert Ext(s, o, d) == 1;
        if k < Volume(s.b, d) {
          FirstRows(s, o, d, k);
          UnvisitedOutside(s, o, d - 1, k);
        } else {
          SingleRow(s, o, d, k);
        }
      }
    }
  }

  lemma FirstRows(s: Shape, o: seq<nat>, d: nat, k: nat)
    requires Origin(s, o) && 0 < d < |o| && k < Volume(s.b, d)
    ensures InData(s, o, d, k) ==> InData(s, o, d - 1, k)
  {
    DivModUnique(0, k, Volume(s.b, d));
  }

  lemma SingleRow(s: Shape, o: seq<nat>, d: nat, k: nat)
    requires Origin(s, o) && 0 < d < |o| && 0 < Volume(s.b, d) <= k < Volume(s.b, d + 1) && Ext(s, o, d) == 1
    ensures !InData(s, o, d, k)
  {
    assert s.b[d] > 1;
    PastRows(s, o, d, k);
  }

  /** Byte t of chunk row k in the image. */
  lemma ImageAt(s: Shape, o: seq<nat>, src: seq<byte>, k: nat, t: nat, p: nat)
    requires Origin(s, o) && |src| == s.TotalBytes()
    requires k < Volume(s.b, |s.b|) && t < s.ChunkRowBytes() && p == k * s.ChunkRowBytes() + t
    ensures p < s.BlockBytes() && Inside(ChunkOffs(s, o), Len(s, o), |src|)
    ensures Image(s, o, src)[p] == Placed(Zeros(s.BlockBytes()), src, ChunkOffs(s, o), Len(s, o), k, t, p)
  {
    var pitch := s.ChunkRowBytes();
    ChunkBounds(s, o);
    MulMono(k + 1, Volume(s.b, |s.b|), pitch);
    MulSucc(k, pitch);
    SlotAtIs(0, k, pitch);
    PutAt(Zeros(s.BlockBytes()), src, ChunkOffs(s, o), 0, Len(s, o), pitch, k, t, p);
  }

  /** The chunk rows an aligned chunk fills are those inside the data, each from its own source row. */
  lemma AlignedSlot(s: Shape, o: seq<nat>, k: nat)
    requires Origin(s, o) && Aligned(s, o, |o| - 1) && k < Volume(s.b, |s.b|)
    ensures k < |ChunkOffs(s, o)| <==> InData(s, o, |o| - 1, k)
    ensures k < |ChunkOffs(s, o)| ==> ChunkOffs(s, o)[k] == At(s, o, LocalRow(s, o, |o| - 1, k))
  {
    var d := |o| - 1;
    OffsCount(s, o, d, 0);
    LayoutExact(s, o, d);
    if k < Slots(s, o, d) {
      VisitAt(s, o, d, 0, k);
    } else {
      UnvisitedOutside(s, o, d, k);
    }
  }

  /** The image of an aligned chunk is the row-major, zero-padded chunk of the source array: chunk
      row k, byte t (buffer position p) holds the source byte at that position, or zero outside the data. */
  lemma AlignedImage(s: Shape, o: seq<nat>, src: seq<byte>, k: nat, t: nat, p: nat)
    requires Origin(s, o) && |src| == s.TotalBytes() && Aligned(s, o, |o| - 1)
    requires k < Volume(s.b, |s.b|) && t < s.ChunkRowBytes() && p == k * s.ChunkRowBytes() + t
    ensures p < s.BlockBytes()
    ensures InData(s, o, |o| - 1, k) && t < Len(s, o) ==> At(s, o, LocalRow(s, o, |o| - 1, k)) + t < |src|
    ensures Image(s, o, src)[p]
         == if InData(s, o, |o| - 1, k) && t < Len(s, o) then src[At(s, o, LocalRow(s, o, |o| - 1, k)) + t] else 0
  {
    ImageAt(s, o, src, k, t, p);
    AlignedSlot(s, o, k);
  }

  // ---- the layout, byte for byte ----

  /** A row inside the data lies inside the buffer. */
  lemma RowFits(s: Shape, o: seq<nat>, row: nat, t: nat)
    requires Origin(s, o) && row < Volume(s.n, |s.n|) && t < Len(s, o)
    ensures At(s, o, row) + t < s.TotalBytes()
  {
    RowInside(s, o, row, Volume(s.n, |s.n|));
  }

  /** Byte t of chunk row k in row-major chunk layout: the source byte at that position, zero outside the data. */
  function RowMajorByte(s: Shape, o: seq<nat>, src: seq<byte>, k: nat, t: nat): (x: byte)
    requires Origin(s, o) && |src| == s.TotalBytes()
  {
    if InData(s, o, |o| - 1, k) && t < Len(s, o) then
      InDataRow(s, o, |o| - 1, k);
      RowFits(s, o, LocalRow(s, o, |o| - 1, k), t);
      src[At(s, o, LocalRow(s, o, |o| - 1, k)) + t]
    else 0
  }

  /** Position p of an image is byte t of chunk row k. */
  predicate ByteAt(s: Shape, k: nat, t: nat, p: nat)
    requires s.Valid()
  {
    k < Volume(s.b, |s.b|) && t < s.ChunkRowBytes() && p == k * s.ChunkRowBytes() + t && p < s.BlockBytes()
  }

  /** Whatever the source holds, the chunk's image is its row-major, zero-padded chunk. */
  ghost predicate RowMajor(s: Shape, o: seq<nat>)
    requires Origin(s, o)
  {
    forall src: seq<byte>, k: nat, t: nat, p: nat {:trigger Image(s, o, src), ByteAt(s, k, t, p)} ::
      |src| == s.TotalBytes() && ByteAt(s, k, t, p) ==> Image(s, o, src)[p] == RowMajorByte(s, o, src, k, t)
  }

  /** Exactly the aligned chunks are. */
  lemma RowMajorExact(s: Shape, o: seq<nat>)
    requires Origin(s, o)
    ensures RowMajor(s, o) <==> Aligned(s, o, |o| - 1)
  {
    if Aligned(s, o, |o| - 1) {
      forall src: seq<byte>, k: nat, t: nat, p: nat {:trigger Image(s, o, src), ByteAt(s, k, t, p)} |
        |src| == s.TotalBytes() && ByteAt(s, k, t, p)
        ensures Image(s, o, src)[p] == RowMajorByte(s, o, src, k, t)
      {
        AlignedImage(s, o, src, k, t, p);
      }
    } else {
      LayoutExact(s, o, |o| - 1);
      var k: nat :| k < Slots(s, o, |o| - 1)
        && !(InData(s, o, |o| - 1, k) && VisitedRow(s, o, |o| - 1, k) == LocalRow(s, o, |o| - 1, k));
      var src, p := WrongByte(s, o, k);
      assert ByteAt(s, k, 0, p) && |Image(s, o, src)| == s.BlockBytes();
    }
  }

  /** A row that is not where it belongs shows in a buffer with a single non-zero byte, its first. */
  lemma WrongByte(s: Shape, o: seq<nat>, k: nat) returns (src: seq<byte>, p: nat)
    requires Origin(s, o) && k < Slots(s, o, |o| - 1)
    requires !(InData(s, o, |o| - 1, k) && VisitedRow(s, o, |o| - 1, k) == LocalRow(s, o, |o| - 1, k))
    ensures |src| == s.TotalBytes() && ByteAt(s, k, 0, p) && Image(s, o, src)[p] != RowMajorByte(s, o, src, k, 0)
  {
    var d := |o| - 1;
    var row := VisitedRow(s, o, d, k);
    SlotsPositive(s, o, d);
    VisitedBelow(s, o, d, k);
    LenPositive(s, o);
    RowFits(s, o, row, 0);
    src := Zeros(s.TotalBytes())[At(s, o, row) := 1];
    p := k * s.ChunkRowBytes();
    VisitAt(s, o, d, 0, k);
    ImageAt(s, o, src, k, 0, p);
    if InData(s, o, d, k) {
      InDataRow(s, o, d, k);
      RowFits(s, o, LocalRow(s, o, d, k), 0);
      RowsApart(s, o, row, LocalRow(s, o, d, k));
    }
  }

  lemma LenPositive(s: Shape, o: seq<nat>)
    requires Origin(s, o)
    ensures 0 < Len(s, o) && 0 < s.ChunkRowBytes() && 0 < s.RowBytes()
  {
    MulMono(1, Min(s.b[0], s.n[0] - o[0]), s.es);
    MulMono(1, s.b[0], s.es);
    MulMono(1, s.n[0], s.es);
  }

  lemma RowsApart(s: Shape, o: seq<nat>, row: nat, row': nat)
    requires Origin(s, o) && row != row' && 0 < s.RowBytes()
    ensures At(s, o, row) != At(s, o, row')
  {
    if row < row' {
      MulMono(row + 1, row', s.RowBytes());
      MulSucc(row, s.RowBytes());
    } else {
      MulMono(row' + 1, row, s.RowBytes());
      MulSucc(row', s.RowBytes());
    }
  }

  /** For a dataset with elements: every chunk image is its row-major, zero-padded chunk exactly when the
      middle dimensions divide evenly or are not followed by a multi-row dimension. */
  lemma DatasetRowMajorExact(s: Shape)
    requires s.Valid() && forall k :: 0 <= k < |s.n| ==> s.n[k] > 0
    ensures (forall o {:trigger Origin(s, o)} :: Origin(s, o) ==> RowMajor(s, o)) <==> MiddleOk(s)
  {
    DatasetLayoutExact(s);
    forall o {:trigger Origin(s, o)} | Origin(s, o)
      ensures RowMajor(s, o) <==> LaidOut(s, o, |o| - 1)
    {
      LayoutExact(s, o, |o| - 1);
      RowMajorExact(s, o);
    }
  }

  // ---- every source byte lands in exactly one slot ----

  lemma {:induction false} VisitedBelow(s: Shape, o: seq<nat>, d: nat, k: nat)
    requires Origin(s, o) && d < |o| && k < Slots(s, o, d)
    ensures VisitedRow(s, o, d, k) < Volume(s.n, d + 1)
    decreases d
  {
    if d > 0 {
      SlotsPositive(s, o, d - 1);
      SlotsPositive(s, o, d);
      var c := Slots(s, o, d - 1);
      SplitDigit(k, Ext(s, o, d), c);
      VisitedBelow(s, o, d - 1, k % c);
      RowNoBelow(s, d, o[d] + k / c, VisitedRow(s, o, d - 1, k % c));
    }
  }

  /** Two chunk origins of a dimension whose chunks share a coordinate are equal. */
  lemma SameChunk(j1: nat, j2: nat, b: nat, x: nat)
    requires b > 0 && Multiple(j1, b) && Multiple(j2, b) && j1 <= x < j1 + b && j2 <= x < j2 + b
    ensures j1 == j2
  {
    if j1 < j2 { NextMultiple(j1, j2, b); }
    if j2 < j1 { NextMultiple(j2, j1, b); }
  }

  /** The digit of dimension d read off a visited row. */
  lemma TopDigit(s: Shape, o: seq<nat>, d: nat, k: nat) returns (x: nat, low: nat)
    requires Origin(s, o) && 0 < d < |o| && k < Slots(s, o, d)
    ensures x < s.b[d] && low < Slots(s, o, d - 1) && k == x * Slots(s, o, d - 1) + low
    ensures VisitedRow(s, o, d, k) == RowNo(s, d, o[d] + x, VisitedRow(s, o, d - 1, low))
    ensures VisitedRow(s, o, d - 1, low) < Volume(s.n, d)
  {
    SlotsPositive(s, o, d - 1);
    SlotsPositive(s, o, d);
    x, low := Digits(k, Ext(s, o, d), Slots(s, o, d - 1));
    VisitedBelow(s, o, d - 1, low);
    TopRow(s, o, d, k, Slots(s, o, d - 1), x, low);
  }

  lemma Digits(k: nat, e: nat, c: nat) returns (x: nat, low: nat)
    requires c > 0 && k < e * c
    ensures x == k / c && low == k % c && x < e && low < c && k == x * c + low
  {
    SplitDigit(k, e, c);
    x, low := k / c, k % c;
  }

  lemma TopRow(s: Shape, o: seq<nat>, d: nat, k: nat, c: nat, x: nat, low: nat)
    requires Origin(s, o) && 0 < d < |o| && c == Slots(s, o, d - 1) > 0 && x == k / c && low == k % c
    ensures VisitedRow(s, o, d, k) == RowNo(s, d, o[d] + x, VisitedRow(s, o, d - 1, low))
  {}

  lemma RowNoInjective(s: Shape, d: nat, x: nat, low: nat, x': nat, low': nat)
    requires 1 <= d <= |s.n| && low < Volume(s.n, d) && low' < Volume(s.n, d) && RowNo(s, d, x, low) == RowNo(s, d, x', low')
    ensures x == x' && low == low'
  {
    DivModUnique(x, low, Volume(s.n, d));
    DivModUnique(x', low', Volume(s.n, d));
  }

  /** Two chunks visiting the same row agree on all slower coordinates and on the slot. */
  lemma {:induction false} RowOnce(s: Shape, o: seq<nat>, o': seq<nat>, d: nat, k: nat, k': nat)
    requires Origin(s, o) && Origin(s, o') && d < |o| && k < Slots(s, o, d) && k' < Slots(s, o', d)
    requires VisitedRow(s, o, d, k) == VisitedRow(s, o', d, k')
    ensures o[1..d + 1] == o'[1..d + 1] && k == k'
    decreases d
  {
    if d == 0 {
      assert o[1..1] == o'[1..1] == [];
    } else {
      var x, low := TopDigit(s, o, d, k);
      var x', low' := TopDigit(s, o', d, k');
      RowNoInjective(s, d, o[d] + x, VisitedRow(s, o, d - 1, low), o'[d] + x', VisitedRow(s, o', d - 1, low'));
      SameChunk(o[d], o'[d], s.b[d], o[d] + x);
      RowOnce(s, o, o', d - 1, low, low');
      SameSlots(s, o, o', d - 1);
      assert o[1..d + 1] == o[1..d] + [o[d]] && o'[1..d + 1] == o'[1..d] + [o'[d]];
    }
  }

  lemma InnerSlice(o: seq<nat>, d: nat)
    requires 0 < d < |o|
    ensures o[1..d] == o[1..d + 1][..d - 1]
  {}

  lemma {:induction false} SameSlots(s: Shape, o: seq<nat>, o': seq<nat>, d: nat)
    requires Origin(s, o) && Origin(s, o') && d < |o| && o[1..d + 1] == o'[1..d + 1]
    ensures Slots(s, o, d) == Slots(s, o', d)
  {
    if d > 0 {
      assert o[d] == o[1..d + 1][d - 1] == o'[1..d + 1][d - 1] == o'[d];
      InnerSlice(o, d);
      InnerSlice(o', d);
      SameSlots(s, o, o', d - 1);
    }
  }

  lemma RowEnd(s: Shape, o: seq<nat>, t: nat)
    requires Origin(s, o) && t < Len(s, o)
    ensures o[0] * s.es + t < s.RowBytes()
    ensures o[0] <= (o[0] * s.es + t) / s.es < o[0] + s.b[0]
  {
    var m := Min(s.b[0], s.n[0] - o[0]);
    QuotientBelow(t, m, s.es);
    AddMultiple(t, o[0], s.es);
    assert (o[0] + m) * s.es == o[0] * s.es + m * s.es;
    MulMono(o[0] + m, s.n[0], s.es);
  }

  /** Every source byte is written to exactly one place: one chunk, one slot, one position in it. */
  lemma ExactlyOnce(s: Shape, o: seq<nat>, k: nat, t: nat, o': seq<nat>, k': nat, t': nat)
    requires Origin(s, o) && k < |ChunkOffs(s, o)| && t < Len(s, o)
    requires Origin(s, o') && k' < |ChunkOffs(s, o')| && t' < Len(s, o')
    requires ChunkOffs(s, o)[k] + t == ChunkOffs(s, o')[k'] + t'
    ensures o == o' && k == k' && t == t'
  {
    var d, L := |o| - 1, s.RowBytes();
    OffsCount(s, o, d, 0);
    OffsCount(s, o', d, 0);
    VisitAt(s, o, d, 0, k);
    VisitAt(s, o', d, 0, k');
    RowEnd(s, o, t);
    RowEnd(s, o', t');
    var r, r' := VisitedRow(s, o, d, k), VisitedRow(s, o', d, k');
    DivModUnique(r, o[0] * s.es + t, L);
    DivModUnique(r', o'[0] * s.es + t', L);
    RowOnce(s, o, o', d, k, k');
    SameChunk(o[0], o'[0], s.b[0], (o[0] * s.es + t) / s.es);
    assert o == [o[0]] + o[1..d + 1] && o' == [o'[0]] + o'[1..d + 1];
  }
}
