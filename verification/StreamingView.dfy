/**
 h5::view: an input iterator over a rank-1 chunked dataset that keeps one decoded chunk at a time in
 its pipeline's chunk buffer.
 */
module StreamingView {
  import opened Arith
  import opened Memory
  import opened Tiling
  import opened FilterChain
  import opened ChunkGrid
  import BasicPipeline

  lemma StartBefore(i: nat, c: nat)
    requires c > 0
    ensures Multiple(Floor(i, c), c) && Floor(i, c) <= i && i == Floor(i, c) + i % c
  {
    FloorMultiple(i, c);
  }

  /** Stepping on either stays in the chunk or enters the next one at its first element. */
  lemma StepChunk(i: nat, c: nat)
    requires c > 0
    ensures if (i + 1) % c == 0 then (i + 1) / c == i / c + 1 && Floor(i + 1, c) == i + 1
            else (i + 1) / c == i / c && Floor(i + 1, c) == Floor(i, c)
  {
    var q, r := i / c, i % c;
    StepQuotient(i, q, r, c);
  }

  lemma StepQuotient(i: nat, q: nat, r: nat, c: nat)
    requires r < c && i == q * c + r
    ensures if r + 1 < c then (i + 1) / c == q && (i + 1) % c == r + 1
            else (i + 1) / c == q + 1 && (i + 1) % c == 0 && (q + 1) * c == i + 1
  {
    if r + 1 < c {
      DivModUnique(q, r + 1, c);
    } else {
      MulSucc(q, c);
      DivModUnique(q + 1, 0, c);
    }
  }

  /** The chunk of element i is there and decodes to enough bytes. */
  predicate Fetchable(ds: Dataset, filters: seq<Filter>, c: nat, es: nat, i: nat)
    requires c > 0
  {
    [Floor(i, c)] in ds && c * es <= |Decode(filters, ds[[Floor(i, c)]])|
  }

  /** The bytes of element i: its place in the decoded chunk. */
  function Element(ds: Dataset, filters: seq<Filter>, c: nat, es: nat, i: nat): (x: seq<byte>)
    requires c > 0 && Fetchable(ds, filters, c, es, i)
    ensures |x| == es
  {
    ElementFits(i % c, c, es);
    Decode(filters, ds[[Floor(i, c)]])[i % c * es..i % c * es + es]
  }

  lemma ElementFits(k: nat, c: nat, es: nat)
    requires k < c
    ensures k * es + es <= c * es
  {
    MulSucc(k, es);
    MulMono(k + 1, c, es);
  }

  /** Offsets of the first k chunks. */
  function Starts(k: nat, c: nat): (os: seq<nat>)
    ensures |os| == k
  {
    if k == 0 then [] else Starts(k - 1, c) + [(k - 1) * c]
  }

  /** They are distinct: chunk j is fetched j-th and never again. */
  lemma {:induction false} StartsAt(k: nat, c: nat, j: nat)
    requires j < k
    ensures Starts(k, c)[j] == j * c
  {
    if j < k - 1 { StartsAt(k - 1, c, j); }
  }

  /** Every chunk of the n elements can be read. */
  ghost predicate ChunksReadable(p: BasicPipeline.Pipeline, n: nat)
    requires |p.b| == 1 && p.b[0] > 0 && p.es > 0
    reads p
  {
    forall o: nat {:trigger Multiple(o, p.b[0])} :: o < n && Multiple(o, p.b[0]) ==> ChunkOk(p, o)
  }

  ghost predicate ChunkOk(p: BasicPipeline.Pipeline, o: nat)
    requires |p.b| == 1 && p.b[0] > 0 && p.es > 0
    reads p
  {
    && [o] in p.ds && |Decode(p.filters, p.ds[[o]])| == p.b[0] * p.es
    && CanDecode(p.filters, |p.filters|, p.ds[[o]].mask, p.ds[[o]].bytes, p.chunk0.Length)
  }

  class Iterator {
    const pipeline: BasicPipeline.Pipeline?
    const total: nat
    const chunkN: nat
    var offset: nat
    ghost var fetched: seq<nat>

    /** The keyed constructor; at or past the end it makes a sentinel without a pipeline. */
    constructor (pipeline: BasicPipeline.Pipeline, offset: nat, total: nat)
      requires pipeline.Valid() && |pipeline.b| == 1 && pipeline.b[0] > 0 && pipeline.es > 0
      requires ChunksReadable(pipeline, total)
      modifies pipeline.chunk0, pipeline.chunk1
      ensures Valid() && this.offset == offset && this.total == total
      ensures offset < total ==>
                this.pipeline == pipeline && chunkN == pipeline.b[0] && fetched == [Floor(offset, chunkN)]
      ensures offset >= total ==> pipeline.chunk0[..] == old(pipeline.chunk0[..]) && fetched == []
    {
      this.offset, this.total := offset, total;
      this.fetched := [];
      if offset >= total {
        this.pipeline, chunkN := null, 1;
      } else {
        this.pipeline, chunkN := pipeline, pipeline.b[0];
      }
      new;
      if offset < total { LoadChunk(); }
    }

    ghost predicate Attached()
      reads this, pipeline
    {
      && chunkN > 0 && pipeline != null && pipeline.Valid()
      && |pipeline.b| == 1 && chunkN == pipeline.b[0] && pipeline.es > 0 && ChunksReadable(pipeline, total)
    }

    /** While there are elements left the buffer holds the decoded chunk of the current one. */
    ghost predicate Valid()
      reads this, pipeline, if pipeline == null then {} else {pipeline.chunk0}
    {
      offset < total ==> Attached() && Cached(Floor(offset, chunkN))
    }

    ghost predicate Cached(o: nat)
      requires pipeline != null
      reads this, pipeline, pipeline.chunk0
    {
      && [o] in pipeline.ds && |Decode(pipeline.filters, pipeline.ds[[o]])| == chunkN * pipeline.es <= pipeline.chunk0.Length
      && pipeline.chunk0[..chunkN * pipeline.es] == Decode(pipeline.filters, pipeline.ds[[o]])
    }

    /** load_chunk: fetch and decode the chunk of the current offset. */
    method LoadChunk()
      requires Attached() && offset < total
      modifies this`fetched, pipeline.chunk0, pipeline.chunk1
      ensures Attached() && Cached(Floor(offset, chunkN))
      ensures fetched == old(fetched) + [Floor(offset, chunkN)]
    {
      StartBefore(offset, chunkN);
      var chunkOffset := offset / chunkN * chunkN;
      assert ChunkOk(pipeline, chunkOffset);
      pipeline.ReadChunk([chunkOffset]);
      fetched := fetched + [chunkOffset];
    }

    /** operator*: the element at the current offset. */
    method Deref() returns (x: seq<byte>)
      requires Valid() && offset < total
      ensures x == Element(pipeline.ds, pipeline.filters, chunkN, pipeline.es, offset)
    {
      ElementFits(offset % chunkN, chunkN, pipeline.es);
      x := pipeline.chunk0[offset % chunkN * pipeline.es..offset % chunkN * pipeline.es + pipeline.es];
      assert x == pipeline.chunk0[..chunkN * pipeline.es][offset % chunkN * pipeline.es..offset % chunkN * pipeline.es + pipeline.es];
    }

    /** operator++: a chunk is fetched exactly when the step enters one. */
    method Increment()
      requires Valid() && offset < total
      modifies this`offset, this`fetched, pipeline.chunk0, pipeline.chunk1
      ensures Valid() && offset == old(offset) + 1
      ensures fetched == if offset < total && Floor(offset, chunkN) != old(Floor(offset, chunkN))
                         then old(fetched) + [Floor(offset, chunkN)] else old(fetched)
    {
      StepChunk(offset, chunkN);
      StartBefore(offset, chunkN);
      offset := offset + 1;
      if offset < total && offset % chunkN == 0 { LoadChunk(); }
    }
  }

  /** view(): begin and end for a rank-1 dataset, an exception for any other rank. */
  method View(pipeline: BasicPipeline.Pipeline, dims: seq<nat>) returns (range: Option<(Iterator, Iterator)>)
    requires pipeline.Valid() && |pipeline.b| == 1 && pipeline.b[0] > 0 && pipeline.es > 0
    requires |dims| == 1 ==> ChunksReadable(pipeline, dims[0])
    modifies pipeline.chunk0, pipeline.chunk1
    ensures range.Some? <==> |dims| == 1
    ensures range.Some? ==>
              var (first, last) := range.value;
              && fresh(first) && fresh(last) && first != last && first.Valid() && first.offset == 0
              && first.total == last.offset == dims[0]
              && first.fetched == (if dims[0] > 0 then [0] else [])
              && (dims[0] > 0 ==> first.pipeline == pipeline && first.chunkN == pipeline.b[0])
  {
    if |dims| != 1 { return None; }
    var first := new Iterator(pipeline, 0, dims[0]);
    var last := new Iterator(pipeline, dims[0], dims[0]);
    range := Some((first, last));
  }

  /** The first k elements of the dataset. */
  ghost predicate Yields(p: BasicPipeline.Pipeline, out: seq<seq<byte>>)
    requires |p.b| == 1 && p.b[0] > 0
    reads p
  {
    forall i :: 0 <= i < |out| ==>
      Fetchable(p.ds, p.filters, p.b[0], p.es, i) && out[i] == Element(p.ds, p.filters, p.b[0], p.es, i)
  }

  /** Chunks fetched by the time the iterator stands at `offset` of n elements. */
  function FetchedAt(offset: nat, n: nat, c: nat): (k: nat)
    requires c > 0 && offset <= n
  {
    if n == 0 then 0 else (if offset < n then offset else n - 1) / c + 1
  }

  /** The chunks fetched so far are the first ones, in order. */
  ghost predicate FetchedFirst(fetched: seq<nat>, offset: nat, n: nat, c: nat) {
    c > 0 && offset <= n && fetched == Starts(FetchedAt(offset, n, c), c)
  }

  lemma FetchedStep(before: seq<nat>, after: seq<nat>, offset: nat, n: nat, c: nat)
    requires FetchedFirst(before, offset, n, c) && offset < n
    requires after == if offset + 1 < n && Floor(offset + 1, c) != Floor(offset, c) then before + [Floor(offset + 1, c)] else before
    ensures FetchedFirst(after, offset + 1, n, c)
  {
    StepChunk(offset, c);
    StartBefore(offset, c);
    if offset + 1 < n && Floor(offset + 1, c) != Floor(offset, c) {
      assert Starts(offset / c + 2, c) == Starts(offset / c + 1, c) + [(offset / c + 1) * c];
    }
  }

  /** The iterator stands behind the elements in out. */
  ghost predicate Walking(it: Iterator, pipeline: BasicPipeline.Pipeline, n: nat, out: seq<seq<byte>>)
    reads it, it.pipeline, if it.pipeline == null then {} else {it.pipeline.chunk0}, pipeline
  {
    && |pipeline.b| == 1 && pipeline.b[0] > 0 && it.total == n && it.Valid() && |out| == it.offset <= n
    && (n > 0 ==> it.pipeline == pipeline && it.chunkN == pipeline.b[0])
    && Yields(pipeline, out) && FetchedFirst(it.fetched, it.offset, n, pipeline.b[0])
  }

  /** A range-based loop over a view: the elements come out in order, each chunk is fetched once. */
  method ForEach(pipeline: BasicPipeline.Pipeline, n: nat) returns (out: seq<seq<byte>>, ghost fetched: seq<nat>)
    requires pipeline.Valid() && |pipeline.b| == 1 && pipeline.b[0] > 0 && pipeline.es > 0
    requires ChunksReadable(pipeline, n)
    modifies pipeline.chunk0, pipeline.chunk1
    ensures |out| == n && Yields(pipeline, out)
    ensures FetchedFirst(fetched, n, n, pipeline.b[0])
  {
    out := [];
    var range := View(pipeline, [n]);
    var (it, last) := range.value;
    StartsOne(n, pipeline.b[0]);
    assert Walking(it, pipeline, n, out);
    hide Walking, Yields, FetchedFirst, it.Valid;
    while it.offset != last.offset
      invariant Walking(it, pipeline, n, out)
      invariant it.offset <= n == last.offset
      decreases n - it.offset
    {
      var x := Visit(it, pipeline, n, out);
      out := out + [x];
    }
    fetched := it.fetched;
    WalkEnds(it, pipeline, n, out);
  }

  lemma WalkEnds(it: Iterator, pipeline: BasicPipeline.Pipeline, n: nat, out: seq<seq<byte>>)
    requires Walking(it, pipeline, n, out) && it.offset == n
    ensures |out| == n && |pipeline.b| == 1 && pipeline.b[0] > 0 && Yields(pipeline, out)
    ensures FetchedFirst(it.fetched, n, n, pipeline.b[0])
  {}

  /** The loop body: dereference, then step. */
  method Visit(it: Iterator, pipeline: BasicPipeline.Pipeline, n: nat, ghost out: seq<seq<byte>>) returns (x: seq<byte>)
    requires Walking(it, pipeline, n, out) && it.offset < n
    modifies it`offset, it`fetched, pipeline.chunk0, pipeline.chunk1
    ensures Walking(it, pipeline, n, out + [x]) && it.offset == old(it.offset) + 1
  {
    ghost var before, at := it.fetched, it.offset;
    Standing(it);
    hide it.Valid, FetchedFirst, Element, Fetchable, Floor, Yields;
    x := it.Deref();
    YieldsOneMore(pipeline, out, x);
    it.Increment();
    FetchedStep(before, it.fetched, at, n, it.chunkN);
  }

  lemma YieldsOneMore(p: BasicPipeline.Pipeline, out: seq<seq<byte>>, x: seq<byte>)
    requires |p.b| == 1 && p.b[0] > 0 && Yields(p, out)
    requires Fetchable(p.ds, p.filters, p.b[0], p.es, |out|) && x == Element(p.ds, p.filters, p.b[0], p.es, |out|)
    ensures Yields(p, out + [x])
  {}

  lemma Standing(it: Iterator)
    requires it.Valid() && it.offset < it.total
    ensures it.pipeline != null && |it.pipeline.b| == 1 && it.chunkN == it.pipeline.b[0] > 0
    ensures Fetchable(it.pipeline.ds, it.pipeline.filters, it.chunkN, it.pipeline.es, it.offset)
  {}

  lemma StartsOne(n: nat, c: nat)
    requires c > 0
    ensures FetchedFirst(if n == 0 then [] else [0], 0, n, c)
  {
    DivModUnique(0, 0, c);
    assert Starts(0, c) == [] && Starts(1, c) == [] + [0 * c];
  }

  lemma ChunkHeld(ds: Dataset, s: Shape, filters: seq<Filter>, src: seq<byte>, j: nat)
    requires s.Valid() && |s.n| == 1 && AllOrigins(s, Origins(s)) && |src| == s.TotalBytes()
    requires j < s.n[0] && Multiple(j, s.b[0]) && HoldsImages(ds, s, filters, src, Origins(s))
    ensures Origin(s, [j]) && [j] in ds && Decode(filters, ds[[j]]) == Image(s, [j], src)
  {
    GridComplete(s, 1, [j], []);
    assert [j] + [] == [j] && Key([j]) == [j];
    var k :| 0 <= k < |Origins(s)| && Origins(s)[k] == [j];
    assert Key(Origins(s)[k]) == [j];
  }

  lemma SliceFront(src: seq<byte>, a: nat, len: nat, pad: seq<byte>, r: nat, es: nat)
    requires a + len <= |src| && r + es <= len
    ensures (src[a..a + len] + pad)[r..r + es] == src[a + r..a + r + es]
  {
    var buf, out := src[a..a + len] + pad, src[a + r..a + r + es];
    forall k | 0 <= k < es
      ensures buf[r..r + es][k] == out[k]
    {
      assert buf[r + k] == src[a + r + k];
    }
  }

  /** Element r of the chunk at j, at byte q of its image, is element j + r of src, at byte e. */
  lemma ImageElement(s: Shape, src: seq<byte>, j: nat, r: nat, q: nat, e: nat)
    requires Origin(s, [j]) && |src| == s.TotalBytes() && r < s.b[0] && j + r < s.n[0]
    requires q == r * s.es && e == (j + r) * s.es
    ensures e + s.es <= |src| && q + s.es <= s.b[0] * s.es == s.BlockBytes()
    ensures Image(s, [j], src)[q..q + s.es] == src[e..e + s.es]
  {
    var a, len := j * s.es, Len(s, [j]);
    BasicPipeline.Rank1Sizes(s, j);
    BasicPipeline.Rank1Image(s, j, src, Zeros(s.BlockBytes()));
    InChunk(j, r, Min(s.b[0], s.n[0] - j), s.es);
    ElementFits(r, s.b[0], s.es);
    assert e == a + q && q + s.es <= len;
    SliceFront(src, a, len, Zeros(s.BlockBytes())[len..], q, s.es);
  }

  lemma InChunk(j: nat, r: nat, m: nat, es: nat)
    requires r < m
    ensures (j + r) * es == j * es + r * es && r * es + es <= m * es
  {
    ElementFits(r, m, es);
  }

  /** Streaming a dataset that holds the chunks of src yields src: element i is the one at byte e. */
  lemma WrittenElements(ds: Dataset, s: Shape, filters: seq<Filter>, src: seq<byte>, i: nat, e: nat)
    requires s.Valid() && |s.n| == 1 && AllOrigins(s, Origins(s)) && |src| == s.TotalBytes() && i < s.n[0] && e == i * s.es
    requires HoldsImages(ds, s, filters, src, Origins(s))
    ensures Fetchable(ds, filters, s.b[0], s.es, i)
    ensures e + s.es <= |src| && Element(ds, filters, s.b[0], s.es, i) == src[e..e + s.es]
  {
    var j := Floor(i, s.b[0]);
    StartBefore(i, s.b[0]);
    ChunkHeld(ds, s, filters, src, j);
    ImageElement(s, src, j, i % s.b[0], i % s.b[0] * s.es, e);
  }
}
