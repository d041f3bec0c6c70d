/**
 The packet table on a rank-1 dataset: scalar appends collect in the pipeline's chunk buffer, a
 full or flushed buffer becomes the next chunk of the dataset.
 */
module PacketTable {
  import opened Arith
  import opened Memory
  import opened Tiling
  import opened FilterChain
  import opened ChunkGrid
  import BasicPipeline

  function Repeat(fill: seq<byte>, k: nat): (r: seq<byte>)
    ensures |r| == k * |fill|
  {
    if k == 0 then [] else Repeat(fill, k - 1) + fill
  }

  /** What a chunk reads back as; HDF5 fills in a chunk that was never written. */
  function ChunkAt(ds: Dataset, filters: seq<Filter>, fill: seq<byte>, n: nat, off: nat): (c: seq<byte>) {
    if [off] in ds then Decode(filters, ds[[off]]) else Repeat(fill, n)
  }

  /** The dataset's elements up to a chunk-aligned extent, as bytes. */
  function Content(ds: Dataset, filters: seq<Filter>, fill: seq<byte>, n: nat, extent: nat): (c: seq<byte>)
    requires n > 0 && Multiple(extent, n)
    decreases extent
  {
    if extent == 0 then []
    else Content(ds, filters, fill, n, extent - n) + ChunkAt(ds, filters, fill, n, extent - n)
  }

  /** Chunks stored at or past the extent do not show below it. */
  lemma {:induction false} ContentBelow(ds: Dataset, filters: seq<Filter>, fill: seq<byte>, n: nat,
                                        extent: nat, off: nat, stored: Stored)
    requires n > 0 && Multiple(extent, n) && off >= extent
    ensures Content(ds[[off] := stored], filters, fill, n, extent) == Content(ds, filters, fill, n, extent)
    decreases extent
  {
    if extent > 0 {
      ContentBelow(ds, filters, fill, n, extent - n, off, stored);
      assert [off][0] != [extent - n][0];
    }
  }

  /** Storing one more chunk of a reversible chain appends its bytes. */
  lemma ContentNext(ds: Dataset, filters: seq<Filter>, fill: seq<byte>, n: nat, extent: nat, block: seq<byte>)
    requires n > 0 && Multiple(extent, n) && Reversible(filters, 0, block)
    ensures Content(ds[[extent] := Encode(filters, block)], filters, fill, n, extent + n)
         == Content(ds, filters, fill, n, extent) + block
  {
    ContentBelow(ds, filters, fill, n, extent, extent, Encode(filters, block));
    FilterChain.RoundTrip(filters, block);
  }

  /** pt_t: `chunkElems` is N, the elements of a chunk; the buffer `ptr` is the pipeline's chunk0. */
  class Table {
    const pipeline: BasicPipeline.Pipeline
    const fill: seq<byte>
    const chunkElems: nat
    var n: nat
    var offset: nat
    var currentDims: nat

    /** init(): the table continues at the dataset's current extent. */
    constructor (pipeline: BasicPipeline.Pipeline, fill: seq<byte>, extent: nat)
      requires pipeline.Valid() && |pipeline.b| == 1 && pipeline.b[0] > 0 && |fill| == pipeline.es > 0
      requires pipeline.b[0] * pipeline.es <= pipeline.chunk0.Length && ChainGood(pipeline)
      ensures Valid() && this.pipeline == pipeline && this.fill == fill && chunkElems == pipeline.b[0]
      ensures n == 0 && currentDims == extent
    {
      this.pipeline, this.fill, this.chunkElems := pipeline, fill, pipeline.b[0];
      n, offset, currentDims := 0, 0, extent;
    }

    /** The chain undoes every chunk and never overruns the scratch buffers. */
    static ghost predicate ChainGood(p: BasicPipeline.Pipeline)
      requires |p.b| == 1
    {
      forall x: seq<byte> {:trigger Reversible(p.filters, 0, x)} :: |x| == p.b[0] * p.es ==>
        p.StoresRight(x) && Reversible(p.filters, 0, x)
    }

    /** Bytes of k elements. */
    ghost function Bytes(k: nat): (size: nat) {
      k * pipeline.es
    }

    /** The chunk buffer is never left full. */
    ghost predicate Valid()
      reads this, pipeline
    {
      && pipeline.Valid() && |pipeline.b| == 1 && chunkElems == pipeline.b[0] > 0
      && |fill| == pipeline.es > 0 && Bytes(chunkElems) <= pipeline.chunk0.Length
      && ChainGood(pipeline) && n < chunkElems
    }

    /** Everything the table holds: the dataset up to the extent, then the buffered elements. */
    ghost function Elements(): (c: seq<byte>)
      requires Valid() && Multiple(currentDims, chunkElems)
      reads this, pipeline, pipeline.chunk0
    {
      BufferFits(n, chunkElems, pipeline.es);
      Content(pipeline.settled, pipeline.filters, fill, chunkElems, currentDims) + pipeline.chunk0[..Bytes(n)]
    }

    /** The first `bytes` bytes of the chunk buffer. */
    ghost function Buffered(bytes: nat): (r: seq<byte>)
      requires bytes <= pipeline.chunk0.Length
      reads pipeline.chunk0
    {
      pipeline.chunk0[..bytes]
    }

    /** The extent grows by the chunk and the block is written at the old extent. */
    method EmitChunk()
      requires Valid()
      modifies this`offset, this`currentDims, pipeline, pipeline.chunk0, pipeline.chunk1
      ensures Valid() && offset == old(currentDims) && currentDims == old(currentDims) + chunkElems
      ensures pipeline.settled
           == old(pipeline.settled)[[offset] := Encode(pipeline.filters, old(Buffered(Bytes(chunkElems))))]
    {
      assert Reversible(pipeline.filters, 0, Buffered(Bytes(chunkElems)));
      pipeline.Right(Buffered(Bytes(chunkElems)));
      offset := currentDims;
      currentDims := currentDims + chunkElems;
      pipeline.WriteChunk([offset], chunkElems * pipeline.es, pipeline.chunk0);
    }

    /** EmitChunk seen from the table: the block made of the buffered bytes and `more` moves into the
        dataset, and the table as a whole has grown by `more`. */
    lemma Emitted(before: Dataset, kept: seq<byte>, more: seq<byte>)
      requires Valid() && n == 0 && |kept + more| == Bytes(chunkElems) && currentDims == offset + chunkElems
      requires pipeline.settled == before[[offset] := Encode(pipeline.filters, kept + more)] && Multiple(offset, chunkElems)
      ensures Multiple(currentDims, chunkElems)
      ensures Elements() == (Content(before, pipeline.filters, fill, chunkElems, offset) + kept) + more
    {
      assert Reversible(pipeline.filters, 0, kept + more);
      hide ChainGood, Content, pipeline.Valid;
      ContentNext(before, pipeline.filters, fill, chunkElems, offset, kept + more);
      Regroup(Content(before, pipeline.filters, fill, chunkElems, offset), kept, more);
      assert Bytes(0) == 0 && pipeline.chunk0[..0] == [];
    }

    /** append(const T&): store the element in the buffer, emit the chunk when it is full. */
    method Append(ref: seq<byte>)
      requires Valid() && |ref| == pipeline.es
      modifies this, pipeline, pipeline.chunk0, pipeline.chunk1
      ensures Valid() && n == (if old(n) + 1 == chunkElems then 0 else old(n) + 1)
      ensures currentDims == old(currentDims) + (if old(n) + 1 == chunkElems then chunkElems else 0)
      ensures currentDims != old(currentDims) ==> offset == old(currentDims)
      ensures Multiple(currentDims, chunkElems) <==> Multiple(old(currentDims), chunkElems)
      ensures Multiple(old(currentDims), chunkElems) ==> Elements() == old(Elements()) + ref
    {
      BufferFits(n + 1, chunkElems, pipeline.es);
      MulSucc(n, pipeline.es);
      ghost var kept := pipeline.chunk0[..n * pipeline.es];
      MemCpy(pipeline.chunk0, n * pipeline.es, ref);
      assert pipeline.chunk0[..(n + 1) * pipeline.es] == kept + ref;
      hide ChainGood, Content, pipeline.Valid;
      n := n + 1;
      if n != chunkElems { return; }
      n := 0;
      ghost var before := pipeline.settled;
      EmitChunk();
      if Multiple(offset, chunkElems) { Emitted(before, kept, ref); }
    }

    /** flush(): store the partial chunk and, with a pool, everything still in flight. */
    method Flush()
      requires Valid()
      modifies this, pipeline, pipeline.chunk0, pipeline.chunk1
      ensures Valid() && n == 0 && pipeline.ds == pipeline.settled
      ensures currentDims == old(currentDims) + (if old(n) == 0 then 0 else chunkElems)
      ensures currentDims != old(currentDims) ==> offset == old(currentDims)
      ensures Multiple(currentDims, chunkElems) <==> Multiple(old(currentDims), chunkElems)
      ensures Multiple(old(currentDims), chunkElems) ==>
                Elements() == old(Elements()) + Repeat(fill, if old(n) == 0 then 0 else chunkElems - old(n))
    {
      if n != 0 { FlushPartial(); }
      if pipeline.pool.Some? {
        pipeline.Drain();
      } else {
        pipeline.NothingQueued();
      }
    }

    /** The rest of the last chunk becomes fill value, then the chunk is emitted. */
    method FlushPartial()
      requires Valid() && n != 0
      modifies this, pipeline, pipeline.chunk0, pipeline.chunk1
      ensures Valid() && n == 0 && offset == old(currentDims) && currentDims == offset + chunkElems
      ensures Multiple(offset, chunkElems) ==> Elements() == old(Elements()) + Repeat(fill, chunkElems - old(n))
    {
      BufferFits(n, chunkElems, pipeline.es);
      ghost var before, kept := pipeline.settled, Buffered(Bytes(n));
      hide ChainGood, Content, pipeline.Valid, Bytes;
      Pad();
      EmitChunk();
      ghost var missing := chunkElems - n;
      n := 0;
      if Multiple(offset, chunkElems) { Emitted(before, kept, Repeat(fill, missing)); }
    }

    /** The two padding loops. */
    method Pad()
      requires Valid()
      modifies pipeline.chunk0
      ensures Bytes(n) <= Bytes(chunkElems)
      ensures pipeline.chunk0[..Bytes(chunkElems)]
           == old(pipeline.chunk0[..Bytes(n)]) + Repeat(fill, chunkElems - n)
    {
      var i := 0;
      BufferFits(n, chunkElems, pipeline.es);
      ghost var kept := pipeline.chunk0[..Bytes(n)];
      hide Valid, Bytes, Repeat;
      RepeatNone(kept);
      while i < chunkElems - n
        invariant 0 <= i <= chunkElems - n && Bytes(n + i) <= pipeline.chunk0.Length
        invariant pipeline.chunk0[..Bytes(n + i)] == kept + Repeat(fill, i)
      {
        PadOne(i);
        RepeatMore(kept, i);
        i := i + 1;
      }
    }

    lemma RepeatNone(kept: seq<byte>)
      ensures kept == kept + Repeat(fill, 0)
    {}

    lemma RepeatMore(kept: seq<byte>, i: nat)
      ensures (kept + Repeat(fill, i)) + fill == kept + Repeat(fill, i + 1)
    {}

    method PadOne(i: nat)
      requires Valid() && n + i < chunkElems
      modifies pipeline.chunk0
      ensures Bytes(n + i) <= Bytes(n + i + 1) <= pipeline.chunk0.Length
      ensures pipeline.chunk0[..Bytes(n + i + 1)] == old(pipeline.chunk0[..Bytes(n + i)]) + fill
    {
      var j, es := 0, pipeline.es;
      ghost var at := Bytes(n + i);
      BufferFits(n + i + 1, chunkElems, es);
      MulSucc(n + i, es);
      hide ChainGood, pipeline.Valid;
      while j < es
        invariant 0 <= j <= es
        invariant pipeline.chunk0[..at] == old(pipeline.chunk0[..at]) && pipeline.chunk0[at..at + j] == fill[..j]
      {
        pipeline.chunk0[(n + i) * es + j] := fill[j];
        j := j + 1;
      }
      ghost var buf := pipeline.chunk0[..];
      PrefixSlice(buf, at, at + es);
      assert buf[..at] == pipeline.chunk0[..at] && buf[at..at + es] == pipeline.chunk0[at..at + es] == fill;
      assert buf[..at + es] == pipeline.chunk0[..at + es];
    }
  }

  lemma Regroup(a: seq<byte>, b: seq<byte>, c: seq<byte>)
    ensures a + (b + c) == (a + b) + c && (a + (b + c)) + [] == a + (b + c)
  {}

  lemma BufferFits(k: nat, n: nat, es: nat)
    requires k <= n
    ensures k * es <= n * es
  {
    MulMono(k, n, es);
  }

  // ---- whole runs ----

  datatype Op = Append(ref: seq<byte>) | Flush

  /** The buffer count after one operation, and the elements the operation adds to the table. */
  function Count(n: nat, chunk: nat, op: Op): (n': nat) {
    if op.Flush? || n + 1 == chunk then 0 else n + 1
  }

  function Adds(n: nat, chunk: nat, op: Op): (k: nat)
    requires n < chunk
  {
    if op.Append? then 1 else if n == 0 then 0 else chunk - n
  }

  function One(n: nat, chunk: nat, fill: seq<byte>, op: Op): (r: seq<byte>)
    requires n < chunk
    ensures op.Flush? || |op.ref| == |fill| ==> |r| == Adds(n, chunk, op) * |fill|
  {
    match op
    case Append(ref) => ref
    case Flush => Repeat(fill, Adds(n, chunk, op))
  }

  /** The bytes a run adds to the table, padding included. */
  function Added(n: nat, chunk: nat, fill: seq<byte>, ops: seq<Op>): (r: seq<byte>)
    requires n < chunk
    decreases |ops|
  {
    if ops == [] then []
    else One(n, chunk, fill, ops[0]) + Added(Count(n, chunk, ops[0]), chunk, fill, ops[1..])
  }

  /** Elements added by the first i operations. */
  function Where(n: nat, chunk: nat, ops: seq<Op>, i: nat): (k: nat)
    requires n < chunk && i <= |ops|
    decreases i
  {
    if i == 0 then 0
    else Adds(n, chunk, ops[0]) + Where(Count(n, chunk, ops[0]), chunk, ops[1..], i - 1)
  }

  ghost predicate Sized(ops: seq<Op>, es: nat) {
    forall i :: 0 <= i < |ops| && ops[i].Append? ==> |ops[i].ref| == es
  }

  /** Any run of appends and flushes on a table whose initial extent is chunk aligned. */
  method Run(t: Table, ops: seq<Op>)
    requires t.Valid() && Sized(ops, t.pipeline.es) && Multiple(t.currentDims, t.chunkElems)
    modifies t, t.pipeline, t.pipeline.chunk0, t.pipeline.chunk1
    ensures t.Valid() && Multiple(t.currentDims, t.chunkElems)
    ensures t.Elements() == old(t.Elements()) + Added(old(t.n), t.chunkElems, t.fill, ops)
  {
    var i := 0;
    ghost var goal := t.Elements() + Added(t.n, t.chunkElems, t.fill, ops);
    while i < |ops|
      invariant 0 <= i <= |ops| && t.Valid() && Multiple(t.currentDims, t.chunkElems)
      invariant t.Elements() + Added(t.n, t.chunkElems, t.fill, ops[i..]) == goal
    {
      AddedCons(t.Elements(), t.n, t.chunkElems, t.fill, ops, i);
      RunOne(t, ops[i]);
      i := i + 1;
    }
  }

  method RunOne(t: Table, op: Op)
    requires t.Valid() && (op.Append? ==> |op.ref| == t.pipeline.es) && Multiple(t.currentDims, t.chunkElems)
    modifies t, t.pipeline, t.pipeline.chunk0, t.pipeline.chunk1
    ensures t.Valid() && Multiple(t.currentDims, t.chunkElems)
    ensures t.n == Count(old(t.n), t.chunkElems, op)
    ensures t.Elements() == old(t.Elements()) + One(old(t.n), t.chunkElems, t.fill, op)
  {
    match op {
      case Append(ref) => t.Append(ref);
      case Flush => t.Flush();
    }
  }

  lemma AddedCons(before: seq<byte>, n: nat, chunk: nat, fill: seq<byte>, ops: seq<Op>, i: nat)
    requires n < chunk && i < |ops|
    ensures before + Added(n, chunk, fill, ops[i..])
         == (before + One(n, chunk, fill, ops[i])) + Added(Count(n, chunk, ops[i]), chunk, fill, ops[i + 1..])
  {
    assert ops[i..][1..] == ops[i + 1..];
  }

  /** Every appended value is found, in order, after exactly the elements the earlier operations added. */
  lemma {:induction false} AppendedAt(n: nat, chunk: nat, fill: seq<byte>, ops: seq<Op>, i: nat)
    requires n < chunk && Sized(ops, |fill|) && i < |ops| && ops[i].Append?
    ensures Where(n, chunk, ops, i) * |fill| + |fill| <= |Added(n, chunk, fill, ops)|
    ensures Added(n, chunk, fill, ops)[Where(n, chunk, ops, i) * |fill|..][..|fill|] == ops[i].ref
    decreases |ops|
  {
    if i > 0 {
      var n', tail := Count(n, chunk, ops[0]), ops[1..];
      AppendedAt(n', chunk, fill, tail, i - 1);
      var head, rest := One(n, chunk, fill, ops[0]), Added(n', chunk, fill, tail);
      Distribute(Adds(n, chunk, ops[0]), Where(n', chunk, tail, i - 1), |fill|);
      DropBoth(head, rest, Where(n', chunk, tail, i - 1) * |fill|);
    }
  }

  lemma DropBoth(head: seq<byte>, rest: seq<byte>, k: nat)
    requires k <= |rest|
    ensures (head + rest)[|head| + k..] == rest[k..]
  {}

  lemma Distribute(a: nat, b: nat, es: nat)
    ensures (a + b) * es == a * es + b * es
  {}

  /** An append adds itself; a flush adds fewer elements than a chunk holds. */
  lemma {:induction false} AddsLittle(n: nat, chunk: nat, ops: seq<Op>, i: nat)
    requires n < chunk && i < |ops|
    ensures var k := Where(n, chunk, ops, i + 1) - Where(n, chunk, ops, i);
            if ops[i].Append? then k == 1 else 0 <= k < chunk
    decreases i
  {
    if i == 0 {
      WhereOne(n, chunk, ops);
    } else {
      AddsLittle(Count(n, chunk, ops[0]), chunk, ops[1..], i - 1);
    }
  }

  lemma WhereOne(n: nat, chunk: nat, ops: seq<Op>)
    requires n < chunk && ops != []
    ensures Where(n, chunk, ops, 1) == Adds(n, chunk, ops[0])
  {}

  /** After a flush the table is chunk aligned again, and it never loses count of the buffer. */
  lemma {:induction false} FlushAligns(n: nat, chunk: nat, ops: seq<Op>, i: nat)
    requires n < chunk && i < |ops| && ops[i].Flush?
    ensures Multiple(n + Where(n, chunk, ops, i + 1), chunk)
    decreases i
  {
    if i == 0 {
      WhereOne(n, chunk, ops);
    } else {
      FlushAligns(Count(n, chunk, ops[0]), chunk, ops[1..], i - 1);
    }
  }

  /** One uninterrupted session: the values in order, then fill values up to the chunk boundary. */
  lemma {:induction false} OneSession(n: nat, chunk: nat, fill: seq<byte>, ops: seq<Op>) returns (pad: nat)
    requires n < chunk && ops != [] && forall i :: 0 <= i < |ops| ==> (ops[i].Flush? <==> i == |ops| - 1)
    ensures pad < chunk && Multiple(n + |ops| - 1 + pad, chunk)
    ensures Added(n, chunk, fill, ops) == Values(ops[..|ops| - 1]) + Repeat(fill, pad)
    decreases |ops|
  {
    if |ops| == 1 {
      pad := Adds(n, chunk, ops[0]);
      assert ops[1..] == [] && ops[..0] == [];
    } else {
      var tail := ops[1..];
      pad := OneSession(Count(n, chunk, ops[0]), chunk, fill, tail);
      assert ops[..|ops| - 1][1..] == tail[..|tail| - 1];
    }
  }

  function Values(ops: seq<Op>): (r: seq<byte>)
    requires forall i :: 0 <= i < |ops| ==> ops[i].Append?
  {
    if ops == [] then [] else ops[0].ref + Values(ops[1..])
  }
}
