/**
 pool_pipeline_t::read: rank-1 chunks are fetched in order on the calling thread, decompressed by
 workers, and copied into place front first as their futures become ready. First the calling thread's
 own code, then the same read as a session on the worker pool, under every schedule.
 */
module PoolRead {
  import opened Arith
  import opened Memory
  import opened RowCopy
  import opened Tiling
  import opened FilterChain
  import opened ChunkGrid
  import BasicPipeline
  import PingPong
  import P = PoolSession
  import W = WorkerPool

  /** A submitted decompression: the chunk as H5Dread_chunk2 delivered it and where it belongs. */
  datatype ReadJob = ReadJob(stored: Stored, copySize: nat, dstOffset: nat)

  /** Elements a chunk holds of the data: the residual for the last one when there is one. */
  function CopyElems(n: nat, b: nat, j: nat): (m: nat)
    requires b > 0
  {
    var ry := n % b;
    if ry != 0 && j == n - ry then ry else b
  }

  /** Which is the part of the chunk inside the data. */
  lemma CopyElemsExact(n: nat, b: nat, j: nat)
    requires 0 < b && n < TWO_64 && j < n && Multiple(j, b)
    ensures CopyElems(n, b, j) == Min(b, n - j)
  {
    BasicPipeline.RowLength(n, b, j);
    BasicPipeline.DivUnique(0, n - n % b, TWO_64, n - n % b);
    if n % b == 0 && j == n - n % b { assert false; }
  }

  /** The destination ranges are disjoint and cover exactly the n elements: every element is in the
      range of one chunk and no other, and no range leaves the buffer. */
  lemma RangesPartition(n: nat, b: nat, x: nat) returns (j: nat)
    requires 0 < b && x < n < TWO_64
    ensures Multiple(j, b) && j <= x < j + CopyElems(n, b, j) <= n
    ensures forall k: nat :: k < n && Multiple(k, b) && k <= x < k + CopyElems(n, b, k) ==> k == j
  {
    FloorMultiple(x, b);
    j := Floor(x, b);
    CopyElemsExact(n, b, j);
    forall k: nat | k < n && Multiple(k, b) && k <= x < k + CopyElems(n, b, k)
      ensures k == j
    {
      CopyElemsExact(n, b, k);
      if k < j {
        NextMultiple(k, j, b);
      } else if j < k {
        NextMultiple(j, k, b);
      }
    }
  }

  /** The job made for the chunk at origin o of a rank-1 dataset. */
  ghost predicate JobFor(ds: Dataset, s: Shape, filters: seq<Filter>, cap: nat, o: seq<nat>, job: ReadJob) {
    && Origin(s, o) && |o| == 1 && ChunkReadable(ds, s, filters, o, cap)
    && job == ReadJob(ds[Key(o)], Len(s, o), o[0] * s.es)
  }

  ghost predicate JobsFor(ds: Dataset, s: Shape, filters: seq<Filter>, cap: nat, os: seq<seq<nat>>,
                          jobs: seq<ReadJob>) {
    |os| == |jobs| && forall i :: 0 <= i < |jobs| ==> JobFor(ds, s, filters, cap, os[i], jobs[i])
  }

  /** Draining the deque and then reading the chunks at `rest` makes dst the goal. */
  ghost predicate ReadsTo(ds: Dataset, s: Shape, filters: seq<Filter>, cap: nat, dst: seq<byte>,
                          os: seq<seq<nat>>, jobs: seq<ReadJob>, rest: seq<seq<nat>>, goal: seq<byte>) {
    JobsFor(ds, s, filters, cap, os, jobs) && RestoresTo(ds, s, filters, dst, os + rest, cap, goal)
  }

  /** Restoring a rank-1 chunk is one copy of its inside part. */
  lemma RestoreRank1(s: Shape, j: nat, dst: seq<byte>, img: seq<byte>)
    requires Origin(s, [j]) && |dst| == s.TotalBytes() && s.BlockBytes() <= |img|
    ensures Len(s, [j]) <= |img| && j * s.es + Len(s, [j]) <= |dst|
    ensures Restore(s, [j], dst, img) == Splice(dst, j * s.es, img[..Len(s, [j])])
  {
    BasicPipeline.Rank1Sizes(s, j);
    ChunkBounds(s, [j]);
    FitsAdvance(ChunkOffs(s, [j]), 0, s.ChunkRowBytes(), s.BlockBytes());
    FitsAdvance(ChunkOffs(s, [j]), 0, s.ChunkRowBytes(), |img|);
    assert ChunkOffs(s, [j]) == [At(s, [j], 0)] && At(s, [j], 0) == j * s.es;
    FetchSingle(dst, img, j * s.es, 0, Len(s, [j]), s.ChunkRowBytes());
    assert img[0..0 + Len(s, [j])] == img[..Len(s, [j])];
  }

  lemma ReadsToFront(ds: Dataset, s: Shape, filters: seq<Filter>, cap: nat, dst: seq<byte>,
                     os: seq<seq<nat>>, jobs: seq<ReadJob>, rest: seq<seq<nat>>, goal: seq<byte>)
    requires ReadsTo(ds, s, filters, cap, dst, os, jobs, rest, goal) && jobs != []
    ensures JobFor(ds, s, filters, cap, os[0], jobs[0])
    ensures |dst| == s.TotalBytes()
    ensures ReadsTo(ds, s, filters, cap, Restore(s, os[0], dst, Decode(filters, ds[Key(os[0])])), os[1..], jobs[1..], rest, goal)
  {
    assert os + rest == [os[0]] + (os[1..] + rest);
    var mid := RestoresToSplit(ds, s, filters, dst, [os[0]], os[1..] + rest, cap, goal);
    RestoresToOne(ds, s, filters, dst, os[0], cap, mid);
  }

  lemma ReadsToPush(ds: Dataset, s: Shape, filters: seq<Filter>, cap: nat, dst: seq<byte>,
                    os: seq<seq<nat>>, jobs: seq<ReadJob>, o: seq<nat>, job: ReadJob, rest: seq<seq<nat>>, goal: seq<byte>)
    requires ReadsTo(ds, s, filters, cap, dst, os, jobs, [o] + rest, goal) && JobFor(ds, s, filters, cap, o, job)
    ensures ReadsTo(ds, s, filters, cap, dst, os + [o], jobs + [job], rest, goal)
  {
    assert os + ([o] + rest) == (os + [o]) + rest;
  }

  lemma ReadsToStart(ds: Dataset, s: Shape, filters: seq<Filter>, cap: nat, dst: seq<byte>,
                     rest: seq<seq<nat>>, goal: seq<byte>)
    requires RestoresTo(ds, s, filters, dst, rest, cap, goal)
    ensures ReadsTo(ds, s, filters, cap, dst, [], [], rest, goal)
  {
    assert [] + rest == rest;
  }

  lemma ReadsToEnd(ds: Dataset, s: Shape, filters: seq<Filter>, cap: nat, dst: seq<byte>,
                   os: seq<seq<nat>>, jobs: seq<ReadJob>, goal: seq<byte>)
    requires ReadsTo(ds, s, filters, cap, dst, os, jobs, [], goal) && jobs == []
    ensures dst == goal
  {
    assert os + [] == [];
    RestoresToDone(ds, s, filters, dst, cap, goal);
  }

  /** The worker's closure: the reverse chain over two buffers of its own. */
  method RunRead(filters: seq<Filter>, job: ReadJob, scratch: nat) returns (data: seq<byte>)
    requires CanDecode(filters, |filters|, job.stored.mask, job.stored.bytes, scratch)
    requires job.copySize <= |Decode(filters, job.stored)|
    ensures data == Decode(filters, job.stored)[..job.copySize]
  {
    if |filters| == 0 { return job.stored.bytes[..job.copySize]; }
    var compressed, work := new byte[scratch], new byte[scratch];
    MemCpy(compressed, 0, job.stored.bytes);
    assert compressed[..|job.stored.bytes|] == job.stored.bytes;
    var first, second := if |filters| % 2 == 1 then work else compressed, if |filters| % 2 == 1 then compressed else work;
    var n := PingPong.Backward(first, second, |job.stored.bytes|, job.stored.mask, filters);
    data := first[..job.copySize];
    assert first[..n][..job.copySize] == data;
  }

  lemma FrontRunnable(ds: Dataset, s: Shape, filters: seq<Filter>, cap: nat, dst: seq<byte>,
                      os: seq<seq<nat>>, jobs: seq<ReadJob>, rest: seq<seq<nat>>, goal: seq<byte>)
    requires ReadsTo(ds, s, filters, cap, dst, os, jobs, rest, goal) && jobs != []
    ensures var stored := jobs[0].stored;
            CanDecode(filters, |filters|, stored.mask, stored.bytes, cap) && jobs[0].copySize <= |Decode(filters, stored)|
  {
    BasicPipeline.Rank1Sizes(s, os[0][0]);
    assert os[0] == [os[0][0]];
  }

  /** Copying the front result into place is restoring its chunk. */
  lemma FrontCopied(ds: Dataset, s: Shape, filters: seq<Filter>, cap: nat, dst: seq<byte>,
                    os: seq<seq<nat>>, jobs: seq<ReadJob>, rest: seq<seq<nat>>, goal: seq<byte>, data: seq<byte>, at: nat)
    requires ReadsTo(ds, s, filters, cap, dst, os, jobs, rest, goal) && jobs != [] && at == jobs[0].dstOffset
    requires jobs[0].copySize <= |Decode(filters, jobs[0].stored)|
    requires data == Decode(filters, jobs[0].stored)[..jobs[0].copySize]
    ensures at + |data| <= |dst|
    ensures ReadsTo(ds, s, filters, cap, Splice(dst, at, data), os[1..], jobs[1..], rest, goal)
  {
    ReadsToFront(ds, s, filters, cap, dst, os, jobs, rest, goal);
    assert os[0] == [os[0][0]];
    RestoreRank1(s, os[0][0], dst, Decode(filters, ds[Key(os[0])]));
  }

  /** The front future: copy its bytes into place. */
  method DrainFront(ghost ds: Dataset, ghost s: Shape, filters: seq<Filter>, cap: nat, dst: array<byte>,
                    ghost os: seq<seq<nat>>, jobs: seq<ReadJob>, ghost rest: seq<seq<nat>>, ghost goal: seq<byte>)
    requires ReadsTo(ds, s, filters, cap, dst[..], os, jobs, rest, goal) && jobs != []
    modifies dst
    ensures |os| > 0 && ReadsTo(ds, s, filters, cap, dst[..], os[1..], jobs[1..], rest, goal)
  {
    FrontRunnable(ds, s, filters, cap, dst[..], os, jobs, rest, goal);
    var data := RunRead(filters, jobs[0], cap);
    var at := jobs[0].dstOffset;
    FrontCopied(ds, s, filters, cap, dst[..], os, jobs, rest, goal, data, at);
    CopyInto(dst, at, data);
  }

  /** drain_in_flight_read(dst, false): as long as front futures happen to be ready. */
  method DrainReady(ghost ds: Dataset, ghost s: Shape, filters: seq<Filter>, cap: nat, dst: array<byte>,
                    ghost os: seq<seq<nat>>, jobs: seq<ReadJob>, ghost rest: seq<seq<nat>>, ghost goal: seq<byte>)
    returns (left: seq<ReadJob>, ghost pending: seq<seq<nat>>)
    requires ReadsTo(ds, s, filters, cap, dst[..], os, jobs, rest, goal)
    modifies dst
    ensures ReadsTo(ds, s, filters, cap, dst[..], pending, left, rest, goal)
  {
    left, pending := jobs, os;
    var ready: bool := *;
    while left != [] && ready
      invariant ReadsTo(ds, s, filters, cap, dst[..], pending, left, rest, goal)
      decreases |left|
    {
      DrainFront(ds, s, filters, cap, dst, pending, left, rest, goal);
      left, pending := left[1..], pending[1..];
      ready := *;
    }
  }

  /** Block on the front until fewer than `limit` futures are left. */
  method DrainBelow(limit: nat, ghost ds: Dataset, ghost s: Shape, filters: seq<Filter>, cap: nat, dst: array<byte>,
                    ghost os: seq<seq<nat>>, jobs: seq<ReadJob>, ghost rest: seq<seq<nat>>, ghost goal: seq<byte>)
    returns (left: seq<ReadJob>, ghost pending: seq<seq<nat>>)
    requires limit >= 1 && ReadsTo(ds, s, filters, cap, dst[..], os, jobs, rest, goal)
    modifies dst
    ensures |left| < limit && ReadsTo(ds, s, filters, cap, dst[..], pending, left, rest, goal)
  {
    left, pending := jobs, os;
    while |left| >= limit
      invariant ReadsTo(ds, s, filters, cap, dst[..], pending, left, rest, goal)
      decreases |left|
    {
      DrainFront(ds, s, filters, cap, dst, pending, left, rest, goal);
      left, pending := left[1..], pending[1..];
    }
  }

  /** pool_pipeline_t::read with zero offset. The postcondition is the synchronous read's, word for
      word: the result depends neither on which futures were ready when nor on the cap. */
  method Read(p: BasicPipeline.Pipeline, dims: seq<nat>, dst: array<byte>)
    requires p.Valid() && |dims| == |p.b| && Shape(Key(dims), p.b, p.es).Valid() && Key(dims)[0] < TWO_64
    requires var s := Shape(Key(dims), p.b, p.es);
             s.BlockBytes() <= p.chunk0.Length && dst != p.chunk0 && dst != p.chunk1 && dst.Length == s.TotalBytes()
             && Readable(p.ds, s, p.filters, Origins(s), p.chunk0.Length)
    requires p.pool.Some? ==> p.pool.value >= 1
    modifies p`n, p`ry, p.chunk0, p.chunk1, dst
    ensures var s := Shape(Key(dims), p.b, p.es);
            AllOrigins(s, Origins(s))
            && dst[..] == RestoreAll(p.ds, s, p.filters, old(dst[..]), Origins(s), p.chunk0.Length)
  {
    if p.pool.None? || |dims| != 1 {
      p.Read(dims, dst);
    } else {
      var s := Shape(Key(dims), p.b, p.es);
      OriginsLegal(s);
      assert Origins(s) == GridLoop(s, 1, 0, []);
      ReadRank1(s, p.filters, p.ds, p.pool.value, p.chunk0.Length, dst,
                RestoreAll(p.ds, s, p.filters, dst[..], Origins(s), p.chunk0.Length));
    }
  }

  /** The parallel rank-1 loop: fetch, submit, drain what is ready, block down below the cap. */
  method ReadRank1(s: Shape, filters: seq<Filter>, ds: Dataset, limit: nat, cap: nat, dst: array<byte>,
                   ghost goal: seq<byte>)
    requires s.Valid() && |s.n| == 1 && s.n[0] < TWO_64 && limit >= 1
    requires RestoresTo(ds, s, filters, dst[..], GridLoop(s, 1, 0, []), cap, goal)
    modifies dst
    ensures dst[..] == goal
  {
    var readInFlight: seq<ReadJob> := [];
    ghost var os: seq<seq<nat>> := [];
    var j: nat := 0;
    ReadsToStart(ds, s, filters, cap, dst[..], GridLoop(s, 1, 0, []), goal);
    while j < s.n[0]
      invariant Multiple(j, s.b[0]) && |readInFlight| < limit
      invariant ReadsTo(ds, s, filters, cap, dst[..], os, readInFlight, GridLoop(s, 1, j, []), goal)
      decreases if j < s.n[0] then s.n[0] - j else 0
    {
      readInFlight, os := ReadStep(s, filters, ds, limit, cap, dst, j, os, readInFlight, goal);
      j := j + s.b[0];
    }
    readInFlight, os := DrainBelow(1, ds, s, filters, cap, dst, os, readInFlight, [], goal);
    ReadsToEnd(ds, s, filters, cap, dst[..], os, readInFlight, goal);
  }

  method ReadStep(s: Shape, filters: seq<Filter>, ds: Dataset, limit: nat, cap: nat, dst: array<byte>, j: nat,
                  ghost os: seq<seq<nat>>, jobs: seq<ReadJob>, ghost goal: seq<byte>)
    returns (left: seq<ReadJob>, ghost pending: seq<seq<nat>>)
    requires s.Valid() && |s.n| == 1 && s.n[0] < TWO_64 && limit >= 1 && j < s.n[0] && Multiple(j, s.b[0])
    requires ReadsTo(ds, s, filters, cap, dst[..], os, jobs, GridLoop(s, 1, j, []), goal)
    modifies dst
    ensures |left| < limit
    ensures ReadsTo(ds, s, filters, cap, dst[..], pending, left, GridLoop(s, 1, j + s.b[0], []), goal)
  {
    ghost var rest := GridLoop(s, 1, j + s.b[0], []);
    BasicPipeline.Rank1Step(s, j);
    NextReadable(ds, s, filters, cap, dst[..], os, j, rest, goal);
    CopyElemsExact(s.n[0], s.b[0], j);
    var job := ReadJob(ds[Key([j])], CopyElems(s.n[0], s.b[0], j) * s.es, j * s.es);
    ReadsToPush(ds, s, filters, cap, dst[..], os, jobs, [j], job, rest, goal);
    left, pending := DrainReady(ds, s, filters, cap, dst, os + [[j]], jobs + [job], rest, goal);
    left, pending := DrainBelow(limit, ds, s, filters, cap, dst, pending, left, rest, goal);
  }

  lemma NextReadable(ds: Dataset, s: Shape, filters: seq<Filter>, cap: nat, dst: seq<byte>,
                     os: seq<seq<nat>>, j: nat, rest: seq<seq<nat>>, goal: seq<byte>)
    requires RestoresTo(ds, s, filters, dst, os + ([[j]] + rest), cap, goal)
    ensures Origin(s, [j]) && ChunkReadable(ds, s, filters, [j], cap)
  {
    assert (os + ([[j]] + rest))[|os|] == [j];
  }

  // ---- the read as a session on the worker pool ----

  /** What a worker hands back: bytes and where they belong. */
  datatype Copy = Copy(dstOffset: nat, data: seq<byte>)

  function Front(x: seq<byte>, k: nat): (y: seq<byte>) {
    if k <= |x| then x[..k] else x
  }

  /** The closure of a chunk read. */
  function Decompress(filters: seq<Filter>): (run: ReadJob -> Copy) {
    (job: ReadJob) => Copy(job.dstOffset, Front(Decode(filters, job.stored), job.copySize))
  }

  /** The jobs the loop submits for the chunks at the given origins. */
  function ReadJobs(ds: Dataset, s: Shape, os: seq<seq<nat>>): (jobs: seq<ReadJob>)
    requires s.Valid() && forall k :: 0 <= k < |os| ==> |os[k]| == 1 && Key(os[k]) in ds
    ensures |jobs| == |os|
    ensures forall k :: 0 <= k < |os| ==> jobs[k] == ReadJobAt(ds, s, os[k])
  {
    seq(|os|, k requires 0 <= k < |os| => ReadJobAt(ds, s, os[k]))
  }

  function ReadJobAt(ds: Dataset, s: Shape, o: seq<nat>): (job: ReadJob)
    requires s.Valid() && |o| == 1 && Key(o) in ds
  {
    ReadJob(ds[Key(o)], CopyElems(s.n[0], s.b[0], o[0]) * s.es, o[0] * s.es)
  }

  /** The caller's buffer after the copies made so far. */
  function CopyAll(dst: seq<byte>, copies: seq<Copy>): (r: seq<byte>)
    ensures |r| == |dst|
    decreases |copies|
  {
    if copies == [] then dst
    else
      var c := copies[0];
      CopyAll(if c.dstOffset + |c.data| <= |dst| then Splice(dst, c.dstOffset, c.data) else dst, copies[1..])
  }

  /** Copying the results of the jobs of some chunks, in order, is restoring those chunks. */
  lemma {:induction false} CopiesRestore(ds: Dataset, s: Shape, filters: seq<Filter>, cap: nat, dst: seq<byte>,
                                         os: seq<seq<nat>>, jobs: seq<ReadJob>, goal: seq<byte>)
    requires ReadsTo(ds, s, filters, cap, dst, os, jobs, [], goal)
    ensures CopyAll(dst, P.Mapped(Decompress(filters), jobs)) == goal
    decreases |jobs|
  {
    var copies := P.Mapped(Decompress(filters), jobs);
    if jobs == [] {
      ReadsToEnd(ds, s, filters, cap, dst, os, jobs, goal);
    } else {
      var data := Decode(filters, jobs[0].stored)[..jobs[0].copySize];
      FrontRunnable(ds, s, filters, cap, dst, os, jobs, [], goal);
      FrontCopied(ds, s, filters, cap, dst, os, jobs, [], goal, data, jobs[0].dstOffset);
      CopiesRestore(ds, s, filters, cap, Splice(dst, jobs[0].dstOffset, data), os[1..], jobs[1..], goal);
      assert copies[1..] == P.Mapped(Decompress(filters), jobs[1..]);
    }
  }

  /** The jobs of the loop are right for their chunks. */
  lemma JobsAreFor(ds: Dataset, s: Shape, filters: seq<Filter>, cap: nat, os: seq<seq<nat>>)
    requires s.Valid() && |s.n| == 1 && s.n[0] < TWO_64 && AllOrigins(s, os) && Readable(ds, s, filters, os, cap)
    ensures JobsFor(ds, s, filters, cap, os, ReadJobs(ds, s, os))
  {
    forall k | 0 <= k < |os|
      ensures JobFor(ds, s, filters, cap, os[k], ReadJobAt(ds, s, os[k]))
    {
      assert Origin(s, os[k]) && ChunkReadable(ds, s, filters, os[k], cap);
      CopyElemsExact(s.n[0], s.b[0], os[k][0]);
    }
  }

  /** The parallel read under every schedule: at any moment the caller's buffer is what the
      synchronous read makes of the chunks copied so far, whichever workers decompressed them and
      in whatever order they finished, and whatever the cap; when the read has ended it is the
      synchronous result. */
  lemma EveryReadSchedule(pool: W.State, me: nat, filters: seq<Filter>, limit: nat, moves: seq<P.Move>,
                          ds: Dataset, s: Shape, dst: seq<byte>, cap: nat)
    requires s.Valid() && |s.n| == 1 && s.n[0] < TWO_64 && |dst| == s.TotalBytes()
    requires AllOrigins(s, Origins(s)) && Readable(ds, s, filters, Origins(s), cap)
    requires P.Present(pool, me) && limit >= 1
    requires P.Legal(P.Open(pool, me, Decompress(filters), limit, ReadJobs(ds, s, Origins(s))), moves)
    ensures var e := P.Exec(P.Open(pool, me, Decompress(filters), limit, ReadJobs(ds, s, Origins(s))), moves);
            var done := |e.taken|;
            && |e.futures| <= limit && done <= |Origins(s)|
            && AllOrigins(s, Origins(s)[..done]) && Readable(ds, s, filters, Origins(s)[..done], cap)
            && CopyAll(dst, e.taken) == RestoreAll(ds, s, filters, dst, Origins(s)[..done], cap)
            && (P.Finished(e) ==> CopyAll(dst, e.taken) == RestoreAll(ds, s, filters, dst, Origins(s), cap))
  {
    var os := Origins(s);
    var script := ReadJobs(ds, s, os);
    var e := P.Exec(P.Open(pool, me, Decompress(filters), limit, script), moves);
    P.EverySessionSchedule(pool, me, Decompress(filters), limit, script, moves);
    PrefixRestores(ds, s, filters, cap, dst, |e.taken|);
    if P.Finished(e) { assert os[..|os|] == os; }
  }

  lemma PrefixRestores(ds: Dataset, s: Shape, filters: seq<Filter>, cap: nat, dst: seq<byte>, done: nat)
    requires s.Valid() && |s.n| == 1 && s.n[0] < TWO_64 && |dst| == s.TotalBytes() && done <= |Origins(s)|
    requires AllOrigins(s, Origins(s)) && Readable(ds, s, filters, Origins(s), cap)
    ensures AllOrigins(s, Origins(s)[..done]) && Readable(ds, s, filters, Origins(s)[..done], cap)
    ensures CopyAll(dst, P.Mapped(Decompress(filters), ReadJobs(ds, s, Origins(s))[..done]))
         == RestoreAll(ds, s, filters, dst, Origins(s)[..done], cap)
  {
    var os := Origins(s)[..done];
    JobsAreFor(ds, s, filters, cap, os);
    assert ReadJobs(ds, s, Origins(s))[..done] == ReadJobs(ds, s, os);
    assert os + [] == os;
    CopiesRestore(ds, s, filters, cap, dst, os, ReadJobs(ds, s, os), RestoreAll(ds, s, filters, dst, os, cap));
  }

  // ---- a whole session ----

  /** Write a buffer, drain, read it back into another buffer: the two are equal, synchronous or
      pooled, the pooled rank-1 read being the parallel one. */
  method WriteThenRead(p: BasicPipeline.Pipeline, dims: seq<nat>, src: array<byte>, dst: array<byte>)
    requires p.Valid() && |dims| == |p.b| && Shape(Key(dims), p.b, p.es).Valid()
    requires p.b[0] < TWO_64 && Key(dims)[0] < TWO_64
    requires |dims| == 1 || Key(dims)[0] == 0 || Key(dims)[0] >= p.b[0] || TWO_64 % p.b[0] == 0
    requires src != p.chunk0 && src != p.chunk1 && dst != p.chunk0 && dst != p.chunk1 && dst != src
    requires p.pool.Some? ==> p.pool.value >= 1
    requires var s := Shape(Key(dims), p.b, p.es);
             s.BlockBytes() <= p.chunk0.Length && src.Length == dst.Length == s.TotalBytes()
             && p.RightAll(s, src[..]) && ChainReversible(s, p.filters, src[..])
    modifies p, p.chunk0, p.chunk1, dst
    ensures dst[..] == src[..] == old(src[..])
  {
    ghost var s := Shape(Key(dims), p.b, p.es);
    ghost var before := p.settled;
    p.RightCanStore(s, src[..]);
    RightFits(p, s, src[..]);
    p.Write(dims, src);
    p.Drain();
    WrittenReadable(before, s, p.filters, src[..], p.chunk0.Length);
    ChunkGrid.RoundTrip(before, s, p.filters, src[..], dst[..], p.chunk0.Length);
    Read(p, dims, dst);
  }

  lemma RightFits(p: BasicPipeline.Pipeline, s: Shape, src: seq<byte>)
    requires s.Valid() && |src| == s.TotalBytes() && p.RightAll(s, src)
    ensures ChainFits(s, p.filters, src, p.chunk0.Length)
  {
    forall o {:trigger Image(s, o, src)} | Origin(s, o)
      ensures CanEncode(p.filters, 0, Image(s, o, src), p.chunk0.Length)
    {
      assert p.StoresRight(Image(s, o, src));
    }
  }
}
