/**
 Chunk writes as a session on the worker pool: workers run the filter chain over private copies of the
 chunks, the producer stores the results front first.
 */
module PoolWrite {
  import opened Arith
  import opened Tiling
  import opened FilterChain
  import opened ChunkGrid
  import opened BasicPipeline
  import P = PoolSession
  import W = WorkerPool

  /** The closure of a chunk write: the H5Dwrite_chunk call its result will lead to. */
  function Compress(filters: seq<Filter>): (run: Job -> Call) {
    (job: Job) => Call(job.offset, Encode(filters, job.data))
  }

  lemma CompressIsSequential(filters: seq<Filter>, jobs: seq<Job>)
    ensures P.Mapped(Compress(filters), jobs) == Results(filters, jobs)
  {}

  /** Refinement of the synchronous pipeline: whatever the schedule, the calls made so far are the
      sequential chain's for the first chunks written, in order and once each; the deque holds at
      most cap futures, fewer between calls; and after drain() every chunk written has been stored. */
  lemma EveryWriteSchedule(pool: W.State, me: nat, filters: seq<Filter>, cap: nat, script: seq<Job>, moves: seq<P.Move>)
    requires P.Present(pool, me) && cap >= 1 && P.Legal(P.Open(pool, me, Compress(filters), cap, script), moves)
    ensures var s := P.Exec(P.Open(pool, me, Compress(filters), cap, script), moves);
            && |s.taken| <= |script| && s.taken == Results(filters, script[..|s.taken|])
            && |s.futures| <= cap && (s.pc.Ready? ==> |s.futures| < cap)
            && (P.Finished(s) ==> s.taken == Results(filters, script))
  {
    var s := P.Exec(P.Open(pool, me, Compress(filters), cap, script), moves);
    P.EverySessionSchedule(pool, me, Compress(filters), cap, script, moves);
    CompressIsSequential(filters, script[..|s.taken|]);
    CompressIsSequential(filters, script);
  }

  /** Round trip under every schedule: a finished session over the chunks of src has left a dataset
      that reads back as src. */
  lemma EveryScheduleRestores(pool: W.State, me: nat, filters: seq<Filter>, cap: nat, moves: seq<P.Move>,
                              ds: Dataset, shape: Shape, src: seq<byte>, dst: seq<byte>, scratch: nat)
    requires shape.Valid() && |src| == |dst| == shape.TotalBytes() && ChainOk(shape, filters, src, scratch)
    requires AllOrigins(shape, Origins(shape))
    requires P.Present(pool, me) && cap >= 1
    requires P.Legal(P.Open(pool, me, Compress(filters), cap, ChunkJobs(shape, src, Origins(shape))), moves)
    requires var s := P.Exec(P.Open(pool, me, Compress(filters), cap, ChunkJobs(shape, src, Origins(shape))), moves);
             P.Finished(s)
    ensures var s := P.Exec(P.Open(pool, me, Compress(filters), cap, ChunkJobs(shape, src, Origins(shape))), moves);
            var ds' := Apply(ds, s.taken);
            && ds' == StoreAll(ds, shape, filters, src, Origins(shape))
            && Readable(ds', shape, filters, Origins(shape), scratch)
            && RestoreAll(ds', shape, filters, dst, Origins(shape), scratch) == src
  {
    EveryWriteSchedule(pool, me, filters, cap, ChunkJobs(shape, src, Origins(shape)), moves);
    StoreAllIsApply(ds, shape, filters, src, Origins(shape));
    ChunkGrid.RoundTrip(ds, shape, filters, src, dst, scratch);
  }

  /** The dataset a finished session over these jobs leaves, whatever its pool, cap and schedule. */
  ghost predicate EveryScheduleLeaves(ds: Dataset, filters: seq<Filter>, script: seq<Job>, ds': Dataset) {
    forall pool: W.State, me: nat, cap: nat, moves: seq<P.Move>
      {:trigger P.Legal(P.Open(pool, me, Compress(filters), cap, script), moves)} ::
      && P.Present(pool, me) && cap >= 1
      && P.Legal(P.Open(pool, me, Compress(filters), cap, script), moves)
      && P.Finished(P.Exec(P.Open(pool, me, Compress(filters), cap, script), moves))
      ==> Apply(ds, P.Exec(P.Open(pool, me, Compress(filters), cap, script), moves).taken) == ds'
  }

  lemma SchedulesLeave(ds: Dataset, filters: seq<Filter>, script: seq<Job>)
    ensures EveryScheduleLeaves(ds, filters, script, Apply(ds, Results(filters, script)))
  {
    forall pool: W.State, me: nat, cap: nat, moves: seq<P.Move>
      {:trigger P.Legal(P.Open(pool, me, Compress(filters), cap, script), moves)} |
      && P.Present(pool, me) && cap >= 1
      && P.Legal(P.Open(pool, me, Compress(filters), cap, script), moves)
      && P.Finished(P.Exec(P.Open(pool, me, Compress(filters), cap, script), moves))
      ensures Apply(ds, P.Exec(P.Open(pool, me, Compress(filters), cap, script), moves).taken)
           == Apply(ds, Results(filters, script))
    {
      EveryWriteSchedule(pool, me, filters, cap, script, moves);
    }
  }

  /** What write_chunk is given by the loop nest for a whole buffer, and what every session over
      exactly those jobs leaves behind: the dataset the sequential pipeline arrives at. */
  method WriteBuffer(p: Pipeline, dims: seq<nat>, src: array<byte>)
    requires p.Valid() && |dims| == |p.b| && Shape(Key(dims), p.b, p.es).Valid()
    requires p.b[0] < TWO_64 && Key(dims)[0] < TWO_64
    requires |dims| == 1 || Key(dims)[0] == 0 || Key(dims)[0] >= p.b[0] || TWO_64 % p.b[0] == 0
    requires src != p.chunk0 && src != p.chunk1
    requires var s := Shape(Key(dims), p.b, p.es);
             s.BlockBytes() <= p.chunk0.Length && src.Length == s.TotalBytes() && p.RightAll(s, src[..])
    modifies p, p.chunk0, p.chunk1
    ensures p.Valid() && src[..] == old(src[..]) && |p.given| >= |old(p.given)| && p.inFlight == []
    ensures var s := Shape(Key(dims), p.b, p.es);
            && AllOrigins(s, Origins(s)) && p.given[|old(p.given)|..] == ChunkJobs(s, src[..], Origins(s))
            && p.ds == p.settled == StoreAll(old(p.settled), s, p.filters, src[..], Origins(s))
    ensures EveryScheduleLeaves(old(p.settled), p.filters, p.given[|old(p.given)|..], p.ds)
  {
    ghost var s, before, data := Shape(Key(dims), p.b, p.es), p.settled, src[..];
    p.RightCanStore(s, src[..]);
    p.Write(dims, src);
    p.Drain();
    StoreAllIsApply(before, s, p.filters, data, Origins(s));
    SchedulesLeave(before, p.filters, ChunkJobs(s, data, Origins(s)));
  }
}
