/**
 The synchronous pipeline as the source runs it: two scratch buffers, a filter chain, and the
 loop nests that cut a buffer into chunks and put it back together.
 */
module BasicPipeline {
  import opened Arith
  import opened Memory
  import opened RowCopy
  import opened Tiling
  import opened FilterChain
  import opened ChunkGrid
  import InPlace
  import PingPong

  /** The residual of a dimension, in unsigned 64-bit arithmetic as the constructor computes it. */
  function WriteResidual(n: nat, b: nat): (ry: nat)
    requires b > 0
  {
    ((n - b) % TWO_64) % b
  }

  /** Elements copied per row: a whole chunk's, unless the chunk starts the residual. */
  function RowElems(n: nat, b: nat, j: nat, ry: nat): (m: nat) {
    if j != (n - ry) % TWO_64 then b else ry
  }

  lemma AddMultipleInt(x: nat, c: int, d: nat)
    requires d > 0
    ensures (x + c * d) % d == x % d
  {
    var q, r := x / d, x % d;
    assert x + c * d == (q + c) * d + r;
    DivUnique(q + c, r, d, x + c * d);
  }

  lemma DivUnique(q: int, r: nat, d: nat, x: int)
    requires 0 <= r < d && x == q * d + r
    ensures x % d == r
  {
    var q', r' := x / d, x % d;
    assert x == q' * d + r';
    if q' > q {
      assert q' * d >= (q + 1) * d by { MulMonoInt(q + 1, q', d); }
    } else if q' < q {
      assert q * d >= (q' + 1) * d by { MulMonoInt(q' + 1, q, d); }
    }
  }

  lemma MulMonoInt(a: int, b: int, d: nat)
    requires a <= b
    ensures a * d <= b * d
  {}

  /** The write side's trailing residual is the true one exactly when the fastest dimension reaches
      a chunk, or the chunk extent divides 2^64 so that the wrap-around is harmless. */
  lemma ResidualExact(n: nat, b: nat)
    requires 0 < b < TWO_64 && n < TWO_64
    ensures WriteResidual(n, b) == n % b <==> n >= b || TWO_64 % b == 0
  {
    if n >= b {
      ResidualLong(n, b);
    } else {
      FloorPlus(TWO_64, b);
      FloorMultiple(TWO_64, b);
      ResidualShort(n, b, TWO_64 / b, TWO_64 % b);
      DivUnique(0, n, b, n);
    }
  }

  lemma ResidualLong(n: nat, b: nat)
    requires 0 < b <= n < TWO_64
    ensures WriteResidual(n, b) == n % b
  {
    AddMultipleInt(n - b, 1, b);
  }

  /** For a short dimension n - b wraps to 2^64 + n - b, which is (c - 1) * b + r + n. */
  lemma ResidualShort(n: nat, b: nat, c: nat, r: nat)
    requires n < b < TWO_64 && r < b && c * b + r == TWO_64
    ensures WriteResidual(n, b) == if r + n < b then r + n else r + n - b
  {
    assert (n - b) % TWO_64 == TWO_64 + n - b by { DivUnique(-1, TWO_64 + n - b, TWO_64, n - b); }
    if r + n < b {
      LessOne(c, b);
      DivUnique(c - 1, r + n, b, TWO_64 + n - b);
    } else {
      DivUnique(c, r + n - b, b, TWO_64 + n - b);
    }
  }

  lemma LessOne(c: int, b: nat)
    ensures (c - 1) * b == c * b - b
  {}

  /** With the true residual every row copy is a full chunk row or exactly what is left. */
  lemma RowLength(n: nat, b: nat, j: nat)
    requires 0 < b && n < TWO_64 && j < n && Multiple(j, b)
    ensures RowElems(n, b, j, n % b) == Min(b, n - j)
  {
    FloorPlus(n, b);
    FloorMultiple(n, b);
    RowLengthAt(n, b, j, n % b, Floor(n, b));
  }

  lemma RowLengthAt(n: nat, b: nat, j: nat, r: nat, last: nat)
    requires r < b && last + r == n < TWO_64 && j < n && Multiple(j, b) && Multiple(last, b)
    ensures RowElems(n, b, j, r) == Min(b, n - j)
  {
    assert (n - r) % TWO_64 == last;
    LastMultiple(n, b, last, j);
  }

  lemma LastMultiple(n: nat, b: nat, last: nat, j: nat)
    requires 0 < b && Multiple(last, b) && Multiple(j, b) && last <= n < last + b && j < n
    ensures j < last ==> j + b <= last
    ensures j <= last
  {
    if j < last {
      NextMultiple(j, last, b);
    } else if j > last {
      NextMultiple(last, j, b);
      assert false;
    }
  }

  /** Otherwise the single, short chunk row is copied with the full chunk length. */
  lemma RowOverrun(n: nat, b: nat)
    requires 0 < n < b < TWO_64 && TWO_64 % b != 0
    ensures RowElems(n, b, 0, WriteResidual(n, b)) == b > n
  {
    ResidualExact(n, b);
    DivUnique(0, n, b, n);
    var ry := WriteResidual(n, b);
    assert ry != n && ry < b;
    if n >= ry {
      DivUnique(0, n - ry, TWO_64, n - ry);
    } else {
      DivUnique(-1, TWO_64 + n - ry, TWO_64, n - ry);
    }
  }

  /** There the copy of the last source row of a multi-dimensional buffer reads past its end. */
  lemma WriteOverruns(s: Shape) returns (o: seq<nat>, row: nat)
    requires s.Valid() && |s.n| >= 2 && forall k :: 0 <= k < |s.n| ==> s.n[k] > 0
    requires s.n[0] < s.b[0] < TWO_64 && TWO_64 % s.b[0] != 0
    ensures Origin(s, o) && At(s, o, row) in ChunkOffs(s, o)
    ensures At(s, o, row) + RowElems(s.n[0], s.b[0], o[0], WriteResidual(s.n[0], s.b[0])) * s.es > s.TotalBytes()
  {
    VolumePositive(s.n, |s.n|);
    row := Volume(s.n, |s.n|) - 1;
    o := ElementVisited(s, 0, row);
    RowOverrun(s.n[0], s.b[0]);
    MulSucc(row, s.RowBytes());
    MulMono(s.n[0] + 1, s.b[0], s.es);
    MulSucc(s.n[0], s.es);
  }

  lemma {:induction false} VolumePositive(dims: seq<nat>, d: nat)
    requires 1 <= d <= |dims| && forall k :: 0 <= k < |dims| ==> dims[k] > 0
    ensures Volume(dims, d) > 0
    decreases d
  {
    if d > 1 {
      VolumePositive(dims, d - 1);
      MulMono(1, dims[d - 1], Volume(dims, d - 1));
    }
  }

  /** The write side copies the right row lengths exactly when the fastest dimension reaches a
      chunk or the chunk extent divides 2^64. */
  lemma RowCopyExact(n: nat, b: nat)
    requires 0 < n < TWO_64 && 0 < b < TWO_64
    ensures (forall j: nat :: j < n && Multiple(j, b) ==> RowElems(n, b, j, WriteResidual(n, b)) == Min(b, n - j))
       <==> n >= b || TWO_64 % b == 0
  {
    ResidualExact(n, b);
    if n >= b || TWO_64 % b == 0 {
      forall j: nat | j < n && Multiple(j, b)
        ensures RowElems(n, b, j, WriteResidual(n, b)) == Min(b, n - j)
      {
        RowLength(n, b, j);
      }
    } else {
      RowOverrun(n, b);
      DivUnique(0, 0, b, 0);
    }
  }

  lemma Rank1Sizes(s: Shape, j: nat)
    requires Origin(s, [j])
    ensures s.BlockBytes() == s.b[0] * s.es && Len(s, [j]) <= s.BlockBytes()
    ensures j * s.es + Len(s, [j]) <= s.TotalBytes()
    ensures Len(s, [j]) < s.BlockBytes() || Len(s, [j]) == s.BlockBytes()
  {
    ChunkBounds(s, [j]);
    RowInside(s, [j], 0, 1);
  }

  /** The rank-1 fast path builds the image the general nest would. */
  lemma Rank1Image(s: Shape, j: nat, src: seq<byte>, stale: seq<byte>)
    requires Origin(s, [j]) && |src| == s.TotalBytes() && |stale| == s.BlockBytes()
    requires Len(s, [j]) == s.BlockBytes() || stale == Zeros(s.BlockBytes())
    ensures j * s.es + Len(s, [j]) <= |src| && Len(s, [j]) <= |stale|
    ensures Image(s, [j], src) == src[j * s.es..j * s.es + Len(s, [j])] + stale[Len(s, [j])..]
  {
    Rank1Sizes(s, j);
    ChunkBounds(s, [j]);
    assert ChunkOffs(s, [j]) == [At(s, [j], 0)] && At(s, [j], 0) == j * s.es;
    PutSingle(Zeros(s.BlockBytes()), src, j * s.es, 0, Len(s, [j]), s.ChunkRowBytes());
  }

  lemma Rank1Step(s: Shape, j: nat)
    requires s.Valid() && |s.n| == 1 && j < s.n[0]
    ensures GridLoop(s, 1, j, []) == [[j]] + GridLoop(s, 1, j + s.b[0], [])
  {
    assert [j] + [] == [j];
    assert Grid(s, 0, [j]) == [[j]];
  }

  /** A buffer with no elements along the fastest dimension has no chunks. */
  lemma {:induction false} NoChunks(s: Shape, d: nat, suffix: seq<nat>)
    requires Suffix(s, d, suffix) && 0 < d && s.n[0] == 0
    ensures Grid(s, d, suffix) == []
    decreases d, 0
  {
    NoChunksLoop(s, d, 0, suffix);
  }

  lemma {:induction false} NoChunksLoop(s: Shape, d: nat, j: nat, suffix: seq<nat>)
    requires Suffix(s, d, suffix) && 0 < d && s.n[0] == 0 && Multiple(j, s.b[d - 1])
    ensures GridLoop(s, d, j, suffix) == []
    decreases d - 1, 1, s.n[d - 1] - j
  {
    if j < s.n[d - 1] {
      SuffixCons(s, d, j, suffix);
      NoChunks(s, d - 1, [j] + suffix);
      NoChunksLoop(s, d, j + s.b[d - 1], suffix);
    }
  }

  /** A chunk handed to the worker pool: the closure's captured offset and private copy of the data. */
  datatype Job = Job(offset: seq<nat>, data: seq<byte>)

  /** One H5Dwrite_chunk call. */
  datatype Call = Call(offset: seq<nat>, stored: Stored)

  /** The calls the futures in the deque will lead to, in order. */
  function Results(filters: seq<Filter>, jobs: seq<Job>): (calls: seq<Call>)
    ensures |calls| == |jobs|
    ensures forall i :: 0 <= i < |jobs| ==> calls[i] == Call(jobs[i].offset, Encode(filters, jobs[i].data))
  {
    seq(|jobs|, i requires 0 <= i < |jobs| => Call(jobs[i].offset, Encode(filters, jobs[i].data)))
  }

  /** The dataset after a list of calls. */
  function Apply(ds: Dataset, calls: seq<Call>): (ds': Dataset)
    decreases |calls|
  {
    if calls == [] then ds
    else Apply(ds, calls[..|calls| - 1])[calls[|calls| - 1].offset := calls[|calls| - 1].stored]
  }

  lemma ApplySnoc(ds: Dataset, calls: seq<Call>, c: Call)
    ensures Apply(ds, calls + [c]) == Apply(ds, calls)[c.offset := c.stored]
  {
    assert (calls + [c])[..|calls|] == calls;
  }

  lemma {:induction false} ApplyConcat(ds: Dataset, a: seq<Call>, b: seq<Call>)
    ensures Apply(ds, a + b) == Apply(Apply(ds, a), b)
    decreases |b|
  {
    if b == [] {
      assert a + b == a;
    } else {
      var init, last := b[..|b| - 1], b[|b| - 1];
      assert a + b == (a + init) + [last] && b == init + [last];
      ApplyConcat(ds, a, init);
      ApplySnoc(ds, a + init, last);
      ApplySnoc(Apply(ds, a), init, last);
    }
  }

  lemma Regroup<T>(a: seq<T>, b: seq<T>, c: seq<T>)
    ensures (a + b) + c == a + (b + c)
  {}

  // ---- the calls of a whole buffer ----

  /** The chunks split_to_chunk_write hands to write_chunk, in order. */
  function ChunkJobs(s: Shape, src: seq<byte>, os: seq<seq<nat>>): (jobs: seq<Job>)
    requires s.Valid() && AllOrigins(s, os) && |src| == s.TotalBytes()
    ensures |jobs| == |os| && forall k :: 0 <= k < |os| ==> jobs[k] == Job(Key(os[k]), Image(s, os[k], src))
  {
    seq(|os|, k requires 0 <= k < |os| => Job(Key(os[k]), Image(s, os[k], src)))
  }

  /** Storing the chunks one by one is making the calls of their jobs. */
  lemma {:induction false} StoreAllIsApply(ds: Dataset, s: Shape, filters: seq<Filter>, src: seq<byte>, os: seq<seq<nat>>)
    requires s.Valid() && AllOrigins(s, os) && |src| == s.TotalBytes()
    ensures StoreAll(ds, s, filters, src, os) == Apply(ds, Results(filters, ChunkJobs(s, src, os)))
    decreases |os|
  {
    if os != [] {
      var k := |os| - 1;
      var init, last := os[..k], [os[k]];
      assert os == init + last;
      StoreConcat(ds, s, filters, src, init, last);
      StoreAllIsApply(ds, s, filters, src, init);
      StoreOne(StoreAll(ds, s, filters, src, init), s, filters, src, last);
      JobsSnoc(s, filters, src, os);
    }
  }

  lemma JobsSnoc(s: Shape, filters: seq<Filter>, src: seq<byte>, os: seq<seq<nat>>)
    requires s.Valid() && AllOrigins(s, os) && |src| == s.TotalBytes() && os != []
    ensures AllOrigins(s, os[..|os| - 1])
    ensures var calls := Results(filters, ChunkJobs(s, src, os));
            var o := os[|os| - 1];
            && calls[..|os| - 1] == Results(filters, ChunkJobs(s, src, os[..|os| - 1]))
            && calls[|os| - 1] == Call(Key(o), Encode(filters, Image(s, o, src)))
  {}

  /** What the outer nest still has to do: handing the chunks at `os` to write_chunk completes `goal`. */
  ghost predicate JobsTo(given: seq<Job>, s: Shape, src: seq<byte>, os: seq<seq<nat>>, goal: seq<Job>) {
    s.Valid() && AllOrigins(s, os) && |src| == s.TotalBytes() && given + ChunkJobs(s, src, os) == goal
  }

  lemma JobsToDone(given: seq<Job>, s: Shape, src: seq<byte>, goal: seq<Job>)
    requires JobsTo(given, s, src, [], goal)
    ensures given == goal
  {}

  lemma JobsToOne(given: seq<Job>, s: Shape, src: seq<byte>, o: seq<nat>, goal: seq<Job>)
    requires JobsTo(given, s, src, [o], goal)
    ensures Origin(s, o) && goal == given + [Job(Key(o), Image(s, o, src))]
  {
    assert [o][0] == o;
  }

  lemma JobsToSplit(given: seq<Job>, s: Shape, src: seq<byte>, a: seq<seq<nat>>, b: seq<seq<nat>>, goal: seq<Job>)
    returns (mid: seq<Job>)
    requires JobsTo(given, s, src, a + b, goal)
    ensures JobsTo(given, s, src, a, mid) && JobsTo(mid, s, src, b, goal)
  {
    JobsConcat(s, src, a, b);
    mid := given + ChunkJobs(s, src, a);
    Regroup(given, ChunkJobs(s, src, a), ChunkJobs(s, src, b));
  }

  lemma JobsConcat(s: Shape, src: seq<byte>, a: seq<seq<nat>>, b: seq<seq<nat>>)
    requires s.Valid() && AllOrigins(s, a + b) && |src| == s.TotalBytes()
    ensures AllOrigins(s, a) && AllOrigins(s, b)
    ensures ChunkJobs(s, src, a + b) == ChunkJobs(s, src, a) + ChunkJobs(s, src, b)
  {
    assert forall k :: 0 <= k < |a| ==> (a + b)[k] == a[k];
    assert forall k :: 0 <= k < |b| ==> (a + b)[|a| + k] == b[k];
  }

  /** h5::backpressure{M} if positive, else 8 * N in unsigned 32-bit arithmetic. */
  function ResolveBackpressure(explicit: Option<nat>, n: nat, workers: nat): (cap: nat) {
    if explicit.Some? && explicit.value > 0 then explicit.value
    else (8 * (if n > 0 then n else workers)) % TWO_32
  }

  /** The cap is positive, as the back-pressure loop needs, exactly when it is given, or the
      concurrency it defaults from is not a multiple of 2^29 (for one it wraps to 0). */
  lemma CapPositive(explicit: Option<nat>, n: nat, workers: nat)
    requires explicit.Some? ==> explicit.value < TWO_32
    ensures ResolveBackpressure(explicit, n, workers) >= 1
       <==> (explicit.Some? && explicit.value > 0) || (if n > 0 then n else workers) % 0x2000_0000 != 0
  {
    var k := if n > 0 then n else workers;
    assert 8 * k == (k / 0x2000_0000) * TWO_32 + 8 * (k % 0x2000_0000);
    DivModUnique(k / 0x2000_0000, 8 * (k % 0x2000_0000), TWO_32);
  }

  /** pipeline_t after set_cache: filter chain, chunk shape, scratch buffers. With a pool it is
      pool_pipeline_t (chunks go through the worker pool and a deque of futures bounded by the
      cap), without one basic_pipeline_t, which stores each chunk at once. */
  class Pipeline {
    const filters: seq<Filter>
    const b: seq<nat>
    const es: nat
    const pool: Option<nat>
    const chunk0: array<byte>
    const chunk1: array<byte>
    var n: seq<nat>
    var ry: nat
    var ds: Dataset
    var inFlight: seq<Job>
    ghost var given: seq<Job>   // what write_chunk has been given so far
    ghost var log: seq<Call>    // the calls made so far
    ghost var settled: Dataset  // the dataset once every future has been drained
    ghost const initial: Dataset

    /** chunk is the chunk shape slowest first, scratch the capacity of the scratch buffers,
        pool the back-pressure cap of the pooled variant. */
    constructor (filters: seq<Filter>, chunk: seq<nat>, es: nat, scratch: nat, pool: Option<nat>, ds: Dataset)
      requires chunk != [] && es > 0 && forall k :: 0 <= k < |chunk| ==> chunk[k] > 0
      ensures this.filters == filters && this.b == Key(chunk) && this.es == es && this.pool == pool
      ensures |this.b| == |chunk| && forall k :: 0 <= k < |chunk| ==> this.b[k] == chunk[|chunk| - 1 - k]
      ensures this.ds == ds && settled == ds && inFlight == [] && log == [] && given == [] && initial == ds
      ensures chunk0.Length == scratch && fresh(chunk0) && fresh(chunk1) && Valid()
    {
      this.filters, this.es, this.pool, this.ds := filters, es, pool, ds;
      this.b, this.n, this.ry := Key(chunk), Key(chunk), 0;
      this.chunk0, this.chunk1 := new byte[scratch], new byte[scratch];
      this.inFlight, this.given, this.log, this.initial, this.settled := [], [], [], ds, ds;
    }

    /** The deque is below the cap between calls (empty without a pool), its closures can run, the
        dataset is what the calls so far made of it, and the calls made and still to come are
        exactly one for each chunk write_chunk has been given, in order. */
    ghost predicate Valid()
      reads this
    {
      && chunk0 != chunk1 && chunk0.Length == chunk1.Length
      && (inFlight == [] || (pool.Some? && |inFlight| < pool.value))
      && JobsOk(inFlight)
      && ds == Apply(initial, log)
      && Calls() == CallsOf(given)
      && settled == Apply(initial, Calls())
    }

    ghost predicate JobsOk(jobs: seq<Job>) {
      && (jobs != [] ==> pool.Some?)
      && forall i :: 0 <= i < |jobs| ==> CanEncode(filters, 0, jobs[i].data, chunk0.Length)
    }

    /** Which chains the synchronous pipeline runs on one buffer. */
    ghost predicate RunsInPlace() {
      pool.None? && filters != [] && InPlace.AllInPlace(filters)
    }

    /** What is stored for a chunk. */
    ghost function StoredBy(x: seq<byte>): (stored: Stored) {
      if RunsInPlace() then InPlace.StoreFrom(filters, 0, x, 0) else Encode(filters, x)
    }

    /** A synchronous write without filters stores the bytes as they are, one whose filters are all shuffles
        and checksums shuffles in place, every other goes through the two buffers, as does every pooled one. */
    lemma BranchTaken(x: seq<byte>)
      ensures filters == [] ==> StoredBy(x) == Stored(0, x)
      ensures filters != [] && pool.None? && (forall f :: f in filters ==> f.ShuffleFilter? || f.Fletcher32Filter?)
              ==> InPlace.AllInPlace(filters) && StoredBy(x) == InPlace.StoreFrom(filters, 0, x, 0)
      ensures pool.Some? || (exists f :: f in filters && !f.ShuffleFilter? && !f.Fletcher32Filter?)
              ==> StoredBy(x) == Encode(filters, x)
    {}

    /** A chunk gets through the chain within the scratch buffers, and a queue has room for it. */
    ghost predicate CanStore(x: seq<byte>) {
      && (pool.Some? ==> pool.value >= 1) && |x| <= chunk0.Length
      && (if RunsInPlace() then InPlace.Fits(filters, 0, |x|, chunk0.Length) else CanEncode(filters, 0, x, chunk0.Length))
    }

    /** And what is stored is the chain's: on one buffer no shuffle may overlap itself. */
    ghost predicate StoresRight(x: seq<byte>) {
      && (pool.Some? ==> pool.value >= 1)
      && CanEncode(filters, 0, x, chunk0.Length)
      && (RunsInPlace() ==> InPlace.Overlapless(filters, 0, x))
    }

    lemma Right(x: seq<byte>)
      requires StoresRight(x)
      ensures CanStore(x) && StoredBy(x) == Encode(filters, x)
    {
      if RunsInPlace() {
        InPlace.EncodeFits(filters, 0, x, chunk0.Length);
        InPlace.BranchesAgree(filters, 0, x, 0);
      }
    }

    /** One call per job. */
    ghost function CallsOf(jobs: seq<Job>): (calls: seq<Call>)
      ensures |calls| == |jobs|
      ensures forall i :: 0 <= i < |jobs| ==> calls[i] == Call(jobs[i].offset, StoredBy(jobs[i].data))
    {
      seq(|jobs|, i requires 0 <= i < |jobs| => Call(jobs[i].offset, StoredBy(jobs[i].data)))
    }

    lemma CallsShift(made: seq<Call>, jobs: seq<Job>)
      requires jobs != []
      ensures made + [Call(jobs[0].offset, StoredBy(jobs[0].data))] + CallsOf(jobs[1..]) == made + CallsOf(jobs)
    {
      CallsHead(jobs);
      Regroup(made, [Call(jobs[0].offset, StoredBy(jobs[0].data))], CallsOf(jobs[1..]));
    }

    lemma CallsHead(jobs: seq<Job>)
      requires jobs != []
      ensures CallsOf(jobs) == [Call(jobs[0].offset, StoredBy(jobs[0].data))] + CallsOf(jobs[1..])
    {}

    lemma CallsPush(made: seq<Call>, jobs: seq<Job>, job: Job)
      ensures made + CallsOf(jobs + [job]) == made + CallsOf(jobs) + [Call(job.offset, StoredBy(job.data))]
    {}

    /** All calls, made and still to come, in order. */
    ghost function Calls(): seq<Call>
      reads this
    {
      log + CallsOf(inFlight)
    }

    /** H5Dwrite_chunk on the calling thread. */
    method StoreChunk(offset: seq<nat>, stored: Stored)
      requires ds == Apply(initial, log)
      modifies this`ds, this`log
      ensures log == old(log) + [Call(offset, stored)] && ds == Apply(initial, log)
    {
      ApplySnoc(initial, log, Call(offset, stored));
      ds := ds[offset := stored];
      log := log + [Call(offset, stored)];
    }

    /** What a worker computes for one closure, in scratch buffers of its own. */
    method RunJob(job: Job) returns (stored: Stored)
      requires CanEncode(filters, 0, job.data, chunk0.Length)
      ensures stored == Encode(filters, job.data)
    {
      if |filters| == 0 { return Stored(0, job.data); }
      var wbuf0, wbuf1 := new byte[chunk0.Length], new byte[chunk0.Length];
      MemCpy(wbuf0, 0, job.data);
      assert wbuf0[..|job.data|] == job.data;
      var cur, length, mask := PingPong.Forward(wbuf0, wbuf1, |job.data|, filters);
      stored := Stored(mask, (if cur == 0 then wbuf0 else wbuf1)[..length]);
    }

    /** The front future: get() blocks for whatever a worker computed, the calling thread stores it. */
    method DrainFront()
      requires JobsOk(inFlight) && inFlight != [] && ds == Apply(initial, log)
      modifies this`ds, this`log, this`inFlight
      ensures inFlight == old(inFlight)[1..] && Calls() == old(Calls()) && ds == Apply(initial, log)
    {
      CallsShift(log, inFlight);
      var job := inFlight[0];
      var stored := RunJob(job);
      StoreChunk(job.offset, stored);
      inFlight := inFlight[1..];
    }

    /** drain_in_flight(false): store front results for as long as they happen to be ready. */
    method DrainReady()
      requires JobsOk(inFlight) && ds == Apply(initial, log)
      modifies this`ds, this`log, this`inFlight
      ensures JobsOk(inFlight) && |inFlight| <= old(|inFlight|) && Calls() == old(Calls()) && ds == Apply(initial, log)
    {
      var ready: bool := *;
      while inFlight != [] && ready
        invariant JobsOk(inFlight) && |inFlight| <= old(|inFlight|)
        invariant Calls() == old(Calls()) && ds == Apply(initial, log)
        decreases |inFlight|
      {
        DrainFront();
        ready := *;
      }
    }

    /** Block on the front until the deque is shorter than `limit`. */
    method DrainBelow(limit: nat)
      requires JobsOk(inFlight) && limit >= 1 && ds == Apply(initial, log)
      modifies this`ds, this`log, this`inFlight
      ensures JobsOk(inFlight) && |inFlight| < limit && Calls() == old(Calls()) && ds == Apply(initial, log)
    {
      while |inFlight| >= limit
        invariant JobsOk(inFlight) && Calls() == old(Calls()) && ds == Apply(initial, log)
        decreases |inFlight|
      {
        DrainFront();
      }
    }

    /** drain(), also the destructor's loop: afterwards every submitted chunk is in the dataset. */
    method Drain()
      requires Valid()
      modifies this`ds, this`log, this`inFlight
      ensures Valid() && inFlight == [] && Calls() == old(Calls()) == log
      ensures ds == settled == old(settled)
    {
      DrainBelow(1);
    }

    /** write_chunk: run the chunk through the chain and store it, now or through the pool. The
        data is usually chunk0 itself. Either way exactly one call joins the end. */
    method WriteChunk(offset: seq<nat>, nbytes: nat, data: array<byte>)
      requires Valid() && data != chunk1 && nbytes <= data.Length && nbytes <= chunk0.Length
      requires CanStore(data[..nbytes])
      modifies this`ds, this`given, this`log, this`inFlight, this`settled, chunk0, chunk1
      ensures Valid() && given == old(given) + [Job(offset, old(data[..nbytes]))]
      ensures Calls() == old(Calls()) + [Call(offset, StoredBy(old(data[..nbytes])))]
      ensures settled == old(settled)[offset := StoredBy(old(data[..nbytes]))]
    {
      ghost var job := Job(offset, data[..nbytes]);
      ghost var call := Call(offset, StoredBy(job.data));
      ApplySnoc(initial, Calls(), call);
      CallsPush([], given, job);
      given := given + [job];
      settled := settled[offset := call.stored];
      if pool.Some? {
        Enqueue(offset, data[..nbytes]);
      } else {
        NothingQueued();
        StoreNow(offset, nbytes, data);
        NothingQueued();
      }
    }

    lemma NothingQueued()
      requires inFlight == []
      ensures Calls() == log
    {}

    /** basic_pipeline_t's three branches: no filters, a chain that runs in place, ping-pong. */
    method StoreNow(offset: seq<nat>, nbytes: nat, data: array<byte>)
      requires pool.None? && chunk0 != chunk1 && chunk0.Length == chunk1.Length && ds == Apply(initial, log)
      requires data != chunk1 && nbytes <= data.Length && nbytes <= chunk0.Length
      requires CanStore(data[..nbytes])
      modifies this`ds, this`log, chunk0, chunk1
      ensures log == old(log) + [Call(offset, StoredBy(old(data[..nbytes])))] && ds == Apply(initial, log)
    {
      if |filters| == 0 {
        StoreChunk(offset, Stored(0, data[..nbytes]));
      } else if InPlace.AllInPlace(filters) {
        var stored := RunInPlace(nbytes, data);
        StoreChunk(offset, stored);
      } else {
        var stored := RunPingPong(nbytes, data);
        StoreChunk(offset, stored);
      }
    }

    method RunInPlace(nbytes: nat, data: array<byte>) returns (stored: Stored)
      requires nbytes <= data.Length && nbytes <= chunk0.Length
      requires InPlace.AllInPlace(filters) && InPlace.Fits(filters, 0, nbytes, chunk0.Length)
      modifies chunk0
      ensures stored == InPlace.StoreFrom(filters, 0, old(data[..nbytes]), 0)
    {
      ghost var x := data[..nbytes];
      MemCpy(chunk0, 0, data[..nbytes]);
      assert chunk0[..nbytes] == x;
      var length, mask := InPlace.Run(chunk0, nbytes, filters);
      stored := Stored(mask, chunk0[..length]);
    }

    method RunPingPong(nbytes: nat, data: array<byte>) returns (stored: Stored)
      requires chunk0 != chunk1 && chunk0.Length == chunk1.Length
      requires data != chunk1 && nbytes <= data.Length && nbytes <= chunk0.Length
      requires CanEncode(filters, 0, data[..nbytes], chunk0.Length)
      modifies chunk0, chunk1
      ensures stored == Encode(filters, old(data[..nbytes]))
    {
      ghost var x := data[..nbytes];
      if data != chunk0 { MemCpy(chunk0, 0, data[..nbytes]); }
      assert chunk0[..nbytes] == x;
      var cur, length, mask := PingPong.Forward(chunk0, chunk1, nbytes, filters);
      stored := Stored(mask, (if cur == 0 then chunk0 else chunk1)[..length]);
    }

    /** Submit the closure, push its future, drain what is ready, then block down below the cap. */
    method Enqueue(offset: seq<nat>, data: seq<byte>)
      requires pool.Some? && pool.value >= 1 && JobsOk(inFlight) && ds == Apply(initial, log)
      requires CanEncode(filters, 0, data, chunk0.Length)
      modifies this`ds, this`log, this`inFlight
      ensures |inFlight| < pool.value && JobsOk(inFlight) && ds == Apply(initial, log)
      ensures Calls() == old(Calls()) + [Call(offset, StoredBy(data))]
    {
      CallsPush(log, inFlight, Job(offset, data));
      inFlight := inFlight + [Job(offset, data)];
      DrainReady();
      DrainBelow(pool.value);
    }

    /** H5Dread_chunk2 into the buffer of the right parity, then the chain backwards into chunk0. */
    method ReadChunk(offset: seq<nat>)
      requires Valid() && offset in ds
      requires CanDecode(filters, |filters|, ds[offset].mask, ds[offset].bytes, chunk0.Length)
      modifies chunk0, chunk1
      ensures var y := Decode(filters, ds[offset]); |y| <= chunk0.Length && chunk0[..|y|] == y
    {
      var stored := ds[offset];
      var target := if |filters| % 2 == 1 then chunk1 else chunk0;
      MemCpy(target, 0, stored.bytes);
      assert target[..|stored.bytes|] == stored.bytes;
      var n := PingPong.Backward(chunk0, chunk1, |stored.bytes|, stored.mask, filters);
    }

    // ---- write ----

    /** The inner nest of a chunk over dimensions d..1: rows of src into consecutive slots of
        chunk0 from p on; returns the slot after the last. */
    method WriteRows(s: Shape, j: seq<nat>, d: nat, base: nat, p: nat, len: nat, src: array<byte>) returns (p': nat)
      requires s.Valid() && d < |j| == |s.n| && src != chunk0 && len <= s.ChunkRowBytes()
      requires Fits(Offs(s, j, d, base), p, s.ChunkRowBytes(), chunk0.Length)
      requires Inside(Offs(s, j, d, base), len, src.Length)
      modifies chunk0
      ensures p' == Advance(Offs(s, j, d, base), p, s.ChunkRowBytes())
      ensures chunk0[..] == PutRows(old(chunk0[..]), src[..], Offs(s, j, d, base), p, len, s.ChunkRowBytes())
      decreases d, 1
    {
      if d == 0 {
        p' := WriteRow(At(s, j, base), p, len, s.ChunkRowBytes(), src);
      } else {
        p' := WriteRowsLoop(s, j, d, base, p, len, src);
      }
    }

    method WriteRow(at: nat, p: nat, len: nat, pitch: nat, src: array<byte>) returns (p': nat)
      requires src != chunk0 && len <= pitch
      requires Fits([at], p, pitch, chunk0.Length) && Inside([at], len, src.Length)
      modifies chunk0
      ensures p' == Advance([at], p, pitch)
      ensures chunk0[..] == PutRows(old(chunk0[..]), src[..], [at], p, len, pitch)
    {
      PutSingle(chunk0[..], src[..], at, p, len, pitch);
      assert src[at..at + len] == src[..][at..at + len];
      CopyInto(chunk0, p, src[at..at + len]);
      p' := p + pitch;
    }

    /** Dimension d of the inner nest: its part of the chunk, around the nest of the faster dimensions. */
    method WriteRowsLoop(s: Shape, j: seq<nat>, d: nat, base: nat, p: nat, len: nat, src: array<byte>) returns (p': nat)
      requires s.Valid() && 0 < d < |j| == |s.n| && src != chunk0 && len <= s.ChunkRowBytes()
      requires Fits(OffsLoop(s, j, d, j[d], base), p, s.ChunkRowBytes(), chunk0.Length)
      requires Inside(OffsLoop(s, j, d, j[d], base), len, src.Length)
      modifies chunk0
      ensures p' == Advance(OffsLoop(s, j, d, j[d], base), p, s.ChunkRowBytes())
      ensures chunk0[..] == PutRows(old(chunk0[..]), src[..], OffsLoop(s, j, d, j[d], base), p, len, s.ChunkRowBytes())
      decreases d, 0
    {
      ghost var pitch, data := s.ChunkRowBytes(), src[..];
      ghost var end := Advance(OffsLoop(s, j, d, j[d], base), p, pitch);
      ghost var goal := PutRows(chunk0[..], data, OffsLoop(s, j, d, j[d], base), p, len, pitch);
      p' := p;
      var i := j[d];
      assert PutTo(chunk0[..], data, OffsLoop(s, j, d, i, base), p', len, pitch, goal, end);
      hide PutTo;
      while i < End(s, j, d)
        invariant src[..] == data
        invariant PutTo(chunk0[..], data, OffsLoop(s, j, d, i, base), p', len, pitch, goal, end)
        decreases End(s, j, d) - i
      {
        p' := WriteRowsStep(s, j, d, i, base, p', len, src, goal, end);
        i := i + 1;
      }
      PutToDone(chunk0[..], data, p', len, pitch, goal, end);
    }

    method WriteRowsStep(s: Shape, j: seq<nat>, d: nat, i: nat, base: nat, p: nat, len: nat, src: array<byte>,
                         ghost goal: seq<byte>, ghost end: nat) returns (p': nat)
      requires s.Valid() && 0 < d < |j| == |s.n| && src != chunk0 && len <= s.ChunkRowBytes() && i < End(s, j, d)
      requires PutTo(chunk0[..], src[..], OffsLoop(s, j, d, i, base), p, len, s.ChunkRowBytes(), goal, end)
      modifies chunk0
      ensures PutTo(chunk0[..], src[..], OffsLoop(s, j, d, i + 1, base), p', len, s.ChunkRowBytes(), goal, end)
      decreases d - 1, 2
    {
      PutToSplit(chunk0[..], src[..], Offs(s, j, d - 1, base + i * Volume(s.n, d)), OffsLoop(s, j, d, i + 1, base),
                 p, len, s.ChunkRowBytes(), goal, end);
      p' := WriteRows(s, j, d - 1, base + i * Volume(s.n, d), p, len, src);
    }

    /** One chunk: clear the block at an edge, gather the rows, hand the image to write_chunk. */
    method WriteOne(s: Shape, o: seq<nat>, src: array<byte>)
      requires Valid() && Origin(s, o) && src != chunk0 && src != chunk1
      requires s.b == b && s.es == es && src.Length == s.TotalBytes() && s.BlockBytes() <= chunk0.Length
      requires s.n[0] < TWO_64 && ry == s.n[0] % s.b[0]
      requires CanStore(Image(s, o, src[..]))
      modifies this`ds, this`given, this`log, this`inFlight, this`settled, chunk0, chunk1
      ensures Valid() && given == old(given) + [Job(Key(o), Image(s, o, src[..]))]
      ensures settled == old(settled)[Key(o) := StoredBy(Image(s, o, src[..]))]
    {
      GatherOne(s, o, src);
      WriteChunk(Key(o), s.BlockBytes(), chunk0);
    }

    /** The block cleared at an edge, then the rows gathered into it. */
    method GatherOne(s: Shape, o: seq<nat>, src: array<byte>)
      requires Origin(s, o) && src != chunk0 && s.b == b && s.es == es
      requires src.Length == s.TotalBytes() && s.BlockBytes() <= chunk0.Length
      requires s.n[0] < TWO_64 && ry == s.n[0] % s.b[0]
      modifies chunk0
      ensures chunk0[..s.BlockBytes()] == Image(s, o, src[..])
    {
      var block := s.BlockBytes();
      ChunkBounds(s, o);
      if Edge(s, o) { MemZero(chunk0, block); }
      ghost var stale := chunk0[..];
      RowLength(s.n[0], s.b[0], o[0]);
      var len := RowElems(s.n[0], s.b[0], o[0], ry) * es;
      FitsAdvance(ChunkOffs(s, o), 0, s.ChunkRowBytes(), block);
      FitsAdvance(ChunkOffs(s, o), 0, s.ChunkRowBytes(), chunk0.Length);
      var p' := WriteRows(s, o, |o| - 1, 0, 0, len, src);
      PutPrefix(stale, src[..], ChunkOffs(s, o), 0, len, s.ChunkRowBytes(), block);
      if Edge(s, o) {
        assert stale[..block] == Zeros(block);
      } else {
        InnerImage(s, o, src[..], stale[..block]);
      }
    }

    /** The outer nest over dimensions d-1..0 with the slower coordinates fixed in `suffix`. */
    method WriteNest(s: Shape, d: nat, suffix: seq<nat>, src: array<byte>, ghost data: seq<byte>, ghost goal: seq<Job>)
      requires Ready(s) && Suffix(s, d, suffix) && Source(s, src, data)
      requires JobsTo(given, s, data, Grid(s, d, suffix), goal)
      modifies this`ds, this`given, this`log, this`inFlight, this`settled, chunk0, chunk1
      ensures Ready(s) && given == goal
      decreases d, 1
    {
      if d == 0 {
        JobsToOne(given, s, data, suffix, goal);
        WriteOne(s, suffix, src);
      } else {
        WriteNestLoop(s, d, suffix, src, data, goal);
      }
    }

    /** Dimension d - 1 of the outer nest, chunk by chunk. */
    method WriteNestLoop(s: Shape, d: nat, suffix: seq<nat>, src: array<byte>, ghost data: seq<byte>,
                         ghost goal: seq<Job>)
      requires s.Valid() && 0 < d <= |s.n| && Nesting(s, d, 0, suffix, src, data, goal)
      modifies this`ds, this`given, this`log, this`inFlight, this`settled, chunk0, chunk1
      ensures Ready(s) && given == goal
      decreases d, 0
    {
      hide Nesting, Ready, Valid;
      var j: nat := 0;
      while j < s.n[d - 1]
        invariant Nesting(s, d, j, suffix, src, data, goal)
      {
        WriteNestStep(s, d, j, suffix, src, data, goal);
        j := j + s.b[d - 1];
      }
      NestingDone(s, d, j, suffix, src, data, goal);
    }

    method WriteNestStep(s: Shape, d: nat, j: nat, suffix: seq<nat>, src: array<byte>, ghost data: seq<byte>,
                         ghost goal: seq<Job>)
      requires Nesting(s, d, j, suffix, src, data, goal) && j < s.n[d - 1]
      modifies this`ds, this`given, this`log, this`inFlight, this`settled, chunk0, chunk1
      ensures Nesting(s, d, j + s.b[d - 1], suffix, src, data, goal)
      decreases d - 1, 2
    {
      SuffixCons(s, d, j, suffix);
      ghost var mid := JobsToSplit(given, s, data, Grid(s, d - 1, [j] + suffix), GridLoop(s, d, j + s.b[d - 1], suffix), goal);
      WriteNest(s, d - 1, [j] + suffix, src, data, mid);
    }

    /** In front of the chunks from j on in dimension d - 1, with the slower coordinates in `suffix`. */
    ghost predicate Nesting(s: Shape, d: nat, j: nat, suffix: seq<nat>, src: array<byte>, data: seq<byte>, goal: seq<Job>)
      reads this, src
    {
      && Ready(s) && 0 < d && Suffix(s, d, suffix) && Multiple(j, s.b[d - 1]) && Source(s, src, data)
      && JobsTo(given, s, data, GridLoop(s, d, j, suffix), goal)
    }

    lemma NestingDone(s: Shape, d: nat, j: nat, suffix: seq<nat>, src: array<byte>, data: seq<byte>, goal: seq<Job>)
      requires Nesting(s, d, j, suffix, src, data, goal) && j >= s.n[d - 1]
      ensures Ready(s) && given == goal
    {
      JobsToDone(given, s, data, goal);
    }

    /** Rank 1: one copy per chunk, the block cleared first when the chunk is partial. */
    method WriteRank1(s: Shape, src: array<byte>, ghost data: seq<byte>, ghost goal: seq<Job>)
      requires s.Valid() && Lined(s, 0, src, data, goal)
      modifies this`ds, this`given, this`log, this`inFlight, this`settled, chunk0, chunk1
      ensures Valid() && given == goal
    {
      hide Lined, Valid;
      var j: nat := 0;
      while j < s.n[0]
        invariant Lined(s, j, src, data, goal)
      {
        WriteRank1Step(s, j, src, data, goal);
        j := j + s.b[0];
      }
      LinedDone(s, j, src, data, goal);
    }

    /** In front of the chunks from j on of a rank-1 buffer. */
    ghost predicate Lined(s: Shape, j: nat, src: array<byte>, data: seq<byte>, goal: seq<Job>)
      reads this, src
    {
      && Valid() && s.Valid() && |s.n| == 1 && s.b == b && s.es == es && s.BlockBytes() <= chunk0.Length
      && Source(s, src, data) && JobsTo(given, s, data, GridLoop(s, 1, j, []), goal)
    }

    lemma LinedDone(s: Shape, j: nat, src: array<byte>, data: seq<byte>, goal: seq<Job>)
      requires Lined(s, j, src, data, goal) && j >= s.n[0]
      ensures Valid() && given == goal
    {
      JobsToDone(given, s, data, goal);
    }

    /** The caller's buffer: the right size, apart from the scratch buffers, and no chunk image of
        it overruns them on its way through the chain. */
    ghost predicate Source(s: Shape, src: array<byte>, data: seq<byte>)
      requires s.Valid()
      reads src
    {
      src != chunk0 && src != chunk1 && src[..] == data && |data| == s.TotalBytes() && CanStoreAll(s, data)
    }

    method WriteRank1Step(s: Shape, j: nat, src: array<byte>, ghost data: seq<byte>, ghost goal: seq<Job>)
      requires Lined(s, j, src, data, goal) && j < s.n[0]
      modifies this`ds, this`given, this`log, this`inFlight, this`settled, chunk0, chunk1
      ensures Lined(s, j + s.b[0], src, data, goal)
    {
      Rank1Step(s, j);
      ghost var mid := JobsToSplit(given, s, data, [[j]], GridLoop(s, 1, j + s.b[0], []), goal);
      JobsToOne(given, s, data, [j], mid);
      WriteRank1Chunk(s, j, src);
    }

    method WriteRank1Chunk(s: Shape, j: nat, src: array<byte>)
      requires Valid() && Origin(s, [j]) && s.b == b && s.es == es && s.BlockBytes() <= chunk0.Length
      requires src != chunk0 && src != chunk1 && src.Length == s.TotalBytes()
      requires CanStore(Image(s, [j], src[..]))
      modifies this`ds, this`given, this`log, this`inFlight, this`settled, chunk0, chunk1
      ensures Valid() && given == old(given) + [Job(Key([j]), Image(s, [j], src[..]))]
    {
      GatherRank1(s, j, src);
      WriteChunk(Key([j]), s.BlockBytes(), chunk0);
    }

    method GatherRank1(s: Shape, j: nat, src: array<byte>)
      requires Origin(s, [j]) && s.b == b && s.es == es && s.BlockBytes() <= chunk0.Length
      requires src != chunk0 && src.Length == s.TotalBytes()
      modifies chunk0
      ensures chunk0[..s.BlockBytes()] == Image(s, [j], src[..])
    {
      var inChunk := if j + s.b[0] <= s.n[0] then s.b[0] else s.n[0] - j;
      var bytes := inChunk * es;
      var block := s.BlockBytes();
      Rank1Sizes(s, j);
      if bytes < block { MemZero(chunk0, block); }
      ghost var stale := chunk0[..];
      MemCpy(chunk0, 0, src[j * es..j * es + bytes]);
      Rank1Image(s, j, src[..], stale[..block]);
      assert src[j * es..j * es + bytes] == src[..][j * es..j * es + bytes];
    }

    /** split_to_chunk_write with zero offset. For rank above 1 the row copies have the right length
        exactly under the stated condition on the fastest dimension (RowCopyExact); otherwise they
        leave the source (WriteOverruns). */
    method Write(dims: seq<nat>, src: array<byte>)
      requires Valid() && |dims| == |b| && Shape(Key(dims), b, es).Valid()
      requires b[0] < TWO_64 && Key(dims)[0] < TWO_64
      requires |dims| == 1 || Key(dims)[0] == 0 || Key(dims)[0] >= b[0] || TWO_64 % b[0] == 0
      requires var s := Shape(Key(dims), b, es);
               s.BlockBytes() <= chunk0.Length && src != chunk0 && src != chunk1
               && src.Length == s.TotalBytes() && CanStoreAll(s, src[..])
      modifies this, chunk0, chunk1
      ensures var s := Shape(Key(dims), b, es);
              AllOrigins(s, Origins(s)) && Valid() && given == old(given) + ChunkJobs(s, src[..], Origins(s))
      ensures var s := Shape(Key(dims), b, es);
              RightAll(s, src[..]) ==>
                && Calls() == old(Calls()) + Results(filters, ChunkJobs(s, src[..], Origins(s)))
                && settled == StoreAll(old(settled), s, filters, src[..], Origins(s))
    {
      n := Key(dims);
      ry := WriteResidual(n[0], b[0]);
      var s := Shape(n, b, es);
      OriginsLegal(s);
      ghost var before, jobs := given, ChunkJobs(s, src[..], Origins(s));
      if |dims| == 1 {
        WriteRank1(s, src, src[..], before + jobs);
      } else if n[0] > 0 {
        ResidualExact(n[0], b[0]);
        WriteNest(s, |n|, [], src, src[..], before + jobs);
      } else {
        NoChunks(s, |n|, []);
      }
      Settles(before, jobs);
      if RightAll(s, src[..]) { RightStores(s, src[..], Apply(initial, CallsOf(before))); }
    }

    /** Later jobs act on what the earlier ones left. */
    lemma Settles(before: seq<Job>, jobs: seq<Job>)
      ensures CallsOf(before + jobs) == CallsOf(before) + CallsOf(jobs)
      ensures Apply(initial, CallsOf(before + jobs)) == Apply(Apply(initial, CallsOf(before)), CallsOf(jobs))
    {
      CallsConcat(before, jobs);
      ApplyConcat(initial, CallsOf(before), CallsOf(jobs));
    }

    lemma CallsConcat(before: seq<Job>, jobs: seq<Job>)
      ensures CallsOf(before + jobs) == CallsOf(before) + CallsOf(jobs)
    {
      hide StoredBy;
    }

    lemma RightStores(s: Shape, src: seq<byte>, at: Dataset)
      requires s.Valid() && AllOrigins(s, Origins(s)) && |src| == s.TotalBytes() && RightAll(s, src)
      ensures CallsOf(ChunkJobs(s, src, Origins(s))) == Results(filters, ChunkJobs(s, src, Origins(s)))
      ensures Apply(at, CallsOf(ChunkJobs(s, src, Origins(s)))) == StoreAll(at, s, filters, src, Origins(s))
    {
      var os := Origins(s);
      var jobs := ChunkJobs(s, src, os);
      forall k | 0 <= k < |os|
        ensures StoredBy(jobs[k].data) == Encode(filters, jobs[k].data)
      {
        Right(Image(s, os[k], src));
      }
      assert CallsOf(jobs) == Results(filters, jobs);
      StoreAllIsApply(at, s, filters, src, os);
    }

    // ---- read ----

    method ReadRows(s: Shape, j: seq<nat>, d: nat, base: nat, p: nat, len: nat, dst: array<byte>) returns (p': nat)
      requires s.Valid() && d < |j| == |s.n| && dst != chunk0 && len <= s.ChunkRowBytes()
      requires Fits(Offs(s, j, d, base), p, s.ChunkRowBytes(), chunk0.Length)
      requires Inside(Offs(s, j, d, base), len, dst.Length)
      modifies dst
      ensures p' == Advance(Offs(s, j, d, base), p, s.ChunkRowBytes())
      ensures dst[..] == FetchRows(old(dst[..]), chunk0[..], Offs(s, j, d, base), p, len, s.ChunkRowBytes())
      decreases d, 1
    {
      if d == 0 {
        p' := ReadRow(At(s, j, base), p, len, s.ChunkRowBytes(), dst);
      } else {
        p' := ReadRowsLoop(s, j, d, base, p, len, dst);
      }
    }

    method ReadRow(at: nat, p: nat, len: nat, pitch: nat, dst: array<byte>) returns (p': nat)
      requires dst != chunk0 && len <= pitch
      requires Fits([at], p, pitch, chunk0.Length) && Inside([at], len, dst.Length)
      modifies dst
      ensures p' == Advance([at], p, pitch)
      ensures dst[..] == FetchRows(old(dst[..]), chunk0[..], [at], p, len, pitch)
    {
      FetchSingle(dst[..], chunk0[..], at, p, len, pitch);
      assert chunk0[p..p + len] == chunk0[..][p..p + len];
      CopyInto(dst, at, chunk0[p..p + len]);
      p' := p + pitch;
    }

    method ReadRowsLoop(s: Shape, j: seq<nat>, d: nat, base: nat, p: nat, len: nat, dst: array<byte>) returns (p': nat)
      requires s.Valid() && 0 < d < |j| == |s.n| && dst != chunk0 && len <= s.ChunkRowBytes()
      requires Fits(OffsLoop(s, j, d, j[d], base), p, s.ChunkRowBytes(), chunk0.Length)
      requires Inside(OffsLoop(s, j, d, j[d], base), len, dst.Length)
      modifies dst
      ensures p' == Advance(OffsLoop(s, j, d, j[d], base), p, s.ChunkRowBytes())
      ensures dst[..] == FetchRows(old(dst[..]), chunk0[..], OffsLoop(s, j, d, j[d], base), p, len, s.ChunkRowBytes())
      decreases d, 0
    {
      ghost var pitch, img := s.ChunkRowBytes(), chunk0[..];
      ghost var end := Advance(OffsLoop(s, j, d, j[d], base), p, pitch);
      ghost var goal := FetchRows(dst[..], img, OffsLoop(s, j, d, j[d], base), p, len, pitch);
      p' := p;
      var i := j[d];
      while i < End(s, j, d)
        invariant chunk0[..] == img
        invariant FetchTo(dst[..], img, OffsLoop(s, j, d, i, base), p', len, pitch, goal, end)
        decreases End(s, j, d) - i
      {
        p' := ReadRowsStep(s, j, d, i, base, p', len, dst, goal, end);
        i := i + 1;
      }
    }

    method ReadRowsStep(s: Shape, j: seq<nat>, d: nat, i: nat, base: nat, p: nat, len: nat, dst: array<byte>,
                        ghost goal: seq<byte>, ghost end: nat) returns (p': nat)
      requires s.Valid() && 0 < d < |j| == |s.n| && dst != chunk0 && len <= s.ChunkRowBytes() && i < End(s, j, d)
      requires FetchTo(dst[..], chunk0[..], OffsLoop(s, j, d, i, base), p, len, s.ChunkRowBytes(), goal, end)
      modifies dst
      ensures FetchTo(dst[..], chunk0[..], OffsLoop(s, j, d, i + 1, base), p', len, s.ChunkRowBytes(), goal, end)
      decreases d - 1, 2
    {
      FetchToSplit(dst[..], chunk0[..], Offs(s, j, d - 1, base + i * Volume(s.n, d)), OffsLoop(s, j, d, i + 1, base),
                   p, len, s.ChunkRowBytes(), goal, end);
      p' := ReadRows(s, j, d - 1, base + i * Volume(s.n, d), p, len, dst);
    }

    /** One chunk: read_chunk into chunk0, then scatter the rows. */
    method ReadOne(s: Shape, o: seq<nat>, dst: array<byte>)
      requires Ready(s) && Origin(s, o) && dst != chunk0 && dst != chunk1 && dst.Length == s.TotalBytes()
      requires ChunkReadable(ds, s, filters, o, chunk0.Length)
      modifies chunk0, chunk1, dst
      ensures dst[..] == Restore(s, o, old(dst[..]), Decode(filters, ds[Key(o)]))
    {
      ghost var block, img := s.BlockBytes(), Decode(filters, ds[Key(o)]);
      ReadChunk(Key(o));
      ChunkBounds(s, o);
      RowLength(s.n[0], s.b[0], o[0]);
      var len := RowElems(s.n[0], s.b[0], o[0], ry) * es;
      FitsAdvance(ChunkOffs(s, o), 0, s.ChunkRowBytes(), block);
      FitsAdvance(ChunkOffs(s, o), 0, s.ChunkRowBytes(), chunk0.Length);
      FetchPrefix(dst[..], chunk0[..], ChunkOffs(s, o), 0, len, s.ChunkRowBytes(), block);
      assert chunk0[..][..block] == img;
      var p' := ReadRows(s, o, |o| - 1, 0, 0, len, dst);
    }

    method ReadNest(s: Shape, d: nat, suffix: seq<nat>, dst: array<byte>, ghost disk: Dataset, ghost goal: seq<byte>)
      requires Ready(s) && Suffix(s, d, suffix) && dst != chunk0 && dst != chunk1 && ds == disk
      requires RestoresTo(disk, s, filters, dst[..], Grid(s, d, suffix), chunk0.Length, goal)
      modifies chunk0, chunk1, dst
      ensures dst[..] == goal
      decreases d, 1
    {
      if d == 0 {
        RestoresToOne(disk, s, filters, dst[..], suffix, chunk0.Length, goal);
        ReadOne(s, suffix, dst);
      } else {
        ReadNestLoop(s, d, suffix, dst, disk, goal);
      }
    }

    method ReadNestLoop(s: Shape, d: nat, suffix: seq<nat>, dst: array<byte>, ghost disk: Dataset,
                        ghost goal: seq<byte>)
      requires s.Valid() && 0 < d <= |s.n| && ReadNesting(s, d, 0, suffix, dst, disk, goal)
      modifies chunk0, chunk1, dst
      ensures dst[..] == goal
      decreases d, 0
    {
      hide ReadNesting;
      var j: nat := 0;
      while j < s.n[d - 1]
        invariant ReadNesting(s, d, j, suffix, dst, disk, goal)
      {
        ReadNestStep(s, d, j, suffix, dst, disk, goal);
        j := j + s.b[d - 1];
      }
      ReadNestingDone(s, d, j, suffix, dst, disk, goal);
    }

    /** In front of the chunks from j on in dimension d - 1, with the slower coordinates in `suffix`. */
    ghost predicate ReadNesting(s: Shape, d: nat, j: nat, suffix: seq<nat>, dst: array<byte>, disk: Dataset, goal: seq<byte>)
      reads this, dst
    {
      && Ready(s) && 0 < d && Suffix(s, d, suffix) && Multiple(j, s.b[d - 1])
      && dst != chunk0 && dst != chunk1 && ds == disk
      && RestoresTo(disk, s, filters, dst[..], GridLoop(s, d, j, suffix), chunk0.Length, goal)
    }

    lemma ReadNestingDone(s: Shape, d: nat, j: nat, suffix: seq<nat>, dst: array<byte>, disk: Dataset, goal: seq<byte>)
      requires ReadNesting(s, d, j, suffix, dst, disk, goal) && j >= s.n[d - 1]
      ensures dst[..] == goal
    {
      RestoresToDone(disk, s, filters, dst[..], chunk0.Length, goal);
    }

    method ReadNestStep(s: Shape, d: nat, j: nat, suffix: seq<nat>, dst: array<byte>, ghost disk: Dataset,
                        ghost goal: seq<byte>)
      requires ReadNesting(s, d, j, suffix, dst, disk, goal) && j < s.n[d - 1]
      modifies chunk0, chunk1, dst
      ensures ReadNesting(s, d, j + s.b[d - 1], suffix, dst, disk, goal)
      decreases d - 1, 2
    {
      SuffixCons(s, d, j, suffix);
      ghost var mid := RestoresToSplit(disk, s, filters, dst[..], Grid(s, d - 1, [j] + suffix),
                                       GridLoop(s, d, j + s.b[d - 1], suffix), chunk0.Length, goal);
      ReadNest(s, d - 1, [j] + suffix, dst, disk, mid);
    }

    /** split_to_chunk_read with zero offset: the same nest for every rank, residual N % B. */
    method Read(dims: seq<nat>, dst: array<byte>)
      requires Valid() && |dims| == |b| && Shape(Key(dims), b, es).Valid() && Key(dims)[0] < TWO_64
      requires var s := Shape(Key(dims), b, es);
               s.BlockBytes() <= chunk0.Length && dst != chunk0 && dst != chunk1 && dst.Length == s.TotalBytes()
               && Readable(ds, s, filters, Origins(s), chunk0.Length)
      modifies this`n, this`ry, chunk0, chunk1, dst
      ensures var s := Shape(Key(dims), b, es);
              AllOrigins(s, Origins(s))
              && dst[..] == RestoreAll(ds, s, filters, old(dst[..]), Origins(s), chunk0.Length)
    {
      n := Key(dims);
      ry := n[0] % b[0];
      var s := Shape(n, b, es);
      OriginsLegal(s);
      ReadNest(s, |n|, [], dst, ds, RestoreAll(ds, s, filters, dst[..], Origins(s), chunk0.Length));
    }

    /** The pipeline is set up for this shape, and the trailing residual is the true one. */
    ghost predicate Ready(s: Shape)
      reads this
    {
      && Valid() && s.Valid() && s.b == b && s.es == es && s.BlockBytes() <= chunk0.Length
      && s.n[0] < TWO_64 && ry == s.n[0] % s.b[0]
    }

    /** Every chunk image can be stored. */
    ghost predicate CanStoreAll(s: Shape, src: seq<byte>)
      requires s.Valid() && |src| == s.TotalBytes()
    {
      forall o {:trigger Image(s, o, src)} :: Origin(s, o) ==> CanStore(Image(s, o, src))
    }

    /** And is stored as the chain makes it. */
    ghost predicate RightAll(s: Shape, src: seq<byte>)
      requires s.Valid() && |src| == s.TotalBytes()
    {
      forall o {:trigger Image(s, o, src)} :: Origin(s, o) ==> StoresRight(Image(s, o, src))
    }

    lemma RightCanStore(s: Shape, src: seq<byte>)
      requires s.Valid() && |src| == s.TotalBytes() && RightAll(s, src)
      ensures CanStoreAll(s, src)
    {
      forall o {:trigger Image(s, o, src)} | Origin(s, o)
        ensures CanStore(Image(s, o, src))
      {
        Right(Image(s, o, src));
      }
    }
  }
}
