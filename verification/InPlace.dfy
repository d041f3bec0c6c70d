/**
 The write branch for chains of shuffles and checksums: every filter runs with its destination equal
 to its source. When it stores what the ping-pong branch would, and what goes wrong otherwise.
 */
module InPlace {
  import opened Arith
  import opened Memory
  import opened FilterChain
  import PingPong
  import Shuffle
  import Fletcher32

  /** The shuffle loops with dst == src, position by position: byte p is overwritten with whatever
      its source position holds by then. */
  function Swept(buf: seq<byte>, p: nat, count: nat, ts: nat): (r: seq<byte>)
    requires p <= ts * count <= |buf|
    ensures |r| == |buf|
  {
    if p == 0 then buf
    else
      var b := Swept(buf, p - 1, count, ts);
      b[p - 1 := b[Shuffle.Source(p - 1, count, ts)]]
  }

  method ShuffleSweep(buf: array<byte>, size: nat, ts: nat)
    requires ts > 0 && size <= buf.Length
    modifies buf
    ensures ts * (size / ts) <= size
    ensures buf[..size] == Swept(old(buf[..size]), ts * (size / ts), size / ts, ts)
    ensures buf[size..] == old(buf[size..])
  {
    var count := size / ts;
    Shuffle.WholeFits(size, ts);
    ghost var x, whole: nat := buf[..size], ts * count;
    ghost var done: nat := 0;
    var k := 0;
    while k < ts
      invariant k <= ts && done == k * count <= whole
      invariant SweptTo(buf[..size], x, done, whole, count, ts) && buf[size..] == old(buf[size..])
    {
      ghost var base := done;
      var elem := 0;
      while elem < count
        invariant elem <= count && done == base + elem <= whole
        invariant SweptTo(buf[..size], x, done, whole, count, ts) && buf[size..] == old(buf[size..])
      {
        SweepOne(buf, size, ts, x, k, elem, count, done);
        elem := elem + 1;
        done := done + 1;
      }
      MulSucc(k, count);
      k := k + 1;
    }
  }

  ghost predicate SweptTo(buf: seq<byte>, x: seq<byte>, done: nat, whole: nat, count: nat, ts: nat) {
    done <= whole == ts * count <= |x| && buf == Swept(x, done, count, ts)
  }

  /** The loops' assignment at (k, elem). */
  method SweepOne(buf: array<byte>, size: nat, ts: nat, ghost x: seq<byte>, k: nat, elem: nat, count: nat,
                  ghost done: nat)
    requires size <= buf.Length && k < ts && elem < count && done == k * count + elem && |x| == size
    requires SweptTo(buf[..size], x, done, ts * count, count, ts)
    modifies buf
    ensures done + 1 <= ts * count && SweptTo(buf[..size], x, done + 1, ts * count, count, ts)
    ensures buf[size..] == old(buf[size..])
  {
    PositionAt(k, elem, count, ts);
    buf[Shuffle.Plane(elem, k, count)] := buf[Shuffle.Row(elem, k, ts)];
  }

  lemma PositionAt(k: nat, elem: nat, count: nat, ts: nat)
    requires k < ts && elem < count
    ensures var p := Shuffle.Plane(elem, k, count);
            p < ts * count && Shuffle.Row(elem, k, ts) < ts * count && Shuffle.Source(p, count, ts) == Shuffle.Row(elem, k, ts)
  {
    Shuffle.Below(k, elem, ts, count);
    Shuffle.Below(elem, k, count, ts);
    DivModUnique(k, elem, count);
  }

  /** Positions not reached yet hold the original bytes. */
  lemma {:induction false} Untouched(buf: seq<byte>, p: nat, count: nat, ts: nat)
    requires p <= ts * count <= |buf|
    ensures Swept(buf, p, count, ts)[p..] == buf[p..]
  {
    if p > 0 {
      Untouched(buf, p - 1, count, ts);
      var b := Swept(buf, p - 1, count, ts);
      assert b[p..] == b[p - 1..][1..] && buf[p..] == buf[p - 1..][1..];
    }
  }

  /** Positions passed are final. */
  lemma {:induction false} Final(buf: seq<byte>, p: nat, q: nat, count: nat, ts: nat)
    requires p <= q <= ts * count <= |buf|
    ensures Swept(buf, q, count, ts)[..p] == Swept(buf, p, count, ts)[..p]
    decreases q
  {
    if p < q {
      Final(buf, p, q - 1, count, ts);
      var b := Swept(buf, q - 1, count, ts);
      assert b[q - 1 := b[Shuffle.Source(q - 1, count, ts)]][..p] == b[..p];
    }
  }

  lemma SourceSmall(count: nat, ts: nat)
    requires ts >= 2 && count >= 2
    ensures count < ts * count && ts < ts * count
    ensures Shuffle.Source(1, count, ts) == ts && Shuffle.Source(count, count, ts) == 1
  {
    MulMono(2, ts, count);
    MulMono(2, count, ts);
    PositionAt(0, 1, count, ts);
    PositionAt(1, 0, count, ts);
  }

  /** With two or more elements of two or more bytes, the byte that should open the second plane
      has been overwritten before it is read. */
  lemma SweepOverwrites(data: seq<byte>, count: nat, ts: nat)
    requires ts >= 2 && count >= 2 && ts * count <= |data|
    ensures count < ts * count && ts < ts * count
    ensures Swept(data, ts * count, count, ts)[count] == data[ts]
    ensures Shuffle.Source(count, count, ts) == 1
  {
    SourceSmall(count, ts);
    Untouched(data, 1, count, ts);
    var b1 := Swept(data, 1, count, ts);
    assert b1[1..][ts - 1] == data[1..][ts - 1];
    var b2 := Swept(data, 2, count, ts);
    assert b2[1] == data[ts];
    Final(data, 2, count, count, ts);
    var bc := Swept(data, count, count, ts);
    assert bc[..2][1] == b2[..2][1];
    var bn := Swept(data, count + 1, count, ts);
    assert bn[count] == data[ts];
    Final(data, count + 1, ts * count, count, ts);
    var end := Swept(data, ts * count, count, ts);
    assert end[..count + 1][count] == bn[..count + 1][count];
  }

  /** Bytes that stay where they are. */
  lemma SourceSame(p: nat, count: nat, ts: nat)
    requires (ts == 1 || count == 1) && p < ts * count
    ensures Shuffle.Source(p, count, ts) == p
  {
    if count == 1 {
      DivModUnique(p, 0, 1);
    } else {
      DivModUnique(0, p, count);
    }
  }

  lemma {:induction false} SweepNothing(buf: seq<byte>, p: nat, count: nat, ts: nat)
    requires (ts == 1 || count <= 1) && p <= ts * count <= |buf|
    ensures Swept(buf, p, count, ts) == buf
  {
    if p > 0 {
      SweepNothing(buf, p - 1, count, ts);
      SourceSame(p - 1, count, ts);
    }
  }

  /** A shuffle in place does what a shuffle should. */
  ghost predicate SweepRight(data: seq<byte>, ts: nat)
    requires ts > 0
  {
    Shuffle.WholeFits(|data|, ts);
    Swept(data, ts * (|data| / ts), |data| / ts, ts) == Shuffle.Forward(data, data, ts)
  }

  lemma SweepTrivial(data: seq<byte>, ts: nat)
    requires ts > 0 && (ts == 1 || |data| / ts <= 1)
    ensures SweepRight(data, ts)
  {
    var count := |data| / ts;
    Shuffle.WholeFits(|data|, ts);
    var whole: nat := ts * count;
    SweepNothing(data, whole, count, ts);
    ForwardNothing(data, whole, count, ts);
  }

  lemma ForwardNothing(data: seq<byte>, whole: nat, count: nat, ts: nat)
    requires ts > 0 && count == |data| / ts && whole == ts * count <= |data| && (ts == 1 || count <= 1)
    ensures Shuffle.Forward(data, data, ts) == data
  {
    var goal := Shuffle.Forward(data, data, ts);
    forall p | 0 <= p < |data|
      ensures goal[p] == data[p]
    {
      if p < whole { SourceSame(p, count, ts); }
    }
  }

  lemma SweepBreaks(data: seq<byte>, ts: nat)
    requires ts >= 2 && |data| / ts >= 2
    ensures |data| > ts && (data[1] != data[ts] ==> !SweepRight(data, ts))
  {
    var count := |data| / ts;
    Shuffle.WholeFits(|data|, ts);
    SweepOverwrites(data, count, ts);
    assert Shuffle.Forward(data, data, ts)[count] == data[1];
  }

  /** The in-place shuffle is right for every block of n bytes exactly when it moves nothing: the
      elements are single bytes, or there is at most one of them. */
  lemma SweepExact(n: nat, ts: nat)
    requires ts > 0
    ensures (forall data: seq<byte> {:trigger SweepRight(data, ts)} :: |data| == n ==> SweepRight(data, ts))
       <==> ts == 1 || n / ts <= 1
  {
    if ts == 1 || n / ts <= 1 {
      forall data: seq<byte> | |data| == n
        ensures SweepRight(data, ts)
      {
        SweepTrivial(data, ts);
      }
    } else {
      Shuffle.WholeFits(n, ts);
      MulMono(2, n / ts, ts);
      var data: seq<byte> := Zeros(n)[1 := 1];
      SweepBreaks(data, ts);
    }
  }

  // ---- the branch ----

  /** all_inplace, for the filters that compute anything: shuffle and fletcher32. */
  predicate AllInPlace(filters: seq<Filter>) {
    forall j :: 0 <= j < |filters| ==> filters[j].ShuffleFilter? || filters[j].Fletcher32Filter?
  }

  function OutInPlace(f: Filter, x: seq<byte>): (out: seq<byte>)
    requires f.ShuffleFilter? || f.Fletcher32Filter?
  {
    match f
    case ShuffleFilter(params) =>
      var ts := Shuffle.TypeSize(params);
      Shuffle.WholeFits(|x|, ts);
      if ts == 1 then x else Swept(x, ts * (|x| / ts), |x| / ts, ts)
    case Fletcher32Filter => Fletcher32.Encode(x)
  }

  /** The branch's loop: the length becomes whatever the filter returned. */
  function StoreFrom(filters: seq<Filter>, j: nat, x: seq<byte>, mask: nat): (s: Stored)
    requires AllInPlace(filters) && j <= |filters|
    decreases |filters| - j
  {
    if j == |filters| then Stored(mask, x)
    else
      var out := OutInPlace(filters[j], x);
      StoreFrom(filters, j + 1, out, if out == [] then mask + Pow2(j) else mask)
  }

  lemma {:induction false} AppendStore(filters: seq<Filter>, g: Filter, j: nat, x: seq<byte>, mask: nat)
    requires AllInPlace(filters) && AllInPlace(filters + [g]) && j <= |filters|
    ensures var s := StoreFrom(filters, j, x, mask);
            StoreFrom(filters + [g], j, x, mask) == StoreFrom(filters + [g], |filters|, s.bytes, s.mask)
    decreases |filters| - j
  {
    if j < |filters| {
      assert (filters + [g])[j] == filters[j];
      var out := OutInPlace(filters[j], x);
      AppendStore(filters, g, j + 1, out, if out == [] then mask + Pow2(j) else mask);
    }
  }

  /** One more filter at the end gets what the others left; a 0 from it sets its bit and the length. */
  lemma StageOrder(filters: seq<Filter>, g: Filter, x: seq<byte>)
    requires AllInPlace(filters) && (g.ShuffleFilter? || g.Fletcher32Filter?)
    ensures AllInPlace(filters + [g]) && StoreFrom([], 0, x, 0) == Stored(0, x)
    ensures var s := StoreFrom(filters, 0, x, 0);
            var out := OutInPlace(g, s.bytes);
            StoreFrom(filters + [g], 0, x, 0) == Stored(if out == [] then s.mask + Pow2(|filters|) else s.mask, out)
  {
    assert (filters + [g])[|filters|] == g;
    AppendStore(filters, g, 0, x, 0);
  }

  /** Every shuffle stage sees single bytes or at most one element. */
  predicate Overlapless(filters: seq<Filter>, j: nat, x: seq<byte>)
    requires AllInPlace(filters) && j <= |filters|
    decreases |filters| - j
  {
    j < |filters| ==>
      && (filters[j].ShuffleFilter? ==>
            var ts := Shuffle.TypeSize(filters[j].params); ts == 1 || |x| / ts <= 1)
      && Overlapless(filters, j + 1, OutInPlace(filters[j], x))
  }

  lemma OutAgrees(f: Filter, x: seq<byte>)
    requires f.ShuffleFilter? || f.Fletcher32Filter?
    requires f.ShuffleFilter? ==> var ts := Shuffle.TypeSize(f.params); ts == 1 || |x| / ts <= 1
    ensures OutInPlace(f, x) == Out(f, false, x)
    ensures OutInPlace(f, x) == [] ==> x == []
  {
    if f.ShuffleFilter? {
      var ts := Shuffle.TypeSize(f.params);
      SweepTrivial(x, ts);
      Shuffle.WholeFits(|x|, ts);
      if ts == 1 { SweepNothing(x, ts * (|x| / ts), |x| / ts, ts); }
    }
  }

  /** Then the branch stores exactly what the ping-pong branch stores. */
  lemma {:induction false} BranchesAgree(filters: seq<Filter>, j: nat, x: seq<byte>, mask: nat)
    requires AllInPlace(filters) && j <= |filters| && Overlapless(filters, j, x)
    ensures StoreFrom(filters, j, x, mask) == EncodeFrom(filters, j, x, mask)
    decreases |filters| - j
  {
    if j < |filters| {
      OutAgrees(filters[j], x);
      var out := OutInPlace(filters[j], x);
      BranchesAgree(filters, j + 1, out, if out == [] then mask + Pow2(j) else mask);
    }
  }

  // ---- whole chains ----

  /** The length stage j receives: every checksum before it has added four bytes. */
  function LengthAt(filters: seq<Filter>, j: nat, n: nat): (length: nat)
    requires j <= |filters|
  {
    if j == 0 then n else LengthAt(filters, j - 1, n) + if filters[j - 1].Fletcher32Filter? then 4 else 0
  }

  /** This shuffle leaves blocks of n bytes as they are. */
  predicate Still(f: Filter, n: nat) {
    f.ShuffleFilter? ==> Shuffle.TypeSize(f.params) == 1 || n / Shuffle.TypeSize(f.params) <= 1
  }

  /** So do all shuffles of the chain with the lengths they receive. */
  ghost predicate AllStill(filters: seq<Filter>, n: nat) {
    forall j :: 0 <= j < |filters| ==> Still(filters[j], LengthAt(filters, j, n))
  }

  /** Every stage does in place what its filter should, on every block of the length it receives. */
  ghost predicate StagesRight(filters: seq<Filter>, n: nat)
    requires AllInPlace(filters)
  {
    forall j: nat, x: seq<byte> {:trigger OutInPlace(filters[j], x)} :: j < |filters| && |x| == LengthAt(filters, j, n) ==>
      OutInPlace(filters[j], x) == Out(filters[j], false, x)
  }

  /** Which is so exactly when no shuffle moves anything, wherever the checksums stand. */
  lemma StagesExact(filters: seq<Filter>, n: nat)
    requires AllInPlace(filters)
    ensures StagesRight(filters, n) <==> AllStill(filters, n)
  {
    if AllStill(filters, n) {
      forall j: nat, x: seq<byte> {:trigger OutInPlace(filters[j], x)} | j < |filters| && |x| == LengthAt(filters, j, n)
        ensures OutInPlace(filters[j], x) == Out(filters[j], false, x)
      {
        OutAgrees(filters[j], x);
      }
    } else {
      var j :| 0 <= j < |filters| && !Still(filters[j], LengthAt(filters, j, n));
      var x := MovedBlock(filters[j], LengthAt(filters, j, n));
      assert OutInPlace(filters[j], x) != Out(filters[j], false, x);
    }
  }

  lemma MovedBlock(f: Filter, n: nat) returns (x: seq<byte>)
    requires f.ShuffleFilter? && !Still(f, n)
    ensures |x| == n && OutInPlace(f, x) != Out(f, false, x)
  {
    var ts := Shuffle.TypeSize(f.params);
    Shuffle.WholeFits(n, ts);
    MulMono(2, n / ts, ts);
    x := Zeros(n)[1 := 1];
    SweepBreaks(x, ts);
  }

  /** On every block of n bytes the branch stores what the ping-pong branch stores. */
  ghost predicate BranchRight(filters: seq<Filter>, n: nat)
    requires AllInPlace(filters)
  {
    forall data: seq<byte> {:trigger Encode(filters, data)} :: |data| == n ==>
      StoreFrom(filters, 0, data, 0) == Encode(filters, data)
  }

  /** If any shuffle moves something, one in front of all checksums does. Behind a checksum a shuffle may
      move bytes and still do no harm: an empty block has nothing but zeros there
      (InPlaceChains.EmptyBlock). */
  ghost predicate MovesFirst(filters: seq<Filter>, n: nat) {
    !AllStill(filters, n) ==> exists j :: 0 <= j < |filters| && Raw(filters, j) && !Still(filters[j], n)
  }

  /** No checksum stands in front of stage j. */
  predicate Raw(filters: seq<Filter>, j: nat)
    requires j <= |filters|
  {
    forall k :: 0 <= k < j ==> filters[k].ShuffleFilter?
  }

  /** Then the branch is right for all blocks of n bytes exactly when none of its shuffles moves anything. */
  lemma FirstMovesExact(filters: seq<Filter>, n: nat)
    requires AllInPlace(filters) && MovesFirst(filters, n)
    ensures BranchRight(filters, n) <==> AllStill(filters, n)
  {
    if AllStill(filters, n) {
      BranchSafe(filters, n);
    } else {
      var j := FirstMoving(filters, n);
      SomeBlockWrong(filters, n, j);
    }
  }

  /** In any order of the filters it is right when none does. */
  lemma BranchSafe(filters: seq<Filter>, n: nat)
    requires AllInPlace(filters) && AllStill(filters, n)
    ensures BranchRight(filters, n)
  {
    forall data: seq<byte> {:trigger Encode(filters, data)} | |data| == n
      ensures StoreFrom(filters, 0, data, 0) == Encode(filters, data)
    {
      StillOverlapless(filters, n, 0, data);
      BranchesAgree(filters, 0, data, 0);
    }
  }

  /** The order chains are set up in, no shuffle after a checksum, is one of those. */
  lemma {:induction false} ChecksumsLast(filters: seq<Filter>, n: nat)
    requires AllInPlace(filters)
    requires forall i, j :: 0 <= i < j < |filters| && filters[i].Fletcher32Filter? ==> !filters[j].ShuffleFilter?
    ensures MovesFirst(filters, n)
  {
    if !AllStill(filters, n) {
      var j :| 0 <= j < |filters| && !Still(filters[j], LengthAt(filters, j, n));
      assert Raw(filters, j);
      RawLength(filters, j, n);
    }
  }

  lemma {:induction false} RawLength(filters: seq<Filter>, j: nat, n: nat)
    requires j <= |filters| && Raw(filters, j)
    ensures LengthAt(filters, j, n) == n
  {
    if j > 0 { RawLength(filters, j - 1, n); }
  }

  lemma {:induction false} StillOverlapless(filters: seq<Filter>, n: nat, j: nat, x: seq<byte>)
    requires AllInPlace(filters) && AllStill(filters, n) && j <= |filters| && |x| == LengthAt(filters, j, n)
    ensures Overlapless(filters, j, x)
    decreases |filters| - j
  {
    if j < |filters| {
      StillOverlapless(filters, n, j + 1, OutInPlace(filters[j], x));
    }
  }

  lemma FirstMoving(filters: seq<Filter>, n: nat) returns (j: nat)
    requires exists k :: 0 <= k < |filters| && Raw(filters, k) && !Still(filters[k], n)
    ensures j < |filters| && Raw(filters, j) && !Still(filters[j], n) && forall k :: 0 <= k < j ==> Still(filters[k], n)
  {
    j := 0;
    while Still(filters[j], n)
      invariant j < |filters| && forall k :: 0 <= k < j ==> Still(filters[k], n)
      invariant exists k :: j <= k < |filters| && Raw(filters, k) && !Still(filters[k], n)
      decreases |filters| - j
    {
      j := j + 1;
    }
  }

  lemma StillOut(f: Filter, data: seq<byte>)
    requires f.ShuffleFilter? && Still(f, |data|)
    ensures OutInPlace(f, data) == data
  {
    var ts := Shuffle.TypeSize(f.params);
    Shuffle.WholeFits(|data|, ts);
    SweepNothing(data, ts * (|data| / ts), |data| / ts, ts);
  }

  /** Stages that move nothing hand the block on. */
  lemma {:induction false} StillPrefix(filters: seq<Filter>, i: nat, j: nat, data: seq<byte>)
    requires AllInPlace(filters) && i <= j < |filters| && data != []
    requires forall k :: i <= k < j ==> filters[k].ShuffleFilter? && Still(filters[k], |data|)
    ensures StoreFrom(filters, i, data, 0) == StoreFrom(filters, j, data, 0)
    decreases j - i
  {
    hide StoreFrom, Still, AllInPlace;
    if i < j {
      StillStep(filters, i, data);
      StillPrefix(filters, i + 1, j, data);
    }
  }

  lemma StillStep(filters: seq<Filter>, i: nat, data: seq<byte>)
    requires AllInPlace(filters) && i < |filters| && data != []
    requires filters[i].ShuffleFilter? && Still(filters[i], |data|)
    ensures StoreFrom(filters, i, data, 0) == StoreFrom(filters, i + 1, data, 0)
  {
    StillOut(filters[i], data);
  }

  /** Byte 1 is overwritten before anybody reads it. */
  lemma {:induction false} SweptForgets(data: seq<byte>, v: byte, p: nat, count: nat, ts: nat)
    requires ts >= 2 && count >= 2 && 2 <= p <= ts * count <= |data|
    ensures Swept(data[1 := v], p, count, ts) == Swept(data, p, count, ts)
    decreases p
  {
    if p == 2 {
      SourceSmall(count, ts);
      PositionAt(0, 0, count, ts);
      SweptOnce(data, count, ts);
      SweptOnce(data[1 := v], count, ts);
      assert Swept(data, 2, count, ts) == data[1 := data[ts]];
    } else {
      SweptForgets(data, v, p - 1, count, ts);
    }
  }

  lemma SweptOnce(data: seq<byte>, count: nat, ts: nat)
    requires ts >= 2 && count >= 2 && ts * count <= |data| && Shuffle.Source(0, count, ts) == 0
    ensures Swept(data, 1, count, ts) == data
  {
    assert Swept(data, 0, count, ts) == data;
  }

  /** Two blocks that differ in byte 1 only leave stage j, and so the chain, as the same bytes, but
      the right encodings of different blocks differ. */
  lemma SomeBlockWrong(filters: seq<Filter>, n: nat, j: nat)
    requires AllInPlace(filters) && j < |filters| && Raw(filters, j) && !Still(filters[j], n)
    requires forall k :: 0 <= k < j ==> Still(filters[k], n)
    ensures !BranchRight(filters, n)
  {
    var ts := Shuffle.TypeSize(filters[j].params);
    var count := n / ts;
    Shuffle.WholeFits(n, ts);
    SourceSmall(count, ts);
    var a: seq<byte> := Zeros(n);
    var b := a[1 := 1];
    SweptForgets(a, 1, ts * count, count, ts);
    assert OutInPlace(filters[j], a) == OutInPlace(filters[j], b);
    StillPrefix(filters, 0, j, a);
    StillPrefix(filters, 0, j, b);
    assert StoreFrom(filters, 0, a, 0) == StoreFrom(filters, 0, b, 0);
    ChainUndone(filters, 0, a);
    ChainUndone(filters, 0, b);
    FilterChain.RoundTrip(filters, a);
    FilterChain.RoundTrip(filters, b);
    assert a[1] != b[1];
    assert Encode(filters, a) != Encode(filters, b);
  }

  lemma {:induction false} ChainUndone(filters: seq<Filter>, j: nat, x: seq<byte>)
    requires AllInPlace(filters) && j <= |filters|
    ensures Reversible(filters, j, x)
    decreases |filters| - j
  {
    if j < |filters| {
      var out := Out(filters[j], false, x);
      if filters[j].ShuffleFilter? {
        ShuffleUndone(filters[j].params, x);
      } else {
        Fletcher32.RoundTrip(x);
      }
      ChainUndone(filters, j + 1, if out == [] then x else out);
    }
  }

  /** What a reader gets otherwise: after an in-place shuffle of two or more elements of two or more
      bytes, byte 1 comes back as byte ts. */
  lemma ShuffleLost(params: seq<nat>, data: seq<byte>)
    requires var ts := Shuffle.TypeSize(params); ts >= 2 && |data| / ts >= 2
    ensures var back := Decode([ShuffleFilter(params)], StoreFrom([ShuffleFilter(params)], 0, data, 0));
            |back| == |data| > Shuffle.TypeSize(params) && back[1] == data[Shuffle.TypeSize(params)]
  {
    var ts := Shuffle.TypeSize(params);
    Shuffle.WholeFits(|data|, ts);
    SweepOverwrites(data, |data| / ts, ts);
    var y := Swept(data, ts * (|data| / ts), |data| / ts, ts);
    StoredAlone(params, data, y);
    ReadAlone(params, y);
    SecondByte(y, |data| / ts, ts);
  }

  lemma StoredAlone(params: seq<nat>, data: seq<byte>, y: seq<byte>)
    requires data != [] && Shuffle.TypeSize(params) > 1 && y == OutInPlace(ShuffleFilter(params), data)
    ensures StoreFrom([ShuffleFilter(params)], 0, data, 0) == Stored(0, y)
  {
    var filters := [ShuffleFilter(params)];
    assert StoreFrom(filters, 1, y, 0) == Stored(0, y);
  }

  lemma ReadAlone(params: seq<nat>, y: seq<byte>)
    ensures Decode([ShuffleFilter(params)], Stored(0, y)) == Shuffle.Backward(y, y, Shuffle.TypeSize(params))
  {
    var filters := [ShuffleFilter(params)];
    assert !MaskBit(0, 0);
    assert DecodeFrom(filters, 1, 0, y) == DecodeFrom(filters, 0, 0, Out(filters[0], true, y));
  }

  lemma SecondByte(y: seq<byte>, count: nat, ts: nat)
    requires ts >= 2 && count >= 2 && count == |y| / ts
    ensures count < |y| && Shuffle.Backward(y, y, ts)[1] == y[count]
  {
    Shuffle.WholeFits(|y|, ts);
    SourceSmall(count, ts);
    Shuffle.Inverse(count, count, ts);
  }

  /** The outputs of the stages, each four bytes longer after a checksum, fit the buffer. */
  predicate Fits(filters: seq<Filter>, j: nat, length: nat, cap: nat)
    requires j <= |filters|
    decreases |filters| - j
  {
    length <= cap && (j < |filters| ==> Fits(filters, j + 1, if filters[j].Fletcher32Filter? then length + 4 else length, cap))
  }

  /** They do when the chain fits at all. */
  lemma {:induction false} EncodeFits(filters: seq<Filter>, j: nat, x: seq<byte>, cap: nat)
    requires AllInPlace(filters) && j <= |filters| && CanEncode(filters, j, x, cap)
    ensures Fits(filters, j, |x|, cap)
    decreases |filters| - j
  {
    if j < |filters| {
      var out := Out(filters[j], false, x);
      EncodeFits(filters, j + 1, if out == [] then x else out, cap);
    }
  }

  /** The branch itself on the one scratch buffer. */
  method Run(buf: array<byte>, nbytes: nat, filters: seq<Filter>) returns (length: nat, mask: nat)
    requires AllInPlace(filters) && Fits(filters, 0, nbytes, buf.Length)
    modifies buf
    ensures length <= buf.Length
    ensures Stored(mask, buf[..length]) == StoreFrom(filters, 0, old(buf[..nbytes]), 0)
  {
    length, mask := nbytes, 0;
    var j := 0;
    ghost var goal := StoreFrom(filters, 0, buf[..nbytes], 0);
    hide AllInPlace, Running;
    Starts(buf, nbytes, filters, goal);
    while j < |filters|
      invariant 0 <= j <= |filters| && length <= buf.Length && Running(filters, j, buf[..length], mask, buf.Length, goal)
    {
      length, mask := RunStage(buf, length, mask, filters, j, goal);
      j := j + 1;
    }
    Ends(filters, buf[..length], mask, buf.Length, goal);
  }

  /** The stages from j on, run on these bytes, end in the goal and within cap bytes. */
  ghost predicate Running(filters: seq<Filter>, j: nat, x: seq<byte>, mask: nat, cap: nat, goal: Stored)
    requires AllInPlace(filters)
  {
    j <= |filters| && Fits(filters, j, |x|, cap) && mask < Pow2(j) && StoreFrom(filters, j, x, mask) == goal
  }

  lemma Starts(buf: array<byte>, nbytes: nat, filters: seq<Filter>, goal: Stored)
    requires AllInPlace(filters) && Fits(filters, 0, nbytes, buf.Length)
    requires goal == StoreFrom(filters, 0, buf[..nbytes], 0)
    ensures nbytes <= buf.Length && Running(filters, 0, buf[..nbytes], 0, buf.Length, goal)
  {}

  lemma Ends(filters: seq<Filter>, x: seq<byte>, mask: nat, cap: nat, goal: Stored)
    requires AllInPlace(filters) && Running(filters, |filters|, x, mask, cap, goal)
    ensures Stored(mask, x) == goal
  {}

  method RunStage(buf: array<byte>, length: nat, mask: nat, filters: seq<Filter>, j: nat, ghost goal: Stored)
    returns (length': nat, mask': nat)
    requires AllInPlace(filters) && j < |filters| && length <= buf.Length
    requires Running(filters, j, buf[..length], mask, buf.Length, goal)
    modifies buf
    ensures length' <= buf.Length && Running(filters, j + 1, buf[..length'], mask', buf.Length, goal)
  {
    mask' := mask;
    assert Fits(filters, j + 1, if filters[j].Fletcher32Filter? then length + 4 else length, buf.Length);
    length' := CallInPlace(filters[j], buf, length);
    if length' == 0 { mask' := PingPong.OrMask(mask, j); }
  }

  method CallInPlace(f: Filter, buf: array<byte>, length: nat) returns (n: nat)
    requires (f.ShuffleFilter? || f.Fletcher32Filter?) && length <= buf.Length
    requires f.Fletcher32Filter? ==> length + 4 <= buf.Length
    modifies buf
    ensures n == (if f.Fletcher32Filter? then length + 4 else length) <= buf.Length
    ensures buf[..n] == OutInPlace(f, old(buf[..length]))
  {
    match f
    case ShuffleFilter(params) =>
      var ts := Shuffle.TypeSize(params);
      if ts != 1 && length != 0 { ShuffleSweep(buf, length, ts); }
      n := length;
    case Fletcher32Filter =>
      var checksum := Fletcher32.ComputeChecksum(buf, length);
      ghost var x := buf[..length];
      MemCpy(buf, length, Be32Bytes(checksum));
      n := length + 4;
      assert buf[..length] == x;
  }
}
