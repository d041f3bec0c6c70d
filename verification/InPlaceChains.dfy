/**
 Whole chains on one buffer, checksums in front of shuffles included: when the write branch stores what
 the ping-pong branch would. In place, a run of shuffles hands bytes on from positions that never
 include the second one; the right shuffles hand every byte on.
 */
module InPlaceChains {
  import opened Arith
  import opened Memory
  import opened FilterChain
  import opened InPlace
  import Shuffle
  import Fletcher32

  /** Stage j is a shuffle that moves something. */
  predicate Moves(filters: seq<Filter>, j: nat, n: nat)
    requires j < |filters|
  {
    !Still(filters[j], LengthAt(filters, j, n))
  }

  /** No checksum stands between two shuffles that move something. */
  ghost predicate OneGroup(filters: seq<Filter>, n: nat) {
    forall i, k, m :: 0 <= i < k < m < |filters| && Moves(filters, i, n) && filters[k].Fletcher32Filter? ==>
      !Moves(filters, m, n)
  }

  // ---- positions ----

  /** Whose byte stands at position p when the first i positions have been rewritten in place. */
  function Trace(i: nat, p: nat, count: nat, ts: nat): (q: nat)
    requires i <= ts * count
    ensures q == p || q < ts * count
    decreases i
  {
    if i == 0 then p
    else Trace(i - 1, if p == i - 1 then Shuffle.Source(i - 1, count, ts) else p, count, ts)
  }

  lemma {:induction false} SweptTrace(buf: seq<byte>, i: nat, p: nat, count: nat, ts: nat)
    requires i <= ts * count <= |buf| && p < |buf|
    ensures Trace(i, p, count, ts) < |buf| && Swept(buf, i, count, ts)[p] == buf[Trace(i, p, count, ts)]
    decreases i
  {
    if i > 0 {
      SweptTrace(buf, i - 1, if p == i - 1 then Shuffle.Source(i - 1, count, ts) else p, count, ts);
    }
  }

  /** The second byte is nowhere any more once its position has been rewritten. */
  lemma {:induction false} TraceMisses(i: nat, p: nat, count: nat, ts: nat)
    requires ts >= 2 && count >= 2 && 2 <= i <= ts * count
    ensures Trace(i, p, count, ts) != 1
    decreases i
  {
    if i == 2 {
      SourceSmall(count, ts);
      PositionAt(0, 0, count, ts);
      TraceTwo(p, count, ts);
    } else {
      TraceMisses(i - 1, if p == i - 1 then Shuffle.Source(i - 1, count, ts) else p, count, ts);
    }
  }

  lemma TraceTwo(p: nat, count: nat, ts: nat)
    requires ts >= 2 && 2 <= ts * count && Shuffle.Source(0, count, ts) == 0 && Shuffle.Source(1, count, ts) == ts
    ensures Trace(2, p, count, ts) != 1
  {
    var p1 := if p == 1 then ts else p;
    assert Trace(2, p, count, ts) == Trace(1, p1, count, ts);
    assert Trace(1, p1, count, ts) == Trace(0, if p1 == 0 then 0 else p1, count, ts);
  }

  /** Where position p of a shuffle stage's output comes from in place ... */
  function StageTrace(f: Filter, n: nat, p: nat): (q: nat)
    requires f.ShuffleFilter? && p < n
    ensures q < n
  {
    var ts := Shuffle.TypeSize(f.params);
    Shuffle.WholeFits(n, ts);
    if ts == 1 then p else Trace(ts * (n / ts), p, n / ts, ts)
  }

  /** ... and where it should. */
  function StageSource(f: Filter, n: nat, p: nat): (q: nat)
    requires f.ShuffleFilter? && p < n
    ensures q < n
  {
    var ts := Shuffle.TypeSize(f.params);
    Shuffle.WholeFits(n, ts);
    if p < ts * (n / ts) then Shuffle.Source(p, n / ts, ts) else p
  }

  lemma StageAt(f: Filter, x: seq<byte>, p: nat)
    requires f.ShuffleFilter? && p < |x|
    ensures |OutInPlace(f, x)| == |Out(f, false, x)| == |x|
    ensures OutInPlace(f, x)[p] == x[StageTrace(f, |x|, p)]
    ensures Out(f, false, x)[p] == x[StageSource(f, |x|, p)]
  {
    var ts := Shuffle.TypeSize(f.params);
    Shuffle.WholeFits(|x|, ts);
    if ts != 1 { SweptTrace(x, ts * (|x| / ts), p, |x| / ts, ts); }
  }

  lemma StageMisses(f: Filter, n: nat, p: nat)
    requires f.ShuffleFilter? && !Still(f, n) && p < n
    ensures StageTrace(f, n, p) != 1
  {
    var ts := Shuffle.TypeSize(f.params);
    Shuffle.WholeFits(n, ts);
    SourceSmall(n / ts, ts);
    TraceMisses(ts * (n / ts), p, n / ts, ts);
  }

  /** The right shuffle is onto. */
  lemma StageReaches(f: Filter, n: nat, q: nat) returns (p: nat)
    requires f.ShuffleFilter? && q < n
    ensures p < n && StageSource(f, n, p) == q
  {
    var ts := Shuffle.TypeSize(f.params);
    Shuffle.WholeFits(n, ts);
    if q < ts * (n / ts) {
      p := Shuffle.Target(q, n / ts, ts);
      Shuffle.Inverse(q, n / ts, ts);
    } else {
      p := q;
    }
  }

  // ---- runs of shuffles ----

  predicate ShufflesOnly(filters: seq<Filter>, j: nat, m: nat) {
    j <= m <= |filters| && forall k :: j <= k < m ==> filters[k].ShuffleFilter?
  }

  /** The block after stages j to m - 1, in place ... */
  function Through(filters: seq<Filter>, j: nat, m: nat, x: seq<byte>): (y: seq<byte>)
    requires AllInPlace(filters) && j <= m <= |filters|
    decreases m - j
  {
    if j == m then x else Through(filters, j + 1, m, OutInPlace(filters[j], x))
  }

  /** ... and as it should be. */
  function RightThrough(filters: seq<Filter>, j: nat, m: nat, x: seq<byte>): (y: seq<byte>)
    requires j <= m <= |filters|
    decreases m - j
  {
    if j == m then x else RightThrough(filters, j + 1, m, Out(filters[j], false, x))
  }

  function RunTrace(filters: seq<Filter>, j: nat, m: nat, n: nat, p: nat): (q: nat)
    requires ShufflesOnly(filters, j, m) && p < n
    ensures q < n
    decreases m - j
  {
    if j == m then p else StageTrace(filters[j], n, RunTrace(filters, j + 1, m, n, p))
  }

  function RunSource(filters: seq<Filter>, j: nat, m: nat, n: nat, p: nat): (q: nat)
    requires ShufflesOnly(filters, j, m) && p < n
    ensures q < n
    decreases m - j
  {
    if j == m then p else StageSource(filters[j], n, RunSource(filters, j + 1, m, n, p))
  }

  lemma {:induction false} RunLength(filters: seq<Filter>, j: nat, m: nat, x: seq<byte>)
    requires AllInPlace(filters) && ShufflesOnly(filters, j, m)
    ensures |Through(filters, j, m, x)| == |RightThrough(filters, j, m, x)| == |x|
    decreases m - j
  {
    if j < m {
      RunLength(filters, j + 1, m, OutInPlace(filters[j], x));
      RunLength(filters, j + 1, m, Out(filters[j], false, x));
    }
  }

  lemma {:induction false} ThroughAt(filters: seq<Filter>, j: nat, m: nat, x: seq<byte>, p: nat)
    requires AllInPlace(filters) && ShufflesOnly(filters, j, m) && p < |x|
    ensures p < |Through(filters, j, m, x)| && Through(filters, j, m, x)[p] == x[RunTrace(filters, j, m, |x|, p)]
    decreases m - j
  {
    if j < m {
      ThroughAt(filters, j + 1, m, OutInPlace(filters[j], x), p);
      StageAt(filters[j], x, RunTrace(filters, j + 1, m, |x|, p));
    }
  }

  lemma {:induction false} RightThroughAt(filters: seq<Filter>, j: nat, m: nat, x: seq<byte>, p: nat)
    requires ShufflesOnly(filters, j, m) && p < |x|
    ensures p < |RightThrough(filters, j, m, x)| && RightThrough(filters, j, m, x)[p] == x[RunSource(filters, j, m, |x|, p)]
    decreases m - j
  {
    if j < m {
      RightThroughAt(filters, j + 1, m, Out(filters[j], false, x), p);
      StageAt(filters[j], x, RunSource(filters, j + 1, m, |x|, p));
    }
  }

  lemma {:induction false} RunReaches(filters: seq<Filter>, j: nat, m: nat, n: nat, q: nat) returns (p: nat)
    requires ShufflesOnly(filters, j, m) && q < n
    ensures p < n && RunSource(filters, j, m, n, p) == q
    decreases m - j
  {
    if j == m {
      p := q;
    } else {
      var t := StageReaches(filters[j], n, q);
      p := RunReaches(filters, j + 1, m, n, t);
    }
  }

  /** Neither branch skips a shuffle of a block that is not empty. */
  lemma {:induction false} RunStored(filters: seq<Filter>, j: nat, m: nat, x: seq<byte>)
    requires AllInPlace(filters) && ShufflesOnly(filters, j, m) && x != []
    ensures StoreFrom(filters, j, x, 0) == StoreFrom(filters, m, Through(filters, j, m, x), 0)
    decreases m - j
  {
    if j < m {
      var out := OutInPlace(filters[j], x);
      StageAt(filters[j], x, 0);
      assert StoreFrom(filters, j, x, 0) == StoreFrom(filters, j + 1, out, 0);
      hide StoreFrom, OutInPlace, AllInPlace;
      RunStored(filters, j + 1, m, out);
    }
  }

  lemma {:induction false} RunEncoded(filters: seq<Filter>, j: nat, m: nat, x: seq<byte>)
    requires ShufflesOnly(filters, j, m) && x != []
    ensures EncodeFrom(filters, j, x, 0) == EncodeFrom(filters, m, RightThrough(filters, j, m, x), 0)
    decreases m - j
  {
    if j < m {
      var out := Out(filters[j], false, x);
      StageAt(filters[j], x, 0);
      assert EncodeFrom(filters, j, x, 0) == EncodeFrom(filters, j + 1, out, 0);
      hide EncodeFrom, Out;
      RunEncoded(filters, j + 1, m, out);
    }
  }

  // ---- stages that move nothing ----

  /** Stages i to j - 1 are checksums and shuffles that leave their block alone. */
  ghost predicate Quiet(filters: seq<Filter>, i: nat, j: nat, n: nat) {
    i <= j <= |filters| && forall k :: i <= k < j ==> !Moves(filters, k, n)
  }

  lemma QuietOut(f: Filter, x: seq<byte>)
    requires f.ShuffleFilter? || f.Fletcher32Filter?
    requires Still(f, |x|) && x != []
    ensures OutInPlace(f, x) == Out(f, false, x) == if f.Fletcher32Filter? then Fletcher32.Encode(x) else x
  {
    OutAgrees(f, x);
    if f.ShuffleFilter? { StillOut(f, x); }
  }

  /** Through them both branches go alike, and the block only grows by checksums. */
  lemma {:induction false} QuietStored(filters: seq<Filter>, i: nat, j: nat, n: nat, x: seq<byte>)
    requires AllInPlace(filters) && Quiet(filters, i, j, n) && |x| == LengthAt(filters, i, n) && x != []
    ensures var y := RightThrough(filters, i, j, x);
            && |y| == LengthAt(filters, j, n) >= |x| && y[..|x|] == x
            && StoreFrom(filters, i, x, 0) == StoreFrom(filters, j, y, 0)
            && EncodeFrom(filters, i, x, 0) == EncodeFrom(filters, j, y, 0)
    decreases j - i
  {
    if i < j {
      assert !Moves(filters, i, n);
      QuietOut(filters[i], x);
      var out := Out(filters[i], false, x);
      assert out[..|x|] == x;
      QuietStored(filters, i + 1, j, n, out);
      PrefixOfPrefix(RightThrough(filters, i, j, x), out, x);
    }
  }

  lemma PrefixOfPrefix(y: seq<byte>, out: seq<byte>, x: seq<byte>)
    requires |x| <= |out| <= |y| && y[..|out|] == out && out[..|x|] == x
    ensures y[..|x|] == x
  {
    assert y[..|x|] == y[..|out|][..|x|];
  }

  // ---- two blocks that tell positions apart ----

  /** A first word of all ones, then zeros. */
  ghost predicate OnesFirst(x: seq<byte>) {
    |x| >= 2 && x[0] == x[1] == 255 && forall p :: 2 <= p < |x| ==> x[p] == 0
  }

  /** Its checksum is zero. */
  lemma OnesChecksum(x: seq<byte>)
    requires OnesFirst(x)
    ensures OnesFirst(Fletcher32.Encode(x))
  {
    var ws := Fletcher32.WordsOfData(x);
    var rest := Fletcher32.Copies(|ws| - 1, 0);
    assert Fletcher32.WordOfData(x, 0) == 65535;
    assert forall i :: 1 <= i < |ws| ==> ws[i] == Fletcher32.WordOfData(x, i) == 0;
    assert ws == [65535] + rest;
    OnesSums(rest, |ws| - 1);
    ZeroBytes();
  }

  lemma OnesSums(rest: seq<nat>, k: nat)
    requires rest == Fletcher32.Copies(k, 0)
    ensures Fletcher32.Total([65535] + rest) % 65535 == 0 && Fletcher32.Weighted([65535] + rest) % 65535 == 0
  {
    Fletcher32.SumsOfCopies(k, 0);
    assert [65535][..0] == [];
    Fletcher32.TotalConcat([65535], rest);
    Fletcher32.WeightedConcat([65535], rest);
    DivModUnique(k + 1, 0, 65535);
  }

  lemma ZeroBytes()
    ensures Be32Bytes(0) == [0, 0, 0, 0]
  {}

  lemma {:induction false} OnesThrough(filters: seq<Filter>, i: nat, j: nat, n: nat, x: seq<byte>)
    requires AllInPlace(filters) && Quiet(filters, i, j, n) && |x| == LengthAt(filters, i, n) && OnesFirst(x)
    ensures OnesFirst(RightThrough(filters, i, j, x))
    decreases j - i
  {
    if i < j {
      assert !Moves(filters, i, n);
      QuietOut(filters[i], x);
      if filters[i].Fletcher32Filter? { OnesChecksum(x); }
      OnesThrough(filters, i + 1, j, n, Out(filters[i], false, x));
    }
  }

  /** A block that reaches stage j with different bytes at positions 1 and q. */
  lemma Separates(filters: seq<Filter>, j: nat, n: nat, q: nat) returns (x: seq<byte>)
    requires AllInPlace(filters) && Quiet(filters, 0, j, n) && n >= 2 && q < LengthAt(filters, j, n) && q != 1
    ensures |x| == n
    ensures var y := RightThrough(filters, 0, j, x); |y| == LengthAt(filters, j, n) >= 2 && y[1] != y[q]
  {
    if q == 0 {
      x := Zeros(n)[1 := 1];
      QuietStored(filters, 0, j, n, x);
      var y := RightThrough(filters, 0, j, x);
      assert y[0] == y[..n][0] && y[1] == y[..n][1];
    } else {
      x := Zeros(n)[0 := 255][1 := 255];
      QuietStored(filters, 0, j, n, x);
      OnesThrough(filters, 0, j, n, x);
    }
  }

  // ---- the branch ----

  /** The end of the run of shuffles that starts at stage j. */
  function RunEnd(filters: seq<Filter>, j: nat): (m: nat)
    requires AllInPlace(filters) && j <= |filters|
    ensures ShufflesOnly(filters, j, m) && (m < |filters| ==> filters[m].Fletcher32Filter?)
    decreases |filters| - j
  {
    if j == |filters| || filters[j].Fletcher32Filter? then j else RunEnd(filters, j + 1)
  }

  lemma {:induction false} RunLengthAt(filters: seq<Filter>, j: nat, m: nat, n: nat)
    requires ShufflesOnly(filters, j, m)
    ensures LengthAt(filters, m, n) == LengthAt(filters, j, n)
    decreases m - j
  {
    if j < m { RunLengthAt(filters, j, m - 1, n); }
  }

  lemma RunMisses(filters: seq<Filter>, j: nat, m: nat, n: nat, p: nat)
    requires ShufflesOnly(filters, j, m) && j < m && !Still(filters[j], n) && p < n
    ensures RunTrace(filters, j, m, n, p) != 1
  {
    StageMisses(filters[j], n, RunTrace(filters, j + 1, m, n, p));
  }

  /** Behind the run nothing moves, so what it got wrong stays wrong. */
  lemma RunShows(filters: seq<Filter>, m: nat, n: nat, wrong: seq<byte>, right: seq<byte>, p: nat)
    requires AllInPlace(filters) && Quiet(filters, m, |filters|, n)
    requires |wrong| == |right| == LengthAt(filters, m, n) && p < |right| && wrong[p] != right[p]
    ensures StoreFrom(filters, m, wrong, 0) != EncodeFrom(filters, m, right, 0)
  {
    QuietStored(filters, m, |filters|, n, wrong);
    QuietStored(filters, m, |filters|, n, right);
    var w, r := RightThrough(filters, m, |filters|, wrong), RightThrough(filters, m, |filters|, right);
    assert w[..|right|][p] != r[..|right|][p];
  }

  /** Stage j is the first that moves something, and only shuffles of its run do. */
  lemma RunWrong(filters: seq<Filter>, j: nat, m: nat, n: nat)
    requires AllInPlace(filters) && n >= 2 && j < |filters| && m == RunEnd(filters, j)
    requires Quiet(filters, 0, j, n) && Moves(filters, j, n) && Quiet(filters, m, |filters|, n)
    ensures !BranchRight(filters, n)
  {
    var len := LengthAt(filters, j, n);
    LengthGrows(filters, j, n);
    RunLengthAt(filters, j, m, n);
    var p := RunReaches(filters, j, m, len, 1);
    var q := RunTrace(filters, j, m, len, p);
    RunMisses(filters, j, m, len, p);
    var x := Separates(filters, j, n, q);
    QuietStored(filters, 0, j, n, x);
    var y := RightThrough(filters, 0, j, x);
    RunLength(filters, j, m, y);
    ThroughAt(filters, j, m, y, p);
    RightThroughAt(filters, j, m, y, p);
    RunStored(filters, j, m, y);
    RunEncoded(filters, j, m, y);
    RunShows(filters, m, n, Through(filters, j, m, y), RightThrough(filters, j, m, y), p);
    assert StoreFrom(filters, 0, x, 0) != Encode(filters, x);
  }

  lemma {:induction false} LengthGrows(filters: seq<Filter>, j: nat, n: nat)
    requires j <= |filters|
    ensures LengthAt(filters, j, n) >= n
  {
    if j > 0 { LengthGrows(filters, j - 1, n); }
  }

  lemma RestQuiet(filters: seq<Filter>, j: nat, m: nat, n: nat)
    requires AllInPlace(filters) && OneGroup(filters, n) && j < |filters| && Moves(filters, j, n) && m == RunEnd(filters, j)
    ensures Quiet(filters, m, |filters|, n)
  {
    assert j < m;
    hide Moves, RunEnd;
    forall k | m <= k < |filters|
      ensures !Moves(filters, k, n)
    {
      if k == m { ChecksumStill(filters, m, n); }
    }
  }

  lemma ChecksumStill(filters: seq<Filter>, m: nat, n: nat)
    requires m < |filters| && filters[m].Fletcher32Filter?
    ensures !Moves(filters, m, n)
  {}

  lemma FirstMover(filters: seq<Filter>, n: nat) returns (j: nat)
    requires !AllStill(filters, n)
    ensures j < |filters| && Moves(filters, j, n) && Quiet(filters, 0, j, n)
  {
    var mover :| 0 <= mover < |filters| && !Still(filters[mover], LengthAt(filters, mover, n));
    assert Moves(filters, mover, n);
    j := 0;
    while !Moves(filters, j, n)
      invariant j < |filters| && Quiet(filters, 0, j, n)
      invariant j <= mover
      decreases mover - j
    {
      j := j + 1;
    }
  }

  /** The branch is right for all blocks of n bytes exactly when none of its shuffles moves anything. This
      holds for chains whose checksums do not come between two shuffles that do, and for all chains in
      which one in front of all checksums does. */
  lemma BranchExact(filters: seq<Filter>, n: nat)
    requires AllInPlace(filters) && (MovesFirst(filters, n) || (n >= 2 && OneGroup(filters, n)))
    ensures BranchRight(filters, n) <==> AllStill(filters, n)
  {
    hide MovesFirst, OneGroup, Moves, Quiet, AllInPlace, BranchRight, AllStill;
    if AllStill(filters, n) {
      BranchSafe(filters, n);
    } else if MovesFirst(filters, n) {
      FirstMovesExact(filters, n);
    } else {
      var j := FirstMover(filters, n);
      var m := RunEnd(filters, j);
      RestQuiet(filters, j, m, n);
      RunWrong(filters, j, m, n);
    }
  }

  /** For an empty block nothing can go wrong, whatever moves: the checksum in front of this shuffle is zero. */
  lemma EmptyBlock(filters: seq<Filter>)
    requires filters == [Fletcher32Filter, ShuffleFilter([2])]
    ensures AllInPlace(filters) && BranchRight(filters, 0) && !AllStill(filters, 0)
  {
    assert LengthAt(filters, 1, 0) == LengthAt(filters, 0, 0) + 4 == 4;
    assert !Still(filters[1], LengthAt(filters, 1, 0));
    forall data: seq<byte> {:trigger Encode(filters, data)} | |data| == 0
      ensures StoreFrom(filters, 0, data, 0) == Encode(filters, data)
    {
      EmptyEncoded(data);
      ZerosShuffled(filters[1], [0, 0, 0, 0]);
      OneLeft(filters, [0, 0, 0, 0]);
    }
  }

  lemma EmptyEncoded(data: seq<byte>)
    requires data == []
    ensures Fletcher32.Encode(data) == [0, 0, 0, 0]
  {
    assert Fletcher32.WordsOfData(data) == [];
    ZeroBytes();
  }

  lemma ZerosShuffled(f: Filter, x: seq<byte>)
    requires f.ShuffleFilter? && forall p :: 0 <= p < |x| ==> x[p] == 0
    ensures OutInPlace(f, x) == Out(f, false, x) == x
  {
    forall p: nat | p < |x|
      ensures |OutInPlace(f, x)| == |Out(f, false, x)| == |x| && OutInPlace(f, x)[p] == Out(f, false, x)[p] == x[p]
    {
      StageAt(f, x, p);
    }
    assert |OutInPlace(f, x)| == |x| && |Out(f, false, x)| == |x|;
  }

  lemma OneLeft(filters: seq<Filter>, x: seq<byte>)
    requires AllInPlace(filters) && |filters| == 2 && x != [] && OutInPlace(filters[1], x) == Out(filters[1], false, x) == x
    ensures StoreFrom(filters, 1, x, 0) == EncodeFrom(filters, 1, x, 0)
  {
    assert StoreFrom(filters, 2, x, 0) == EncodeFrom(filters, 2, x, 0);
  }
}
