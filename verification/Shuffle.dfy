/**
 The scalar byte shuffle: byte k of every element gathered into plane k, and back.
 */
module Shuffle {
  import opened Arith
  import opened Memory

  /** Elements are laid out element-major before the shuffle and byte-major after it. */
  function Row(elem: nat, k: nat, ts: nat): (p: nat) { elem * ts + k }
  function Plane(elem: nat, k: nat, count: nat): (p: nat) { k * count + elem }

  /** A position below a * b splits uniquely into a quotient and a remainder. */
  lemma Split(p: nat, a: nat, b: nat)
    requires p < a * b
    ensures b > 0 && p / b < a && p == (p / b) * b + p % b
  {
    if p / b >= a { MulMono(a, p / b, b); }
  }

  lemma Below(q: nat, r: nat, a: nat, b: nat)
    requires q < a && r < b
    ensures q * b + r < a * b
  {
    MulMono(q + 1, a, b);
    MulSucc(q, b);
  }

  /** Where byte p of the shuffled block comes from, and where byte p of the block goes to. */
  function Source(p: nat, count: nat, ts: nat): (q: nat)
    requires p < ts * count
    ensures q < ts * count
  {
    Split(p, ts, count);
    Below(p % count, p / count, count, ts);
    Row(p % count, p / count, ts)
  }

  function Target(p: nat, count: nat, ts: nat): (q: nat)
    requires p < ts * count
    ensures q < ts * count
  {
    Split(p, count, ts);
    Below(p % ts, p / ts, ts, count);
    Plane(p / ts, p % ts, count)
  }

  /** The two maps are inverse bijections of the positions: the shuffle is a permutation. */
  lemma Inverse(p: nat, count: nat, ts: nat)
    requires p < ts * count
    ensures Target(Source(p, count, ts), count, ts) == p
    ensures Source(Target(p, count, ts), count, ts) == p
  {
    Split(p, ts, count);
    DivModUnique(p % count, p / count, ts);
    Split(p, count, ts);
    DivModUnique(p % ts, p / ts, count);
  }

  lemma WholeFits(n: nat, ts: nat)
    requires ts > 0
    ensures ts * (n / ts) <= n
  {
    assert n == (n / ts) * ts + n % ts;
  }

  /** Byte k of every element goes to plane k; bytes past the whole elements keep what dst held. */
  function Forward(dst: seq<byte>, src: seq<byte>, ts: nat): (r: seq<byte>)
    requires ts > 0 && |src| <= |dst|
    ensures |r| == |dst|
  {
    var count := |src| / ts;
    WholeFits(|src|, ts);
    seq(|dst|, p requires 0 <= p < |dst| => if p < ts * count then src[Source(p, count, ts)] else dst[p])
  }

  /** Byte k of every element comes back from plane k. */
  function Backward(dst: seq<byte>, src: seq<byte>, ts: nat): (r: seq<byte>)
    requires ts > 0 && |src| <= |dst|
    ensures |r| == |dst|
  {
    var count := |src| / ts;
    WholeFits(|src|, ts);
    seq(|dst|, p requires 0 <= p < |dst| => if p < ts * count then src[Target(p, count, ts)] else dst[p])
  }

  lemma RestoredAt(d1: seq<byte>, d2: seq<byte>, data: seq<byte>, ts: nat, p: nat)
    requires ts > 0 && |data| <= |d1| && |data| <= |d2| && p < ts * (|data| / ts)
    ensures p < |data| && Backward(d2, Forward(d1, data, ts)[..|data|], ts)[p] == data[p]
  {
    var n, count := |data|, |data| / ts;
    WholeFits(n, ts);
    Inverse(p, count, ts);
    var q := Target(p, count, ts);
    var mid := Forward(d1, data, ts);
    assert mid[q] == data[p];
    var cut := mid[..n];
    assert cut[q] == mid[q];
    assert Backward(d2, cut, ts)[p] == cut[q];
  }

  /** Unshuffling a shuffled block restores its whole elements; the bytes after them are whatever
      the two destination buffers held, so the block is restored exactly when those agree. */
  lemma RoundTrip(d1: seq<byte>, d2: seq<byte>, data: seq<byte>, ts: nat, whole: nat)
    requires ts > 0 && |data| <= |d1| && |data| <= |d2| && whole == ts * (|data| / ts) <= |data|
    ensures Backward(d2, Forward(d1, data, ts)[..|data|], ts)[..whole] == data[..whole]
    ensures Backward(d2, Forward(d1, data, ts)[..|data|], ts)[..|data|] == data
            <==> d2[whole..|data|] == data[whole..]
  {
    var out := Backward(d2, Forward(d1, data, ts)[..|data|], ts);
    forall p | 0 <= p < whole
      ensures out[p] == data[p]
    {
      RestoredAt(d1, d2, data, ts, p);
    }
    forall p | whole <= p < |d2|
      ensures out[p] == d2[p]
    {
    }
    PartsEqual(out[..|data|], data, whole);
    assert out[..|data|][whole..] == d2[whole..|data|];
  }

  lemma PartsEqual(a: seq<byte>, b: seq<byte>, p: nat)
    requires p <= |a| == |b| && a[..p] == b[..p]
    ensures a == b <==> a[p..] == b[p..]
  {
    assert a == a[..p] + a[p..] && b == b[..p] + b[p..];
  }

  /** With distinct buffers of any content the filter pair is the identity exactly when the element
      size divides the block. */
  lemma RoundTripExact(data: seq<byte>, ts: nat)
    requires ts > 0
    ensures (forall d1: seq<byte>, d2: seq<byte> {:trigger Forward(d1, data, ts), |d2|} ::
              |d1| == |data| && |d2| == |data| ==> Backward(d2, Forward(d1, data, ts)[..|data|], ts)[..|data|] == data)
       <==> |data| % ts == 0
  {
    var whole := ts * (|data| / ts);
    assert |data| == whole + |data| % ts;
    if |data| % ts == 0 {
      forall d1: seq<byte>, d2: seq<byte> | |d1| == |data| && |d2| == |data|
        ensures Backward(d2, Forward(d1, data, ts)[..|data|], ts)[..|data|] == data
      {
        RoundTrip(d1, d2, data, ts, whole);
      }
    } else {
      var other: byte := if data[whole] == 0 then 1 else 0;
      var d2 := data[whole := other];
      RoundTrip(data, d2, data, ts, whole);
      assert d2[whole..|data|][0] != data[whole..][0];
      assert |Forward(data, data, ts)| == |data|;
    }
  }

  /** The assignment the forward loops make at (k, elem) is the one the specification asks for. */
  lemma ForwardAt(before: seq<byte>, src: seq<byte>, ts: nat, count: nat, k: nat, elem: nat)
    requires ts > 0 && |src| <= |before| && count == |src| / ts && k < ts && elem < count
    ensures Plane(elem, k, count) < ts * count <= |src| && Row(elem, k, ts) < |src|
    ensures Forward(before, src, ts)[Plane(elem, k, count)] == src[Row(elem, k, ts)]
  {
    Below(k, elem, ts, count);
    Below(elem, k, count, ts);
    DivModUnique(k, elem, count);
  }

  lemma BackwardAt(before: seq<byte>, src: seq<byte>, ts: nat, count: nat, k: nat, elem: nat)
    requires ts > 0 && |src| <= |before| && count == |src| / ts && k < ts && elem < count
    ensures Row(elem, k, ts) < ts * count <= |src| && Plane(elem, k, count) < |src|
    ensures Backward(before, src, ts)[Row(elem, k, ts)] == src[Plane(elem, k, count)]
    ensures Row(elem, k, ts) / ts == elem && Row(elem, k, ts) % ts == k
  {
    Below(k, elem, ts, count);
    Below(elem, k, count, ts);
    DivModUnique(elem, k, ts);
  }

  /** The forward loops: planes outermost, so the output is written front to back. */
  method ShuffleLoops(dst: array<byte>, src: array<byte>, size: nat, ts: nat)
    requires dst != src && ts > 0 && size <= src.Length && size <= dst.Length
    modifies dst
    ensures dst[..] == Forward(old(dst[..]), src[..size], ts)
  {
    var count := size / ts;
    ghost var before, goal := dst[..], Forward(dst[..], src[..size], ts);
    var k := 0;
    ghost var done: nat := 0;
    while k < ts
      invariant k <= ts && done == k * count
      invariant forall p :: 0 <= p < dst.Length ==> dst[p] == if p < done then goal[p] else before[p]
    {
      ghost var base := done;
      var elem := 0;
      while elem < count
        invariant elem <= count && done == base + elem
        invariant forall p :: 0 <= p < dst.Length ==> dst[p] == if p < done then goal[p] else before[p]
      {
        ForwardAt(before, src[..size], ts, count, k, elem);
        dst[Plane(elem, k, count)] := src[Row(elem, k, ts)];
        elem := elem + 1;
        done := done + 1;
      }
      MulSucc(k, count);
      k := k + 1;
    }
    AllDone(dst[..], goal, before, done);
  }

  lemma AllDone(buf: seq<byte>, goal: seq<byte>, before: seq<byte>, done: nat)
    requires |buf| == |goal| == |before|
    requires forall p :: 0 <= p < |buf| ==> buf[p] == if p < done then goal[p] else before[p]
    requires forall p :: done <= p < |buf| ==> goal[p] == before[p]
    ensures buf == goal
  {}

  /** Byte p has been written once planes before k, and the first `elem` elements of plane k, are done. */
  predicate Written(p: nat, k: nat, elem: nat, ts: nat, count: nat)
    requires ts > 0
  {
    p < ts * count && (p % ts < k || (p % ts == k && p / ts < elem))
  }

  lemma WrittenStep(p: nat, k: nat, elem: nat, ts: nat, count: nat)
    requires ts > 0 && k < ts && elem < count
    ensures Written(p, k, elem + 1, ts, count) <==> Written(p, k, elem, ts, count) || p == Row(elem, k, ts)
  {
    Below(elem, k, count, ts);
    DivModUnique(elem, k, ts);
    if p < ts * count && p % ts == k && p / ts == elem { AtRow(p, elem, k, ts); }
  }

  lemma AtRow(p: nat, elem: nat, k: nat, ts: nat)
    requires ts > 0 && p / ts == elem && p % ts == k
    ensures p == Row(elem, k, ts)
  {}

  lemma WrittenPlane(p: nat, k: nat, ts: nat, count: nat)
    requires ts > 0 && k < ts
    ensures Written(p, k, count, ts, count) <==> Written(p, k + 1, 0, ts, count)
  {
    if p < ts * count { Split(p, count, ts); }
  }

  /** The written bytes have their final value, the others their old one. */
  ghost predicate Mixed(buf: seq<byte>, goal: seq<byte>, before: seq<byte>, k: nat, elem: nat, ts: nat, count: nat)
    requires ts > 0
  {
    && |buf| == |goal| == |before|
    && forall p: nat :: p < |buf| ==> buf[p] == if Written(p, k, elem, ts, count) then goal[p] else before[p]
  }

  lemma MixedPlane(buf: seq<byte>, goal: seq<byte>, before: seq<byte>, k: nat, ts: nat, count: nat)
    requires ts > 0 && k < ts && Mixed(buf, goal, before, k, count, ts, count)
    ensures Mixed(buf, goal, before, k + 1, 0, ts, count)
  {
    forall p: nat | p < |buf|
      ensures buf[p] == if Written(p, k + 1, 0, ts, count) then goal[p] else before[p]
    {
      WrittenPlane(p, k, ts, count);
    }
  }

  lemma MixedStep(buf: seq<byte>, goal: seq<byte>, before: seq<byte>, k: nat, elem: nat, ts: nat, count: nat)
    requires ts > 0 && k < ts && elem < count && Mixed(buf, goal, before, k, elem, ts, count)
    requires Row(elem, k, ts) < |buf|
    ensures Mixed(buf[Row(elem, k, ts) := goal[Row(elem, k, ts)]], goal, before, k, elem + 1, ts, count)
  {
    var buf' := buf[Row(elem, k, ts) := goal[Row(elem, k, ts)]];
    forall p: nat | p < |buf'|
      ensures buf'[p] == if Written(p, k, elem + 1, ts, count) then goal[p] else before[p]
    {
      WrittenStep(p, k, elem, ts, count);
    }
  }

  /** The reverse loops: planes outermost again, so the output fills with stride ts. */
  method UnshuffleLoops(dst: array<byte>, src: array<byte>, size: nat, ts: nat)
    requires dst != src && ts > 0 && size <= src.Length && size <= dst.Length
    modifies dst
    ensures dst[..] == Backward(old(dst[..]), src[..size], ts)
  {
    var count := size / ts;
    ghost var before, goal := dst[..], Backward(dst[..], src[..size], ts);
    var k := 0;
    while k < ts
      invariant k <= ts && Mixed(dst[..], goal, before, k, 0, ts, count)
    {
      var elem := 0;
      while elem < count
        invariant elem <= count && Mixed(dst[..], goal, before, k, elem, ts, count)
      {
        BackwardAt(before, src[..size], ts, count, k, elem);
        MixedStep(dst[..], goal, before, k, elem, ts, count);
        dst[Row(elem, k, ts)] := src[Plane(elem, k, count)];
        elem := elem + 1;
      }
      MixedPlane(dst[..], goal, before, k, ts, count);
      k := k + 1;
    }
    MixedAll(dst[..], goal, before, ts, count);
  }

  lemma MixedAll(buf: seq<byte>, goal: seq<byte>, before: seq<byte>, ts: nat, count: nat)
    requires ts > 0 && Mixed(buf, goal, before, ts, 0, ts, count)
    requires forall p: nat :: ts * count <= p < |goal| ==> goal[p] == before[p]
    ensures buf == goal
  {
    forall p: nat | p < |buf|
      ensures buf[p] == goal[p]
    {
      assert Written(p, ts, 0, ts, count) <==> p < ts * count;
    }
  }

  /** The element size cd_values names. */
  function TypeSize(params: seq<nat>): (ts: nat)
    ensures ts > 0
  {
    if |params| > 0 && params[0] > 1 then params[0] else 1
  }

  /** The first parameter alone is the element size. Byte j of element i goes to place i of plane j and
      comes back from there; bytes behind the whole elements keep what the destination held. */
  lemma ShuffledByte(params: seq<nat>, before: seq<byte>, src: seq<byte>, t: nat, count: nat, i: nat, j: nat)
    requires params != [] && params[0] == t >= 2 && |src| <= |before| && count == |src| / t && i < count && j < t
    ensures i * t + j < |src| && j * count + i < |src|
    ensures Forward(before, src, TypeSize(params))[j * count + i] == src[i * t + j]
    ensures Backward(before, src, TypeSize(params))[i * t + j] == src[j * count + i]
  {
    ForwardAt(before, src, t, count, j, i);
    BackwardAt(before, src, t, count, j, i);
  }

  lemma ShuffledRest(params: seq<nat>, before: seq<byte>, src: seq<byte>, t: nat, p: nat)
    requires params != [] && params[0] == t >= 2 && |src| <= |before| && t * (|src| / t) <= p < |before|
    ensures Forward(before, src, TypeSize(params))[p] == Backward(before, src, TypeSize(params))[p] == before[p]
  {}

  /** Without an element size above 1 the block is copied. */
  lemma ShuffledCopy(params: seq<nat>, before: seq<byte>, src: seq<byte>)
    requires (params == [] || params[0] <= 1) && |src| <= |before|
    ensures Forward(before, src, TypeSize(params)) == Backward(before, src, TypeSize(params)) == src + before[|src|..]
  {
    PlainBytes(src + before[|src|..], before, src);
  }

  /** The filter: a plain copy for one-byte elements, the loops otherwise. */
  method Apply(dst: array<byte>, src: array<byte>, size: nat, reverse: bool, params: seq<nat>) returns (n: nat)
    requires dst != src && size <= src.Length && size <= dst.Length
    modifies dst
    ensures n == size
    ensures dst[..] == var ts := TypeSize(params);
                       if reverse then Backward(old(dst[..]), src[..size], ts)
                       else Forward(old(dst[..]), src[..size], ts)
  {
    n := size;
    var ts := TypeSize(params);
    if ts == 1 || size == 0 {
      ghost var before := dst[..];
      MemCpy(dst, 0, src[..size]);
      PlainCopy(dst[..], before, src[..size], ts);
    } else if reverse {
      UnshuffleLoops(dst, src, size, ts);
    } else {
      ShuffleLoops(dst, src, size, ts);
    }
  }

  lemma PlainIndex(p: nat, count: nat)
    requires p < count
    ensures p < 1 * count && Source(p, count, 1) == p && Target(p, count, 1) == p
  {
    DivModUnique(0, p, count);
    DivModUnique(p, 0, 1);
  }

  lemma PlainCopy(buf: seq<byte>, before: seq<byte>, src: seq<byte>, ts: nat)
    requires ts == 1 || (ts > 0 && src == [])
    requires |src| <= |before| && buf == src + before[|src|..]
    ensures buf == Forward(before, src, ts) == Backward(before, src, ts)
  {
    if src == [] {
      PlainEmpty(before, ts);
    } else {
      PlainBytes(buf, before, src);
    }
  }

  lemma PlainEmpty(before: seq<byte>, ts: nat)
    requires ts > 0
    ensures Forward(before, [], ts) == before == Backward(before, [], ts)
  {
    DivModUnique(0, 0, ts);
  }

  lemma PlainBytes(buf: seq<byte>, before: seq<byte>, src: seq<byte>)
    requires |src| <= |before| && buf == src + before[|src|..]
    ensures buf == Forward(before, src, 1) == Backward(before, src, 1)
  {
    assert |src| / 1 == |src| && 1 * |src| == |src|;
    forall p: nat | p < |before|
      ensures buf[p] == Forward(before, src, 1)[p] == Backward(before, src, 1)[p]
    {
      if p < |src| { PlainIndex(p, |src|); }
    }
  }
}
