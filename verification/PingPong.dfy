/**
 The chain over two scratch buffers: forward with a current buffer that a skipped filter leaves
 alone, and backward with a swap per filter whose parity must land the chunk in the first buffer.
 */
module PingPong {
  import opened Arith
  import opened Memory
  import opened FilterChain
  import BitStream
  import Shuffle
  import Fletcher32
  import Gorilla

  /** filter[j](dst, src, length, flags, ...): only dst[..n] is promised. */
  method CallFilter(f: Filter, reverse: bool, dst: array<byte>, src: array<byte>, length: nat) returns (n: nat)
    requires dst != src && length <= src.Length && CanRun(f, reverse, src[..length], dst.Length)
    modifies dst
    ensures n == |Out(f, reverse, src[..length])| <= dst.Length
    ensures dst[..n] == Out(f, reverse, src[..length])
  {
    ghost var x := src[..length];
    match f
    case ShuffleFilter(params) =>
      ghost var before := dst[..];
      n := Shuffle.Apply(dst, src, length, reverse, params);
      NoTail(before, x, Shuffle.TypeSize(params));
    case Fletcher32Filter =>
      n := Fletcher32.Apply(dst, src, length, reverse);
    case GorillaFilter(params) =>
      n := Gorilla.Apply(dst, src, length, reverse, params);
    case Foreign(enc, dec, spill) =>
      var out := if reverse then dec(src[..length]) else enc(src[..length]);
      var rest := spill(dst[..], src[..length]);
      if |rest| == dst.Length { MemCpy(dst, 0, rest); }
      MemCpy(dst, 0, out);
      n := |out|;
  }

  /** On whole elements a shuffle overwrites every byte of the block. */
  lemma NoTail(before: seq<byte>, x: seq<byte>, ts: nat)
    requires ts > 0 && |x| % ts == 0 && |x| <= |before|
    ensures Shuffle.Forward(before, x, ts)[..|x|] == Shuffle.Forward(x, x, ts)
    ensures Shuffle.Backward(before, x, ts)[..|x|] == Shuffle.Backward(x, x, ts)
  {
    assert |x| == (|x| / ts) * ts + |x| % ts;
  }

  /** The forward loop; the same text runs in basic_pipeline_t, in pool_pipeline_t without a pool
      and in the worker's closure. The chunk ends in buf0 when cur is 0 and in buf1 when it is 1. */
  method Forward(buf0: array<byte>, buf1: array<byte>, nbytes: nat, filters: seq<Filter>)
    returns (cur: nat, length: nat, mask: nat)
    requires buf0 != buf1 && nbytes <= buf0.Length == buf1.Length
    requires CanEncode(filters, 0, buf0[..nbytes], buf0.Length)
    modifies buf0, buf1
    ensures cur < 2 && length <= buf0.Length
    ensures Stored(mask, (if cur == 0 then buf0 else buf1)[..length]) == Encode(filters, old(buf0[..nbytes]))
  {
    cur, length, mask := 0, nbytes, 0;
    var j := 0;
    while j < |filters|
      invariant j <= |filters| && cur < 2 && length <= buf0.Length && mask < Pow2(j)
      invariant CanEncode(filters, j, (if cur == 0 then buf0 else buf1)[..length], buf0.Length)
      invariant EncodeFrom(filters, j, (if cur == 0 then buf0 else buf1)[..length], mask)
             == Encode(filters, old(buf0[..nbytes]))
    {
      var src, dst := if cur == 0 then buf0 else buf1, if cur == 0 then buf1 else buf0;
      ghost var x := src[..length];
      var n := CallFilter(filters[j], false, dst, src, length);
      if n == 0 {
        mask := OrMask(mask, j);
      } else {
        cur, length := 1 - cur, n;
      }
      j := j + 1;
    }
  }

  /** Marks stage j as skipped. */
  method OrMask(mask: nat, j: nat) returns (r: nat)
    requires mask < Pow2(j)
    ensures r == mask + Pow2(j) < Pow2(j + 1)
    ensures MaskBit(r, j) && forall k: nat :: k != j ==> MaskBit(r, k) == MaskBit(mask, k)
  {
    r := if Shr(mask, j) % 2 == 1 then mask else mask + Pow2(j);
    ShrSmall(mask, j);
    BitStream.AddBit(mask, j, j);
    forall k: nat
      ensures MaskBit(mask + Pow2(j), k) == (MaskBit(mask, k) || k == j)
    {
      BitStream.AddBit(mask, j, k);
    }
  }

  /** One reverse stage: a masked filter's input is copied across, another is undone. */
  method ReverseStage(f: Filter, masked: bool, dst: array<byte>, src: array<byte>, length: nat) returns (n: nat)
    requires dst != src && length <= src.Length && length <= dst.Length
    requires masked || CanRun(f, true, src[..length], dst.Length)
    modifies dst
    ensures n <= dst.Length && dst[..n] == old(if masked then src[..length] else Out(f, true, src[..length]))
  {
    if masked {
      MemCpy(dst, 0, src[..length]);
      n := length;
    } else {
      n := CallFilter(f, true, dst, src, length);
    }
  }

  predicate Odd(n: nat) {
    n > 0 && !Odd(n - 1)
  }

  lemma {:induction false} OddIs(n: nat)
    ensures Odd(n) <==> n % 2 == 1
  {
    if n > 0 { OddIs(n - 1); }
  }

  /** Running the stages below j backwards from x gives the goal, within the buffers. */
  ghost predicate StagesLeft(filters: seq<Filter>, j: nat, mask: nat, x: seq<byte>, cap: nat, goal: seq<byte>) {
    j <= |filters| && CanDecode(filters, j, mask, x, cap) && DecodeFrom(filters, j, mask, x) == goal
  }

  lemma StageDone(filters: seq<Filter>, j: nat, mask: nat, x: seq<byte>, cap: nat, goal: seq<byte>)
    requires 0 < j && StagesLeft(filters, j, mask, x, cap, goal)
    ensures |x| <= cap && (MaskBit(mask, j - 1) || CanRun(filters[j - 1], true, x, cap))
    ensures StagesLeft(filters, j - 1, mask, if MaskBit(mask, j - 1) then x else Out(filters[j - 1], true, x), cap, goal)
  {}

  /** The reverse loop after H5Dread_chunk2 has put `length` stored bytes into the buffer the parity
      of the chain selects: one swap per filter, masked or not, ends in buf0. */
  method Backward(buf0: array<byte>, buf1: array<byte>, length: nat, mask: nat, filters: seq<Filter>)
    returns (n: nat)
    requires buf0 != buf1 && length <= buf0.Length == buf1.Length
    requires CanDecode(filters, |filters|, mask, (if |filters| % 2 == 1 then buf1 else buf0)[..length], buf0.Length)
    modifies buf0, buf1
    ensures n <= buf0.Length
    ensures buf0[..n] == Decode(filters, Stored(mask, old((if |filters| % 2 == 1 then buf1 else buf0)[..length])))
  {
    var src, dst := if |filters| % 2 == 1 then buf1 else buf0, if |filters| % 2 == 1 then buf0 else buf1;
    n := length;
    var j := |filters|;
    ghost var cap, goal := buf0.Length, Decode(filters, Stored(mask, src[..length]));
    OddIs(j);
    while j > 0
      invariant 0 <= j <= |filters| && n <= cap && src == (if Odd(j) then buf1 else buf0)
      invariant dst == (if Odd(j) then buf0 else buf1)
      invariant StagesLeft(filters, j, mask, src[..n], cap, goal)
    {
      n := BackStage(filters, j - 1, mask, dst, src, n, cap, goal);
      src, dst := dst, src;
      j := j - 1;
    }
    StagesOver(filters, mask, src[..n], cap, goal);
  }

  lemma StagesOver(filters: seq<Filter>, mask: nat, x: seq<byte>, cap: nat, goal: seq<byte>)
    requires StagesLeft(filters, 0, mask, x, cap, goal)
    ensures x == goal
  {}

  /** Filter fi undone, or its input copied when its mask bit is set. */
  method BackStage(filters: seq<Filter>, fi: nat, mask: nat, dst: array<byte>, src: array<byte>, length: nat,
                   ghost cap: nat, ghost goal: seq<byte>) returns (n: nat)
    requires dst != src && length <= src.Length && dst.Length == cap && fi < |filters|
    requires StagesLeft(filters, fi + 1, mask, src[..length], cap, goal)
    modifies dst
    ensures n <= cap && StagesLeft(filters, fi, mask, dst[..n], cap, goal)
  {
    StageDone(filters, fi + 1, mask, src[..length], cap, goal);
    n := ReverseStage(filters[fi], MaskBit(mask, fi), dst, src, length);
  }
}
