/**
 A filter chain: what each filter makes of its input, the chain as a function of the chunk
 alone, and the theorem that reading back a stored chunk restores it.
 */
module FilterChain {
  import opened Arith
  import opened Memory
  import BitStream
  import Shuffle
  import Fletcher32
  import Gorilla
  import GorillaBound

  /** H5CPP_MAX_FILTER */
  const MAX_FILTER: nat := 16

  /** The filters of get_callback. A Foreign filter (deflate, lz4, zstd, szip) is a library call:
      its output depends on its input only, and it may leave anything in the rest of its buffer. */
  datatype Filter =
    | ShuffleFilter(params: seq<nat>)
    | Fletcher32Filter
    | GorillaFilter(params: seq<nat>)
    | Foreign(enc: seq<byte> -> seq<byte>, dec: seq<byte> -> seq<byte>,
              spill: (seq<byte>, seq<byte>) -> seq<byte>)

  /** The call has defined behaviour and depends on x alone: the output fits the destination, a
      shuffle sees whole elements (a partial one would expose stale destination bytes), and a
      Gorilla stream does not end early. */
  predicate CanRun(f: Filter, reverse: bool, x: seq<byte>, cap: nat) {
    match f
    case ShuffleFilter(params) => |x| % Shuffle.TypeSize(params) == 0 && |x| <= cap
    case Fletcher32Filter => |x| + (if reverse then 0 else 4) <= cap
    case GorillaFilter(params) =>
      if reverse then
        !Gorilla.Decode(x).Overrun? && (Gorilla.Decode(x).Words? ==> |Gorilla.Decode(x).data| <= cap)
      else |Gorilla.Encode(params, x)| <= cap
    case Foreign(enc, dec, _) => |if reverse then dec(x) else enc(x)| <= cap
  }

  /** The bytes the call produces; [] is the returned 0. */
  function Out(f: Filter, reverse: bool, x: seq<byte>): (out: seq<byte>) {
    match f
    case ShuffleFilter(params) =>
      var ts := Shuffle.TypeSize(params);
      if reverse then Shuffle.Backward(x, x, ts) else Shuffle.Forward(x, x, ts)
    case Fletcher32Filter => if reverse then Fletcher32.Decode(x) else Fletcher32.Encode(x)
    case GorillaFilter(params) =>
      if reverse then (match Gorilla.Decode(x) case Words(data) => data case _ => [])
      else Gorilla.Encode(params, x)
    case Foreign(enc, dec, _) => if reverse then dec(x) else enc(x)
  }

  /** What H5Dwrite_chunk stores under a chunk's offset. */
  datatype Stored = Stored(mask: nat, bytes: seq<byte>)

  /** Whether the filter mask says that stage j was skipped. */
  predicate MaskBit(mask: nat, j: nat) {
    Shr(mask, j) % 2 == 1
  }

  /** The forward chain from filter j on: a filter that returns 0 is skipped and its bit is set. */
  function EncodeFrom(filters: seq<Filter>, j: nat, x: seq<byte>, mask: nat): (s: Stored)
    requires j <= |filters|
    decreases |filters| - j
  {
    if j == |filters| then Stored(mask, x)
    else
      var out := Out(filters[j], false, x);
      if out == [] then EncodeFrom(filters, j + 1, x, mask + Pow2(j))
      else EncodeFrom(filters, j + 1, out, mask)
  }

  function Encode(filters: seq<Filter>, x: seq<byte>): (s: Stored) {
    EncodeFrom(filters, 0, x, 0)
  }

  /** The reverse chain from filter j - 1 down: a masked filter passes its input through. */
  function DecodeFrom(filters: seq<Filter>, j: nat, mask: nat, x: seq<byte>): (y: seq<byte>)
    requires j <= |filters|
    decreases j
  {
    if j == 0 then x
    else DecodeFrom(filters, j - 1, mask, if MaskBit(mask, j - 1) then x else Out(filters[j - 1], true, x))
  }

  function Decode(filters: seq<Filter>, s: Stored): (y: seq<byte>) {
    DecodeFrom(filters, |filters|, s.mask, s.bytes)
  }

  /** Every stage either skips or is undone by its own reverse direction. */
  predicate Reversible(filters: seq<Filter>, j: nat, x: seq<byte>)
    requires j <= |filters|
    decreases |filters| - j
  {
    j < |filters| ==>
      var out := Out(filters[j], false, x);
      if out == [] then Reversible(filters, j + 1, x)
      else Out(filters[j], true, out) == x && Reversible(filters, j + 1, out)
  }

  /** Every forward stage runs within buffers of `cap` bytes. */
  predicate CanEncode(filters: seq<Filter>, j: nat, x: seq<byte>, cap: nat)
    requires j <= |filters|
    decreases |filters| - j
  {
    && |x| <= cap
    && (j < |filters| ==>
          && CanRun(filters[j], false, x, cap)
          && var out := Out(filters[j], false, x);
             CanEncode(filters, j + 1, if out == [] then x else out, cap))
  }

  /** Every reverse stage runs within buffers of `cap` bytes. */
  predicate CanDecode(filters: seq<Filter>, j: nat, mask: nat, x: seq<byte>, cap: nat)
    requires j <= |filters|
    decreases j
  {
    && |x| <= cap
    && (j > 0 ==>
          && (MaskBit(mask, j - 1) || CanRun(filters[j - 1], true, x, cap))
          && CanDecode(filters, j - 1, mask, if MaskBit(mask, j - 1) then x else Out(filters[j - 1], true, x), cap))
  }

  lemma {:induction false} ShrZero(k: nat)
    ensures Shr(0, k) == 0
  {
    if k > 0 { ShrZero(k - 1); }
  }

  lemma {:induction false} ShrSmall(x: nat, k: nat)
    requires x < Pow2(k)
    ensures Shr(x, k) == 0
  {
    if k > 0 { ShrSmall(x / 2, k - 1); }
  }

  /** The bits set so far stay; the mask stays below 2^tail. */
  lemma {:induction false} MaskKept(filters: seq<Filter>, j: nat, x: seq<byte>, mask: nat, k: nat)
    requires k < j <= |filters| && mask < Pow2(j)
    ensures var m := EncodeFrom(filters, j, x, mask).mask;
            m < Pow2(|filters|) && MaskBit(m, k) == MaskBit(mask, k)
    decreases |filters| - j
  {
    if j < |filters| {
      var out := Out(filters[j], false, x);
      ShrSmall(mask, j);
      BitStream.AddBit(mask, j, k);
      MaskKept(filters, j + 1, if out == [] then x else out, if out == [] then mask + Pow2(j) else mask, k);
    }
  }

  /** The reverse chain undoes the forward chain stage by stage. */
  lemma {:induction false} DecodeEncodeFrom(filters: seq<Filter>, j: nat, x: seq<byte>, mask: nat)
    requires j <= |filters| && mask < Pow2(j) && Reversible(filters, j, x)
    ensures var s := EncodeFrom(filters, j, x, mask);
            DecodeFrom(filters, |filters|, s.mask, s.bytes) == DecodeFrom(filters, j, s.mask, x)
    decreases |filters| - j
  {
    if j < |filters| {
      var out := Out(filters[j], false, x);
      var x', mask' := if out == [] then x else out, if out == [] then mask + Pow2(j) else mask;
      StageBit(mask, mask', j, out == []);
      MaskKept(filters, j + 1, x', mask', j);
      DecodeEncodeFrom(filters, j + 1, x', mask');
    }
  }

  /** The mask after filter j has bit j exactly if the filter was skipped. */
  lemma StageBit(mask: nat, mask': nat, j: nat, skipped: bool)
    requires mask < Pow2(j) && mask' == if skipped then mask + Pow2(j) else mask
    ensures mask' < Pow2(j + 1) && MaskBit(mask', j) == skipped
  {
    ShrSmall(mask, j);
    BitStream.AddBit(mask, j, j);
  }

  lemma {:induction false} AppendEncode(filters: seq<Filter>, g: Filter, j: nat, x: seq<byte>, mask: nat)
    requires j <= |filters|
    ensures EncodeFrom(filters + [g], j, x, mask)
         == var s := EncodeFrom(filters, j, x, mask); EncodeFrom(filters + [g], |filters|, s.bytes, s.mask)
    decreases |filters| - j
  {
    if j < |filters| {
      assert (filters + [g])[j] == filters[j];
      var out := Out(filters[j], false, x);
      AppendEncode(filters, g, j + 1, if out == [] then x else out, if out == [] then mask + Pow2(j) else mask);
    }
  }

  lemma {:induction false} AppendDecode(filters: seq<Filter>, g: Filter, j: nat, mask: nat, x: seq<byte>)
    requires j <= |filters|
    ensures DecodeFrom(filters + [g], j, mask, x) == DecodeFrom(filters, j, mask, x)
    decreases j
  {
    if j > 0 {
      assert (filters + [g])[j - 1] == filters[j - 1];
      AppendDecode(filters, g, j - 1, mask, if MaskBit(mask, j - 1) then x else Out(filters[j - 1], true, x));
    }
  }

  /** Filters run in order forwards: one more filter g at the end sees what the others stored, and a 0 from
      it adds its bit to the mask and leaves the bytes alone. Backwards g goes first, unless its bit is set. */
  lemma ChainOrder(filters: seq<Filter>, g: Filter, x: seq<byte>, mask: nat)
    ensures Encode([], x) == Stored(0, x) && Decode([], Stored(mask, x)) == x
    ensures var s := Encode(filters, x);
            var out := Out(g, false, s.bytes);
            var stored := if out == [] then Stored(s.mask + Pow2(|filters|), s.bytes) else Stored(s.mask, out);
            Encode(filters + [g], x) == stored
    ensures Decode(filters + [g], Stored(mask, x))
         == Decode(filters, Stored(mask, if mask / Pow2(|filters|) % 2 == 1 then x else Out(g, true, x)))
  {
    EncodeLast(filters, g, x);
    DecodeLast(filters, g, mask, x);
    QuotientBit(mask, |filters|);
  }

  lemma EncodeLast(filters: seq<Filter>, g: Filter, x: seq<byte>)
    ensures var s := Encode(filters, x);
            var out := Out(g, false, s.bytes);
            var stored := if out == [] then Stored(s.mask + Pow2(|filters|), s.bytes) else Stored(s.mask, out);
            Encode(filters + [g], x) == stored
  {
    assert (filters + [g])[|filters|] == g;
    AppendEncode(filters, g, 0, x, 0);
  }

  lemma DecodeLast(filters: seq<Filter>, g: Filter, mask: nat, x: seq<byte>)
    ensures Decode(filters + [g], Stored(mask, x))
         == Decode(filters, Stored(mask, if MaskBit(mask, |filters|) then x else Out(g, true, x)))
  {
    var all, n := filters + [g], |filters|;
    var y := if MaskBit(mask, n) then x else Out(g, true, x);
    hide MaskBit, Out;
    assert all[n] == g;
    assert DecodeFrom(all, n + 1, mask, x) == DecodeFrom(all, n, mask, y);
    hide DecodeFrom;
    AppendDecode(filters, g, n, mask, y);
  }

  lemma QuotientBit(mask: nat, j: nat)
    ensures MaskBit(mask, j) <==> mask / Pow2(j) % 2 == 1
  {
    ShrDivides(mask, j);
  }

  /** A shuffle with element size t gathers byte j of every element in plane j, whatever follows t. */
  lemma ShuffleOut(params: seq<nat>, x: seq<byte>, t: nat, count: nat, i: nat, j: nat, p: nat, q: nat)
    requires params != [] && params[0] == t >= 2 && count == |x| / t && i < count && j < t
    requires p == i * t + j && q == j * count + i
    ensures p < |x| && q < |x|
    ensures var out := Out(ShuffleFilter(params), false, x); |out| == |x| && out[q] == x[p]
    ensures var back := Out(ShuffleFilter(params), true, x); |back| == |x| && back[p] == x[q]
  {
    Shuffle.ShuffledByte(params, x, x, t, count, i, j);
  }

  /** Without an element size above 1 it copies. */
  lemma ShuffleCopies(params: seq<nat>, x: seq<byte>, reverse: bool)
    requires params == [] || params[0] <= 1
    ensures Out(ShuffleFilter(params), reverse, x) == x
  {
    Shuffle.ShuffledCopy(params, x, x);
  }

  /** Filter-chain round trip: whatever filters skip and whatever the length of the chain. */
  lemma RoundTrip(filters: seq<Filter>, x: seq<byte>)
    requires Reversible(filters, 0, x)
    ensures Decode(filters, Encode(filters, x)) == x
  {
    DecodeEncodeFrom(filters, 0, x, 0);
  }

  /** Bit j of the stored mask says exactly that filter j returned 0 on the data it was given. */
  function StageInput(filters: seq<Filter>, j: nat, x: seq<byte>): (y: seq<byte>)
    requires j <= |filters|
  {
    if j == 0 then x
    else
      var y := StageInput(filters, j - 1, x);
      var out := Out(filters[j - 1], false, y);
      if out == [] then y else out
  }

  lemma {:induction false} EncodePrefix(filters: seq<Filter>, j: nat, x: seq<byte>) returns (mask: nat)
    requires j <= |filters|
    ensures mask < Pow2(j) && EncodeFrom(filters, j, StageInput(filters, j, x), mask) == Encode(filters, x)
  {
    if j == 0 {
      mask := 0;
    } else {
      mask := EncodePrefix(filters, j - 1, x);
      if Out(filters[j - 1], false, StageInput(filters, j - 1, x)) == [] { mask := mask + Pow2(j - 1); }
    }
  }

  lemma MaskMeaning(filters: seq<Filter>, j: nat, x: seq<byte>)
    requires j < |filters|
    ensures Encode(filters, x).bytes == StageInput(filters, |filters|, x)
    ensures MaskBit(Encode(filters, x).mask, j) <==> Out(filters[j], false, StageInput(filters, j, x)) == []
    ensures |filters| <= MAX_FILTER ==> Encode(filters, x).mask < TWO_32
  {
    var m := EncodePrefix(filters, |filters|, x);
    var mask := EncodePrefix(filters, j, x);
    var y := StageInput(filters, j, x);
    var out := Out(filters[j], false, y);
    ShrSmall(mask, j);
    BitStream.AddBit(mask, j, j);
    MaskKept(filters, j + 1, if out == [] then y else out, if out == [] then mask + Pow2(j) else mask, j);
    if |filters| <= MAX_FILTER {
      Pow2Mono(|filters|, 32);
      Pow2Large();
    }
  }

  // ---- buffers that are large enough forwards are large enough backwards ----

  /** A stage that ran forwards and is undone can be undone in the same space. */
  lemma RunsBack(f: Filter, x: seq<byte>, cap: nat)
    requires CanRun(f, false, x, cap) && |x| <= cap && |Out(f, false, x)| <= cap
    requires Out(f, false, x) != [] && Out(f, true, Out(f, false, x)) == x
    ensures CanRun(f, true, Out(f, false, x), cap)
  {
    if f.GorillaFilter? && x == [] { assert false; }
  }

  /** Undoing the stages from the last down to j needs no more than undoing those below j. */
  lemma {:induction false} DecodeFitsFrom(filters: seq<Filter>, j: nat, x: seq<byte>, mask: nat, cap: nat)
    requires j <= |filters| && mask < Pow2(j) && Reversible(filters, j, x) && CanEncode(filters, j, x, cap)
    ensures var s := EncodeFrom(filters, j, x, mask);
            CanDecode(filters, j, s.mask, x, cap) ==> CanDecode(filters, |filters|, s.mask, s.bytes, cap)
    decreases |filters| - j
  {
    if j < |filters| {
      var out := Out(filters[j], false, x);
      var x', mask' := if out == [] then x else out, if out == [] then mask + Pow2(j) else mask;
      StageBit(mask, mask', j, out == []);
      MaskKept(filters, j + 1, x', mask', j);
      DecodeFitsFrom(filters, j + 1, x', mask', cap);
      UndoFits(filters, j, x, EncodeFrom(filters, j, x, mask).mask, cap);
    }
  }

  /** Undoing filter j as well fits whenever undoing those below it does. */
  lemma UndoFits(filters: seq<Filter>, j: nat, x: seq<byte>, mask: nat, cap: nat)
    requires j < |filters| && Reversible(filters, j, x) && CanEncode(filters, j, x, cap)
    requires MaskBit(mask, j) <==> Out(filters[j], false, x) == []
    ensures var out := Out(filters[j], false, x);
            CanDecode(filters, j, mask, x, cap) ==> CanDecode(filters, j + 1, mask, if out == [] then x else out, cap)
  {
    if Out(filters[j], false, x) != [] { RunsBack(filters[j], x, cap); }
  }

  /** A reversible chain that fits the scratch buffers forwards fits them backwards. */
  lemma DecodeFits(filters: seq<Filter>, x: seq<byte>, cap: nat)
    requires Reversible(filters, 0, x) && CanEncode(filters, 0, x, cap)
    ensures var s := Encode(filters, x); CanDecode(filters, |filters|, s.mask, s.bytes, cap)
  {
    DecodeFitsFrom(filters, 0, x, 0, cap);
  }

  /** The most a filter of the library itself makes of n bytes. */
  function Grown(f: Filter, n: nat): (m: nat)
    requires !f.Foreign?
    ensures m >= n
  {
    match f
    case ShuffleFilter(_) => n
    case Fletcher32Filter => n + 4
    case GorillaFilter(_) => 2 * n + 256
  }

  /** Scratch capacity for n bytes entering at filter j. */
  function Needed(filters: seq<Filter>, j: nat, n: nat): (m: nat)
    requires j <= |filters| && forall k :: 0 <= k < |filters| ==> !filters[k].Foreign?
    ensures m >= n
    decreases |filters| - j
  {
    if j == |filters| then n else Needed(filters, j + 1, Grown(filters[j], n))
  }

  lemma {:induction false} NeededMono(filters: seq<Filter>, j: nat, n: nat, m: nat)
    requires j <= |filters| && forall k :: 0 <= k < |filters| ==> !filters[k].Foreign?
    requires n <= m
    ensures Needed(filters, j, n) <= Needed(filters, j, m)
    decreases |filters| - j
  {
    if j < |filters| { NeededMono(filters, j + 1, Grown(filters[j], n), Grown(filters[j], m)); }
  }

  /** Every shuffle in the chain sees whole elements. */
  predicate WholeElements(filters: seq<Filter>, j: nat, x: seq<byte>)
    requires j <= |filters|
    decreases |filters| - j
  {
    j < |filters| ==>
      && (filters[j].ShuffleFilter? ==> |x| % Shuffle.TypeSize(filters[j].params) == 0)
      && var out := Out(filters[j], false, x);
         WholeElements(filters, j + 1, if out == [] then x else out)
  }

  lemma GrownBounds(f: Filter, x: seq<byte>)
    requires !f.Foreign?
    ensures |Out(f, false, x)| <= Grown(f, |x|)
  {
    if f.GorillaFilter? && f.params != [] && WordSize(f.params[0]) { GorillaBound.EncodedBound(f.params[0], x); }
  }

  /** Chains of shuffle, Fletcher-32 and Gorilla get through any scratch buffer that grows the chunk
      by 4 bytes per checksum and by 2 * n + 256 per Gorilla stage. */
  lemma {:induction false} CapacitySuffices(filters: seq<Filter>, j: nat, x: seq<byte>, cap: nat)
    requires j <= |filters| && forall k :: 0 <= k < |filters| ==> !filters[k].Foreign?
    requires WholeElements(filters, j, x) && Needed(filters, j, |x|) <= cap
    ensures CanEncode(filters, j, x, cap)
    decreases |filters| - j
  {
    if j < |filters| {
      var out := Out(filters[j], false, x);
      var x' := if out == [] then x else out;
      GrownBounds(filters[j], x);
      NeededMono(filters, j + 1, |x'|, Grown(filters[j], |x|));
      CapacitySuffices(filters, j + 1, x', cap);
    }
  }

  // ---- the real filters meet the "0 or undone" condition ----

  lemma ShuffleUndone(params: seq<nat>, x: seq<byte>)
    ensures var f := ShuffleFilter(params); Out(f, true, Out(f, false, x)) == x
  {
    var ts := Shuffle.TypeSize(params);
    var y, whole: nat := Shuffle.Forward(x, x, ts), ts * (|x| / ts);
    Shuffle.WholeFits(|x|, ts);
    Shuffle.RoundTrip(x, y, x, ts, whole);
    assert y[..|x|] == y && y[whole..|x|] == x[whole..];
    var back := Shuffle.Backward(y, y, ts);
    assert back[..|x|] == back;
  }

  /** When filter f is undone on x: shuffles on whole elements, Fletcher-32 always, Gorilla on
      whole words below the 32-bit count, a library when it says so. */
  predicate Undone(f: Filter, x: seq<byte>) {
    match f
    case ShuffleFilter(params) => |x| % Shuffle.TypeSize(params) == 0
    case Fletcher32Filter => true
    case GorillaFilter(params) =>
      && |params| > 0 && WordSize(params[0])
      && |x| % params[0] == 0 && |x| / params[0] < TWO_32
    case Foreign(enc, dec, _) => enc(x) == [] || dec(enc(x)) == x
  }

  lemma UndoneIsUndone(f: Filter, x: seq<byte>)
    requires Undone(f, x)
    ensures Out(f, false, x) == [] || Out(f, true, Out(f, false, x)) == x
  {
    match f
    case ShuffleFilter(params) => ShuffleUndone(params, x);
    case Fletcher32Filter => Fletcher32.RoundTrip(x);
    case GorillaFilter(params) =>
      if x != [] {
        Gorilla.RoundTrip(params[0], x);
        assert Gorilla.Encode(params, x) == Gorilla.Encode([params[0]], x);
      }
    case Foreign(_, _, _) =>
  }

  /** Chains of the real filters are reversible whenever each filter's own condition holds on what it is given. */
  lemma {:induction false} UndoneChain(filters: seq<Filter>, j: nat, x: seq<byte>)
    requires j <= |filters|
    requires forall k :: j <= k < |filters| ==> Undone(filters[k], StageInput(filters[j..], k - j, x))
    ensures Reversible(filters, j, x)
    decreases |filters| - j
  {
    if j < |filters| {
      assert StageInput(filters[j..], 0, x) == x;
      UndoneIsUndone(filters[j], x);
      var out := Out(filters[j], false, x);
      var x' := if out == [] then x else out;
      forall k | j + 1 <= k < |filters|
        ensures Undone(filters[k], StageInput(filters[j + 1..], k - (j + 1), x'))
      {
        StageShift(filters[j..], k - j, x);
        assert filters[j..][1..] == filters[j + 1..];
      }
      UndoneChain(filters, j + 1, x');
    }
  }

  lemma {:induction false} StageShift(filters: seq<Filter>, k: nat, x: seq<byte>)
    requires 0 < k <= |filters|
    ensures var out := Out(filters[0], false, x);
            StageInput(filters, k, x) == StageInput(filters[1..], k - 1, if out == [] then x else out)
  {
    if k == 1 {
      assert StageInput(filters, 0, x) == x;
    } else {
      StageShift(filters, k - 1, x);
    }
  }
}
