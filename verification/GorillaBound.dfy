/**
 How long a Gorilla encoding can get: the longest encoding of a size, attained, and what it means for
 the buffers the library hands to the filter.
 */
module GorillaBound {
  import opened Arith
  import opened Memory
  import opened BitStream
  import opened GorillaCodec
  import opened Gorilla

  // ---- the longest stream ----

  /** After a block of all w bits every next value is cheap; after any other block it need not be. */
  function Slack(blk: Block, w: nat): (d: nat) {
    if blk.Block? && blk.meaningful == w then 0 else 1
  }

  lemma ValueMost(w: nat, prev: nat, blk: Block, curr: nat)
    requires 2 <= w <= 64
    requires prev < Pow2(w) && curr < Pow2(w) && BlockFits(blk, w)
    ensures var (bits, blk') := ValueBits(w, prev, blk, curr); |bits| + Slack(blk', w) <= 13 + w + Slack(blk, w)
  {
    XorBound(prev, curr, w);
  }

  /** n values never take more than n * (13 + w) + 1 bits. */
  lemma {:induction false} StreamMost(w: nat, prev: nat, blk: Block, ws: seq<nat>, c: nat)
    requires 2 <= w <= 64 && c == 13 + w
    requires prev < Pow2(w) && WordsFit(ws, w) && BlockFits(blk, w)
    ensures |StreamBits(w, prev, blk, ws)| <= |ws| * c + if ws == [] then 0 else Slack(blk, w)
    decreases |ws|
  {
    if ws != [] {
      ValueMost(w, prev, blk, ws[0]);
      var (bits, blk') := ValueBits(w, prev, blk, ws[0]);
      var rest := ws[1..];
      StreamMost(w, ws[0], blk', rest, c);
      hide StreamBits, ValueBits, Pow2, Slack;
      MulSucc(|rest|, c);
      assert |ws| == |rest| + 1;
    }
  }

  /** A difference and the block it needs. */
  datatype Jump = Jump(x: nat, leading: nat, meaningful: nat)

  /** Two differences that never fit each other's block, and one of all w bits that fits neither. */
  function NextJump(w: nat, low: bool, last: bool): (j: Jump)
    requires w >= 3
  {
    if last then Jump(Pow2(w - 1) + 1, 0, w)
    else if low then Jump(Pow2(w - 2) + 1, 1, w - 1)
    else Jump(Pow2(w - 1) + 2, 0, w - 1)
  }

  /** The jump is made of w bits and its block is the one the encoder computes. */
  ghost predicate Needs(j: Jump, w: nat) {
    0 < j.x < Pow2(w) && Clz(j.x, w) == j.leading && Meaningful(j.x, w) == j.meaningful
  }

  lemma JumpNeeds(w: nat, low: bool, last: bool)
    requires w >= 3
    ensures Needs(NextJump(w, low, last), w)
  {
    var p := Pow2(w - 3);
    Pow2Top(w, p);
    CtzOdd(2 * p);
    CtzOdd(p);
    hide Pow2, Ctz;
    if last {
      BlockOf(w, 4 * p + 1, 0, 0);
    } else if low {
      BlockOf(w, 2 * p + 1, 1, 0);
    } else {
      BlockOf(w, 4 * p + 2, 0, 1);
    }
  }

  lemma Pow2Top(w: nat, p: nat)
    requires w >= 3 && p == Pow2(w - 3)
    ensures Pow2(w - 2) == 2 * p && Pow2(w - 1) == 4 * p && Pow2(w) == 8 * p
  {
    assert Pow2(w - 1) == 2 * Pow2(w - 2);
  }

  lemma CtzOdd(q: nat)
    ensures Ctz(2 * q + 1) == 0 && Ctz(4 * q + 2) == 1
  {
    assert (2 * q + 1) % 2 == 1;
    assert (4 * q + 2) % 2 == 0 && (4 * q + 2) / 2 == 2 * q + 1;
  }

  /** The top one and the trailing zeros determine the block. */
  lemma BlockOf(w: nat, x: nat, leading: nat, t: nat)
    requires leading < w && Pow2(w - leading - 1) <= x < Pow2(w - leading) && Ctz(x) == t
    ensures 0 < x < Pow2(w) && Clz(x, w) == leading && Meaningful(x, w) == w - leading - t
  {
    Pow2Mono(w - leading, w);
    hide Pow2;
    var n := Clz(x, w);
    if n < leading {
      Pow2Mono(w - leading, w - n - 1);
    } else if n > leading {
      Pow2Mono(w - n, w - leading - 1);
    }
  }

  /** n words after prev whose differences alternate between the two and end with the one of all bits. */
  function Worst(w: nat, prev: nat, low: bool, n: nat): (ws: seq<nat>)
    requires w >= 3 && prev < Pow2(w)
    ensures |ws| == n && WordsFit(ws, w)
    decreases n
  {
    if n == 0 then []
    else
      var v := Xor(prev, NextJump(w, low, n == 1).x);
      JumpNeeds(w, low, n == 1);
      XorBound(prev, NextJump(w, low, n == 1).x, w);
      [v] + Worst(w, v, !low, n - 1)
  }

  /** The block left by the word of the other kind. */
  predicate Apart(blk: Block, low: bool, w: nat)
    requires w >= 3
  {
    blk.Block? ==> blk == Block(if low then 0 else 1, w - 1)
  }

  /** A value that does not fit the previous block is written with a block of its own. */
  lemma FreshCost(w: nat, prev: nat, blk: Block, j: Jump, ws: seq<nat>)
    requires prev < Pow2(w) && WordsFit(ws, w) && BlockFits(blk, w) && Needs(j, w)
    requires ws != [] && ws[0] == Xor(prev, j.x)
    requires blk.Block? ==> j.leading < blk.leading || j.leading + j.meaningful > blk.leading + blk.meaningful
    ensures BlockFits(Block(j.leading, j.meaningful), w)
    ensures |StreamBits(w, prev, blk, ws)|
         == 14 + j.meaningful + |StreamBits(w, ws[0], Block(j.leading, j.meaningful), ws[1..])|
  {
    XorCancel(prev, j.x);
    assert ValueBits(w, prev, blk, ws[0]).1 == Block(j.leading, j.meaningful);
  }

  lemma NoBits(w: nat, prev: nat, blk: Block, ws: seq<nat>)
    requires prev < Pow2(w) && BlockFits(blk, w) && ws == []
    ensures |StreamBits(w, prev, blk, ws)| == 0
  {}

  /** These words take n * (13 + w) + 1 bits. */
  lemma {:induction false} WorstCost(w: nat, prev: nat, blk: Block, low: bool, n: nat, c: nat)
    requires 3 <= w <= 64 && prev < Pow2(w) && BlockFits(blk, w) && Apart(blk, low, w) && c == 13 + w && 0 < n
    ensures |StreamBits(w, prev, blk, Worst(w, prev, low, n))| == n * c + 1
    decreases n
  {
    var ws, j := Worst(w, prev, low, n), NextJump(w, low, n == 1);
    JumpNeeds(w, low, n == 1);
    FreshCost(w, prev, blk, j, ws);
    var blk' := Block(j.leading, j.meaningful);
    assert ws[1..] == Worst(w, ws[0], !low, n - 1);
    hide Pow2, Needs, Xor, StreamBits, Worst, NextJump;
    if n == 1 {
      NoBits(w, ws[0], blk', ws[1..]);
    } else {
      WorstCost(w, ws[0], blk', !low, n - 1, c);
      MulSucc(n - 1, c);
    }
  }

  // ---- the longest encoding ----

  /** Bits of the longest stream for the words after the first. */
  function MostBits(es: nat, n: nat): (bits: nat) {
    if n == 0 then 0 else n * (13 + 8 * es) + 1
  }

  /** Length of the longest encoding of `size` bytes. */
  function MostEncoded(es: nat, size: nat): (length: nat)
    requires WordSize(es)
  {
    var count := Count(size, es);
    if count == 0 then 0 else 5 + es + ByteLen(MostBits(es, count - 1))
  }

  /** No encoding is longer. */
  lemma EncodedMost(es: nat, data: seq<byte>)
    requires WordSize(es)
    ensures |Encoded(es, data)| <= MostEncoded(es, |data|)
  {
    if Count(|data|, es) > 0 {
      var ws := WordsOf(data, es);
      EncodedLength(es, data);
      BitsMost(es, ws[0], ws[1..]);
      hide MostBits, ByteLen, StreamBits, Encoded, WordsOf, Span;
      assert |ws[1..]| == |ws| - 1;
    }
  }

  lemma BitsMost(es: nat, first: nat, rest: seq<nat>)
    requires WordSize(es) && first < Pow2(8 * es) && WordsFit(rest, 8 * es)
    ensures ByteLen(|StreamBits(8 * es, first, NoBlock, rest)|) <= ByteLen(MostBits(es, |rest|))
  {
    StreamMost(8 * es, first, NoBlock, rest, 13 + 8 * es);
    ByteLenMono(|StreamBits(8 * es, first, NoBlock, rest)|, MostBits(es, |rest|));
  }

  lemma ByteLenMono(a: nat, b: nat)
    requires a <= b
    ensures ByteLen(a) <= ByteLen(b)
  {}

  /** For every size there is data whose encoding has exactly that length. */
  lemma MostAttained(es: nat, size: nat) returns (data: seq<byte>)
    requires WordSize(es)
    ensures |data| == size && |Encoded(es, data)| == MostEncoded(es, size)
  {
    var count := Count(size, es);
    if count == 0 {
      data := Zeros(size);
    } else {
      var tail := Zeros(size - Span(count, es));
      var ws := [0] + Worst(8 * es, 0, true, count - 1);
      FirstZero(ws[1..], ws, 8 * es);
      data := BytesOf(ws, es) + tail;
      WorstEncoded(es, count, ws, tail, data);
    }
  }

  lemma WorstEncoded(es: nat, count: nat, ws: seq<nat>, tail: seq<byte>, data: seq<byte>)
    requires WordSize(es) && 0 < count == |ws| && |tail| < es && WordsFit(ws, 8 * es) && ws[0] == 0
    requires ws[1..] == Worst(8 * es, 0, true, count - 1) && data == BytesOf(ws, es) + tail
    ensures |Encoded(es, data)| == 5 + es + ByteLen(MostBits(es, count - 1))
  {
    hide MostBits, ByteLen, StreamBits, Encoded, WordsOf, Span, Worst, BytesOf, WordsFit;
    WordsOfBytesOf(ws, tail, es);
    EncodedLength(es, data);
    WorstBits(es, count - 1, ws[1..]);
  }

  lemma FirstZero(rest: seq<nat>, ws: seq<nat>, w: nat)
    requires WordsFit(rest, w) && ws == [0] + rest
    ensures WordsFit(ws, w)
  {}

  lemma WorstBits(es: nat, n: nat, rest: seq<nat>)
    requires WordSize(es) && rest == Worst(8 * es, 0, true, n)
    ensures |StreamBits(8 * es, 0, NoBlock, rest)| == MostBits(es, n)
  {
    if n > 0 { WorstCost(8 * es, 0, NoBlock, true, n, 13 + 8 * es); }
  }

  /** Words laid to bytes and overlaid again, with an incomplete word after them. */
  lemma WordsOfBytesOf(ws: seq<nat>, tail: seq<byte>, es: nat)
    requires WordSize(es) && WordsFit(ws, 8 * es) && |tail| < es
    ensures Count(|BytesOf(ws, es) + tail|, es) == |ws| && WordsOf(BytesOf(ws, es) + tail, es) == ws
  {
    var bytes := BytesOf(ws, es) + tail;
    CountSpan(|ws|, |tail|, es);
    forall i: nat | i < |ws|
      ensures WordsOf(bytes, es)[i] == ws[i]
    {
      WordBack(ws, tail, es, i);
    }
  }

  lemma CountSpan(n: nat, r: nat, es: nat)
    requires WordSize(es) && r < es
    ensures Count(Span(n, es) + r, es) == n
  {}

  lemma WordBack(ws: seq<nat>, tail: seq<byte>, es: nat, i: nat)
    requires WordSize(es) && WordsFit(ws, 8 * es) && i < |ws| == Count(|BytesOf(ws, es) + tail|, es)
    ensures WordAt(BytesOf(ws, es) + tail, es, i) == ws[i]
  {
    BytesAt(ws, es, i);
    var bytes, at := BytesOf(ws, es), Span(i, es);
    SliceLeft(bytes, tail, at, at + es);
    LeNatBytes(ws[i], es);
  }

  lemma SliceLeft(a: seq<byte>, b: seq<byte>, lo: nat, hi: nat)
    requires lo <= hi <= |a|
    ensures (a + b)[lo..hi] == a[lo..hi]
  {}

  lemma SliceRight(a: seq<byte>, b: seq<byte>, lo: nat, hi: nat)
    requires lo <= hi <= |b|
    ensures (a + b)[|a| + lo..|a| + hi] == b[lo..hi]
  {}

  lemma {:induction false} BytesAt(ws: seq<nat>, es: nat, i: nat)
    requires WordSize(es) && i < |ws|
    ensures Span(i, es) + es <= |BytesOf(ws, es)|
    ensures BytesOf(ws, es)[Span(i, es)..Span(i, es) + es] == LeBytes(ws[i], es)
  {
    if i > 0 {
      var rest := BytesOf(ws[1..], es);
      BytesAt(ws[1..], es, i - 1);
      var at := Span(i - 1, es);
      SliceRight(LeBytes(ws[0], es), rest, at, at + es);
    }
  }

  // ---- the buffers ----

  /** Every encoding fits the 2 * nbytes + 256 bytes the HDF5 callback allocates. */
  lemma EncodedBound(es: nat, data: seq<byte>)
    requires WordSize(es)
    ensures |Encoded(es, data)| <= 2 * |data| + 256
  {
    EncodedMost(es, data);
    hide MostEncoded, Encoded;
    if es == 4 {
      FourByteTwice(|data|, |data| / 4);
    } else {
      EightByteTwice(|data|, |data| / 8);
    }
  }

  lemma FourByteTwice(size: nat, c: nat)
    requires c == size / 4
    ensures MostEncoded(4, size) <= 2 * size + 256
  {
    assert size >= 4 * c;
    if c > 1 { assert MostBits(4, c - 1) == 45 * (c - 1) + 1; }
  }

  lemma EightByteTwice(size: nat, c: nat)
    requires c == size / 8
    ensures MostEncoded(8, size) <= 2 * size + 256
  {
    assert size >= 8 * c;
    if c > 1 { assert MostBits(8, c - 1) == 77 * (c - 1) + 1; }
  }

  function Max(a: nat, b: nat): (m: nat) {
    if a < b then b else a
  }

  /** filter_scratch_bound from the bounds of deflate, lz4 and zstd; the checksum's four bytes are the
      only filter of the library's own it reckons with. */
  function ScratchBound(size: nat, deflate: nat, lz4: nat, zstd: nat): (bound: nat) {
    Max(Max(Max(deflate, lz4), zstd), size + 4)
  }

  ghost predicate AllFit(es: nat, size: nat, room: nat)
    requires WordSize(es)
  {
    forall data: seq<byte> :: |data| == size ==> |Encoded(es, data)| <= room
  }

  /** A buffer takes every encoding of a size exactly when it takes the longest. */
  lemma FitExactly(es: nat, size: nat, room: nat)
    requires WordSize(es)
    ensures AllFit(es, size, room) <==> MostEncoded(es, size) <= room
  {
    forall data: seq<byte> | |data| == size && MostEncoded(es, size) <= room
      ensures |Encoded(es, data)| <= room
    {
      EncodedMost(es, data);
    }
    var worst := MostAttained(es, size);
    assert |worst| == size;
  }

  /** Which chunks the scratch buffer takes in the build without the lz4 and zstd libraries, where
      their bounds are the two formulas, deflate's being no larger: every chunk of 8-byte words, but of
      4-byte words only about 200. */
  lemma ScratchExact(es: nat, size: nat, deflate: nat)
    requires WordSize(es) && deflate <= size + size / 4 + 128
    ensures AllFit(es, size, ScratchBound(size, deflate, size + size / 4 + 16, size + size / 4 + 128))
       <==> es == 8 || 5 * (size / 4) <= 996 + 8 * (size % 4)
  {
    var room := size + size / 4 + 128;
    assert ScratchBound(size, deflate, size + size / 4 + 16, room) == room;
    FitExactly(es, size, room);
    if es == 4 { FourByteRoom(size, size / 4, size % 4); } else { EightByteRoom(size, size / 8); }
  }

  lemma FourByteRoom(size: nat, c: nat, r: nat)
    requires c == size / 4 && r == size % 4
    ensures MostEncoded(4, size) <= size + c + 128 <==> 5 * c <= 996 + 8 * r
  {
    assert size == 4 * c + r;
    if c > 1 { assert MostBits(4, c - 1) == 45 * (c - 1) + 1; }
  }

  lemma EightByteRoom(size: nat, c: nat)
    requires c == size / 8
    ensures MostEncoded(8, size) <= size + size / 4 + 128
  {
    assert size >= 8 * c && size / 4 >= 2 * c;
    if c > 1 { assert MostBits(8, c - 1) == 77 * (c - 1) + 1; }
  }
}
