/**
 The Gorilla filter on raw chunk bytes: header, first value, bit stream; the
 in-place methods and the exact condition of the round trip.
 */
module Gorilla {
  import opened Arith
  import opened Memory
  import opened BitStream
  import opened GorillaCodec

  /** What gorilla_encode_impl leaves in the output; empty when there is no whole word. */
  function Encoded(es: nat, data: seq<byte>): (out: seq<byte>)
    requires WordSize(es)
  {
    var count := Count(|data|, es);
    if count == 0 then [] else Header(es, count) + Body(es, data)
  }

  /** The first value raw, then the packed bit stream of the others. */
  function Body(es: nat, data: seq<byte>): (out: seq<byte>)
    requires WordSize(es) && Count(|data|, es) > 0
  {
    var ws := WordsOf(data, es);
    data[..es] + Pack(StreamBits(8 * es, ws[0], NoBlock, ws[1..]))
  }

  /** The word count announced by a header. */
  function CountOf(src: seq<byte>): (count: nat)
    requires |src| >= 5
  {
    Be32(src[1], src[2], src[3], src[4])
  }

  /** Element size, then the word count as a big-endian uint32_t (higher bits are lost). */
  function Header(es: nat, count: nat): (h: seq<byte>)
    requires WordSize(es)
    ensures |h| == 5
  {
    [es] + Be32Bytes(count)
  }

  lemma HeaderCount(es: nat, count: nat)
    requires WordSize(es)
    ensures Header(es, count)[0] == es && CountOf(Header(es, count)) == count % TWO_32
  {
    Be32OfBytes(count);
    var h, b := Header(es, count), Be32Bytes(count);
    assert h[1] == b[0] && h[2] == b[1] && h[3] == b[2] && h[4] == b[3];
  }

  /** Outcome of a decode: 0 returned, words produced, or undefined behaviour. */
  datatype Outcome = Rejected | Words(data: seq<byte>) | Overrun

  /** gorilla_decode_impl */
  function Decoded(es: nat, src: seq<byte>): (r: Outcome)
    requires WordSize(es)
  {
    if |src| < 5 then Rejected
    else
      var count := CountOf(src);
      if |src| < 5 + es || count == 0 then Rejected
      else DecodedBody(es, count, src[5..5 + es], src[5 + es..])
  }

  /** The first word raw, the other count - 1 from the bit stream. */
  function DecodedBody(es: nat, count: nat, first: seq<byte>, stream: seq<byte>): (r: Outcome)
    requires 0 < count && WordSize(es)
  {
    match ReadStream(8 * es, LeNat(first), NoBlock, Unpack(stream), count - 1)
    case None => Overrun
    case Some(ws) => Words(first + BytesOf(ws, es))
  }

  /** filter::gorilla, encode direction; params is cd_values. */
  function Encode(params: seq<nat>, data: seq<byte>): (out: seq<byte>) {
    if data == [] then []
    else if params == [] || (params[0] != 4 && params[0] != 8) then data
    else Encoded(params[0], data)
  }

  /** filter::gorilla, decode direction. */
  function Decode(src: seq<byte>): (r: Outcome) {
    if src == [] || (src[0] != 4 && src[0] != 8) then Rejected
    else Decoded(src[0], src)
  }

  /** The words of a buffer laid back as bytes, first word raw. */
  lemma WordsBack(data: seq<byte>, es: nat)
    requires WordSize(es) && 0 < |data| == Span(Count(|data|, es), es)
    ensures var ws := WordsOf(data, es);
            ws != [] && ws[0] == LeNat(data[..es]) && data[..es] + BytesOf(ws[1..], es) == data
  {
    var ws := WordsOf(data, es);
    assert ws[0] == WordAt(data, es, 0);
    BytesOfWordsOf(data, es, |ws|);
    assert ws[..|ws|] == ws;
    LeBytesNat(data[..es]);
    assert BytesOf(ws, es) == LeBytes(ws[0], es) + BytesOf(ws[1..], es);
  }

  /** The packed stream decodes to the words it was made of; its padding is never reached. */
  lemma ReadPacked(w: nat, first: nat, ws: seq<nat>)
    requires w <= 64 && first < Pow2(w) && WordsFit(ws, w)
    ensures ReadStream(w, first, NoBlock, Unpack(Pack(StreamBits(w, first, NoBlock, ws))), |ws|) == Some(ws)
  {
    var bits := StreamBits(w, first, NoBlock, ws);
    UnpackPack(bits);
    var stream := Unpack(Pack(bits));
    assert stream == bits + stream[|bits|..];
    ReadStreamBits(w, first, NoBlock, ws, stream[|bits|..]);
  }

  lemma CountOfPrefix(h: seq<byte>, src: seq<byte>)
    requires |h| == 5 && |src| >= 5 && src[..5] == h
    ensures CountOf(src) == CountOf(h) && src[0] == h[0]
  {
    assert src[0] == h[0] && src[1] == h[1] && src[2] == h[2] && src[3] == h[3] && src[4] == h[4];
  }

  /** The decoder splits a header, a first word and a stream apart again. */
  lemma DecodeParts(es: nat, count: nat, h: seq<byte>, first: seq<byte>, stream: seq<byte>)
    requires WordSize(es) && |first| == es && |h| == 5 && CountOf(h) == count > 0
    ensures Decoded(es, h + first + stream) == DecodedBody(es, count, first, stream)
  {
    var src := h + first + stream;
    assert src[..5] == h;
    CountOfPrefix(h, src);
    assert src[5..5 + es] == first;
    assert src[5 + es..] == stream;
  }

  lemma BodyPacked(es: nat, first: seq<byte>, ws: seq<nat>)
    requires WordSize(es) && |first| == es && WordsFit(ws, 8 * es)
    ensures DecodedBody(es, |ws| + 1, first, Pack(StreamBits(8 * es, LeNat(first), NoBlock, ws)))
         == Words(first + BytesOf(ws, es))
  {
    ReadPacked(8 * es, LeNat(first), ws);
  }

  /** The decoder on the three parts of an encoding, whatever header announces the right count. */
  lemma DecodeBehind(es: nat, data: seq<byte>, h: seq<byte>)
    requires WordSize(es) && 0 < |data| == Span(Count(|data|, es), es)
    requires |h| == 5 && CountOf(h) == Count(|data|, es)
    ensures Decoded(es, h + Body(es, data)) == Words(data)
  {
    var ws := WordsOf(data, es);
    WordsBack(data, es);
    var first, stream := data[..es], Pack(StreamBits(8 * es, ws[0], NoBlock, ws[1..]));
    assert h + (first + stream) == h + first + stream;
    DecodeParts(es, |ws|, h, first, stream);
    BodyPacked(es, first, ws[1..]);
  }

  /** Decoding an encoded buffer of whole words, whose count fits 32 bits, restores it. */
  lemma DecodeEncoded(es: nat, data: seq<byte>)
    requires WordSize(es)
    requires 0 < |data| == Span(Count(|data|, es), es) && Count(|data|, es) < TWO_32
    ensures Decoded(es, Encoded(es, data)) == Words(data)
  {
    HeaderCount(es, Count(|data|, es));
    DecodeBehind(es, data, Header(es, Count(|data|, es)));
  }

  /** Whatever is decoded has the announced count times the element size in bytes. */
  lemma DecodedLength(es: nat, src: seq<byte>)
    requires WordSize(es)
    requires Decoded(es, src).Words?
    ensures |src| >= 5
    ensures |Decoded(es, src).data| == Span(CountOf(src), es)
  {}

  /** A header that announces fewer words than fill the buffer cannot bring the buffer back. */
  lemma TooFew(es: nat, data: seq<byte>, src: seq<byte>)
    requires WordSize(es) && |src| >= 5
    requires Span(CountOf(src), es) < |data|
    ensures Decoded(es, src) != Words(data)
  {
    if Decoded(es, src) == Words(data) { DecodedLength(es, src); }
  }

  /** The filter pair with a usable element size is the codec pair. */
  lemma FilterIsCodec(es: nat, data: seq<byte>)
    requires WordSize(es)
    ensures Count(|data|, es) == 0 ==> Decode(Encode([es], data)) == Rejected
    ensures Count(|data|, es) > 0 ==> Decode(Encode([es], data)) == Decoded(es, Encoded(es, data))
  {
    if Count(|data|, es) > 0 {
      EncodedHead(es, data);
      assert data != [];
    }
  }

  lemma EncodedHead(es: nat, data: seq<byte>)
    requires WordSize(es) && Count(|data|, es) > 0
    ensures |Encoded(es, data)| >= 5 && Encoded(es, data)[0] == es
    ensures CountOf(Encoded(es, data)) == Count(|data|, es) % TWO_32
  {
    var h := Header(es, Count(|data|, es));
    HeaderCount(es, Count(|data|, es));
    PrefixOf(h, Body(es, data));
    CountOfPrefix(h, h + Body(es, data));
  }

  lemma PrefixOf(h: seq<byte>, rest: seq<byte>)
    ensures (h + rest)[..|h|] == h
  {}

  /** A partial word, no word at all, or a count the 32-bit header cuts: something is lost. */
  lemma NoRoundTrip(es: nat, data: seq<byte>)
    requires WordSize(es)
    requires |data| == 0 || |data| != Span(Count(|data|, es), es) || Count(|data|, es) >= TWO_32
    ensures Decode(Encode([es], data)) != Words(data)
  {
    FilterIsCodec(es, data);
    if Count(|data|, es) > 0 {
      EncodedHead(es, data);
      FewerAnnounced(es, |data|);
      TooFew(es, data, Encoded(es, data));
    }
  }

  lemma FewerAnnounced(es: nat, size: nat)
    requires WordSize(es) && (size != Span(Count(size, es), es) || Count(size, es) >= TWO_32)
    ensures Span(Count(size, es) % TWO_32, es) < size
  {}

  /** The filter's round trip, exactly: whole words, at least one, and a count below 2^32. */
  lemma RoundTrip(es: nat, data: seq<byte>)
    requires WordSize(es)
    ensures Decode(Encode([es], data)) == Words(data)
       <==> 0 < |data| && |data| % es == 0 && |data| / es < TWO_32
  {
    assert |data| % es == 0 <==> |data| == Span(Count(|data|, es), es) by {
      if es == 4 {} else {}
    }
    assert |data| / es == Count(|data|, es) by {
      if es == 4 {} else {}
    }
    if 0 < |data| == Span(Count(|data|, es), es) && Count(|data|, es) < TWO_32 {
      FilterIsCodec(es, data);
      DecodeEncoded(es, data);
    } else {
      NoRoundTrip(es, data);
    }
  }

  /** A stream the decoder turns away: no element size of 4 or 8 in the first byte, no room for a
      header and a first value, or an announced count of zero. */
  predicate TurnedAway(src: seq<byte>) {
    || src == [] || (src[0] != 4 && src[0] != 8)
    || |src| < 5 + src[0] || CountOf(src) == 0
  }

  lemma RejectedExactly(src: seq<byte>)
    ensures Decode(src) == Rejected <==> TurnedAway(src)
  {}

  /** Without a 4- or 8-byte element size the encoder copies, and the decoder takes the copy for one
      of its own streams: it is rejected exactly when its first bytes do not look like a header; what
      is decoded otherwise has the length those bytes announce, whatever was copied. */
  lemma PassthroughMisread(params: seq<nat>, data: seq<byte>)
    requires params == [] || (params[0] != 4 && params[0] != 8)
    ensures Encode(params, data) == data
    ensures Decode(Encode(params, data)) == Rejected <==> TurnedAway(data)
    ensures Decode(data).Words? ==> |data| >= 5 && |Decode(data).data| == Span(CountOf(data), data[0])
  {
    RejectedExactly(data);
    if Decode(data).Words? { DecodedLength(data[0], data); }
  }

  lemma EncodedLength(es: nat, data: seq<byte>)
    requires WordSize(es) && Count(|data|, es) > 0
    ensures var ws := WordsOf(data, es);
            |Encoded(es, data)| == 5 + es + ByteLen(|StreamBits(8 * es, ws[0], NoBlock, ws[1..])|)
  {}

  // ---- the codec in place ----

  /** The portable fallback: walks down from the top bit to the first one. */
  method CountLeadingZeros(value: nat, w: nat) returns (count: nat)
    requires value < Pow2(w)
    ensures count == Clz(value, w)
  {
    count := 0;
    CountNone(value, w);
    hide Counted, Clz;
    while count < w && Shr(value, w - 1 - count) % 2 == 0
      invariant count <= w && Counted(value, w, count)
    {
      CountOne(value, w, count);
      count := count + 1;
    }
    CountDone(value, w, count);
  }

  /** The top `count` bits of the w-bit word are clear. */
  ghost predicate Counted(value: nat, w: nat, count: nat)
    requires count <= w
  {
    value < Pow2(w) && value < Pow2(w - count) && Clz(value, w) == count + Clz(value, w - count)
  }

  lemma CountNone(value: nat, w: nat)
    requires value < Pow2(w)
    ensures Counted(value, w, 0)
  {}

  lemma CountOne(value: nat, w: nat, count: nat)
    requires count < w && Counted(value, w, count) && Shr(value, w - 1 - count) % 2 == 0
    ensures Counted(value, w, count + 1)
  {
    ClzStep(value, w - count);
  }

  lemma CountDone(value: nat, w: nat, count: nat)
    requires count <= w && Counted(value, w, count)
    requires count < w ==> Shr(value, w - 1 - count) % 2 != 0
    ensures count == Clz(value, w)
  {
    if count < w { ClzStep(value, w - count); }
  }

  /** Whether the top bit is set decides how the count goes on. */
  lemma ClzStep(x: nat, w: nat)
    requires 0 < w && x < Pow2(w)
    ensures Shr(x, w - 1) % 2 == 0 ==> x < Pow2(w - 1) && Clz(x, w) == 1 + Clz(x, w - 1)
    ensures Shr(x, w - 1) % 2 == 1 ==> Clz(x, w) == 0
  {
    TopBit(x, w);
  }

  /** The top bit of a w-bit word decides whether it reaches 2^(w-1). */
  lemma {:induction false} TopBit(x: nat, w: nat)
    requires 0 < w && x < Pow2(w)
    ensures Shr(x, w - 1) % 2 == (if x >= Pow2(w - 1) then 1 else 0)
  {
    if w > 1 { TopBit(x / 2, w - 1); }
  }

  /** The portable fallback on a non-zero word: walks up from bit 0 to the first one. */
  method CountTrailingZeros(value: nat) returns (count: nat)
    requires value > 0
    ensures count == Ctz(value)
  {
    count := 0;
    while Shr(value, count) % 2 == 0
      invariant Shr(value, count) > 0 && Ctz(value) == count + Ctz(Shr(value, count))
      decreases Shr(value, count)
    {
      ShrSucc(value, count);
      count := count + 1;
    }
  }

  /** One more shift halves. */
  lemma {:induction false} ShrSucc(x: nat, k: nat)
    ensures Shr(x, k + 1) == Shr(x, k) / 2
    decreases k
  {
    if k > 0 { ShrSucc(x / 2, k - 1); }
  }

  /** One pass of the encoder's loop body. */
  method WriteValue(writer: BitWriter, w: nat, prev: nat, blk: Block, curr: nat) returns (blk': Block)
    requires writer.Valid() && prev < Pow2(w) && curr < Pow2(w) && BlockFits(blk, w)
    requires |writer.written| + |ValueBits(w, prev, blk, curr).0| <= writer.Capacity()
    modifies writer`bytePos, writer`bitPos, writer`written, writer.buf
    ensures writer.Valid()
    ensures writer.written == old(writer.written) + ValueBits(w, prev, blk, curr).0
    ensures blk' == ValueBits(w, prev, blk, curr).1 && BlockFits(blk', w)
    ensures writer.buf[..writer.start] == old(writer.buf[..writer.start])
  {
    XorBound(prev, curr, w);
    var xored := Xor(prev, curr);
    if xored == 0 {
      writer.WriteBit(false);
      blk' := blk;
    } else {
      var leading := CountLeadingZeros(xored, w);
      var trailing := CountTrailingZeros(xored);
      ClzCtz(xored, w);
      var meaningful := w - leading - trailing;
      if Reuses(blk, leading, meaningful) {
        WriteReused(writer, w, blk, xored);
        blk' := blk;
      } else {
        WriteFresh(writer, xored, leading, meaningful, trailing);
        blk' := Block(leading, meaningful);
      }
    }
  }

  method WriteReused(writer: BitWriter, w: nat, blk: Block, xored: nat)
    requires writer.Valid() && blk.Block? && BlockFits(blk, w)
    requires |writer.written| + 2 + blk.meaningful <= writer.Capacity()
    modifies writer`bytePos, writer`bitPos, writer`written, writer.buf
    ensures writer.Valid() && writer.written == old(writer.written) + ReusedCode(xored, w, blk)
    ensures writer.buf[..writer.start] == old(writer.buf[..writer.start])
  {
    writer.WriteBit(true);
    writer.WriteBit(false);
    var blockTrailing := w - blk.leading - blk.meaningful;
    writer.WriteBits(Shr(xored, blockTrailing), blk.meaningful);
  }

  method WriteFresh(writer: BitWriter, xored: nat, leading: nat, meaningful: nat, trailing: nat)
    requires writer.Valid()
    requires |writer.written| + 14 + meaningful <= writer.Capacity()
    modifies writer`bytePos, writer`bitPos, writer`written, writer.buf
    ensures writer.Valid() && writer.written == old(writer.written) + FreshCode(xored, leading, meaningful, trailing)
    ensures writer.buf[..writer.start] == old(writer.buf[..writer.start])
  {
    ghost var before := writer.written;
    writer.WriteBit(true);
    writer.WriteBit(true);
    writer.WriteBits(leading, 6);
    WriteLengthAndPayload(writer, xored, meaningful, trailing);
    FieldsInOrder(before, BitsOf(leading, 6), BitsOf(if meaningful == 64 then 0 else meaningful, 6),
                  BitsOf(Shr(xored, trailing), meaningful));
  }

  lemma FieldsInOrder(before: seq<bool>, l: seq<bool>, m: seq<bool>, payload: seq<bool>)
    ensures before + [true] + [true] + l + m + payload == before + ([true, true] + l + m + payload)
  {}

  method WriteLengthAndPayload(writer: BitWriter, xored: nat, meaningful: nat, trailing: nat)
    requires writer.Valid()
    requires |writer.written| + 6 + meaningful <= writer.Capacity()
    modifies writer`bytePos, writer`bitPos, writer`written, writer.buf
    ensures writer.Valid()
    ensures writer.written == old(writer.written) + BitsOf(if meaningful == 64 then 0 else meaningful, 6)
                              + BitsOf(Shr(xored, trailing), meaningful)
    ensures writer.buf[..writer.start] == old(writer.buf[..writer.start])
  {
    writer.WriteBits(if meaningful == 64 then 0 else meaningful, 6);
    writer.WriteBits(Shr(xored, trailing), meaningful);
  }

  /** values[i] of a buffer laid over as words. */
  method LoadWord(src: array<byte>, size: nat, es: nat, i: nat) returns (v: nat)
    requires WordSize(es) && size <= src.Length && i < Count(size, es)
    ensures v == WordsOf(src[..size], es)[i]
  {
    var at := Span(i, es);
    assert src[at..at + es] == src[..size][at..at + es];
    v := LeNat(src[at..at + es]);
    ghost var v' := WordAt(src[..size], es, i);
  }

  /** What is written followed by the bits still to come makes up the whole stream. */
  ghost predicate StreamLeft(w: nat, prev: nat, blk: Block, rest: seq<nat>, written: seq<bool>, all: seq<bool>) {
    prev < Pow2(w) && WordsFit(rest, w) && BlockFits(blk, w) && all == written + StreamBits(w, prev, blk, rest)
  }

  /** The encoder's loop: every word after the first goes through the writer. */
  method EncodeStream(writer: BitWriter, src: array<byte>, size: nat, es: nat, first: nat,
                      ghost ws: seq<nat>, ghost all: seq<bool>)
    requires WordSize(es) && es <= size <= src.Length && writer.buf != src
    requires ws == WordsOf(src[..size], es)
    requires StreamLeft(8 * es, first, NoBlock, ws[1..], [], all)
    requires writer.Valid() && writer.written == [] && |all| <= writer.Capacity()
    modifies writer`bytePos, writer`bitPos, writer`written, writer.buf
    ensures writer.Valid() && writer.written == all
    ensures writer.buf[..writer.start] == old(writer.buf[..writer.start])
  {
    var count, w := Count(size, es), 8 * es;
    var prev: nat, blk, i := first, NoBlock, 1;
    assert |ws| == count;
    hide StreamLeft, WordsOf, Count, Carries;
    while i < count
      invariant 1 <= i <= count && ws == WordsOf(src[..size], es)
      invariant writer.Valid() && StreamLeft(w, prev, blk, ws[i..], writer.written, all)
      invariant writer.buf[..writer.start] == old(writer.buf[..writer.start])
    {
      var curr := LoadWord(src, size, es, i);
      SliceRest(ws, i);
      blk := EncodeNext(writer, w, prev, blk, curr, ws[i..], all);
      prev := curr;
      i := i + 1;
    }
    NothingLeft(w, prev, blk, ws[i..], writer.written, all);
  }

  lemma SliceRest(ws: seq<nat>, i: nat)
    requires i < |ws|
    ensures ws[i..] != [] && ws[i..][1..] == ws[i + 1..] && ws[i..][0] == ws[i]
  {}

  lemma NothingLeft(w: nat, prev: nat, blk: Block, rest: seq<nat>, written: seq<bool>, all: seq<bool>)
    requires StreamLeft(w, prev, blk, rest, written, all) && rest == []
    ensures written == all
  {}

  method EncodeNext(writer: BitWriter, w: nat, prev: nat, blk: Block, curr: nat, ghost rest: seq<nat>,
                    ghost all: seq<bool>)
    returns (blk': Block)
    requires rest != [] && rest[0] == curr && writer.Valid() && |all| <= writer.Capacity()
    requires StreamLeft(w, prev, blk, rest, writer.written, all)
    modifies writer`bytePos, writer`bitPos, writer`written, writer.buf
    ensures writer.Valid() && StreamLeft(w, curr, blk', rest[1..], writer.written, all)
    ensures writer.buf[..writer.start] == old(writer.buf[..writer.start])
  {
    StreamStep(w, prev, blk, rest, writer.written, all);
    blk' := WriteValue(writer, w, prev, blk, curr);
  }

  /** The bits of a non-empty encoding and what stands in front of them. */
  ghost predicate EncodedParts(es: nat, data: seq<byte>, front: seq<byte>, first: nat, all: seq<bool>)
    requires WordSize(es)
  {
    && Count(|data|, es) > 0
    && var ws := WordsOf(data, es);
       front == Header(es, Count(|data|, es)) + data[..es] && first == ws[0]
       && all == StreamBits(8 * es, first, NoBlock, ws[1..])
  }

  lemma EncodedJoined(es: nat, data: seq<byte>, front: seq<byte>, first: nat, all: seq<bool>)
    requires WordSize(es) && EncodedParts(es, data, front, first, all)
    ensures |front| == 5 + es && Encoded(es, data) == front + Pack(all)
    ensures |Encoded(es, data)| == 5 + es + ByteLen(|all|)
  {
    assert Header(es, Count(|data|, es)) + (data[..es] + Pack(all)) == front + Pack(all);
  }

  lemma WholeStream(es: nat, data: seq<byte>, front: seq<byte>, first: nat, all: seq<bool>)
    requires WordSize(es) && EncodedParts(es, data, front, first, all)
    ensures StreamLeft(8 * es, first, NoBlock, WordsOf(data, es)[1..], [], all)
  {
    assert [] + all == all;
  }

  /** gorilla_encode_impl<T> with sizeof(T) == es: dst[..n] receives the encoding of src[..size]. */
  method EncodeInto(dst: array<byte>, src: array<byte>, size: nat, es: nat) returns (n: nat)
    requires WordSize(es)
    requires dst != src && size <= src.Length && |Encoded(es, src[..size])| <= dst.Length
    modifies dst
    ensures n == |Encoded(es, src[..size])| <= dst.Length
    ensures dst[..n] == Encoded(es, src[..size])
  {
    var count := Count(size, es);
    if count == 0 { return 0; }
    var first := LoadWord(src, size, es, 0);
    var front := Header(es, count) + src[..es];
    ghost var data := src[..size];
    ghost var all := StreamBits(8 * es, first, NoBlock, WordsOf(data, es)[1..]);
    assert src[..es] == data[..es];
    assert EncodedParts(es, data, front, first, all);
    n := EncodeParts(dst, src, size, es, first, front, data, all);
  }

  /** The encoder past its guard: the part in front of the bits, then the bits. */
  method EncodeParts(dst: array<byte>, src: array<byte>, size: nat, es: nat, first: nat, front: seq<byte>,
                     ghost data: seq<byte>, ghost all: seq<bool>) returns (n: nat)
    requires WordSize(es) && dst != src && es <= size <= src.Length && data == src[..size]
    requires EncodedParts(es, data, front, first, all) && |Encoded(es, data)| <= dst.Length
    modifies dst
    ensures n == |Encoded(es, data)| <= dst.Length
    ensures dst[..n] == Encoded(es, data)
  {
    EncodedJoined(es, data, front, first, all);
    WholeStream(es, data, front, first, all);
    hide EncodedParts, Encoded, StreamLeft, WordsOf, Header, Pack, Carries;
    MemCpy(dst, 0, front);
    assert dst[..5 + es] == front;
    var writer := new BitWriter(dst, 5 + es);
    RoomForBits(|all|, dst.Length - 5 - es);
    EncodeStream(writer, src, size, es, first, WordsOf(data, es), all);
    n := 5 + es + writer.bytePos + if writer.bitPos > 0 then 1 else 0;
    WholeImage(dst[..], front, all, n);
  }

  lemma RoomForBits(bits: nat, bytes: int)
    requires ByteLen(bits) <= bytes
    ensures bits <= 8 * bytes
  {}

  /** A buffer that starts with `front` and then carries a bit stream holds both packed together. */
  lemma WholeImage(buf: seq<byte>, front: seq<byte>, all: seq<bool>, n: nat)
    requires n == |front| + ByteLen(|all|) <= |buf| && buf[..|front|] == front
    requires Carries(buf[|front|..], all)
    ensures buf[..n] == front + Pack(all)
  {
    PrefixParts(buf, |front|, n);
    CarriesIsPack(buf[|front|..], all);
  }

  /** The two 6-bit fields of a new block; a length code of 0 stands for 64. */
  method ReadBlock(reader: BitReader) returns (blk: Block)
    requires reader.Valid() && reader.Pos() + 12 <= |reader.stream|
    modifies reader`bytePos, reader`bitPos
    ensures reader.Valid() && reader.Pos() == old(reader.Pos()) + 12 && blk.Block?
    ensures var p := old(reader.Pos()); var m := NatOf(reader.stream[p + 6..p + 12]);
            blk == Block(NatOf(reader.stream[p..p + 6]), if m == 0 then 64 else m)
  {
    var leading := reader.ReadBits(6);
    var meaningful := reader.ReadBits(6);
    blk := Block(leading, if meaningful == 0 then 64 else meaningful);
  }

  /** One pass of the decoder's loop body. */
  method ReadOne(reader: BitReader, w: nat, prev: nat, blk: Block) returns (value: nat, blk': Block)
    requires reader.Valid() && reader.Pos() <= |reader.stream|
    requires ReadValue(w, prev, blk, reader.stream[reader.Pos()..]).Read?
    modifies reader`bytePos, reader`bitPos
    ensures reader.Valid()
    ensures var r := ReadValue(w, prev, blk, reader.stream[old(reader.Pos())..]);
            value == r.value && blk' == r.blk && reader.Pos() == old(reader.Pos()) + r.used
  {
    ghost var p := reader.Pos();
    ghost var bits := reader.stream[p..];
    var differs := reader.ReadBit();
    if !differs {
      value, blk' := prev, blk;
    } else {
      blk' := blk;
      var newBlock := reader.ReadBit();
      if newBlock {
        assert bits[2..8] == reader.stream[p + 2..p + 8];
        assert bits[8..14] == reader.stream[p + 8..p + 14];
        blk' := ReadBlock(reader);
      }
      assert ReadValue(w, prev, blk, bits) == ReadPayload(w, prev, blk', bits, reader.Pos() - p);
      value := ReadXored(reader, w, prev, blk', p);
    }
  }

  method ReadXored(reader: BitReader, w: nat, prev: nat, blk: Block, ghost p: nat) returns (value: nat)
    requires reader.Valid() && p < reader.Pos() <= |reader.stream| && blk.Block?
    requires ReadPayload(w, prev, blk, reader.stream[p..], reader.Pos() - p).Read?
    modifies reader`bytePos, reader`bitPos
    ensures reader.Valid() && reader.Pos() == old(reader.Pos()) + blk.meaningful
    ensures value == ReadPayload(w, prev, blk, reader.stream[p..], old(reader.Pos()) - p).value
  {
    ghost var q := reader.Pos();
    assert reader.stream[p..][q - p..q - p + blk.meaningful] == reader.stream[q..q + blk.meaningful];
    var payload := reader.ReadBits(blk.meaningful);
    value := Xor(prev, Shl(payload, w - blk.leading - blk.meaningful));
  }

  /** The values still in the stream. */
  ghost predicate ValuesLeft(w: nat, prev: nat, blk: Block, bits: seq<bool>, left: nat, rest: seq<nat>) {
    ReadStream(w, prev, blk, bits, left) == Some(rest)
  }

  lemma NextValue(w: nat, prev: nat, blk: Block, bits: seq<bool>, left: nat, rest: seq<nat>)
    requires 0 < left && ValuesLeft(w, prev, blk, bits, left, rest)
    ensures var r := ReadValue(w, prev, blk, bits);
            r.Read? && r.used <= |bits| && rest != [] && r.value == rest[0]
            && ValuesLeft(w, r.value, r.blk, bits[r.used..], left - 1, rest[1..])
  {}

  /** One pass of the decoder's loop body, up to the store. */
  method DecodeNext(reader: BitReader, w: nat, left: nat, prev: nat, blk: Block, ghost rest: seq<nat>)
    returns (value: nat, blk': Block)
    requires reader.Valid() && reader.Pos() <= |reader.stream| && 0 < left
    requires ValuesLeft(w, prev, blk, reader.stream[reader.Pos()..], left, rest)
    modifies reader`bytePos, reader`bitPos
    ensures reader.Valid() && reader.Pos() <= |reader.stream| && rest != [] && value == rest[0]
    ensures ValuesLeft(w, value, blk', reader.stream[reader.Pos()..], left - 1, rest[1..])
  {
    hide ValuesLeft, ReadValue;
    ghost var at := reader.Pos();
    NextValue(w, prev, blk, reader.stream[at..], left, rest);
    value, blk' := ReadOne(reader, w, prev, blk);
    assert reader.stream[at..][reader.Pos() - at..] == reader.stream[reader.Pos()..];
  }

  /** The bytes stored followed by the words still to come make up the goal. */
  ghost predicate BytesLeft(done: seq<byte>, rest: seq<nat>, es: nat, goal: seq<byte>)
    requires WordSize(es)
  {
    goal == done + BytesOf(rest, es)
  }

  lemma StoreStep(done: seq<byte>, rest: seq<nat>, es: nat, goal: seq<byte>)
    requires WordSize(es) && rest != [] && BytesLeft(done, rest, es, goal)
    ensures BytesLeft(done + LeBytes(rest[0], es), rest[1..], es, goal)
  {}

  lemma NothingToStore(done: seq<byte>, rest: seq<nat>, es: nat, goal: seq<byte>)
    requires WordSize(es) && rest == [] && BytesLeft(done, rest, es, goal)
    ensures done == goal
  {}

  /** A decoded value becomes the es bytes at byte `at`. */
  method StoreWord(dst: array<byte>, at: nat, end: nat, value: nat, es: nat)
    requires at + es <= end <= dst.Length
    modifies dst
    ensures dst[..at + es] == old(dst[..at]) + LeBytes(value, es)
    ensures dst[end..] == old(dst[end..])
  {
    ghost var before := dst[..];
    var bytes := LeBytes(value, es);
    MemCpy(dst, at, bytes);
    assert dst[..][at + es..] == before[at + es..];
    SameTail(dst[..], before, at + es, end);
  }

  lemma SpanNext(i: nat, count: nat, es: nat)
    requires WordSize(es) && i < count
    ensures Span(i + 1, es) == Span(i, es) + es <= Span(count, es)
  {}

  /** One pass of the decoder's loop: a word is decoded and stored at byte `at`. */
  method DecodeWord(dst: array<byte>, reader: BitReader, at: nat, end: nat, left: nat, es: nat, prev: nat, blk: Block,
                    ghost rest: seq<nat>, ghost goal: seq<byte>) returns (value: nat, blk': Block)
    requires WordSize(es) && reader.Valid() && reader.Pos() <= |reader.stream| && dst != reader.buf
    requires at + es <= end <= dst.Length && BytesLeft(dst[..at], rest, es, goal)
    requires 0 < left && ValuesLeft(8 * es, prev, blk, reader.stream[reader.Pos()..], left, rest)
    modifies dst, reader`bytePos, reader`bitPos
    ensures reader.Valid() && reader.Pos() <= |reader.stream| && rest != []
    ensures ValuesLeft(8 * es, value, blk', reader.stream[reader.Pos()..], left - 1, rest[1..])
    ensures BytesLeft(dst[..at + es], rest[1..], es, goal)
    ensures dst[end..] == old(dst[end..])
  {
    hide ValuesLeft, BytesLeft, WordSize, reader.Valid;
    value, blk' := DecodeNext(reader, 8 * es, left, prev, blk, rest);
    StoreStep(dst[..at], rest, es, goal);
    StoreWord(dst, at, end, value, es);
  }

  /** i of the count words are stored; the reader is at the next one. */
  ghost predicate Decoding(dst: array<byte>, reader: BitReader, i: nat, count: nat, es: nat, prev: nat, blk: Block,
                           rest: seq<nat>, goal: seq<byte>)
    reads dst, reader, reader.buf
  {
    && WordSize(es) && 1 <= i <= count && dst != reader.buf
    && reader.Valid() && reader.Pos() <= |reader.stream|
    && ValuesLeft(8 * es, prev, blk, reader.stream[reader.Pos()..], count - i, rest)
    && Span(i, es) <= Span(count, es) <= dst.Length && BytesLeft(dst[..Span(i, es)], rest, es, goal)
  }

  method DecodePass(dst: array<byte>, reader: BitReader, i: nat, count: nat, es: nat, prev: nat, blk: Block,
                    ghost rest: seq<nat>, ghost goal: seq<byte>) returns (value: nat, blk': Block)
    requires i < count && Decoding(dst, reader, i, count, es, prev, blk, rest, goal)
    modifies dst, reader`bytePos, reader`bitPos
    ensures rest != [] && Decoding(dst, reader, i + 1, count, es, value, blk', rest[1..], goal)
    ensures dst[Span(count, es)..] == old(dst[Span(count, es)..])
  {
    hide ValuesLeft, BytesLeft, reader.Valid;
    SpanNext(i, count, es);
    value, blk' := DecodeWord(dst, reader, Span(i, es), Span(count, es), count - i, es, prev, blk, rest, goal);
  }

  lemma DecodingDone(dst: array<byte>, reader: BitReader, count: nat, es: nat, prev: nat, blk: Block,
                     rest: seq<nat>, goal: seq<byte>)
    requires Decoding(dst, reader, count, count, es, prev, blk, rest, goal)
    ensures dst[..Span(count, es)] == goal
  {
    NothingToStore(dst[..Span(count, es)], rest, es, goal);
  }

  lemma DecodingStarts(dst: array<byte>, reader: BitReader, count: nat, es: nat, first: nat, ws: seq<nat>)
    requires WordSize(es) && reader.Valid() && reader.Pos() == 0 && dst != reader.buf && 0 < count
    requires ReadStream(8 * es, first, NoBlock, reader.stream, count - 1) == Some(ws)
    requires Span(count, es) <= dst.Length
    ensures es <= dst.Length && Decoding(dst, reader, 1, count, es, first, NoBlock, ws, dst[..es] + BytesOf(ws, es))
  {
    assert Span(1, es) == es <= Span(count, es);
    assert reader.stream[0..] == reader.stream;
  }

  /** The decoder's loop: the `count - 1` words after the first are decoded and stored. */
  method DecodeStream(dst: array<byte>, reader: BitReader, first: nat, count: nat, es: nat, ghost ws: seq<nat>)
    requires WordSize(es) && reader.Valid() && reader.Pos() == 0 && dst != reader.buf && 0 < count
    requires ReadStream(8 * es, first, NoBlock, reader.stream, count - 1) == Some(ws)
    requires Span(count, es) <= dst.Length
    modifies dst, reader`bytePos, reader`bitPos
    ensures dst[..Span(count, es)] == old(dst[..es]) + BytesOf(ws, es)
    ensures dst[Span(count, es)..] == old(dst[Span(count, es)..])
  {
    var prev, blk, i := first, NoBlock, 1;
    DecodingStarts(dst, reader, count, es, first, ws);
    ghost var rest, goal := ws, dst[..es] + BytesOf(ws, es);
    hide Decoding, ReadStream, BytesOf, Span, reader.Valid;
    while i < count
      invariant 1 <= i <= count && Decoding(dst, reader, i, count, es, prev, blk, rest, goal)
      invariant dst[Span(count, es)..] == old(dst[Span(count, es)..])
    {
      prev, blk := DecodePass(dst, reader, i, count, es, prev, blk, rest, goal);
      rest, i := rest[1..], i + 1;
    }
    DecodingDone(dst, reader, count, es, prev, blk, rest, goal);
  }

  /** gorilla_decode_impl<T>: dst receives the words of a well-formed stream; 0 when rejected. */
  method DecodeInto(dst: array<byte>, src: array<byte>, size: nat, es: nat) returns (n: nat)
    requires WordSize(es)
    requires dst != src && size <= src.Length
    requires match Decoded(es, src[..size])
             case Rejected => true
             case Overrun => false
             case Words(data) => |data| <= dst.Length
    modifies dst
    ensures match Decoded(es, src[..size])
            case Rejected => n == 0 && dst[..] == old(dst[..])
            case Overrun => false
            case Words(data) => n == |data| && dst[..] == Put(old(dst[..]), data)
  {
    if size < 5 { return 0; }
    var count := CountOf(src[..size]);
    if size < 5 + es || count == 0 { return 0; }
    SliceSlice(src[..], size, 5, 5 + es);
    SliceSlice(src[..], size, 5 + es, size);
    n := DecodeWords(dst, src, size, es, count, Decoded(es, src[..size]).data);
  }

  /** The decoder past its guards: the first word is copied raw, the stream supplies the others. */
  method DecodeWords(dst: array<byte>, src: array<byte>, size: nat, es: nat, count: nat,
                     ghost data: seq<byte>) returns (n: nat)
    requires WordSize(es) && dst != src && 5 + es <= size <= src.Length && count > 0
    requires DecodedBody(es, count, src[5..5 + es], src[5 + es..size]) == Words(data) && |data| <= dst.Length
    modifies dst
    ensures n == |data| && dst[..] == Put(old(dst[..]), data)
  {
    ghost var before := dst[..];
    BodyLength(es, count, src[5..5 + es], src[5 + es..size]);
    MemCpy(dst, 0, src[5..5 + es]);
    SameTail(dst[..], before, es, Span(count, es));
    var reader := new BitReader(src, 5 + es, size);
    var first := LeNat(src[5..5 + es]);
    ghost var ws := ReadStream(8 * es, first, NoBlock, reader.stream, count - 1).value;
    DecodeStream(dst, reader, first, count, es, ws);
    n := Span(count, es);
    IsPut(dst[..], before, data);
  }

  lemma BodyLength(es: nat, count: nat, first: seq<byte>, stream: seq<byte>)
    requires WordSize(es) && 0 < count && |first| == es && DecodedBody(es, count, first, stream).Words?
    ensures es <= |DecodedBody(es, count, first, stream).data| == Span(count, es)
  {}

  /** filter::gorilla: both directions, with the raw copy when no usable element size is given. */
  method Apply(dst: array<byte>, src: array<byte>, size: nat, reverse: bool, params: seq<nat>) returns (n: nat)
    requires dst != src && size <= src.Length
    requires !reverse ==> |Encode(params, src[..size])| <= dst.Length
    requires reverse ==> !Decode(src[..size]).Overrun?
    requires reverse && Decode(src[..size]).Words? ==> |Decode(src[..size]).data| <= dst.Length
    modifies dst
    ensures !reverse ==> n == |Encode(params, src[..size])| <= dst.Length && dst[..n] == Encode(params, src[..size])
    ensures reverse ==> match Decode(src[..size])
                        case Words(data) => n == |data| && dst[..] == Put(old(dst[..]), data)
                        case _ => n == 0 && dst[..] == old(dst[..])
  {
    if size == 0 { return 0; }
    if reverse {
      var es := src[0];
      if es != 4 && es != 8 { return 0; }
      n := DecodeInto(dst, src, size, es);
    } else if params == [] || (params[0] != 4 && params[0] != 8) {
      MemCpy(dst, 0, src[..size]);
      n := size;
    } else {
      n := EncodeInto(dst, src, size, params[0]);
    }
  }
}
