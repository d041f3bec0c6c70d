/** Raw buffers: memcpy, memset and the integers the source lays over bytes. */
module Memory {
  import opened Arith

  /** What a buffer holds after `out` is written over its front. */
  function Put(buf: seq<byte>, out: seq<byte>): (r: seq<byte>)
    requires |out| <= |buf|
    ensures |r| == |buf| && r[..|out|] == out && r[|out|..] == buf[|out|..]
  {
    out + buf[|out|..]
  }

  lemma IsPut(buf: seq<byte>, before: seq<byte>, out: seq<byte>)
    requires |out| <= |buf| == |before| && buf[..|out|] == out && buf[|out|..] == before[|out|..]
    ensures buf == Put(before, out)
  {
    assert buf == buf[..|out|] + buf[|out|..];
  }

  lemma PrefixParts(a: seq<byte>, p: nat, q: nat)
    requires p <= q <= |a|
    ensures a[..q] == a[..p] + a[p..][..q - p]
  {}

  lemma SliceSlice(a: seq<byte>, n: nat, p: nat, q: nat)
    requires p <= q <= n <= |a|
    ensures a[..n][p..q] == a[p..q]
  {}

  lemma SameTail(a: seq<byte>, b: seq<byte>, p: nat, q: nat)
    requires p <= q <= |a| == |b| && a[p..] == b[p..]
    ensures a[q..] == b[q..]
  {
    assert a[q..] == a[p..][q - p..] && b[q..] == b[p..][q - p..];
  }

  /** memcpy of src to byte `at` of dst */
  method MemCpy(dst: array<byte>, at: nat, src: seq<byte>)
    requires at + |src| <= dst.Length
    modifies dst
    ensures dst[..] == old(dst[..at]) + src + old(dst[at + |src|..])
  {
    var i := 0;
    while i < |src|
      invariant 0 <= i <= |src|
      invariant dst[..at] == old(dst[..at]) && dst[at..at + i] == src[..i]
      invariant dst[at + |src|..] == old(dst[at + |src|..])
    {
      dst[at + i] := src[i];
      i := i + 1;
    }
    assert dst[..] == dst[..at] + dst[at..at + |src|] + dst[at + |src|..];
  }

  /** memset of the first n bytes to zero */
  method MemZero(dst: array<byte>, n: nat)
    requires n <= dst.Length
    modifies dst
    ensures dst[..] == Zeros(n) + old(dst[n..])
  {
    MemCpy(dst, 0, Zeros(n));
  }

  function Zeros(n: nat): (z: seq<byte>)
    ensures |z| == n && forall i :: 0 <= i < n ==> z[i] == 0
  {
    seq(n, i => 0)
  }

  /** A T object read from memory: least significant byte first. */
  function LeNat(bytes: seq<byte>): (v: nat)
    ensures v < Pow2(8 * |bytes|)
  {
    if bytes == [] then 0
    else
      Pow2Add(8, 8 * (|bytes| - 1));
      Pow2Small();
      bytes[0] + 256 * LeNat(bytes[1..])
  }

  /** A T object of n bytes stored to memory. */
  function LeBytes(v: nat, n: nat): (bytes: seq<byte>)
    ensures |bytes| == n
  {
    if n == 0 then [] else [v % 256] + LeBytes(v / 256, n - 1)
  }

  lemma {:induction false} LeBytesNat(bytes: seq<byte>)
    ensures LeBytes(LeNat(bytes), |bytes|) == bytes
  {
    if bytes != [] {
      LeBytesNat(bytes[1..]);
    }
  }

  lemma {:induction false} LeNatBytes(v: nat, n: nat)
    requires v < Pow2(8 * n)
    ensures LeNat(LeBytes(v, n)) == v
  {
    if n > 0 {
      Pow2Add(8, 8 * (n - 1));
      Pow2Small();
      LeNatBytes(v / 256, n - 1);
      assert LeBytes(v, n)[1..] == LeBytes(v / 256, n - 1);
    }
  }

  /** A 32-bit unsigned number, most significant byte first. */
  function Be32(b0: byte, b1: byte, b2: byte, b3: byte): (v: nat)
    ensures v < TWO_32
  {
    b0 * 0x100_0000 + b1 * 0x1_0000 + b2 * 0x100 + b3
  }

  /** The four low bytes of v, most significant first. */
  function Be32Bytes(v: nat): (b: seq<byte>)
    ensures |b| == 4
  {
    var v8 := v / 256;
    var v16 := v8 / 256;
    var v24 := v16 / 256;
    [v24 % 256, v16 % 256, v8 % 256, v % 256]
  }

  /** Reassembling the four bytes gives the value modulo 2^32. */
  lemma Be32OfBytes(v: nat)
    ensures var b := Be32Bytes(v); Be32(b[0], b[1], b[2], b[3]) == v % TWO_32
  {
    var v8 := v / 256;
    var v16 := v8 / 256;
    var v24 := v16 / 256;
    var b := Be32Bytes(v);
    var low := Be32(b[0], b[1], b[2], b[3]);
    assert v == (v24 / 256) * TWO_32 + low;
    DivModUnique(v24 / 256, low, TWO_32);
  }

  /** The element sizes the word codec handles: uint32_t and uint64_t. */
  predicate WordSize(es: nat) {
    es == 4 || es == 8
  }

  /** size / es for a word size */
  function Count(size: nat, es: nat): (n: nat)
    requires WordSize(es)
    ensures Span(n, es) <= size < Span(n, es) + es
  {
    if es == 4 then size / 4 else size / 8
  }

  lemma BeNatFour(b: seq<byte>)
    requires |b| == 4
    ensures BeNat(b) == Be32(b[0], b[1], b[2], b[3])
  {
    var b0: nat, b1: nat, b2: nat, b3: nat := b[0], b[1], b[2], b[3];
    assert b[..3][..2] == b[..2] && b[..2][..1] == b[..1] && b[..1][..0] == [];
    assert BeNat(b[..1]) == b0;
    assert BeNat(b[..2]) == b0 * 256 + b1;
    assert BeNat(b[..3]) == (b0 * 256 + b1) * 256 + b2;
    assert BeNat(b) == ((b0 * 256 + b1) * 256 + b2) * 256 + b3;
  }

  /** The four bytes, most significant first, spell the value modulo 2^32. */
  lemma Be32Spells(v: nat)
    ensures BeNat(Be32Bytes(v)) == v % TWO_32
  {
    BeNatFour(Be32Bytes(v));
    Be32OfBytes(v);
  }

  /** Byte k of a number, the least significant being byte 0. */
  lemma {:induction false} LeNatByte(bytes: seq<byte>, k: nat)
    requires k < |bytes|
    ensures LeNat(bytes) / Pow2(8 * k) % 256 == bytes[k]
    decreases k
  {
    if k == 0 {
      DivModUnique(LeNat(bytes[1..]), bytes[0], 256);
    } else {
      LeNatByte(bytes[1..], k - 1);
      Pow2Add(8, 8 * (k - 1));
      Pow2Small();
      DivTwice(LeNat(bytes), 256, Pow2(8 * (k - 1)));
      DivModUnique(LeNat(bytes[1..]), bytes[0], 256);
    }
  }

  /** n * es for a word size */
  function Span(n: nat, es: nat): (size: nat)
    requires WordSize(es)
  {
    if es == 4 then 4 * n else 8 * n
  }

  /** bytes laid over as words of es bytes; an incomplete tail is not a word. */
  function WordsOf(bytes: seq<byte>, es: nat): (ws: seq<nat>)
    requires WordSize(es)
    ensures |ws| == Count(|bytes|, es)
    ensures forall i :: 0 <= i < |ws| ==> ws[i] < Pow2(8 * es)
  {
    seq(Count(|bytes|, es), i requires 0 <= i < Count(|bytes|, es) => WordAt(bytes, es, i))
  }

  function WordAt(bytes: seq<byte>, es: nat, i: nat): (v: nat)
    requires WordSize(es) && i < Count(|bytes|, es)
    ensures v < Pow2(8 * es)
  {
    LeNat(bytes[Span(i, es)..Span(i, es) + es])
  }

  function BytesOf(ws: seq<nat>, es: nat): (bytes: seq<byte>)
    requires WordSize(es)
    ensures |bytes| == Span(|ws|, es)
  {
    if ws == [] then [] else LeBytes(ws[0], es) + BytesOf(ws[1..], es)
  }

  lemma {:induction false} BytesOfSnoc(ws: seq<nat>, v: nat, es: nat)
    requires WordSize(es)
    ensures BytesOf(ws + [v], es) == BytesOf(ws, es) + LeBytes(v, es)
  {
    if ws != [] {
      assert (ws + [v])[1..] == ws[1..] + [v];
      BytesOfSnoc(ws[1..], v, es);
    }
  }

  lemma WordRaw(bytes: seq<byte>, es: nat, i: nat)
    requires WordSize(es) && i < Count(|bytes|, es)
    ensures LeBytes(WordAt(bytes, es, i), es) == bytes[Span(i, es)..Span(i, es) + es]
  {
    LeBytesNat(bytes[Span(i, es)..Span(i, es) + es]);
  }

  lemma OneMoreWord(bytes: seq<byte>, es: nat, i: nat)
    requires WordSize(es) && i < Count(|bytes|, es)
    ensures BytesOf(WordsOf(bytes, es)[..i + 1], es)
         == BytesOf(WordsOf(bytes, es)[..i], es) + LeBytes(WordAt(bytes, es, i), es)
  {
    var ws := WordsOf(bytes, es);
    assert ws[..i + 1] == ws[..i] + [ws[i]];
    BytesOfSnoc(ws[..i], ws[i], es);
  }

  lemma NextWordBytes(bytes: seq<byte>, es: nat, i: nat)
    requires WordSize(es) && i < Count(|bytes|, es)
    ensures Span(i + 1, es) == Span(i, es) + es <= |bytes|
    ensures BytesOf(WordsOf(bytes, es)[..i + 1], es)
         == BytesOf(WordsOf(bytes, es)[..i], es) + bytes[Span(i, es)..Span(i + 1, es)]
  {
    OneMoreWord(bytes, es, i);
    WordRaw(bytes, es, i);
  }

  lemma PrefixSlice(a: seq<byte>, p: nat, q: nat)
    requires p <= q <= |a|
    ensures a[..q] == a[..p] + a[p..q]
  {}

  /** Overlaying words on bytes and laying them back is the identity on whole words. */
  lemma {:induction false} BytesOfWordsOf(bytes: seq<byte>, es: nat, i: nat)
    requires WordSize(es) && i <= Count(|bytes|, es)
    ensures Span(i, es) <= |bytes| && BytesOf(WordsOf(bytes, es)[..i], es) == bytes[..Span(i, es)]
  {
    if i == 0 {
      assert WordsOf(bytes, es)[..0] == [];
    } else {
      BytesOfWordsOf(bytes, es, i - 1);
      NextWordBytes(bytes, es, i - 1);
      PrefixSlice(bytes, Span(i - 1, es), Span(i, es));
    }
  }

  /** Word i of a buffer is made of bytes es * i to es * i + es - 1, the least significant first. */
  lemma WordsSpell(bytes: seq<byte>, es: nat, i: nat, k: nat)
    requires WordSize(es) && k < es && (i + 1) * es <= |bytes|
    ensures i < |WordsOf(bytes, es)| && es * i + k < |bytes|
    ensures WordsOf(bytes, es)[i] / Pow2(8 * k) % 256 == bytes[es * i + k]
  {
    assert Span(i, es) == es * i && Span(i + 1, es) == (i + 1) * es;
    LeNatByte(bytes[Span(i, es)..Span(i, es) + es], k);
  }
}
