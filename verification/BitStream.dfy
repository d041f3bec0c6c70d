/**
 Bit streams, most significant bit first: what bit_writer_t leaves in a buffer
 and what bit_reader_t takes out of it.
 */
module BitStream {
  import opened Arith

  /** The low n bits of v, most significant first: what write_bits(v, n) emits. */
  function BitsOf(v: nat, n: nat): (bits: seq<bool>)
    ensures |bits| == n
  {
    if n == 0 then [] else BitsOf(v / 2, n - 1) + [v % 2 == 1]
  }

  /** The number a bit string spells: what read_bits accumulates. */
  function NatOf(bits: seq<bool>): (v: nat)
    ensures v < Pow2(|bits|)
  {
    if bits == [] then 0
    else 2 * NatOf(bits[..|bits| - 1]) + if bits[|bits| - 1] then 1 else 0
  }

  lemma {:induction false} NatOfBitsOf(v: nat, n: nat)
    requires v < Pow2(n)
    ensures NatOf(BitsOf(v, n)) == v
  {
    if n > 0 {
      NatOfBitsOf(v / 2, n - 1);
      assert BitsOf(v, n)[..n - 1] == BitsOf(v / 2, n - 1);
    }
  }

  /** The k-th bit write_bits emits is bit n-1-k of the value. */
  lemma {:induction false} BitsOfAt(v: nat, n: nat, k: nat)
    requires k < n
    ensures BitsOf(v, n)[k] <==> Shr(v, n - 1 - k) % 2 == 1
    decreases n
  {
    if k < n - 1 { BitsOfAt(v / 2, n - 1, k); }
  }

  /** Bit i of a byte, most significant first. */
  predicate BitOf(b: byte, i: nat)
    requires i < 8
  {
    Shr(b, 7 - i) % 2 == 1
  }

  /** Bit k of a byte string in stream order. */
  predicate BitAt(bytes: seq<byte>, k: nat)
    requires k < 8 * |bytes|
  {
    BitOf(bytes[k / 8], k % 8)
  }

  /** All bits of a byte string in stream order. */
  function Unpack(bytes: seq<byte>): (bits: seq<bool>)
    ensures |bits| == 8 * |bytes|
    ensures forall k :: 0 <= k < |bits| ==> bits[k] == BitAt(bytes, k)
  {
    seq(8 * |bytes|, k requires 0 <= k < 8 * |bytes| => BitAt(bytes, k))
  }

  /** The bytes a bit string of length n occupies, a begun one included. */
  function ByteLen(n: nat): nat {
    n / 8 + if n % 8 > 0 then 1 else 0
  }

  /** Bits 8i..8i+7, false past the end. */
  function Octet(bits: seq<bool>, i: nat): (o: seq<bool>)
    ensures |o| == 8
  {
    seq(8, j requires 0 <= j < 8 => 8 * i + j < |bits| && bits[8 * i + j])
  }

  /** The byte string a writer leaves: bits in order, the last byte padded with zeros. */
  function Pack(bits: seq<bool>): (bytes: seq<byte>)
    ensures |bytes| == ByteLen(|bits|)
  {
    seq(ByteLen(|bits|), i requires 0 <= i < ByteLen(|bits|) => PackByte(bits, i))
  }

  function PackByte(bits: seq<bool>, i: nat): byte {
    Pow2Small();
    NatOf(Octet(bits, i))
  }

  /** bytes carry exactly `bits`, zero-padded to a whole byte. */
  ghost predicate Carries(bytes: seq<byte>, bits: seq<bool>) {
    && |bits| <= 8 * |bytes|
    && (forall k: nat {:trigger BitAt(bytes, k)} :: k < |bits| ==> BitAt(bytes, k) == bits[k])
    && (forall k: nat {:trigger BitAt(bytes, k)} :: |bits| <= k < 8 * ByteLen(|bits|) ==> !BitAt(bytes, k))
  }

  lemma {:induction false} NatOfAt(bits: seq<bool>, i: nat)
    requires i < |bits|
    ensures Shr(NatOf(bits), |bits| - 1 - i) % 2 == (if bits[i] then 1 else 0)
  {
    var n := |bits|;
    if i < n - 1 { NatOfAt(bits[..n - 1], i); }
  }

  /** A byte is determined by its eight bits. */
  lemma ByteEq(a: byte, b: byte)
    requires forall i: nat :: i < 8 ==> BitOf(a, i) == BitOf(b, i)
    ensures a == b
  {
    Pow2Small();
    NatOfBitsOf(a, 8);
    NatOfBitsOf(b, 8);
    forall i: nat | i < 8
      ensures BitsOf(a, 8)[i] == BitsOf(b, 8)[i]
    {
      BitsOfAt(a, 8, i);
      BitsOfAt(b, 8, i);
      assert BitOf(a, i) == BitOf(b, i);
    }
    assert BitsOf(a, 8) == BitsOf(b, 8);
  }

  /** Pack is the one byte string that carries the bits. */
  lemma PackCarries(bits: seq<bool>)
    ensures Carries(Pack(bits), bits)
  {
    var bytes := Pack(bits);
    forall k: nat | k < 8 * ByteLen(|bits|)
      ensures BitAt(bytes, k) == (k < |bits| && bits[k])
    {
      NatOfAt(Octet(bits, k / 8), k % 8);
    }
  }

  lemma CarriesIsPack(bytes: seq<byte>, bits: seq<bool>)
    requires Carries(bytes, bits)
    ensures bytes[..ByteLen(|bits|)] == Pack(bits)
  {
    PackCarries(bits);
    forall i | 0 <= i < ByteLen(|bits|)
      ensures bytes[i] == Pack(bits)[i]
    {
      forall j: nat | j < 8
        ensures BitOf(bytes[i], j) == BitOf(Pack(bits)[i], j)
      {
        var k := 8 * i + j;
        assert k / 8 == i && k % 8 == j;
        assert BitAt(bytes, k) == BitAt(Pack(bits), k);
      }
      ByteEq(bytes[i], Pack(bits)[i]);
    }
  }

  /** Reading back a packed stream: its bits, then only padding. */
  lemma UnpackPack(bits: seq<bool>)
    ensures |bits| <= |Unpack(Pack(bits))|
    ensures Unpack(Pack(bits))[..|bits|] == bits
  {
    PackCarries(bits);
  }

  /** The bits written for a value are its binary digits, the most significant first. */
  lemma BitsSpell(v: nat, n: nat, k: nat)
    requires k < n
    ensures BitsOf(v, n)[k] <==> v / Pow2(n - 1 - k) % 2 == 1
  {
    BitsOfAt(v, n, k);
    ShrDivides(v, n - 1 - k);
  }

  lemma {:induction false} NatOfConcat(a: seq<bool>, b: seq<bool>)
    ensures NatOf(a + b) == NatOf(a) * Pow2(|b|) + NatOf(b)
    decreases |b|
  {
    if b == [] {
      assert a + b == a;
    } else {
      var init := b[..|b| - 1];
      assert (a + b)[..|a + b| - 1] == a + init;
      NatOfConcat(a, init);
      var bit := if b[|b| - 1] then 1 else 0;
      assert NatOf(a + b) == 2 * NatOf(a + init) + bit;
      OneMoreBit(NatOf(a), Pow2(|init|), NatOf(init), bit);
    }
  }

  lemma OneMoreBit(a: nat, p: nat, i: nat, bit: nat)
    ensures 2 * (a * p + i) + bit == a * (2 * p) + (2 * i + bit)
  {}

  /** n clear bits. */
  function Clear(n: nat): (bits: seq<bool>)
    ensures |bits| == n && forall i :: 0 <= i < n ==> !bits[i]
  {
    seq(n, i => false)
  }

  lemma {:induction false} NatOfClear(n: nat)
    ensures NatOf(Clear(n)) == 0
  {
    if n > 0 {
      assert Clear(n)[..n - 1] == Clear(n - 1);
      NatOfClear(n - 1);
    }
  }

  /** Taking the last byte off. */
  lemma PackLast(bits: seq<bool>, m: nat)
    requires |bits| == 8 * m + 8
    ensures Pack(bits) == Pack(bits[..8 * m]) + [PackByte(bits, m)]
    ensures Octet(bits, m) == bits[8 * m..]
  {
    var init := bits[..8 * m];
    assert ByteLen(|bits|) == m + 1 && ByteLen(|init|) == m;
    forall i | 0 <= i < m
      ensures Octet(bits, i) == Octet(init, i)
    {
      assert forall j :: 0 <= j < 8 ==> Octet(bits, i)[j] == Octet(init, i)[j];
    }
  }

  /** Whole bytes, one after the other. */
  lemma {:induction false} PackWhole(bits: seq<bool>, m: nat)
    requires |bits| == 8 * m
    ensures BeNat(Pack(bits)) == NatOf(bits)
  {
    if m > 0 {
      var init, last := bits[..8 * (m - 1)], bits[8 * (m - 1)..];
      PackLast(bits, m - 1);
      PackWhole(init, m - 1);
      var bytes := Pack(bits);
      assert bytes[..|bytes| - 1] == Pack(init);
      assert init + last == bits;
      NatOfConcat(init, last);
      Pow2Small();
    }
  }

  /** Zeros behind the last bit are what the last byte is filled with. */
  lemma PackPadded(bits: seq<bool>, n: nat)
    requires |bits| + n == 8 * ByteLen(|bits|)
    ensures Pack(bits + Clear(n)) == Pack(bits)
  {
    var whole := bits + Clear(n);
    forall i | 0 <= i < ByteLen(|bits|)
      ensures Octet(whole, i) == Octet(bits, i)
    {}
  }

  /** The packed bytes, most significant first, spell the number of the bits with zeros up to the next
      whole byte behind them. */
  lemma PackSpells(bits: seq<bool>)
    ensures var n := (|bits| + 7) / 8;
            |Pack(bits)| == n && BeNat(Pack(bits)) == NatOf(bits) * Pow2(8 * n - |bits|)
  {
    var n := 8 * ByteLen(|bits|) - |bits|;
    assert ByteLen(|bits|) == (|bits| + 7) / 8;
    PackPadded(bits, n);
    PackWhole(bits + Clear(n), ByteLen(|bits|));
    NatOfConcat(bits, Clear(n));
    NatOfClear(n);
  }

  /** The byte with bit k set. */
  function OrBit(b: byte, k: nat): (r: nat)
    requires k < 8
  {
    if Shr(b, k) % 2 == 1 then b else b + Pow2(k)
  }

  /** Adding a clear bit k to x flips exactly that bit. */
  lemma {:induction false} AddBit(x: nat, k: nat, j: nat)
    requires Shr(x, k) % 2 == 0
    ensures (Shr(x + Pow2(k), j) % 2 == 1) == (Shr(x, j) % 2 == 1 || j == k)
    decreases k
  {
    if k == 0 {
      assert (x + 1) / 2 == x / 2;
    } else {
      assert (x + Pow2(k)) / 2 == x / 2 + Pow2(k - 1);
      if j > 0 { AddBit(x / 2, k - 1, j - 1); }
    }
  }

  lemma {:induction false} AddBitBound(x: nat, k: nat, n: nat)
    requires Shr(x, k) % 2 == 0 && k < n && x < Pow2(n)
    ensures x + Pow2(k) < Pow2(n)
    decreases k
  {
    if k == 0 {
      assert Pow2(n) == 2 * Pow2(n - 1);
    } else {
      AddBitBound(x / 2, k - 1, n - 1);
    }
  }

  /** Setting bit k of a byte makes it 1, leaves the other seven alone and stays within the byte. */
  lemma OrBitEffect(b: byte, k: nat)
    requires k < 8
    ensures OrBit(b, k) < 256
    ensures forall j: nat :: j < 8 ==> (Shr(OrBit(b, k), j) % 2 == 1) == (Shr(b, j) % 2 == 1 || j == k)
  {
    if Shr(b, k) % 2 == 0 {
      forall j: nat | j < 8
        ensures (Shr(b + Pow2(k), j) % 2 == 1) == (Shr(b, j) % 2 == 1 || j == k)
      {
        AddBit(b, k, j);
      }
      Pow2Small();
      AddBitBound(b, k, 8);
    }
  }

  /** bit_writer_t over the buffer region that starts at `start`. */
  class BitWriter {
    const buf: array<byte>
    const start: nat
    var bytePos: nat
    var bitPos: nat
    ghost var written: seq<bool>

    constructor (buf: array<byte>, start: nat)
      requires start <= buf.Length
      ensures Valid() && written == [] && this.buf == buf && this.start == start
    {
      this.buf, this.start := buf, start;
      bytePos, bitPos := 0, 0;
      written := [];
    }

    ghost predicate Valid()
      reads this, buf
    {
      && bitPos < 8
      && start <= buf.Length
      && |written| == 8 * bytePos + bitPos
      && Carries(buf[start..], written)
    }

    /** Bits the region can hold. */
    ghost function Capacity(): int {
      8 * (buf.Length - start)
    }

    /** A fresh byte is cleared before its first bit is set; bits fill a byte from the top. */
    method WriteBit(bit: bool)
      requires Valid() && |written| < Capacity()
      modifies this`bytePos, this`bitPos, this`written, buf
      ensures Valid() && written == old(written) + [bit]
      ensures buf[..start] == old(buf[..start])
    {
      ghost var before := buf[start..];
      var at := start + bytePos;
      if bitPos == 0 { buf[at] := 0; }
      ghost var cleared: byte := buf[at];
      if bit {
        OrBitEffect(buf[at], 7 - bitPos);
        buf[at] := OrBit(buf[at], 7 - bitPos);
      }
      WroteBit(before, buf[start..], written, bit, cleared);
      written := written + [bit];
      bitPos := bitPos + 1;
      if bitPos == 8 { bitPos, bytePos := 0, bytePos + 1; }
    }

    /** The low bits of the value, the most significant first. */
    method WriteBits(value: nat, nbits: nat)
      requires Valid() && |written| + nbits <= Capacity()
      modifies this`bytePos, this`bitPos, this`written, buf
      ensures Valid() && written == old(written) + BitsOf(value, nbits)
      ensures buf[..start] == old(buf[..start])
    {
      var i := nbits;
      while i > 0
        invariant 0 <= i <= nbits && Valid()
        invariant written == old(written) + BitsOf(value, nbits)[..nbits - i]
        invariant buf[..start] == old(buf[..start])
      {
        i := i - 1;
        BitsOfAt(value, nbits, nbits - 1 - i);
        WriteBit(Shr(value, i) % 2 == 1);
      }
      assert BitsOf(value, nbits)[..nbits] == BitsOf(value, nbits);
    }
  }

  /** One write_bit step seen from the bits: the next position takes the bit, nothing before it moves. */
  lemma WroteBit(before: seq<byte>, after: seq<byte>, bits: seq<bool>, bit: bool, cleared: byte)
    requires Carries(before, bits) && |after| == |before| && |bits| < 8 * |before|
    requires forall i :: 0 <= i < |before| && i != |bits| / 8 ==> after[i] == before[i]
    requires cleared == if |bits| % 8 == 0 then 0 else before[|bits| / 8]
    requires after[|bits| / 8] == if bit then OrBit(cleared, 7 - |bits| % 8) else cleared
    ensures Carries(after, bits + [bit])
  {
    var n := |bits|;
    OrBitEffect(cleared, 7 - n % 8);
    forall k: nat | k < 8 * ByteLen(n + 1)
      ensures BitAt(after, k) == (if k < n then bits[k] else k == n && bit)
    {
      if k / 8 == n / 8 {
        if n % 8 == 0 {
          ZeroByte(k % 8);
        } else {
          assert BitAt(before, k) == BitOf(cleared, k % 8);
          assert k >= n ==> !BitAt(before, k);
        }
      } else {
        assert BitAt(after, k) == BitAt(before, k);
      }
    }
  }

  lemma ZeroByte(i: nat)
    requires i < 8
    ensures !BitOf(0, i)
  {}

  /** bit_reader_t over src[start..size]. */
  class BitReader {
    const buf: array<byte>
    const start: nat
    ghost const stream: seq<bool>
    var bytePos: nat
    var bitPos: nat

    constructor (buf: array<byte>, start: nat, ghost size: nat)
      requires start <= size <= buf.Length
      ensures Valid() && Pos() == 0 && this.buf == buf && stream == Unpack(buf[start..size])
    {
      this.buf, this.start := buf, start;
      bytePos, bitPos := 0, 0;
      stream := Unpack(buf[start..size]);
    }

    ghost predicate Valid()
      reads this, buf
    {
      && bitPos < 8
      && 8 * start + |stream| <= 8 * buf.Length
      && forall k: nat :: k < |stream| ==> stream[k] == BitOf(buf[start + k / 8], k % 8)
    }

    ghost function Pos(): nat
      reads this
    {
      8 * bytePos + bitPos
    }

    method ReadBit() returns (bit: bool)
      requires Valid() && Pos() < |stream|
      modifies this`bytePos, this`bitPos
      ensures Valid() && Pos() == old(Pos()) + 1 && bit == stream[old(Pos())]
    {
      assert Pos() / 8 == bytePos && Pos() % 8 == bitPos;
      bit := Shr(buf[start + bytePos], 7 - bitPos) % 2 == 1;
      bitPos := bitPos + 1;
      if bitPos == 8 { bitPos, bytePos := 0, bytePos + 1; }
    }

    /** The number spelled by the next nbits bits. */
    method ReadBits(nbits: nat) returns (result: nat)
      requires Valid() && Pos() + nbits <= |stream|
      modifies this`bytePos, this`bitPos
      ensures Valid() && Pos() == old(Pos()) + nbits
      ensures result == NatOf(stream[old(Pos())..old(Pos()) + nbits])
    {
      result := 0;
      ghost var p := Pos();
      for i := 0 to nbits
        invariant Valid() && Pos() == p + i
        invariant result == NatOf(stream[p..p + i])
      {
        var bit := ReadBit();
        result := 2 * result + if bit then 1 else 0;
        assert stream[p..p + i + 1][..i] == stream[p..p + i];
      }
    }
  }
}
