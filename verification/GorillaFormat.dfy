/**
 What a Gorilla encoding looks like, bit by bit and byte by byte: the code each value is written in, how
 codes follow one another, and the header, stated on plain numbers.
 */
module GorillaFormat {
  import opened Arith
  import opened Memory
  import opened BitStream
  import opened GorillaCodec
  import opened Gorilla
  import opened GorillaBound

  // ---- differences ----

  lemma {:induction false} XorShr(a: nat, b: nat, k: nat)
    ensures Shr(Xor(a, b), k) == Xor(Shr(a, k), Shr(b, k))
    decreases k
  {
    if k > 0 {
      assert Xor(a, b) / 2 == Xor(a / 2, b / 2);
      XorShr(a / 2, b / 2, k - 1);
    }
  }

  lemma XorParity(a: nat, b: nat)
    ensures Xor(a, b) % 2 == (a + b) % 2
  {
    SumParity(a, b);
    if a != 0 || b != 0 {
      var bit := if a % 2 != b % 2 then 1 else 0;
      LowBit(Xor(a / 2, b / 2), bit);
    }
  }

  lemma SumParity(a: nat, b: nat)
    ensures (a + b) % 2 == if a % 2 != b % 2 then 1 else 0
  {}

  lemma LowBit(h: nat, bit: nat)
    requires bit < 2
    ensures (2 * h + bit) % 2 == bit
  {}

  /** Bit k of the difference is the sum of the two bits k without its carry. */
  lemma XorBits(a: nat, b: nat, k: nat)
    ensures Xor(a, b) / Pow2(k) % 2 == (a / Pow2(k) + b / Pow2(k)) % 2
  {
    XorShr(a, b, k);
    ShrDivides(Xor(a, b), k);
    ShrDivides(a, k);
    ShrDivides(b, k);
    XorParity(Shr(a, k), Shr(b, k));
  }

  lemma {:induction false} BitsDetermine(x: nat, y: nat, n: nat)
    requires x < Pow2(n) && y < Pow2(n)
    requires forall k: nat :: k < n ==> Shr(x, k) % 2 == Shr(y, k) % 2
    ensures x == y
  {
    if n > 0 {
      assert Shr(x, 0) % 2 == Shr(y, 0) % 2;
      forall k: nat | k < n - 1
        ensures Shr(x / 2, k) % 2 == Shr(y / 2, k) % 2
      {
        assert Shr(x, k + 1) % 2 == Shr(y, k + 1) % 2;
      }
      BitsDetermine(x / 2, y / 2, n - 1);
    }
  }

  /** x has one bits exactly where the two words differ. */
  ghost predicate Differs(w: nat, a: nat, b: nat, x: nat) {
    x < Pow2(w) && forall k: nat :: k < w ==> x / Pow2(k) % 2 == (a / Pow2(k) + b / Pow2(k)) % 2
  }

  lemma DifferenceIsXor(w: nat, a: nat, b: nat, x: nat)
    requires a < Pow2(w) && b < Pow2(w) && Differs(w, a, b, x)
    ensures x == Xor(a, b)
  {
    XorBound(a, b, w);
    hide Xor, Pow2, Shr;
    forall k: nat | k < w
      ensures Shr(x, k) % 2 == Shr(Xor(a, b), k) % 2
    {
      DifferenceBit(w, a, b, x, k);
    }
    BitsDetermine(x, Xor(a, b), w);
  }

  lemma DifferenceBit(w: nat, a: nat, b: nat, x: nat, k: nat)
    requires Differs(w, a, b, x) && k < w
    ensures Shr(x, k) % 2 == Shr(Xor(a, b), k) % 2
  {
    hide Xor, Pow2, Shr;
    assert x / Pow2(k) % 2 == (a / Pow2(k) + b / Pow2(k)) % 2;
    XorBits(a, b, k);
    ShrDivides(x, k);
    ShrDivides(Xor(a, b), k);
  }

  /** x is an odd number q' = 2 * q + 1 of m bits behind l leading zeros and before t trailing ones. */
  ghost predicate Shape(w: nat, x: nat, l: nat, m: nat, t: nat, q: nat) {
    && l + m + t == w && 0 < m
    && Pow2(w - l - 1) <= x < Pow2(w - l)
    && x == (2 * q + 1) * Pow2(t)
  }

  lemma {:induction false} CtzOf(x: nat, t: nat, q: nat)
    requires x == (2 * q + 1) * Pow2(t)
    ensures x > 0 && Ctz(x) == t
  {
    var p := Pow2(t);
    MulMono(1, p, 2 * q + 1);
    if t > 0 {
      var h := (2 * q + 1) * Pow2(t - 1);
      TwiceProduct(2 * q + 1, Pow2(t - 1));
      assert x == 2 * h;
      CtzOf(h, t - 1, q);
    }
  }

  lemma TwiceProduct(a: nat, p: nat)
    ensures a * (2 * p) == 2 * (a * p)
  {}

  lemma {:induction false} OddPart(x: nat) returns (q: nat)
    requires x > 0
    ensures x == (2 * q + 1) * Pow2(Ctz(x))
  {
    if x % 2 == 1 {
      q := x / 2;
    } else {
      q := OddPart(x / 2);
      TwiceProduct(2 * q + 1, Pow2(Ctz(x / 2)));
    }
  }

  /** Every non-zero difference has a shape. */
  lemma EveryShape(w: nat, x: nat) returns (l: nat, m: nat, t: nat, q: nat)
    requires 0 < x < Pow2(w)
    ensures Shape(w, x, l, m, t, q)
  {
    l, m, t := Clz(x, w), Meaningful(x, w), Ctz(x);
    q := OddPart(x);
  }

  lemma ShapeIs(w: nat, x: nat, l: nat, m: nat, t: nat, q: nat)
    requires Shape(w, x, l, m, t, q)
    ensures 0 < x < Pow2(w) && Clz(x, w) == l && Meaningful(x, w) == m && Ctz(x) == t
  {
    CtzOf(x, t, q);
    BlockOf(w, x, l, t);
  }

  // ---- the code of one value ----

  lemma FreshParts(x: nat, l: nat, m: nat, t: nat)
    ensures var bits := FreshCode(x, l, m, t);
            && bits[0] && bits[1]
            && bits[2..8] == BitsOf(l, 6) && bits[8..14] == BitsOf(if m == 64 then 0 else m, 6)
            && bits[14..] == BitsOf(Shr(x, t), m)
  {
    hide BitsOf, Shr;
    var bits := FreshCode(x, l, m, t);
    FreshFields(BitsOf(l, 6), BitsOf(if m == 64 then 0 else m, 6), BitsOf(Shr(x, t), m), []);
    assert bits + [] == bits && bits[14..14 + m] == bits[14..];
  }

  /** A new block: two ones, six bits of leading zeros, six of length, then the odd number. */
  lemma FreshSpelt(w: nat, x: nat, l: nat, m: nat, t: nat, q: nat)
    requires w <= 64 && Shape(w, x, l, m, t, q)
    ensures var bits := FreshCode(x, l, m, t);
            && bits[0] && bits[1]
            && NatOf(bits[2..8]) == l && NatOf(bits[8..14]) == m % 64
            && NatOf(bits[14..]) * Pow2(t) == x
  {
    hide *;
    ShapeParts(w, x, l, m, t, q);
    FreshParts(x, l, m, t);
    PayloadSpelt(x, t, m);
    SixBits(l);
    SixBits(m % 64);
  }

  lemma ShapeParts(w: nat, x: nat, l: nat, m: nat, t: nat, q: nat)
    requires w <= 64 && Shape(w, x, l, m, t, q)
    ensures l < 64 && (if m == 64 then 0 else m) == m % 64
    ensures Divides2(x, t) && x < Pow2(t + m)
  {
    ShapeIs(w, x, l, m, t, q);
    FreshBlock(x, w, l, m, t);
  }

  lemma PayloadSpelt(x: nat, t: nat, m: nat)
    requires Divides2(x, t) && x < Pow2(t + m)
    ensures NatOf(BitsOf(Shr(x, t), m)) * Pow2(t) == x
  {
    PayloadTrip(x, t, m);
    ShlMultiplies(NatOf(BitsOf(Shr(x, t), m)), t);
  }

  lemma InsideShape(w: nat, x: nat, blk: Block, l: nat, m: nat, below: nat, t: nat, q: nat)
    requires blk.Block? && blk.leading + blk.meaningful + below == w
    requires Shape(w, x, l, m, t, q) && Reuses(blk, l, m)
    ensures Divides2(x, below) && x < Pow2(below + blk.meaningful)
  {
    ShapeIs(w, x, l, m, t, q);
    InsideBlock(w, blk, x, below);
  }

  /** The block in force: a one, a zero, then the bits of x inside the block. */
  lemma ReusedSpelt(w: nat, x: nat, blk: Block, l: nat, m: nat, below: nat, t: nat, q: nat)
    requires blk.Block? && blk.leading + blk.meaningful + below == w
    requires Shape(w, x, l, m, t, q) && Reuses(blk, l, m)
    ensures var bits := ReusedCode(x, w, blk);
            |bits| == 2 + blk.meaningful && bits[0] && !bits[1] && NatOf(bits[2..]) * Pow2(below) == x
  {
    InsideShape(w, x, blk, l, m, below, t, q);
    hide NatOf, BitsOf, Pow2, Shr, Shape, Reuses, Divides2;
    PayloadSpelt(x, below, blk.meaningful);
    var payload := BitsOf(Shr(x, below), blk.meaningful);
    assert ([true, false] + payload)[2..] == payload;
  }

  /** The difference fits the block in force. */
  predicate Fits(blk: Block, l: nat, m: nat) {
    blk.Block? && blk.leading <= l && l + m <= blk.leading + blk.meaningful
  }

  function Min(a: nat, b: nat): (r: nat)
    ensures r <= a && r <= b && (r == a || r == b)
  {
    if a <= b then a else b
  }

  /** The code of a value that differs from its predecessor. With l leading zeros and m bits up to the last
      one, and a block in force that contains them, the cheaper code is written, the block's own on a tie;
      otherwise a new block is opened. The second bit tells which, and which block is in force afterwards. */
  lemma ChosenCode(w: nat, prev: nat, blk: Block, curr: nat, x: nat, l: nat, m: nat, t: nat, q: nat)
    requires w <= 64 && prev < Pow2(w) && curr < Pow2(w) && BlockFits(blk, w)
    requires Differs(w, prev, curr, x) && Shape(w, x, l, m, t, q)
    ensures var (bits, blk') := ValueBits(w, prev, blk, curr);
            && |bits| >= 2 && bits[0]
            && (if Fits(blk, l, m) then
                  |bits| == Min(2 + blk.meaningful, 14 + m) && (bits[1] <==> 14 + m < 2 + blk.meaningful)
                else
                  |bits| == 14 + m && bits[1])
            && (if bits[1] then
                  && blk' == Block(l, m)
                  && NatOf(bits[2..8]) == l && NatOf(bits[8..14]) == m % 64
                  && NatOf(bits[14..]) * Pow2(t) == x
                else
                  blk' == blk && NatOf(bits[2..]) * Pow2(w - blk.leading - blk.meaningful) == x)
  {
    ChosenBits(w, prev, blk, curr, x, l, m, t, q);
    hide ValueBits, ReusedCode, FreshCode, NatOf, Pow2, Differs, Shape;
    if Reuses(blk, l, m) {
      ReusedSpelt(w, x, blk, l, m, w - blk.leading - blk.meaningful, t, q);
    } else {
      FreshSpelt(w, x, l, m, t, q);
    }
  }

  lemma ChosenBits(w: nat, prev: nat, blk: Block, curr: nat, x: nat, l: nat, m: nat, t: nat, q: nat)
    requires prev < Pow2(w) && curr < Pow2(w) && BlockFits(blk, w)
    requires Differs(w, prev, curr, x) && Shape(w, x, l, m, t, q)
    ensures ValueBits(w, prev, blk, curr)
         == if Reuses(blk, l, m) then (ReusedCode(x, w, blk), blk) else (FreshCode(x, l, m, t), Block(l, m))
  {
    DifferenceIsXor(w, prev, curr, x);
    ShapeIs(w, x, l, m, t, q);
    hide ReusedCode, FreshCode, Pow2, Differs, Shape, Clz, Ctz, Xor;
  }

  /** A value equal to its predecessor is one zero bit and leaves the block alone. */
  lemma SameCode(w: nat, prev: nat, blk: Block)
    requires prev < Pow2(w) && BlockFits(blk, w)
    ensures ValueBits(w, prev, blk, prev) == ([false], blk)
  {
    XorZero(prev, prev);
  }

  // ---- the stream of codes ----

  /** The block in force after the values ws. */
  function BlockAfter(w: nat, prev: nat, blk: Block, ws: seq<nat>): (r: Block)
    requires prev < Pow2(w) && WordsFit(ws, w) && BlockFits(blk, w)
    ensures BlockFits(r, w)
    decreases |ws|
  {
    if ws == [] then blk else BlockAfter(w, ws[0], ValueBits(w, prev, blk, ws[0]).1, ws[1..])
  }

  /** The word a value is compared with: the one before it. */
  function Predecessor(prev: nat, ws: seq<nat>): (p: nat) {
    if ws == [] then prev else ws[|ws| - 1]
  }

  /** One more value adds its own code, against the word and with the block left by the ones before it. */
  lemma {:induction false} StreamSnoc(w: nat, prev: nat, blk: Block, ws: seq<nat>, v: nat)
    requires prev < Pow2(w) && WordsFit(ws, w) && v < Pow2(w) && BlockFits(blk, w)
    ensures var (bits, blk') := ValueBits(w, Predecessor(prev, ws), BlockAfter(w, prev, blk, ws), v);
            && StreamBits(w, prev, blk, ws + [v]) == StreamBits(w, prev, blk, ws) + bits
            && BlockAfter(w, prev, blk, ws + [v]) == blk'
    decreases |ws|
  {
    hide ValueBits;
    var all := ws + [v];
    var (head, blk') := ValueBits(w, prev, blk, all[0]);
    assert StreamBits(w, prev, blk, all) == head + StreamBits(w, all[0], blk', all[1..]);
    if ws == [] {
      assert all[1..] == [] && head + [] == head && [] + head == head;
    } else {
      assert all[0] == ws[0] && all[1..] == ws[1..] + [v];
      StreamSnoc(w, ws[0], blk', ws[1..], v);
      var last := ValueBits(w, Predecessor(prev, ws), BlockAfter(w, prev, blk, ws), v).0;
      var middle := StreamBits(w, ws[0], blk', ws[1..]);
      assert head + (middle + last) == (head + middle) + last;
    }
  }

  // ---- header and body ----

  lemma CountSpelt(src: seq<byte>)
    requires |src| >= 5
    ensures CountOf(src) == BeNat(src[1..5])
  {
    BeNatFour(src[1..5]);
  }

  /** The element size, the word count in four bytes, the most significant first, the first word as it is,
      and the bits from the top of the next byte down, filled up with zeros to a whole byte. */
  ghost predicate LaidOut(out: seq<byte>, es: nat, count: nat, first: seq<byte>, bits: seq<bool>) {
    var n := (|bits| + 7) / 8;
    && |first| == es
    && |out| == 5 + es + n
    && out[0] == es
    && BeNat(out[1..5]) == count % TWO_32
    && out[5..5 + es] == first
    && BeNat(out[5 + es..]) == NatOf(bits) * Pow2(8 * n - |bits|)
  }

  lemma PartsLaidOut(out: seq<byte>, es: nat, count: nat, first: seq<byte>, bits: seq<bool>)
    requires WordSize(es) && |first| == es && out == Header(es, count) + (first + Pack(bits))
    ensures LaidOut(out, es, count, first, bits)
  {
    var h, stream := Header(es, count), Pack(bits);
    assert h[0] == es && h[1..] == Be32Bytes(count);
    hide BeNat, NatOf, Pow2, Header, Pack, Be32Bytes;
    Be32Spells(count);
    PackSpells(bits);
    LayoutParts(h, first, stream);
  }

  /** An encoding is made of the whole words of the data: nothing when there is none, else the parts above
      with the codes of the words after the first. */
  lemma EncodeLayout(params: seq<nat>, es: nat, data: seq<byte>)
    requires params != [] && params[0] == es && (es == 4 || es == 8)
    ensures var out, ws := Encode(params, data), WordsOf(data, es);
            && |ws| == |data| / es
            && (ws == [] ==> out == [])
            && (ws != [] ==>
              |data| >= es && LaidOut(out, es, |ws|, data[..es], StreamBits(8 * es, ws[0], NoBlock, ws[1..])))
  {
    ThreeParts(params, es, data);
    hide *;
    var ws := WordsOf(data, es);
    if ws != [] {
      PartsLaidOut(Encode(params, data), es, |ws|, data[..es], StreamBits(8 * es, ws[0], NoBlock, ws[1..]));
    }
  }

  lemma ThreeParts(params: seq<nat>, es: nat, data: seq<byte>)
    requires params != [] && params[0] == es && (es == 4 || es == 8)
    ensures var out, ws := Encode(params, data), WordsOf(data, es);
            && |ws| == |data| / es
            && (ws == [] ==> out == [])
            && (ws != [] ==>
              var bits := StreamBits(8 * es, ws[0], NoBlock, ws[1..]);
              |data| >= es && out == Header(es, |ws|) + (data[..es] + Pack(bits)))
  {
    hide StreamBits, Pack, Be32Bytes;
    if es == 4 {} else {}
  }

  lemma LayoutParts(h: seq<byte>, first: seq<byte>, stream: seq<byte>)
    requires |h| == 5
    ensures var out := h + (first + stream);
            && out[0] == h[0] && out[1..5] == h[1..]
            && out[5..5 + |first|] == first && out[5 + |first|..] == stream
  {}
}
