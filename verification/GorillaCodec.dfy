/**
 The Gorilla XOR codec: w-bit words (w at most 64; the source uses 32 and 64) as numbers below 2^w, the
 encoder's bit stream, the decoder, and the theorem that one undoes the other.
 */
module GorillaCodec {
  import opened Arith
  import opened BitStream

  /** Bitwise exclusive or. */
  function Xor(a: nat, b: nat): (x: nat) {
    if a == 0 && b == 0 then 0
    else 2 * Xor(a / 2, b / 2) + if a % 2 != b % 2 then 1 else 0
  }

  /** gorilla_clz on a w-bit word. */
  function Clz(x: nat, w: nat): (n: nat)
    requires x < Pow2(w)
    ensures n <= w && x < Pow2(w - n)
    ensures n < w ==> x >= Pow2(w - n - 1)
    ensures x > 0 ==> n < w
  {
    if w == 0 || x >= Pow2(w - 1) then 0 else 1 + Clz(x, w - 1)
  }

  /** gorilla_ctz on a non-zero word. */
  function Ctz(x: nat): (n: nat)
    requires x > 0
  {
    if x % 2 == 1 then 0 else 1 + Ctz(x / 2)
  }

  /** prev_leading / prev_meaningful; NoBlock is the initial -1 / -1. */
  datatype Block = NoBlock | Block(leading: nat, meaningful: nat)

  ghost predicate BlockFits(blk: Block, w: nat) {
    blk.Block? ==> blk.leading + blk.meaningful <= w
  }

  /** cheaper_to_reuse: the meaningful bits fit the previous block and reusing it is no dearer. */
  predicate Reuses(blk: Block, leading: nat, meaningful: nat) {
    && blk.Block?
    && leading >= blk.leading
    && leading + meaningful <= blk.leading + blk.meaningful
    && 2 + blk.meaningful <= 14 + meaningful
  }

  /** The bits of the word between its leading and its trailing zeros. */
  function Meaningful(x: nat, w: nat): (m: nat)
    requires 0 < x < Pow2(w)
    ensures 0 < m <= w && Clz(x, w) + m + Ctz(x) == w
  {
    ClzCtz(x, w);
    w - Clz(x, w) - Ctz(x)
  }

  /** The bits after the leading 1 when the previous block is reused. */
  function ReusedCode(x: nat, w: nat, blk: Block): (bits: seq<bool>)
    requires blk.Block? && BlockFits(blk, w)
  {
    [true, false] + BitsOf(Shr(x, w - blk.leading - blk.meaningful), blk.meaningful)
  }

  /** The bits of a new block: 6 of leading, 6 of length (64 written as 0), then the payload. */
  function FreshCode(x: nat, leading: nat, meaningful: nat, trailing: nat): (bits: seq<bool>)
    ensures |bits| == 14 + meaningful
  {
    [true, true] + BitsOf(leading, 6) + BitsOf(if meaningful == 64 then 0 else meaningful, 6)
    + BitsOf(Shr(x, trailing), meaningful)
  }

  /** The bits written for one value after the first, and the block remembered afterwards. */
  function ValueBits(w: nat, prev: nat, blk: Block, curr: nat): (r: (seq<bool>, Block))
    requires prev < Pow2(w) && curr < Pow2(w) && BlockFits(blk, w)
    ensures BlockFits(r.1, w)
  {
    var x := Xor(prev, curr);
    XorBound(prev, curr, w);
    if x == 0 then ([false], blk)
    else if Reuses(blk, Clz(x, w), Meaningful(x, w)) then (ReusedCode(x, w, blk), blk)
    else (FreshCode(x, Clz(x, w), Meaningful(x, w), Ctz(x)), Block(Clz(x, w), Meaningful(x, w)))
  }

  ghost predicate WordsFit(ws: seq<nat>, w: nat) {
    forall i :: 0 <= i < |ws| ==> ws[i] < Pow2(w)
  }

  /** The whole bit stream for the values that follow `prev`. */
  function StreamBits(w: nat, prev: nat, blk: Block, ws: seq<nat>): (bits: seq<bool>)
    requires prev < Pow2(w) && WordsFit(ws, w) && BlockFits(blk, w)
    decreases |ws|
  {
    if ws == [] then []
    else
      var (bits, blk') := ValueBits(w, prev, blk, ws[0]);
      bits + StreamBits(w, ws[0], blk', ws[1..])
  }

  /** One decoded value, the block in force after it and the bits consumed. */
  datatype Read = Read(value: nat, blk: Block, used: nat) | Undefined

  /** Undefined is where the source has no defined behaviour: it reads past the
      stream, shifts by a negative count, or reuses a block it never had. */
  function ReadValue(w: nat, prev: nat, blk: Block, bits: seq<bool>): (r: Read)
    ensures r.Read? ==> 0 < r.used <= |bits|
    ensures r.Read? && BlockFits(blk, w) ==> BlockFits(r.blk, w)
  {
    if |bits| < 1 then Undefined
    else if !bits[0] then Read(prev, blk, 1)
    else if |bits| < 2 then Undefined
    else if !bits[1] then
      if blk.NoBlock? then Undefined else ReadPayload(w, prev, blk, bits, 2)
    else if |bits| < 14 then Undefined
    else
      var meaningful := NatOf(bits[8..14]);
      ReadPayload(w, prev, Block(NatOf(bits[2..8]), if meaningful == 0 then 64 else meaningful), bits, 14)
  }

  function ReadPayload(w: nat, prev: nat, blk: Block, bits: seq<bool>, at: nat): (r: Read)
    requires blk.Block? && 0 < at
    ensures r.Read? ==> r.used == at + blk.meaningful <= |bits| && blk.leading + blk.meaningful <= w && r.blk == blk
  {
    if blk.leading + blk.meaningful > w || |bits| < at + blk.meaningful then Undefined
    else
      var trailing := w - blk.leading - blk.meaningful;
      Read(Xor(prev, Shl(NatOf(bits[at..at + blk.meaningful]), trailing)), blk, at + blk.meaningful)
  }

  /** `count` values decoded from a stream, None when the source's behaviour is undefined. */
  function ReadStream(w: nat, prev: nat, blk: Block, bits: seq<bool>, count: nat): (r: Option<seq<nat>>)
    ensures r.Some? ==> |r.value| == count
    decreases count
  {
    if count == 0 then Some([])
    else
      match ReadValue(w, prev, blk, bits)
      case Undefined => None
      case Read(value, blk', used) =>
        match ReadStream(w, value, blk', bits[used..], count - 1)
        case None => None
        case Some(rest) => Some([value] + rest)
  }

  // ---- exclusive or, leading and trailing zeros ----

  lemma {:induction false} XorBound(a: nat, b: nat, n: nat)
    requires a < Pow2(n) && b < Pow2(n)
    ensures Xor(a, b) < Pow2(n)
  {
    if n > 0 { XorBound(a / 2, b / 2, n - 1); }
  }

  lemma {:induction false} XorCancel(a: nat, b: nat)
    ensures Xor(a, Xor(a, b)) == b
  {
    if a != 0 || b != 0 {
      XorCancel(a / 2, b / 2);
      var x := Xor(a, b);
      assert x / 2 == Xor(a / 2, b / 2) && x % 2 == if a % 2 != b % 2 then 1 else 0;
    }
  }

  lemma {:induction false} XorZero(a: nat, b: nat)
    ensures Xor(a, b) == 0 <==> a == b
  {
    if a != 0 || b != 0 { XorZero(a / 2, b / 2); }
  }

  lemma {:induction false} CtzDivides(x: nat)
    requires x > 0
    ensures Divides2(x, Ctz(x)) && x >= Pow2(Ctz(x))
  {
    if x % 2 == 0 {
      CtzDivides(x / 2);
      ShlShrHalf(x, Ctz(x));
    }
  }

  lemma ClzCtz(x: nat, w: nat)
    requires 0 < x < Pow2(w)
    ensures Clz(x, w) + Ctz(x) < w
  {
    CtzDivides(x);
    if Ctz(x) >= w - Clz(x, w) { Pow2Mono(w - Clz(x, w), Ctz(x)); }
  }

  /** A word whose ones lie in bits t..t+m-1 survives the trip through m shifted-down bits. */
  lemma PayloadTrip(x: nat, t: nat, m: nat)
    requires Divides2(x, t) && x < Pow2(t + m)
    ensures Shl(NatOf(BitsOf(Shr(x, t), m)), t) == x
  {
    ShrBound(x, t, m);
    NatOfBitsOf(Shr(x, t), m);
  }

  // ---- round trip ----

  /** Shifting the payload back and xoring it with the previous value gives the encoder's current one. */
  lemma PayloadValue(prev: nat, curr: nat, x: nat, t: nat, m: nat)
    requires x == Xor(prev, curr) && Divides2(x, t) && x < Pow2(t + m)
    ensures Xor(prev, Shl(NatOf(BitsOf(Shr(x, t), m)), t)) == curr
  {
    PayloadTrip(x, t, m);
    XorCancel(prev, curr);
  }

  /** What the decoder makes of a "same block" value, whatever its payload. */
  lemma ReadReused(w: nat, prev: nat, blk: Block, payload: seq<bool>, rest: seq<bool>)
    requires blk.Block? && blk.leading + blk.meaningful <= w && |payload| == blk.meaningful
    ensures ReadValue(w, prev, blk, [true, false] + payload + rest)
         == Read(Xor(prev, Shl(NatOf(payload), w - blk.leading - blk.meaningful)), blk, 2 + |payload|)
  {
    var all := [true, false] + payload + rest;
    assert all[2..2 + blk.meaningful] == payload;
  }

  /** What the decoder makes of a "new block" value; a length code of 0 stands for 64. */
  lemma ReadFresh(w: nat, prev: nat, blk: Block, leading: nat, m: nat, t: nat,
                  l: seq<bool>, c: seq<bool>, payload: seq<bool>, rest: seq<bool>)
    requires w <= 64 && leading + m + t == w && m > 0
    requires |l| == 6 && NatOf(l) == leading && |c| == 6 && NatOf(c) == (if m == 64 then 0 else m) && |payload| == m
    ensures ReadValue(w, prev, blk, [true, true] + l + c + payload + rest)
         == Read(Xor(prev, Shl(NatOf(payload), t)), Block(leading, m), 14 + m)
  {
    FreshFields(l, c, payload, rest);
  }

  lemma FreshFields(l: seq<bool>, c: seq<bool>, payload: seq<bool>, rest: seq<bool>)
    requires |l| == 6 && |c| == 6
    ensures var all := [true, true] + l + c + payload + rest;
            all[0] && all[1] && all[2..8] == l && all[8..14] == c && all[14..14 + |payload|] == payload
  {}

  /** Fitting the previous block: the ones of x lie inside it. */
  lemma InsideBlock(w: nat, blk: Block, x: nat, t: nat)
    requires blk.Block? && blk.leading + blk.meaningful + t == w && 0 < x < Pow2(w)
    requires Reuses(blk, Clz(x, w), Meaningful(x, w))
    ensures Divides2(x, t) && x < Pow2(t + blk.meaningful)
  {
    assert Divides2(x, t) by {
      CtzDivides(x);
      Divides2Down(x, t, Ctz(x));
    }
    Pow2Mono(w - Clz(x, w), w - blk.leading);
  }

  lemma ReusedTrip(w: nat, prev: nat, blk: Block, curr: nat, x: nat, t: nat, rest: seq<bool>)
    requires x == Xor(prev, curr) && blk.Block? && blk.leading + blk.meaningful + t == w
    requires Divides2(x, t) && x < Pow2(t + blk.meaningful)
    ensures ReadValue(w, prev, blk, ReusedCode(x, w, blk) + rest) == Read(curr, blk, 2 + blk.meaningful)
  {
    var payload := BitsOf(Shr(x, t), blk.meaningful);
    ReadReused(w, prev, blk, payload, rest);
    assert Xor(prev, Shl(NatOf(payload), t)) == curr by {
      PayloadValue(prev, curr, x, t, blk.meaningful);
    }
  }

  /** A number below 64 survives six bits. */
  lemma SixBits(v: nat)
    requires v < 64
    ensures NatOf(BitsOf(v, 6)) == v
  {
    assert Pow2(6) == 64;
    NatOfBitsOf(v, 6);
  }

  lemma FreshTrip(w: nat, prev: nat, blk: Block, curr: nat, x: nat, leading: nat, m: nat, t: nat, rest: seq<bool>)
    requires w <= 64 && x == Xor(prev, curr) && leading + m + t == w && m > 0
    requires Divides2(x, t) && x < Pow2(t + m)
    ensures ReadValue(w, prev, blk, FreshCode(x, leading, m, t) + rest) == Read(curr, Block(leading, m), 14 + m)
  {
    var code := if m == 64 then 0 else m;
    SixBits(leading);
    SixBits(code);
    PayloadValue(prev, curr, x, t, m);
    ReadFresh(w, prev, blk, leading, m, t, BitsOf(leading, 6), BitsOf(code, 6), BitsOf(Shr(x, t), m), rest);
  }

  lemma ReadSame(w: nat, prev: nat, blk: Block, rest: seq<bool>)
    ensures ReadValue(w, prev, blk, [false] + rest) == Read(prev, blk, 1)
  {
    assert ([false] + rest)[0] == false;
  }

  lemma ReadBackReused(w: nat, prev: nat, blk: Block, curr: nat, x: nat, rest: seq<bool>)
    requires x == Xor(prev, curr) && 0 < x < Pow2(w) && BlockFits(blk, w) && Reuses(blk, Clz(x, w), Meaningful(x, w))
    ensures ReadValue(w, prev, blk, ReusedCode(x, w, blk) + rest) == Read(curr, blk, 2 + blk.meaningful)
  {
    var t := w - blk.leading - blk.meaningful;
    InsideBlock(w, blk, x, t);
    ReusedTrip(w, prev, blk, curr, x, t, rest);
  }

  lemma ReadBackFresh(w: nat, prev: nat, blk: Block, curr: nat, x: nat, rest: seq<bool>)
    requires w <= 64 && x == Xor(prev, curr) && 0 < x < Pow2(w)
    ensures ReadValue(w, prev, blk, FreshCode(x, Clz(x, w), Meaningful(x, w), Ctz(x)) + rest)
         == Read(curr, Block(Clz(x, w), Meaningful(x, w)), 14 + Meaningful(x, w))
  {
    var leading, m, t := Clz(x, w), Meaningful(x, w), Ctz(x);
    FreshBlock(x, w, leading, m, t);
    FreshTrip(w, prev, blk, curr, x, leading, m, t, rest);
  }

  /** The ones of x lie in the meaningful bits between its leading and its trailing zeros. */
  lemma FreshBlock(x: nat, w: nat, leading: nat, m: nat, t: nat)
    requires 0 < x < Pow2(w) && leading == Clz(x, w) && m == Meaningful(x, w) && t == Ctz(x)
    ensures leading + m + t == w && m > 0 && Divides2(x, t) && x < Pow2(t + m)
  {
    CtzDivides(x);
    assert t + m == w - leading;
  }

  /** Decoding the bits of one value gives the value back and consumes exactly those bits,
      whatever follows, and leaves decoder and encoder with the same block. */
  lemma ReadValueBits(w: nat, prev: nat, blk: Block, curr: nat, rest: seq<bool>)
    requires w <= 64
    requires prev < Pow2(w) && curr < Pow2(w) && BlockFits(blk, w)
    ensures var (bits, blk') := ValueBits(w, prev, blk, curr);
            ReadValue(w, prev, blk, bits + rest) == Read(curr, blk', |bits|)
  {
    var x := Xor(prev, curr);
    XorBound(prev, curr, w);
    if x == 0 {
      XorZero(prev, curr);
      ReadSame(w, prev, blk, rest);
    } else if Reuses(blk, Clz(x, w), Meaningful(x, w)) {
      ReadBackReused(w, prev, blk, curr, x, rest);
    } else {
      ReadBackFresh(w, prev, blk, curr, x, rest);
    }
  }

  /** Gorilla round trip on bit streams: every word sequence is read back, with any padding after it. */
  lemma {:induction false} ReadStreamBits(w: nat, prev: nat, blk: Block, ws: seq<nat>, pad: seq<bool>)
    requires w <= 64
    requires prev < Pow2(w) && WordsFit(ws, w) && BlockFits(blk, w)
    ensures ReadStream(w, prev, blk, StreamBits(w, prev, blk, ws) + pad, |ws|) == Some(ws)
    decreases |ws|
  {
    if ws != [] {
      var (bits, blk') := ValueBits(w, prev, blk, ws[0]);
      var rest := StreamBits(w, ws[0], blk', ws[1..]) + pad;
      assert StreamBits(w, prev, blk, ws) + pad == bits + rest;
      ReadValueBits(w, prev, blk, ws[0], rest);
      assert (bits + rest)[|bits|..] == rest;
      ReadStreamBits(w, ws[0], blk', ws[1..], pad);
      assert [ws[0]] + ws[1..] == ws;
    }
  }

  /** Moving one value from what is still to be written to what is written. */
  lemma StreamStep(w: nat, prev: nat, blk: Block, ws: seq<nat>, written: seq<bool>, all: seq<bool>)
    requires prev < Pow2(w) && WordsFit(ws, w) && BlockFits(blk, w) && ws != []
    requires all == written + StreamBits(w, prev, blk, ws)
    ensures var (bits, blk') := ValueBits(w, prev, blk, ws[0]);
            |written + bits| <= |all| && all == written + bits + StreamBits(w, ws[0], blk', ws[1..])
  {
    var (bits, blk') := ValueBits(w, prev, blk, ws[0]);
    assert written + (bits + StreamBits(w, ws[0], blk', ws[1..]))
        == written + bits + StreamBits(w, ws[0], blk', ws[1..]);
  }

  /** Each value costs one bit, or at most 14 plus its own meaningful bits. */
  lemma ValueCost(w: nat, prev: nat, blk: Block, curr: nat)
    requires w <= 64
    requires prev < Pow2(w) && curr < Pow2(w) && BlockFits(blk, w)
    ensures var x := Xor(prev, curr); var bits := ValueBits(w, prev, blk, curr).0;
            if x == 0 then |bits| == 1
            else x < Pow2(w) && |bits| <= 14 + Meaningful(x, w) && 2 < |bits| <= 14 + w
  {
    XorBound(prev, curr, w);
  }
}
