/** Powers of two, bytes and the small arithmetic the codecs lean on. */
module Arith {

  /** One byte of memory (the source's uint8_t / std::byte). */
  type byte = x: int | 0 <= x < 256 witness 0

  datatype Option<+T> = None | Some(value: T)

  const TWO_31: nat := 0x8000_0000
  const TWO_32: nat := 0x1_0000_0000
  const TWO_64: nat := 0x1_0000_0000_0000_0000

  function Pow2(n: nat): (r: nat)
    ensures r >= 1
  {
    if n == 0 then 1 else 2 * Pow2(n - 1)
  }

  lemma {:induction false} Pow2Add(a: nat, b: nat)
    ensures Pow2(a + b) == Pow2(a) * Pow2(b)
    decreases a
  {
    if a > 0 {
      Pow2Add(a - 1, b);
      assert Pow2(a) * Pow2(b) == 2 * (Pow2(a - 1) * Pow2(b));
    }
  }

  lemma {:induction false} Pow2Mono(a: nat, b: nat)
    requires a <= b
    ensures Pow2(a) <= Pow2(b)
    decreases b
  {
    if a < b { Pow2Mono(a, b - 1); }
  }

  lemma Pow2Small()
    ensures Pow2(6) == 64 && Pow2(7) == 128 && Pow2(8) == 256
  {}

  lemma Pow2Large()
    ensures Pow2(16) == 65536 && Pow2(32) == TWO_32 && Pow2(64) == TWO_64
  {
    assert Pow2(8) == 256;
    Pow2Add(8, 8);
    Pow2Add(16, 16);
    Pow2Add(32, 32);
  }

  lemma MulMono(a: nat, b: nat, k: nat)
    requires a <= b
    ensures a * k <= b * k
  {}

  lemma MulSucc(n: nat, c: nat)
    ensures (n + 1) * c == n * c + c
  {}

  /** Quotient and remainder are unique. */
  lemma DivModUnique(q: nat, r: nat, d: nat)
    requires 0 <= r < d
    ensures (q * d + r) / d == q && (q * d + r) % d == r
  {
    var x := q * d + r;
    var q', r' := x / d, x % d;
    assert x == q' * d + r';
    if q' < q {
      MulMono(q' + 1, q, d);
      assert false;
    } else if q' > q {
      MulMono(q + 1, q', d);
      assert false;
    }
  }

  /** Shift right by k. */
  function Shr(x: nat, k: nat): (r: nat)
    ensures r <= x
    decreases k
  {
    if k == 0 then x else Shr(x / 2, k - 1)
  }

  /** Shift left by k, on unbounded numbers. */
  function Shl(x: nat, k: nat): (r: nat)
    ensures r >= x
  {
    if k == 0 then x else 2 * Shl(x, k - 1)
  }

  lemma {:induction false} ShrBound(x: nat, k: nat, n: nat)
    requires x < Pow2(k + n)
    ensures Shr(x, k) < Pow2(n)
    decreases k
  {
    if k > 0 { ShrBound(x / 2, k - 1, n); }
  }

  lemma {:induction false} ShlShrHalf(x: nat, k: nat)
    requires k > 0
    ensures Shl(Shr(x, k), k) == 2 * Shl(Shr(x / 2, k - 1), k - 1)
  {}

  /** The bits shifted out are all zero. */
  predicate Divides2(x: nat, k: nat) {
    Shl(Shr(x, k), k) == x
  }

  lemma {:induction false} Divides2Down(x: nat, s: nat, t: nat)
    requires s <= t && Divides2(x, t)
    ensures Divides2(x, s)
    decreases t
  {
    if s > 0 {
      ShlShrHalf(x, t);
      Divides2Down(x / 2, s - 1, t - 1);
      ShlShrHalf(x, s);
    }
  }

  lemma DivMono(x: nat, y: nat, d: nat)
    requires d > 0 && x <= y
    ensures x / d <= y / d
  {
    if x / d > y / d {
      MulMono(y / d + 1, x / d, d);
      assert false;
    }
  }

  lemma AddMultiple(x: nat, c: nat, d: nat)
    requires d > 0
    ensures (x + c * d) / d == x / d + c && (x + c * d) % d == x % d
  {
    var q, r := x / d, x % d;
    assert x + c * d == (q + c) * d + r;
    DivModUnique(q + c, r, d);
  }

  /** The number bytes spell, most significant first. */
  function BeNat(bytes: seq<byte>): (v: nat) {
    if bytes == [] then 0 else BeNat(bytes[..|bytes| - 1]) * 256 + bytes[|bytes| - 1]
  }

  /** Bit k, in plain arithmetic. */
  lemma {:induction false} ShrDivides(x: nat, k: nat)
    ensures Shr(x, k) == x / Pow2(k)
    decreases k
  {
    if k > 0 {
      ShrDivides(x / 2, k - 1);
      DivTwice(x, 2, Pow2(k - 1));
    }
  }

  lemma DivTwice(x: nat, a: nat, b: nat)
    requires a > 0 && b > 0
    ensures a * b > 0 && (x / a) / b == x / (a * b)
  {
    var y, z := x / a, x % a;
    var q, c := y / b, y % b;
    NestBound(c, b, z, a);
    NestDigits(x, y, z, q, b, c, a);
    QuotientIs(x, q, c * a + z, a * b);
  }

  lemma NestBound(c: nat, b: nat, z: nat, a: nat)
    requires c < b && z < a
    ensures 0 <= c * a + z < a * b
  {
    MulMono(c + 1, b, a);
    MulSucc(c, a);
  }

  lemma NestDigits(x: nat, y: nat, z: nat, q: nat, b: nat, c: nat, a: nat)
    requires y == q * b + c && x == y * a + z
    ensures x == q * (a * b) + (c * a + z)
  {
    assert (q * b) * a == q * (a * b);
  }

  lemma QuotientIs(x: nat, q: nat, r: nat, d: nat)
    requires x == q * d + r && r < d
    ensures x / d == q && x % d == r
  {
    DivModUnique(q, r, d);
  }

  lemma {:induction false} ShlMultiplies(x: nat, k: nat)
    ensures Shl(x, k) == x * Pow2(k)
  {
    if k > 0 {
      ShlMultiplies(x, k - 1);
      assert x * Pow2(k) == 2 * (x * Pow2(k - 1));
    }
  }
}
