/**
 The Fletcher-32 filter: the batched checksum in 32-bit registers, the reference
 sums it must equal, and exactly which corruptions it catches.
 */
module Fletcher32 {
  import opened Arith
  import opened Memory

  const M: nat := 65535
  const BATCH: nat := 360

  /** Big-endian 16-bit words; an odd last byte is the high half of one more word. */
  function WordsOfData(data: seq<byte>): (ws: seq<nat>)
    ensures |ws| == (|data| + 1) / 2
    ensures forall i :: 0 <= i < |ws| ==> ws[i] <= 65535
  {
    seq((|data| + 1) / 2, i requires 0 <= i < (|data| + 1) / 2 => WordOfData(data, i))
  }

  function WordOfData(data: seq<byte>, i: nat): (w: nat)
    requires 2 * i < |data|
    ensures w <= 65535
  {
    var hi: nat, lo: nat := data[2 * i], if 2 * i + 1 < |data| then data[2 * i + 1] else 0;
    hi * 256 + lo
  }

  /** Sum of the words, and sum of all prefix sums, without any modulus. */
  function Total(ws: seq<nat>): (t: nat) {
    if ws == [] then 0 else Total(ws[..|ws| - 1]) + ws[|ws| - 1]
  }

  function Weighted(ws: seq<nat>): (t: nat) {
    if ws == [] then 0 else Weighted(ws[..|ws| - 1]) + Total(ws)
  }

  /** The checksum Fletcher-32 stands for: both sums modulo 65535. */
  function Checksum(data: seq<byte>): (c: nat)
    ensures c < TWO_32
  {
    var ws := WordsOfData(data);
    (Weighted(ws) % M) * 65536 + Total(ws) % M
  }

  /** uint32_t arithmetic */
  function U32(x: nat): (r: nat) {
    x % TWO_32
  }

  lemma NoWrap(x: nat)
    requires x < TWO_32
    ensures U32(x) == x
  {}

  // ---- modular bookkeeping ----

  lemma ModStep(a: nat, x: nat)
    ensures (a % M + x) % M == (a + x) % M
  {}

  lemma ModTwo(a: nat, b: nat, x: nat, k: nat)
    ensures (a % M + k * (b % M) + x) % M == (a + k * b + x) % M
  {
    var qa, qb := a / M, b / M;
    var low, high := k * (b % M), k * qb;
    assert k * b == low + high * M by {
      assert b == b % M + qb * M;
      assert k * (qb * M) == high * M;
    }
    AddMultiple(a % M + low + x, qa + high, M);
    assert a + k * b + x == (a % M + low + x) + (qa + high) * M;
  }

  lemma {:induction false} TotalConcat(a: seq<nat>, b: seq<nat>)
    ensures Total(a + b) == Total(a) + Total(b)
    decreases |b|
  {
    if b == [] {
      assert a + b == a;
    } else {
      assert (a + b)[..|a + b| - 1] == a + b[..|b| - 1];
      TotalConcat(a, b[..|b| - 1]);
    }
  }

  /** Appending |b| words adds the old sum once per new word. */
  lemma {:induction false} WeightedConcat(a: seq<nat>, b: seq<nat>)
    ensures Weighted(a + b) == Weighted(a) + |b| * Total(a) + Weighted(b)
    decreases |b|
  {
    if b == [] {
      assert a + b == a;
    } else {
      var b' := b[..|b| - 1];
      assert (a + b)[..|a + b| - 1] == a + b';
      WeightedConcat(a, b');
      TotalConcat(a, b);
      MulSucc(|b'|, Total(a));
    }
  }

  // ---- the 32-bit bound ----

  function Triangle(k: nat): (t: nat) {
    if k == 0 then 0 else Triangle(k - 1) + k
  }

  lemma {:induction false} TriangleClosed(k: nat)
    ensures 2 * Triangle(k) == k * (k + 1)
  {
    if k > 0 {
      TriangleClosed(k - 1);
      assert k * (k + 1) == (k - 1) * k + 2 * k;
    }
  }

  lemma {:induction false} TriangleMono(j: nat, k: nat)
    requires j <= k
    ensures Triangle(j) <= Triangle(k)
    decreases k
  {
    if j < k { TriangleMono(j, k - 1); }
  }

  ghost predicate Words16(ws: seq<nat>) {
    forall i :: 0 <= i < |ws| ==> ws[i] <= 65535
  }

  lemma {:induction false} SumsBounded(ws: seq<nat>)
    requires Words16(ws)
    ensures Total(ws) <= 65535 * |ws|
    ensures Weighted(ws) <= 65535 * Triangle(|ws|)
  {
    if ws != [] { SumsBounded(ws[..|ws| - 1]); }
  }

  lemma {:induction false} SumsOfOnes(k: nat)
    ensures Total(seq(k, i => 65535)) == 65535 * k
    ensures Weighted(seq(k, i => 65535)) == 65535 * Triangle(k)
  {
    if k > 0 {
      assert seq(k, i => 65535)[..k - 1] == seq(k - 1, i => 65535);
      SumsOfOnes(k - 1);
    }
  }

  /** The largest value the second sum takes while a batch of k = |ws| words is folded in. */
  function BatchSum(s1: nat, s2: nat, ws: seq<nat>): (x: nat) {
    s2 + |ws| * s1 + Weighted(ws)
  }

  /** No batch of k words overflows 32 bits, whatever reduced sums it starts from. */
  ghost predicate BatchFits(k: nat) {
    forall s1: nat, s2: nat, ws: seq<nat> {:trigger BatchSum(s1, s2, ws)} ::
      s1 < M && s2 < M && |ws| == k && Words16(ws) ==> BatchSum(s1, s2, ws) < TWO_32
  }

  lemma BatchSafe(s1: nat, s2: nat, ws: seq<nat>)
    requires s1 < M && s2 < M && |ws| <= BATCH && Words16(ws)
    ensures BatchSum(s1, s2, ws) < TWO_32
  {
    SumsBounded(ws);
    TriangleMono(|ws|, BATCH);
    TriangleClosed(BATCH);
    MulMono(|ws|, BATCH, s1);
  }

  lemma BatchOverflows(k: nat)
    requires k > BATCH
    ensures !BatchFits(k)
  {
    var ws := seq(k, i => 65535);
    SumsOfOnes(k);
    TriangleMono(BATCH + 1, k);
    TriangleClosed(BATCH + 1);
    MulMono(BATCH + 1, k, M - 1);
    var s: nat := M - 1;
    assert Words16(ws) && |ws| == k;
    assert BatchSum(s, s, ws) >= TWO_32;
  }

  /** 360 words is the largest batch for which no 32-bit accumulator can overflow. */
  lemma BatchLimit(k: nat)
    ensures BatchFits(k) <==> k <= BATCH
  {
    if k <= BATCH {
      forall s1: nat, s2: nat, ws: seq<nat> {:trigger BatchSum(s1, s2, ws)} | s1 < M && s2 < M && |ws| == k && Words16(ws)
        ensures BatchSum(s1, s2, ws) < TWO_32
      {
        BatchSafe(s1, s2, ws);
      }
    } else {
      BatchOverflows(k);
    }
  }

  // ---- batches of another size ----

  /** The sums of a batch as 32-bit registers form them, every addition wrapping. */
  function RegTotal(ws: seq<nat>): (t: nat) {
    if ws == [] then 0 else U32(RegTotal(ws[..|ws| - 1]) + ws[|ws| - 1])
  }

  function RegWeighted(ws: seq<nat>): (t: nat) {
    if ws == [] then 0 else U32(RegWeighted(ws[..|ws| - 1]) + RegTotal(ws))
  }

  lemma U32Add(a: nat, b: nat)
    ensures U32(U32(a) + b) == U32(a + b) && U32(a + U32(b)) == U32(a + b)
  {}

  /** They are the sums modulo 2^32. */
  lemma {:induction false} RegSums(ws: seq<nat>)
    ensures RegTotal(ws) == U32(Total(ws)) && RegWeighted(ws) == U32(Weighted(ws))
  {
    if ws != [] {
      var init, last := ws[..|ws| - 1], ws[|ws| - 1];
      RegSums(init);
      assert Total(ws) == Total(init) + last && Weighted(ws) == Weighted(init) + Total(ws);
      assert RegTotal(ws) == U32(RegTotal(init) + last) && RegWeighted(ws) == U32(RegWeighted(init) + RegTotal(ws));
      hide U32, Total, Weighted, RegTotal, RegWeighted;
      U32Add(Total(init), last);
      U32Add(Weighted(init), RegTotal(ws));
      U32Add(Weighted(init), Total(ws));
    }
  }

  /** A whole batch folded into the reduced sums. */
  function FoldRegs(sum1: nat, sum2: nat, ws: seq<nat>): (sums: (nat, nat)) {
    (U32(sum1 + RegTotal(ws)) % M, U32(sum2 + U32(U32(|ws| * sum1) + RegWeighted(ws))) % M)
  }

  lemma FoldRegsIs(sum1: nat, sum2: nat, ws: seq<nat>)
    ensures FoldRegs(sum1, sum2, ws) == (U32(sum1 + Total(ws)) % M, U32(BatchSum(sum1, sum2, ws)) % M)
  {
    RegSums(ws);
    hide U32, RegTotal, RegWeighted, Total, Weighted;
    U32Add(sum1, Total(ws));
    RegFold(sum2, |ws| * sum1, Weighted(ws));
  }

  lemma RegFold(sum2: nat, p: nat, w: nat)
    ensures U32(sum2 + U32(U32(p) + U32(w))) == U32(sum2 + p + w)
  {
    U32Add(p, U32(w));
    U32Add(p, w);
    hide U32;
    U32Add(sum2, p + w);
  }

  /** Batches of k words as long as they last ... */
  function Batched(k: nat, ws: seq<nat>, sum1: nat, sum2: nat): (sums: (nat, nat))
    requires k > 0
    decreases |ws|
  {
    if |ws| < k then OneByOne(ws, sum1, sum2)
    else
      var (s1, s2) := FoldRegs(sum1, sum2, ws[..k]);
      Batched(k, ws[k..], s1, s2)
  }

  /** ... and the rest word by word. */
  function OneByOne(ws: seq<nat>, sum1: nat, sum2: nat): (sums: (nat, nat)) {
    if ws == [] then (sum1, sum2)
    else
      var s1 := U32(sum1 + ws[0]) % M;
      OneByOne(ws[1..], s1, U32(sum2 + s1) % M)
  }

  /** fletcher32_checksum with batches of k words; an odd last byte never belongs to a batch. */
  function BatchedChecksum(k: nat, data: seq<byte>): (c: nat)
    requires k > 0
  {
    var ws, pairs := WordsOfData(data), |data| / 2;
    var (a1, a2) := Batched(k, ws[..pairs], 0, 0);
    var (s1, s2) := OneByOne(ws[pairs..], a1, a2);
    s2 * 65536 + s1
  }

  ghost predicate BatchesRight(k: nat)
    requires k > 0
  {
    forall data: seq<byte> {:trigger BatchedChecksum(k, data)} :: BatchedChecksum(k, data) == Checksum(data)
  }

  /** Reduced sums of the words so far. */
  ghost predicate Reduced(ws: seq<nat>, sums: (nat, nat)) {
    sums.0 == Total(ws) % M && sums.1 == Weighted(ws) % M
  }

  lemma FoldKeeps(a: seq<nat>, b: seq<nat>, sum1: nat, sum2: nat)
    requires Reduced(a, (sum1, sum2)) && Words16(b) && |b| <= BATCH
    ensures Reduced(a + b, FoldRegs(sum1, sum2, b))
  {
    FoldRegsIs(sum1, sum2, b);
    BatchSafe(sum1, sum2, b);
    SumsBounded(b);
    TotalConcat(a, b);
    WeightedConcat(a, b);
    ModStep(Total(a), Total(b));
    ModTwo(Weighted(a), Total(a), Weighted(b), |b|);
    NoWrap(sum1 + Total(b));
    NoWrap(BatchSum(sum1, sum2, b));
  }

  lemma {:induction false} OneByOneKeeps(a: seq<nat>, ws: seq<nat>, sum1: nat, sum2: nat)
    requires Reduced(a, (sum1, sum2)) && Words16(ws)
    ensures Reduced(a + ws, OneByOne(ws, sum1, sum2))
    decreases |ws|
  {
    if ws == [] {
      assert a + ws == a;
    } else {
      var s1 := U32(sum1 + ws[0]) % M;
      OneKeeps(a, ws[0], sum1, sum2);
      hide U32, Reduced;
      assert (a + [ws[0]]) + ws[1..] == a + ws;
      OneByOneKeeps(a + [ws[0]], ws[1..], s1, U32(sum2 + s1) % M);
    }
  }

  lemma OneKeeps(a: seq<nat>, w: nat, sum1: nat, sum2: nat)
    requires Reduced(a, (sum1, sum2)) && w <= 65535
    ensures var s1 := U32(sum1 + w) % M; Reduced(a + [w], (s1, U32(sum2 + s1) % M))
  {
    var all := a + [w];
    assert all[..|a|] == a && all[..|a| + 1] == all;
    SumsStep(all, |a|, sum1, sum2);
    NoWrap(sum1 + w);
    NoWrap(sum2 + U32(sum1 + w) % M);
  }

  lemma {:induction false} BatchedKeeps(k: nat, a: seq<nat>, ws: seq<nat>, sum1: nat, sum2: nat)
    requires 0 < k <= BATCH && Reduced(a, (sum1, sum2)) && Words16(ws)
    ensures Reduced(a + ws, Batched(k, ws, sum1, sum2))
    decreases |ws|
  {
    if |ws| < k {
      OneByOneKeeps(a, ws, sum1, sum2);
    } else {
      var sums := FoldRegs(sum1, sum2, ws[..k]);
      FoldKeeps(a, ws[..k], sum1, sum2);
      assert (a + ws[..k]) + ws[k..] == a + ws;
      BatchedKeeps(k, a + ws[..k], ws[k..], sums.0, sums.1);
    }
  }

  lemma SmallBatchesRight(k: nat, data: seq<byte>)
    requires 0 < k <= BATCH
    ensures BatchedChecksum(k, data) == Checksum(data)
  {
    var ws, pairs := WordsOfData(data), |data| / 2;
    var sums := Batched(k, ws[..pairs], 0, 0);
    BatchedKeeps(k, [], ws[..pairs], 0, 0);
    assert [] + ws[..pairs] == ws[..pairs] && ws[..pairs] + ws[pairs..] == ws;
    OneByOneKeeps(ws[..pairs], ws[pairs..], sums.0, sums.1);
  }

  /** A register that has wrapped once is off by 2^32, which is 1 modulo 65535. */
  lemma WrapShows(x: nat)
    requires TWO_32 <= x < 2 * TWO_32
    ensures U32(x) % M != x % M
  {
    assert U32(x) == x - TWO_32;
    assert TWO_32 == 65537 * M + 1;
  }

  /** n words of the same value. */
  function Copies(n: nat, v: nat): (ws: seq<nat>)
    ensures |ws| == n && forall i :: 0 <= i < n ==> ws[i] == v
  {
    seq(n, i => v)
  }

  lemma {:induction false} SumsOfCopies(n: nat, v: nat)
    ensures Total(Copies(n, v)) == v * n && Weighted(Copies(n, v)) == v * Triangle(n)
  {
    if n > 0 {
      assert Copies(n, v)[..n - 1] == Copies(n - 1, v);
      SumsOfCopies(n - 1, v);
      assert v * (n - 1) + v == v * n;
      assert v * Triangle(n - 1) + v * n == v * Triangle(n);
    }
  }

  /** Zero words in front take no part in the sums. */
  lemma ZerosInFront(n: nat, b: seq<nat>)
    ensures Total(Copies(n, 0) + b) == Total(b) && Weighted(Copies(n, 0) + b) == Weighted(b)
  {
    SumsOfCopies(n, 0);
    TotalConcat(Copies(n, 0), b);
    WeightedConcat(Copies(n, 0), b);
  }

  /** Words whose batches of k > 360 wrap: one batch from zero sums, or for k = 361 the second. */
  function Overflowing(k: nat): (ws: seq<nat>)
    requires k > BATCH
    ensures Words16(ws)
  {
    if k == BATCH + 1 then Copies(BATCH, 0) + [M - 1] + Copies(BATCH + 1, M) else Copies(k - (BATCH + 2), 0) + Copies(BATCH + 2, M)
  }

  lemma OneBatch(k: nat, b: seq<nat>, sum1: nat, sum2: nat)
    requires 0 < k == |b|
    ensures Batched(k, b, sum1, sum2) == FoldRegs(sum1, sum2, b)
  {
    assert b[..k] == b && b[k..] == [];
  }

  lemma OverflowShows(k: nat)
    requires k > BATCH
    ensures Batched(k, Overflowing(k), 0, 0).1 != Weighted(Overflowing(k)) % M
  {
    var ws := Overflowing(k);
    TriangleClosed(BATCH + 1);
    TriangleClosed(BATCH + 2);
    if k == BATCH + 1 {
      SecondBatchShows(Copies(BATCH, 0) + [M - 1], Copies(k, M), k);
    } else {
      ZerosInFront(k - (BATCH + 2), Copies(BATCH + 2, M));
      SumsOfCopies(BATCH + 2, M);
      OneBatch(k, ws, 0, 0);
      FoldRegsIs(0, 0, ws);
      WrapShows(Weighted(ws));
    }
  }

  lemma SecondBatchShows(a: seq<nat>, b: seq<nat>, k: nat)
    requires k == BATCH + 1 && a == Copies(BATCH, 0) + [M - 1] && b == Copies(k, M) && Triangle(k) == 65341
    ensures Batched(k, a + b, 0, 0).1 != Weighted(a + b) % M
  {
    FirstBatch(a);
    assert (a + b)[..k] == a && (a + b)[k..] == b;
    OneBatch(k, b, M - 1, M - 1);
    FoldRegsIs(M - 1, M - 1, b);
    hide Batched, FoldRegs, U32, BatchSum;
    SecondSum(a, b, k);
  }

  /** It leaves both sums at their largest. */
  lemma FirstBatch(a: seq<nat>)
    requires a == Copies(BATCH, 0) + [M - 1]
    ensures Total(a) == Weighted(a) == M - 1 && FoldRegs(0, 0, a) == (M - 1, M - 1)
  {
    assert [M - 1][..0] == [];
    ZerosInFront(BATCH, [M - 1]);
    FoldRegsIs(0, 0, a);
  }

  lemma SecondSum(a: seq<nat>, b: seq<nat>, k: nat)
    requires k == BATCH + 1 && Total(a) == Weighted(a) == M - 1 && b == Copies(k, M) && Triangle(k) == 65341
    ensures BatchSum(M - 1, M - 1, b) == Weighted(a + b) && U32(Weighted(a + b)) % M != Weighted(a + b) % M
  {
    SumsOfCopies(k, M);
    WeightedConcat(a, b);
    WrapShows(Weighted(a + b));
  }

  /** The bytes of 16-bit words, most significant first. */
  function DataOfWords(ws: seq<nat>): (data: seq<byte>)
    requires Words16(ws)
    ensures |data| == 2 * |ws| && WordsOfData(data) == ws
  {
    var data: seq<byte> := seq(2 * |ws|, i requires 0 <= i < 2 * |ws| => HalfOf(ws[i / 2], i));
    assert forall i :: 0 <= i < |ws| ==> WordOfData(data, i) == ws[i];
    data
  }

  function HalfOf(w: nat, i: nat): (b: byte)
    requires w <= 65535
  {
    if i % 2 == 0 then w / 256 else w % 256
  }

  lemma ReducedBelow(k: nat, ws: seq<nat>, sum1: nat, sum2: nat)
    requires 0 < k == |ws| || (0 < k && 2 * k == |ws|)
    ensures var sums := Batched(k, ws, sum1, sum2); sums.0 < M && sums.1 < M
  {
    if |ws| == k {
      OneBatch(k, ws, sum1, sum2);
    } else {
      var sums := FoldRegs(sum1, sum2, ws[..k]);
      OneBatch(k, ws[k..], sums.0, sums.1);
    }
  }

  /** Data of whole words that fill their batches. */
  lemma NothingOver(k: nat, ws: seq<nat>, data: seq<byte>, sums: (nat, nat))
    requires k > 0 && WordsOfData(data) == ws && |data| == 2 * |ws| && sums == Batched(k, ws, 0, 0)
    ensures BatchedChecksum(k, data) == sums.1 * 65536 + sums.0
  {
    hide Batched, WordsOfData;
    assert ws[..|data| / 2] == ws && ws[|data| / 2..] == [];
  }

  lemma HighHalf(a: nat, b: nat, c: nat, d: nat)
    requires a < 65536 && c < 65536 && b != d
    ensures b * 65536 + a != d * 65536 + c
  {}

  lemma LargeBatchesWrong(k: nat)
    requires k > BATCH
    ensures !BatchesRight(k)
  {
    var ws := Overflowing(k);
    var data := DataOfWords(ws);
    var sums := Batched(k, ws, 0, 0);
    OverflowShows(k);
    ReducedBelow(k, ws, 0, 0);
    NothingOver(k, ws, data, sums);
    HighHalf(sums.0, sums.1, Total(ws) % M, Weighted(ws) % M);
    hide Batched, Overflowing, Words16, Weighted, Total, DataOfWords, BatchedChecksum, WordsOfData;
    assert BatchedChecksum(k, data) != Checksum(data);
  }

  /** Batches of k words give the checksum of all data exactly up to 360 words. */
  lemma BatchesExact(k: nat)
    requires k > 0
    ensures BatchesRight(k) <==> k <= BATCH
  {
    if k <= BATCH {
      forall data: seq<byte> {:trigger BatchedChecksum(k, data)}
        ensures BatchedChecksum(k, data) == Checksum(data)
      {
        SmallBatchesRight(k, data);
      }
    } else {
      LargeBatchesWrong(k);
    }
  }

  // ---- the checksum in terms of the bytes ----

  /** The data with one zero byte behind an odd length. */
  function Padded(data: seq<byte>): (r: seq<byte>)
    ensures |r| % 2 == 0 && data <= r <= data + [0]
  {
    if |data| % 2 == 1 then data + [0] else data
  }

  /** The sum of the numbers that the first two bytes, the first four, ... and all of them spell. */
  function PrefixNumbers(data: seq<byte>): (t: nat) {
    if |data| < 2 then 0 else PrefixNumbers(data[..|data| - 2]) + BeNat(data)
  }

  /** Two more bytes are one more word. */
  lemma LastWord(data: seq<byte>)
    requires |data| >= 2 && |data| % 2 == 0
    ensures var init, a: nat, b: nat := data[..|data| - 2], data[|data| - 2], data[|data| - 1];
            && WordsOfData(data) == WordsOfData(init) + [256 * a + b]
            && BeNat(data) == BeNat(init) * 65536 + (256 * a + b)
  {
    var init := data[..|data| - 2];
    var a: nat, b: nat := data[|data| - 2], data[|data| - 1];
    assert data[..|data| - 1][..|data| - 2] == init;
    assert BeNat(data[..|data| - 1]) == BeNat(init) * 256 + a;
    forall i | 0 <= i < |init| / 2
      ensures WordOfData(data, i) == WordOfData(init, i)
    {}
    assert WordOfData(data, |init| / 2) == 256 * a + b;
  }

  /** 65536 is 1 modulo 65535. */
  lemma WordShift(x: nat, w: nat)
    ensures (x * 65536 + w) % M == (x + w) % M
  {
    AddMultiple(x + w, x, M);
  }

  lemma AddCongruent(a: nat, b: nat, x: nat, y: nat)
    requires a % M == b % M && x % M == y % M
    ensures (a + x) % M == (b + y) % M
  {
    ModStep(a, x);
    ModStep(b, x);
    ModStep(x, b);
    ModStep(y, b);
  }

  lemma {:induction false} SumsSpell(data: seq<byte>)
    requires |data| % 2 == 0
    ensures Total(WordsOfData(data)) % M == BeNat(data) % M
    ensures Weighted(WordsOfData(data)) % M == PrefixNumbers(data) % M
  {
    var ws := WordsOfData(data);
    if |data| >= 2 {
      var init, a: nat, b: nat := data[..|data| - 2], data[|data| - 2], data[|data| - 1];
      var w := 256 * a + b;
      SumsSpell(init);
      LastWord(data);
      var vs := WordsOfData(init);
      assert ws[..|ws| - 1] == vs && ws[|ws| - 1] == w;
      assert Total(ws) == Total(vs) + w && Weighted(ws) == Weighted(vs) + Total(ws);
      assert PrefixNumbers(data) == PrefixNumbers(init) + BeNat(data);
      hide *;
      AddCongruent(Total(vs), BeNat(init), w, w);
      WordShift(BeNat(init), w);
      AddCongruent(Weighted(vs), PrefixNumbers(init), Total(ws), BeNat(data));
    }
  }

  /** The low half is the number the padded data spells, most significant byte first; the high half adds
      up what its prefixes of whole words spell; both modulo 65535. */
  ghost predicate Sums(data: seq<byte>, c: nat) {
    c % 65536 == BeNat(Padded(data)) % 65535 && c / 65536 == PrefixNumbers(Padded(data)) % 65535
  }

  lemma ChecksumSpells(data: seq<byte>)
    ensures Sums(data, Checksum(data))
  {
    forall i | 0 <= i < |WordsOfData(data)|
      ensures WordOfData(data, i) == WordOfData(Padded(data), i)
    {}
    assert WordsOfData(Padded(data)) == WordsOfData(data);
    SumsSpell(Padded(data));
    var ws := WordsOfData(data);
    DivModUnique(Weighted(ws) % M, Total(ws) % M, 65536);
  }

  // ---- the checksum in place ----

  /** One more word of a batch: both accumulators stay below 2^32. */
  lemma BatchStep(all: seq<nat>, i: nat, j: nat, w: nat, s1: nat, s2: nat)
    requires i <= j < i + BATCH && j < |all| && w == all[j] && Words16(all)
    requires s1 == Total(all[i..j]) && s2 == Weighted(all[i..j])
    ensures U32(s1 + w) == s1 + w == Total(all[i..j + 1])
    ensures U32(s2 + (s1 + w)) == s2 + (s1 + w) == Weighted(all[i..j + 1])
  {
    var ws := all[i..j + 1];
    assert ws[..|ws| - 1] == all[i..j] && ws[|ws| - 1] == w;
    BatchSafe(0, 0, ws);
    SumsBounded(ws);
    NoWrap(s1 + w);
    NoWrap(s2 + (s1 + w));
  }

  /** The sums of words i to j - 1. */
  ghost predicate BatchSums(all: seq<nat>, i: nat, j: nat, s1: nat, s2: nat) {
    i <= j <= |all| && s1 == Total(all[i..j]) && s2 == Weighted(all[i..j])
  }

  lemma BatchStart(all: seq<nat>, i: nat)
    requires i <= |all|
    ensures BatchSums(all, i, i, 0, 0)
  {
    assert all[i..i] == [];
  }

  lemma BatchNext(all: seq<nat>, i: nat, j: nat, w: nat, s1: nat, s2: nat)
    requires BatchSums(all, i, j, s1, s2) && j < i + BATCH && j < |all| && w == all[j] && Words16(all)
    ensures BatchSums(all, i, j + 1, U32(s1 + w), U32(s2 + U32(s1 + w)))
  {
    BatchStep(all, i, j, w, s1, s2);
  }

  /** One batch: 360 words added without any modulus in between. */
  method SumBatch(p: array<byte>, nbytes: nat, i: nat) returns (batchSum1: nat, batchSum2: nat)
    requires nbytes <= p.Length && 2 * (i + BATCH) <= nbytes
    ensures var ws := WordsOfData(p[..nbytes])[i..i + BATCH];
            batchSum1 == Total(ws) && batchSum2 == Weighted(ws)
  {
    ghost var all := WordsOfData(p[..nbytes]);
    batchSum1, batchSum2 := 0, 0;
    BatchStart(all, i);
    hide BatchSums, U32, WordsOfData;
    for j := 0 to BATCH
      invariant BatchSums(all, i, i + j, batchSum1, batchSum2)
    {
      var w := LoadWord16(p, nbytes, i + j);
      BatchNext(all, i, i + j, w, batchSum1, batchSum2);
      batchSum1 := U32(batchSum1 + w);
      batchSum2 := U32(batchSum2 + batchSum1);
    }
    BatchEnds(all, i, i + BATCH, batchSum1, batchSum2);
  }

  lemma BatchEnds(all: seq<nat>, i: nat, j: nat, s1: nat, s2: nat)
    requires BatchSums(all, i, j, s1, s2)
    ensures i <= j <= |all| && s1 == Total(all[i..j]) && s2 == Weighted(all[i..j])
  {}

  /** The big-endian word i, an odd last byte being its high byte. */
  method LoadWord16(p: array<byte>, nbytes: nat, i: nat) returns (w: nat)
    requires nbytes <= p.Length && 2 * i < nbytes
    ensures w == WordsOfData(p[..nbytes])[i] <= 65535
  {
    var hi: nat := p[2 * i];
    var lo: nat := 0;
    if 2 * i + 1 < nbytes { lo := p[2 * i + 1]; }
    w := hi * 256 + lo;
    ghost var v := WordOfData(p[..nbytes], i);
  }

  /** The sums after the first n words, reduced. */
  ghost predicate SumsAre(ws: seq<nat>, n: nat, sum1: nat, sum2: nat) {
    n <= |ws| && sum1 == Total(ws[..n]) % M && sum2 == Weighted(ws[..n]) % M
  }

  lemma SumsStep(ws: seq<nat>, n: nat, sum1: nat, sum2: nat)
    requires SumsAre(ws, n, sum1, sum2) && n < |ws|
    ensures var s1 := (sum1 + ws[n]) % M; SumsAre(ws, n + 1, s1, (sum2 + s1) % M)
  {
    assert ws[..n + 1][..n] == ws[..n];
    var t, u := Total(ws[..n]), Weighted(ws[..n]);
    ModStep(t, ws[n]);
    ModStep(u, t + ws[n]);
    var s1 := (sum1 + ws[n]) % M;
    ModStep(t + ws[n], sum2);
    assert (sum2 + s1) % M == (sum2 + (t + ws[n])) % M;
  }

  lemma SumsBatchStep(ws: seq<nat>, n: nat, sum1: nat, sum2: nat)
    requires SumsAre(ws, n, sum1, sum2) && n + BATCH <= |ws|
    ensures var b := ws[n..n + BATCH];
            SumsAre(ws, n + BATCH, (sum1 + Total(b)) % M, (sum2 + (BATCH * sum1 + Weighted(b))) % M)
  {
    var a, b := ws[..n], ws[n..n + BATCH];
    assert ws[..n + BATCH] == a + b;
    TotalConcat(a, b);
    WeightedConcat(a, b);
    ModStep(Total(a), Total(b));
    ModTwo(Weighted(a), Total(a), Weighted(b), BATCH);
  }

  /** A whole batch enters both running sums, which are reduced only then. */
  method FoldBatch(ghost ws: seq<nat>, ghost n: nat, sum1: nat, sum2: nat, batchSum1: nat, batchSum2: nat)
    returns (s1: nat, s2: nat)
    requires SumsAre(ws, n, sum1, sum2) && n + BATCH <= |ws| && Words16(ws)
    requires batchSum1 == Total(ws[n..n + BATCH]) && batchSum2 == Weighted(ws[n..n + BATCH])
    ensures SumsAre(ws, n + BATCH, s1, s2)
  {
    ghost var b := ws[n..n + BATCH];
    SumsBatchStep(ws, n, sum1, sum2);
    BatchSafe(sum1, sum2, b);
    SumsBounded(b);
    NoWrap(BATCH * sum1);
    NoWrap(BATCH * sum1 + batchSum2);
    NoWrap(sum2 + (BATCH * sum1 + batchSum2));
    NoWrap(sum1 + batchSum1);
    s2 := U32(sum2 + U32(U32(BATCH * sum1) + batchSum2)) % M;
    s1 := U32(sum1 + batchSum1) % M;
  }

  /** One word of the remainder enters both running sums, reduced at once. */
  method FoldWord(ghost ws: seq<nat>, ghost n: nat, sum1: nat, sum2: nat, w: nat) returns (s1: nat, s2: nat)
    requires SumsAre(ws, n, sum1, sum2) && n < |ws| && Words16(ws) && w == ws[n]
    ensures SumsAre(ws, n + 1, s1, s2)
  {
    SumsStep(ws, n, sum1, sum2);
    NoWrap(sum1 + w);
    s1 := U32(sum1 + w) % M;
    NoWrap(sum2 + s1);
    s2 := U32(sum2 + s1) % M;
  }

  /** The reduced sums of the first i words of the data. */
  ghost predicate SummedUp(data: seq<byte>, i: nat, sum1: nat, sum2: nat) {
    SumsAre(WordsOfData(data), i, sum1, sum2)
  }

  /** One pass of the first loop. */
  method AddBatch(p: array<byte>, nbytes: nat, i: nat, sum1: nat, sum2: nat) returns (s1: nat, s2: nat)
    requires nbytes <= p.Length && 2 * (i + BATCH) <= nbytes && SummedUp(p[..nbytes], i, sum1, sum2)
    ensures SummedUp(p[..nbytes], i + BATCH, s1, s2)
  {
    ghost var ws := WordsOfData(p[..nbytes]);
    hide SumsAre, WordsOfData, Total, Weighted;
    var batchSum1, batchSum2 := SumBatch(p, nbytes, i);
    s1, s2 := FoldBatch(ws, i, sum1, sum2, batchSum1, batchSum2);
  }

  /** One pass of the second loop, and the odd last byte. */
  method AddWord(p: array<byte>, nbytes: nat, i: nat, sum1: nat, sum2: nat) returns (s1: nat, s2: nat)
    requires nbytes <= p.Length && 2 * i < nbytes && SummedUp(p[..nbytes], i, sum1, sum2)
    ensures SummedUp(p[..nbytes], i + 1, s1, s2)
  {
    ghost var ws := WordsOfData(p[..nbytes]);
    hide SumsAre, WordsOfData;
    var w := LoadWord16(p, nbytes, i);
    s1, s2 := FoldWord(ws, i, sum1, sum2, w);
  }

  /** fletcher32_checksum: batches of 360 words, then word by word, in uint32_t registers. */
  method ComputeChecksum(p: array<byte>, nbytes: nat) returns (c: nat)
    requires nbytes <= p.Length
    ensures c == Checksum(p[..nbytes])
    ensures Sums(p[..nbytes], c)
  {
    var sum1: nat, sum2: nat, i: nat := 0, 0, 0;
    var words := nbytes / 2;
    SumsStart(p[..nbytes]);
    hide SummedUp, Sums, Checksum;
    while i + BATCH <= words
      invariant i <= words && SummedUp(p[..nbytes], i, sum1, sum2)
    {
      sum1, sum2 := AddBatch(p, nbytes, i, sum1, sum2);
      i := i + BATCH;
    }
    while i < words
      invariant i <= words && SummedUp(p[..nbytes], i, sum1, sum2)
    {
      sum1, sum2 := AddWord(p, nbytes, i, sum1, sum2);
      i := i + 1;
    }
    if nbytes % 2 == 1 {
      sum1, sum2 := AddWord(p, nbytes, i, sum1, sum2);
    }
    SumsDone(p[..nbytes], sum1, sum2);
    ChecksumSpells(p[..nbytes]);
    c := sum2 * 65536 + sum1;
  }

  lemma SumsStart(data: seq<byte>)
    ensures SummedUp(data, 0, 0, 0)
  {}

  lemma SumsDone(data: seq<byte>, sum1: nat, sum2: nat)
    requires SummedUp(data, (|data| + 1) / 2, sum1, sum2)
    ensures sum2 * 65536 + sum1 == Checksum(data)
  {
    var ws := WordsOfData(data);
    assert ws[..|ws|] == ws;
  }

  // ---- the filter ----

  /** Encode direction: the data followed by its checksum, most significant byte first. */
  function Encode(data: seq<byte>): (block: seq<byte>)
    ensures |block| == |data| + 4
  {
    data + Be32Bytes(Checksum(data))
  }

  /** The block: the data as it is, and four bytes that spell the checksum, the most significant first. */
  lemma EncodeLayout(data: seq<byte>)
    ensures var block, n := Encode(data), |data|;
            && block[..n] == data
            && BeNat(block[n..]) == Checksum(data)
            && Sums(data, BeNat(block[n..]))
  {
    TrailerSpells(data, Checksum(data));
    hide *;
    ChecksumSpells(data);
  }

  lemma TrailerSpells(data: seq<byte>, c: nat)
    requires c < TWO_32
    ensures var block, n := data + Be32Bytes(c), |data|; block[..n] == data && BeNat(block[n..]) == c
  {
    hide *;
    assert (data + Be32Bytes(c))[|data|..] == Be32Bytes(c);
    Be32Spells(c);
    assert c % TWO_32 == c;
  }

  /** Decode direction: the data when the stored checksum matches; [] stands for the 0 returned
      for a short block, a mismatch, and a block without data alike. */
  function Decode(block: seq<byte>): (data: seq<byte>) {
    if |block| < 4 then []
    else
      var n := |block| - 4;
      if Be32(block[n], block[n + 1], block[n + 2], block[n + 3]) != Checksum(block[..n]) then []
      else block[..n]
  }

  lemma DecodeShort(block: seq<byte>)
    ensures |block| < 4 ==> Decode(block) == []
  {}

  /** Decoding the first `size` bytes of a buffer, four bytes or more. */
  lemma DecodeOf(all: seq<byte>, size: nat, block: seq<byte>, data: seq<byte>)
    requires 4 <= size <= |all| && block == all[..size] && data == all[..size - 4]
    ensures var n := size - 4;
            var stored := Be32(all[n], all[n + 1], all[n + 2], all[n + 3]);
            Decode(block) == if stored == Checksum(data) then data else []
  {
    assert block[..size - 4] == data;
  }

  /** The filter in place, both directions. */
  method Apply(dst: array<byte>, src: array<byte>, size: nat, reverse: bool) returns (n: nat)
    requires dst != src && size <= src.Length
    requires size + (if reverse then 0 else 4) <= dst.Length
    modifies dst
    ensures n == |if reverse then Decode(src[..size]) else Encode(src[..size])| <= dst.Length
    ensures dst[..] == Put(old(dst[..]), if reverse then Decode(src[..size]) else Encode(src[..size]))
  {
    hide Sums;
    if reverse {
      n := Verify(dst, src, size);
    } else {
      var checksum := ComputeChecksum(src, size);
      hide Checksum;
      MemCpy(dst, 0, src[..size] + Be32Bytes(checksum));
      n := size + 4;
    }
  }

  /** The reverse direction: compare, then strip. */
  method Verify(dst: array<byte>, src: array<byte>, size: nat) returns (n: nat)
    requires dst != src && size <= src.Length && size <= dst.Length
    modifies dst
    ensures n == |Decode(src[..size])| <= dst.Length && dst[..] == Put(old(dst[..]), Decode(src[..size]))
  {
    ghost var block, before := src[..size], dst[..];
    DecodeShort(block);
    PutNothing(before);
    hide Sums, Checksum, Decode, Be32, Put;
    if size < 4 { return 0; }
    var dataSize := size - 4;
    var stored := Be32(src[dataSize], src[dataSize + 1], src[dataSize + 2], src[dataSize + 3]);
    var computed := ComputeChecksum(src, dataSize);
    DecodeOf(src[..], size, block, src[..dataSize]);
    if stored != computed { return 0; }
    MemCpy(dst, 0, src[..dataSize]);
    PutFront(before, src[..dataSize]);
    n := dataSize;
  }

  lemma PutNothing(buf: seq<byte>)
    ensures Put(buf, []) == buf
  {}

  lemma PutFront(buf: seq<byte>, out: seq<byte>)
    requires |out| <= |buf|
    ensures buf[..0] + out + buf[|out|..] == Put(buf, out)
  {}

  /** The decoder splits a block into its data and its four checksum bytes. */
  lemma DecodeParts(data: seq<byte>, t: seq<byte>)
    requires |t| == 4
    ensures Decode(data + t) == if Be32(t[0], t[1], t[2], t[3]) == Checksum(data) then data else []
  {
    var block, n := data + t, |data|;
    assert block[n] == t[0] && block[n + 1] == t[1] && block[n + 2] == t[2] && block[n + 3] == t[3];
    assert block[..n] == data;
  }

  lemma StoredChecksum(data: seq<byte>)
    ensures var t := Be32Bytes(Checksum(data)); Be32(t[0], t[1], t[2], t[3]) == Checksum(data)
  {
    StoredWord(Checksum(data));
  }

  lemma StoredWord(v: nat)
    requires v < TWO_32
    ensures var t := Be32Bytes(v); Be32(t[0], t[1], t[2], t[3]) == v
  {
    Be32OfBytes(v);
  }

  /** Decoding what was encoded gives the data back, for every length. */
  lemma RoundTrip(data: seq<byte>)
    ensures Decode(Encode(data)) == data
  {
    StoredChecksum(data);
    DecodeParts(data, Be32Bytes(Checksum(data)));
  }

  /** Replacing word i by v moves the sum by v - ws[i] and the weighted sum by that times |ws| - i. */
  lemma {:induction false} ReplaceWord(ws: seq<nat>, i: nat, v: nat)
    requires i < |ws|
    ensures Total(ws[i := v]) - Total(ws) == v - ws[i]
    ensures Weighted(ws[i := v]) - Weighted(ws) == (|ws| - i) * (v - ws[i])
    decreases |ws|
  {
    var n := |ws| - 1;
    var front := ws[..n];
    if i == n {
      assert ws[i := v][..n] == front;
    } else {
      assert ws[i := v][..n] == front[i := v];
      ReplaceWord(front, i, v);
      assert (n - i) * (v - ws[i]) + (v - ws[i]) == (n + 1 - i) * (v - ws[i]);
    }
  }

  lemma SameMod(x: nat, y: nat)
    ensures x % M == y % M <==> (x - y) % M == 0
  {}

  lemma MultipleOfMultiple(k: nat, d: int)
    requires d % M == 0
    ensures (k * d) % M == 0
  {
    var q := d / M;
    assert d == q * M;
    assert k * d == (k * q) * M;
    ModZero(k * q);
  }

  lemma ModZero(q: int)
    ensures (q * M) % M == 0
  {}

  /** Equal checksums are equal residues of both sums. */
  lemma SameChecksum(a: seq<byte>, b: seq<byte>)
    ensures Checksum(a) == Checksum(b)
       <==> Total(WordsOfData(a)) % M == Total(WordsOfData(b)) % M
            && Weighted(WordsOfData(a)) % M == Weighted(WordsOfData(b)) % M
  {}

  /** Replacing one 16-bit word is invisible to the checksum exactly when the two words are
      congruent modulo 65535, that is, equal or 0x0000 against 0xFFFF. */
  lemma WordReplacement(data: seq<byte>, data': seq<byte>, i: nat, v: nat)
    requires i < |WordsOfData(data)| && WordsOfData(data') == WordsOfData(data)[i := v]
    ensures Checksum(data') == Checksum(data) <==> (v - WordsOfData(data)[i]) % M == 0
  {
    var ws, ws' := WordsOfData(data), WordsOfData(data');
    ReplaceWord(ws, i, v);
    SameChecksum(data', data);
    ShiftedSums(Total(ws), Weighted(ws), Total(ws'), Weighted(ws'), |ws| - i, v - ws[i]);
  }

  /** Both sums move by multiples of d, the first by d itself. */
  lemma ShiftedSums(t: nat, w: nat, t': nat, w': nat, k: nat, d: int)
    requires t' == t + d && w' == w + k * d
    ensures t' % M == t % M && w' % M == w % M <==> d % M == 0
  {
    SameMod(t', t);
    SameMod(w', w);
    if d % M == 0 { MultipleOfMultiple(k, d); }
  }

  lemma CongruentWords(v: nat, w: nat)
    requires v <= 65535 && w <= 65535
    ensures (v - w) % M == 0 <==> v == w || {v, w} == {0, 65535}
  {}

  /** A word that turns from 0x0000 into 0xFFFF goes unnoticed: the modulus is 65535, not 65536. */
  lemma ZeroOnesUnnoticed(data: seq<byte>, data': seq<byte>, i: nat)
    requires i < |WordsOfData(data)| && WordsOfData(data)[i] == 0 && WordsOfData(data') == WordsOfData(data)[i := 65535]
    ensures Decode(data' + Be32Bytes(Checksum(data))) == data'
  {
    CongruentWords(65535, 0);
    WordReplacement(data, data', i, 65535);
    Tampered(data, data');
  }

  /** What decoding makes of altered data under the original checksum. */
  lemma Tampered(data: seq<byte>, data': seq<byte>)
    ensures Decode(data' + Be32Bytes(Checksum(data))) == if Checksum(data') == Checksum(data) then data' else []
  {
    StoredChecksum(data);
    DecodeParts(data', Be32Bytes(Checksum(data)));
  }

  /** Changing one data byte changes one word, by less than 65535 and not by a multiple of it. */
  lemma ByteChangesWord(data: seq<byte>, k: nat, b: byte)
    requires k < |data| && b != data[k]
    ensures var v := WordOfData(data[k := b], k / 2);
            WordsOfData(data[k := b]) == WordsOfData(data)[k / 2 := v]
            && (v - WordsOfData(data)[k / 2]) % M != 0
  {
    var data' := data[k := b];
    var ws := WordsOfData(data);
    forall i | 0 <= i < |ws| && i != k / 2
      ensures WordsOfData(data')[i] == ws[i]
    {
      assert 2 * i != k && 2 * i + 1 != k;
      assert WordOfData(data', i) == WordOfData(data, i);
    }
    assert ws[k / 2] == WordOfData(data, k / 2);
    assert k == 2 * (k / 2) || k == 2 * (k / 2) + 1;
  }

  /** Any single altered byte of an encoded block, in the data or in the checksum, makes decode return 0. */
  lemma SingleByteCaught(data: seq<byte>, k: nat, b: byte)
    requires k < |Encode(data)| && b != Encode(data)[k]
    ensures Decode(Encode(data)[k := b]) == []
  {
    var t := Be32Bytes(Checksum(data));
    if k < |data| {
      DataByteCaught(data, k, b);
      assert (data + t)[k := b] == data[k := b] + t;
    } else {
      ChecksumByteCaught(data, k - |data|, b);
      assert (data + t)[k := b] == data + t[k - |data| := b];
    }
  }

  lemma DataByteCaught(data: seq<byte>, k: nat, b: byte)
    requires k < |data| && b != data[k]
    ensures Decode(data[k := b] + Be32Bytes(Checksum(data))) == []
  {
    ByteChangesWord(data, k, b);
    WordReplacement(data, data[k := b], k / 2, WordOfData(data[k := b], k / 2));
    Tampered(data, data[k := b]);
  }

  lemma ChecksumByteCaught(data: seq<byte>, j: nat, b: byte)
    requires j < 4 && b != Be32Bytes(Checksum(data))[j]
    ensures Decode(data + Be32Bytes(Checksum(data))[j := b]) == []
  {
    var t := Be32Bytes(Checksum(data));
    StoredChecksum(data);
    DecodeParts(data, t[j := b]);
    Be32Injective(t, t[j := b]);
  }

  lemma Be32Injective(a: seq<byte>, b: seq<byte>)
    requires |a| == 4 && |b| == 4 && a != b
    ensures Be32(a[0], a[1], a[2], a[3]) != Be32(b[0], b[1], b[2], b[3])
  {
    assert a[0] != b[0] || a[1] != b[1] || a[2] != b[2] || a[3] != b[3];
  }

  /** Swapping two adjacent words moves the weighted sum by their difference and nothing else,
      so the swap is caught exactly when they differ modulo 65535. */
  lemma AdjacentSwap(data: seq<byte>, data': seq<byte>, i: nat)
    requires i + 1 < |WordsOfData(data)|
    requires var ws := WordsOfData(data); WordsOfData(data') == ws[i := ws[i + 1]][i + 1 := ws[i]]
    ensures Checksum(data') == Checksum(data)
       <==> (WordsOfData(data)[i] - WordsOfData(data)[i + 1]) % M == 0
    ensures Decode(data' + Be32Bytes(Checksum(data))) == []
       <==> (WordsOfData(data)[i] - WordsOfData(data)[i + 1]) % M != 0
  {
    var ws, ws' := WordsOfData(data), WordsOfData(data');
    SwapSums(ws, i);
    SameChecksum(data', data);
    SameMod(Weighted(ws), Weighted(ws'));
    Tampered(data, data');
  }

  lemma SwapSums(ws: seq<nat>, i: nat)
    requires i + 1 < |ws|
    ensures var ws' := ws[i := ws[i + 1]][i + 1 := ws[i]];
            Total(ws') == Total(ws) && Weighted(ws) + ws[i + 1] == Weighted(ws') + ws[i]
  {
    var a, b, k := ws[i], ws[i + 1], |ws| - i;
    ReplaceWord(ws, i, b);
    ReplaceWord(ws[i := b], i + 1, a);
    assert k * (b - a) + (k - 1) * (a - b) == b - a;
  }
}
