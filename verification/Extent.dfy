/**
 The extent a dataset is created with when h5::current_dims is not given, and the hyperslab the
 following write selects in it.
 */
module Extent {
  import opened Arith

  /** The optional h5::stride, h5::block and h5::offset arguments, one entry per dimension. */
  datatype Tags<T> = Tags(stride: Option<T>, block: Option<T>, offset: Option<T>)

  /** The four arrays passed to H5Sselect_hyperslab. */
  datatype Slab = Slab(offset: seq<nat>, stride: seq<nat>, count: seq<nat>, block: seq<nat>)

  /** An argument's value along one dimension. */
  function Along(tag: Option<seq<nat>>, i: nat): (v: Option<nat>)
    requires tag.Some? ==> i < |tag.value|
  {
    match tag
    case None => None
    case Some(values) => Some(values[i])
  }

  /** Every given array covers the rank with 64-bit entries; strides and blocks are at least one. */
  predicate WellFormed(rank: nat, tags: Tags<seq<nat>>) {
    && (tags.stride.Some? ==> |tags.stride.value| == rank && forall i :: 0 <= i < rank ==> 1 <= tags.stride.value[i] < TWO_64)
    && (tags.block.Some? ==> |tags.block.value| == rank && forall i :: 0 <= i < rank ==> 1 <= tags.block.value[i] < TWO_64)
    && (tags.offset.Some? ==> |tags.offset.value| == rank && forall i :: 0 <= i < rank ==> tags.offset.value[i] < TWO_64)
  }

  /** One dimension of the extent, in unsigned 64-bit arithmetic. */
  function DimExtent(count: nat, stride: Option<nat>, block: Option<nat>, offset: Option<nat>): (d: nat) {
    var stretched :=
      if stride.None? then count
      else if block.Some? then (count * ((stride.value - block.value + 1) % TWO_64)) % TWO_64
      else (count * stride.value) % TWO_64;
    if offset.Some? then (stretched + offset.value) % TWO_64 else stretched
  }

  /** get_current_dims: three passes over the dimensions, each multiplying or adding in place. */
  method GetCurrentDims(count: seq<nat>, tags: Tags<seq<nat>>) returns (dims: seq<nat>)
    requires WellFormed(|count|, tags)
    ensures |dims| == |count|
    ensures forall i :: 0 <= i < |count| ==>
              dims[i] == DimExtent(count[i], Along(tags.stride, i), Along(tags.block, i), Along(tags.offset, i))
  {
    dims := count;
    var i := 0;
    if tags.stride.Some? {
      if tags.block.Some? {
        while i < |count|
          invariant 0 <= i <= |count| == |dims| && dims[i..] == count[i..]
          invariant forall k :: 0 <= k < i ==> dims[k] == DimExtent(count[k], Along(tags.stride, k), Along(tags.block, k), None)
        {
          dims := dims[i := (dims[i] * ((tags.stride.value[i] - tags.block.value[i] + 1) % TWO_64)) % TWO_64];
          i := i + 1;
        }
      } else {
        while i < |count|
          invariant 0 <= i <= |count| == |dims| && dims[i..] == count[i..]
          invariant forall k :: 0 <= k < i ==> dims[k] == DimExtent(count[k], Along(tags.stride, k), None, None)
        {
          dims := dims[i := (dims[i] * tags.stride.value[i]) % TWO_64];
          i := i + 1;
        }
      }
    }
    ghost var stretched := dims;
    if tags.offset.Some? {
      i := 0;
      while i < |count|
        invariant 0 <= i <= |count| == |dims| && dims[i..] == stretched[i..]
        invariant forall k :: 0 <= k < i ==> dims[k] == (stretched[k] + tags.offset.value[k]) % TWO_64
      {
        dims := dims[i := (dims[i] + tags.offset.value[i]) % TWO_64];
        i := i + 1;
      }
    }
  }

  /** The write's selection: blocks of the given size `count / block` times, or one block of `count`. */
  method SelectHyperslab(count: seq<nat>, tags: Tags<seq<nat>>) returns (slab: Slab)
    requires WellFormed(|count|, tags)
    ensures slab == SlabOf(count, tags)
  {
    var ones := seq(|count|, _ => 1);
    var offset := if tags.offset.Some? then tags.offset.value else seq(|count|, _ => 0);
    var stride := if tags.stride.Some? then tags.stride.value else ones;
    if tags.block.Some? {
      var blocks, i := count, 0;
      while i < |count|
        invariant 0 <= i <= |count| == |blocks| && blocks[i..] == count[i..]
        invariant forall k :: 0 <= k < i ==> blocks[k] == count[k] / tags.block.value[k]
      {
        blocks := blocks[i := blocks[i] / tags.block.value[i]];
        i := i + 1;
      }
      slab := Slab(offset, stride, blocks, tags.block.value);
      assert slab.count == SlabOf(count, tags).count;
    } else {
      slab := Slab(offset, stride, ones, count);
    }
  }

  function SlabOf(count: seq<nat>, tags: Tags<seq<nat>>): (slab: Slab)
    requires WellFormed(|count|, tags)
  {
    Slab(if tags.offset.Some? then tags.offset.value else seq(|count|, _ => 0),
         if tags.stride.Some? then tags.stride.value else seq(|count|, _ => 1),
         if tags.block.Some? then seq(|count|, i requires 0 <= i < |count| => count[i] / tags.block.value[i])
         else seq(|count|, _ => 1),
         if tags.block.Some? then tags.block.value else count)
  }

  /** Element m of block k. */
  function Coordinate(offset: nat, stride: nat, k: nat, m: nat): (x: nat) {
    offset + k * stride + m
  }

  /** H5Sselect_hyperslab selects the elements m < block of the blocks k < count. */
  ghost predicate Picks(offset: nat, stride: nat, count: nat, block: nat, x: nat) {
    exists k: nat, m: nat :: k < count && m < block && x == Coordinate(offset, stride, k, m)
  }

  ghost predicate Selects(slab: Slab, x: seq<nat>) {
    && |x| == |slab.offset| == |slab.stride| == |slab.count| == |slab.block|
    && forall i :: 0 <= i < |x| ==> Picks(slab.offset[i], slab.stride[i], slab.count[i], slab.block[i], x[i])
  }

  // ---- what is selected ----

  /** A missing argument has a default. */
  function OrElse(tag: Option<nat>, v: nat): (r: nat) {
    match tag
    case None => v
    case Some(value) => value
  }

  /** Along one dimension: with a block size, places m below it in block k for every whole block that count
      holds, the blocks s apart; without one, count places in a row, whatever the stride. */
  ghost predicate Picked(count: nat, s: nat, block: Option<nat>, o: nat, x: nat) {
    match block
    case None => o <= x < o + count
    case Some(b) => exists k: nat, m: nat :: InBlock(o, s, count, b, k, m, x)
  }

  /** Place m of block k, which ends within count. */
  predicate InBlock(o: nat, s: nat, count: nat, b: nat, k: nat, m: nat, x: nat) {
    m < b && (k + 1) * b <= count && x == o + k * s + m
  }

  lemma WholeBlocks(count: nat, b: nat, k: nat)
    requires b > 0
    ensures k < count / b <==> (k + 1) * b <= count
  {
    var q := count / b;
    if k < q {
      MulMono(k + 1, q, b);
      BlocksWithin(count, b);
    } else {
      MulMono(q + 1, k + 1, b);
      MulSucc(q, b);
    }
  }

  lemma PickedExactly(count: nat, s: nat, block: Option<nat>, o: nat, x: nat)
    requires block.Some? ==> block.value >= 1
    ensures Picks(o, s, if block.Some? then count / block.value else 1, OrElse(block, count), x)
       <==> Picked(count, s, block, o, x)
  {
    match block
    case None => OneBlock(o, s, count, x);
    case Some(b) => BlockPlaces(o, s, count, b, x);
  }

  lemma OneBlock(o: nat, s: nat, count: nat, x: nat)
    ensures Picks(o, s, 1, count, x) <==> o <= x < o + count
  {
    if o <= x < o + count { assert x == Coordinate(o, s, 0, x - o); }
  }

  lemma BlockPlaces(o: nat, s: nat, count: nat, b: nat, x: nat)
    requires b >= 1
    ensures Picks(o, s, count / b, b, x) <==> exists k: nat, m: nat :: InBlock(o, s, count, b, k, m, x)
  {
    if Picks(o, s, count / b, b, x) {
      var k: nat, m: nat :| k < count / b && m < b && x == Coordinate(o, s, k, m);
      WholeBlocks(count, b, k);
      assert InBlock(o, s, count, b, k, m, x);
    }
    if k: nat, m: nat :| InBlock(o, s, count, b, k, m, x) {
      WholeBlocks(count, b, k);
      assert x == Coordinate(o, s, k, m);
    }
  }

  ghost predicate PickedAlong(count: seq<nat>, tags: Tags<seq<nat>>, i: nat, x: nat)
    requires WellFormed(|count|, tags) && i < |count|
  {
    var o, s := OrElse(Along(tags.offset, i), 0), OrElse(Along(tags.stride, i), 1);
    Picked(count[i], s, Along(tags.block, i), o, x)
  }

  /** The write selects the places picked along every dimension, and no others. */
  lemma SelectedExactly(count: seq<nat>, tags: Tags<seq<nat>>, x: seq<nat>)
    requires WellFormed(|count|, tags)
    ensures Selects(SlabOf(count, tags), x)
       <==> |x| == |count| && forall i :: 0 <= i < |count| ==> PickedAlong(count, tags, i, x[i])
  {
    if |x| == |count| {
      forall i | 0 <= i < |count|
        ensures var slab := SlabOf(count, tags);
                (Picks(slab.offset[i], slab.stride[i], slab.count[i], slab.block[i], x[i])
                 <==> PickedAlong(count, tags, i, x[i]))
      {
        var o, s := OrElse(Along(tags.offset, i), 0), OrElse(Along(tags.stride, i), 1);
        PickedExactly(count[i], s, Along(tags.block, i), o, x[i]);
      }
    }
  }

  /** The places of c blocks of b, s apart. */
  function Places(o: nat, s: nat, c: nat, b: nat): (places: set<nat>)
    ensures forall x :: x in places <==> Picks(o, s, c, b, x)
  {
    var places := set k: nat, m: nat | 0 <= k < c && 0 <= m < b :: Coordinate(o, s, k, m);
    places
  }

  /** The places of one block. */
  function Run(a: nat, b: nat): (run: set<nat>)
    ensures forall x :: x in run <==> a <= x < a + b
  {
    if b == 0 then {} else Run(a, b - 1) + {a + b - 1}
  }

  lemma {:induction false} CountRun(a: nat, b: nat)
    ensures |Run(a, b)| == b
  {
    if b > 0 {
      CountRun(a, b - 1);
    }
  }

  /** Blocks no longer than the stride do not overlap. */
  lemma {:induction false} CountPlaces(o: nat, s: nat, c: nat, b: nat)
    requires b <= s || c <= 1
    ensures |Places(o, s, c, b)| == c * b
  {
    if c == 0 {
      assert Places(o, s, c, b) == {};
    } else {
      var d := c - 1;
      var a := o + d * s;
      LastBlock(o, s, c, d, b, a);
      CountPlaces(o, s, d, b);
      hide *;
      CountRun(a, b);
      MulSucc(d, b);
    }
  }

  lemma LastBlock(o: nat, s: nat, c: nat, d: nat, b: nat, a: nat)
    requires c == d + 1 && a == o + d * s && (b <= s || d == 0)
    ensures Places(o, s, c, b) == Places(o, s, d, b) + Run(a, b) && Places(o, s, d, b) !! Run(a, b)
  {
    var all, before, run := Places(o, s, c, b), Places(o, s, d, b), Run(a, b);
    forall x: nat
      ensures x in all <==> x in before || x in run
      ensures x in before ==> x !in run
    {
      hide Run;
      if x in run { assert x == Coordinate(o, s, d, x - a); }
      if Picks(o, s, c, b, x) { LastOrBefore(o, s, c, d, b, a, x); }
      if Picks(o, s, d, b, x) {
        var k: nat, m: nat :| k < d && m < b && x == Coordinate(o, s, k, m);
        MulMono(k + 1, d, s);
        MulSucc(k, s);
      }
    }
  }

  lemma LastOrBefore(o: nat, s: nat, c: nat, d: nat, b: nat, a: nat, x: nat)
    requires c == d + 1 && a == o + d * s && Picks(o, s, c, b, x)
    ensures Picks(o, s, d, b, x) || a <= x < a + b
  {
    var k: nat, m: nat :| k < c && m < b && x == Coordinate(o, s, k, m);
    if k < d { assert Picks(o, s, d, b, x); }
  }

  function Pairs(heads: set<nat>, rest: set<seq<nat>>): (all: set<seq<nat>>) {
    set a, r | a in heads && r in rest :: [a] + r
  }

  /** All sequences that take their i-th entry from the i-th set. */
  function Cross(sets: seq<set<nat>>): (all: set<seq<nat>>) {
    if sets == [] then {[]} else Pairs(sets[0], Cross(sets[1..]))
  }

  lemma {:induction false} InCross(sets: seq<set<nat>>, x: seq<nat>)
    ensures x in Cross(sets) <==> |x| == |sets| && forall i :: 0 <= i < |x| ==> x[i] in sets[i]
    decreases |sets|
  {
    if sets != [] && x != [] {
      assert x == [x[0]] + x[1..];
      InCross(sets[1..], x[1..]);
    }
  }

  lemma PairsSplit(heads: set<nat>, a: nat, rest: set<seq<nat>>)
    requires a in heads
    ensures Pairs(heads, rest) == Pairs(heads - {a}, rest) + Pairs({a}, rest)
    ensures Pairs(heads - {a}, rest) !! Pairs({a}, rest)
  {
    assert forall x :: x in Pairs({a}, rest) ==> x[0] == a;
    assert forall x :: x in Pairs(heads - {a}, rest) ==> x[0] != a;
  }

  lemma {:induction false} CountPairs(heads: set<nat>, rest: set<seq<nat>>)
    ensures |Pairs(heads, rest)| == |heads| * |rest|
    decreases |heads|
  {
    if heads == {} {
      assert Pairs(heads, rest) == {};
    } else {
      hide Pairs;
      var a :| a in heads;
      var others, n := heads - {a}, |rest|;
      PairsSplit(heads, a, rest);
      CountPairs(others, rest);
      CountHead(a, rest);
      assert |heads| == |others| + 1;
      MulSucc(|others|, n);
    }
  }

  lemma HeadSplit(a: nat, r: seq<nat>, rest: set<seq<nat>>)
    requires r in rest
    ensures Pairs({a}, rest) == Pairs({a}, rest - {r}) + {[a] + r}
    ensures [a] + r !in Pairs({a}, rest - {r})
  {
    assert rest == (rest - {r}) + {r} && Pairs({a}, {r}) == {[a] + r};
    assert forall q :: q in rest ==> ([a] + q)[1..] == q;
  }

  lemma {:induction false} CountHead(a: nat, rest: set<seq<nat>>)
    ensures |Pairs({a}, rest)| == |rest|
    decreases |rest|
  {
    if rest == {} {
      assert Pairs({a}, rest) == {};
    } else {
      hide Pairs;
      var r :| r in rest;
      HeadSplit(a, r, rest);
      CountHead(a, rest - {r});
    }
  }

  function Product(ns: seq<nat>): (p: nat) {
    if ns == [] then 1 else ns[0] * Product(ns[1..])
  }

  lemma {:induction false} CountCross(sets: seq<set<nat>>, ns: seq<nat>)
    requires |ns| == |sets| && forall i :: 0 <= i < |ns| ==> |sets[i]| == ns[i]
    ensures |Cross(sets)| == Product(ns)
    decreases |sets|
  {
    if sets != [] {
      CountCross(sets[1..], ns[1..]);
      CountPairs(sets[0], Cross(sets[1..]));
    }
  }

  /** No two blocks share a place. */
  ghost predicate Disjoint(count: seq<nat>, tags: Tags<seq<nat>>)
    requires WellFormed(|count|, tags)
  {
    tags.block.Some? ==> forall i :: 0 <= i < |count| ==>
      tags.block.value[i] <= (if tags.stride.Some? then tags.stride.value[i] else 1) || count[i] < 2 * tags.block.value[i]
  }

  /** How many elements the write selects when its blocks do not overlap: the product over the dimensions
      of what whole blocks fill, or of the count where no block is given. */
  lemma SelectedCount(count: seq<nat>, tags: Tags<seq<nat>>, sizes: seq<nat>) returns (all: set<seq<nat>>)
    requires WellFormed(|count|, tags) && Disjoint(count, tags) && |sizes| == |count|
    requires forall i :: 0 <= i < |count| ==>
               sizes[i] == if tags.block.Some? then count[i] / tags.block.value[i] * tags.block.value[i] else count[i]
    ensures forall x :: x in all <==> Selects(SlabOf(count, tags), x)
    ensures |all| == Product(sizes)
  {
    var slab := SlabOf(count, tags);
    var sets := seq(|count|, i requires 0 <= i < |count| =>
                      Places(slab.offset[i], slab.stride[i], slab.count[i], slab.block[i]));
    all := Cross(sets);
    forall x
      ensures x in all <==> Selects(slab, x)
    {
      InCross(sets, x);
    }
    forall i | 0 <= i < |count|
      ensures |sets[i]| == sizes[i]
    {
      if tags.block.Some? { FewBlocks(count[i], tags.block.value[i]); }
      CountPlaces(slab.offset[i], slab.stride[i], slab.count[i], slab.block[i]);
    }
    CountCross(sets, sizes);
  }

  lemma FewBlocks(count: nat, b: nat)
    requires b > 0
    ensures count < 2 * b ==> count / b <= 1
  {
    if count / b >= 2 { MulMono(2, count / b, b); }
  }

  /** block * (stride - block + 1) >= stride for 1 <= block <= stride. */
  lemma BlockStride(b: nat, s: nat)
    requires 1 <= b <= s
    ensures b * (s - b + 1) >= s
  {
    assert b * (s - b + 1) == s + (b - 1) * (s - b);
  }

  /** With q = count / block whole blocks, the last selected coordinate is inside the stretched count. */
  lemma StretchedEnough(count: nat, s: nat, b: nat, k: nat, m: nat)
    requires 1 <= b <= s && k < count / b && m < b
    ensures k * s + m < count * (s - b + 1)
  {
    var q, f := count / b, s - b + 1;
    BlockStride(b, s);
    MulMono(k + 1, q, s);
    MulSucc(k, s);
    assert k * s + m < q * s;
    BlocksWithin(count, b);
    Chain(q, b, f, s, count);
  }

  lemma BlocksWithin(count: nat, b: nat)
    requires b > 0
    ensures count / b * b <= count
  {}

  lemma Chain(q: nat, b: nat, f: nat, s: nat, count: nat)
    requires s <= b * f && q * b <= count
    ensures q * s <= count * f
  {
    MulMono(s, b * f, q);
    Rotate(q, b, f);
    MulMono(q * b, count, f);
  }

  lemma Rotate(q: nat, b: nat, f: nat)
    ensures (b * f) * q == (q * b) * f
  {}

  /** Whole blocks without a stride argument are one apart. */
  lemma AdjacentEnough(count: nat, b: nat, k: nat, m: nat)
    requires 1 <= b && k < count / b && m < b
    ensures k + m < count
  {
    var q := count / b;
    BlocksWithin(count, b);
    assert q * b == q + q * (b - 1);
    MulMono(1, q, b - 1);
  }

  /** The extent before 64-bit wrap-around. */
  function TrueExtent(count: nat, stride: Option<nat>, block: Option<nat>, offset: Option<nat>): (d: int) {
    (if stride.None? then count
     else if block.Some? then count * (stride.value - block.value + 1)
     else count * stride.value)
    + (if offset.Some? then offset.value else 0)
  }

  lemma NoWrap(count: nat, stride: Option<nat>, block: Option<nat>, offset: Option<nat>)
    requires count < TWO_64 && (stride.Some? && block.Some? ==> block.value <= stride.value < TWO_64 && block.value >= 1)
    requires TrueExtent(count, stride, block, offset) < TWO_64
    ensures DimExtent(count, stride, block, offset) == TrueExtent(count, stride, block, offset)
  {
    if stride.Some? {
      if block.Some? {
        var f: nat := stride.value - block.value + 1;
        var p := count * f;
        Small(f);
        assert p < TWO_64;
        Small(p);
      } else {
        var p := count * stride.value;
        assert p < TWO_64;
        Small(p);
      }
    }
    Small(TrueExtent(count, stride, block, offset));
  }

  lemma Small(x: nat)
    requires x < TWO_64
    ensures x % TWO_64 == x
  {}

  lemma WholeTurns(x: int, q: int)
    ensures (x + q * TWO_64) % TWO_64 == x % TWO_64
  {}

  lemma TurnsOfFactor(n: nat, f: int)
    ensures (n * (f % TWO_64)) % TWO_64 == (n * f) % TWO_64
  {
    var q, r := f / TWO_64, f % TWO_64;
    var turns := n * q;
    assert n * f == n * r + turns * TWO_64;
    WholeTurns(n * r, turns);
  }

  /** The extent in one formula, modulo 2^64: count times stride, less block - 1 with both given, and the
      offset behind it. A block alone changes nothing. */
  lemma ExtentModulo(count: nat, stride: Option<nat>, block: Option<nat>, offset: Option<nat>)
    requires count < TWO_64 && (offset.Some? ==> offset.value < TWO_64)
    ensures var factor: int := if stride.None? then 1
                               else if block.Some? then stride.value - block.value + 1 else stride.value;
            var behind := if offset.Some? then offset.value else 0;
            DimExtent(count, stride, block, offset) == (count * factor + behind) % TWO_64
  {
    var factor: int := if stride.None? then 1
                       else if block.Some? then stride.value - block.value + 1 else stride.value;
    var product := count * factor;
    if stride.None? {
      Small(count);
    } else if block.Some? {
      TurnsOfFactor(count, factor);
    }
    if offset.Some? { WholeTurns(product % TWO_64 + offset.value, product / TWO_64); }
  }

  /** One dimension: a coordinate the write selects is inside the extent. */
  lemma DimContains(count: nat, stride: Option<nat>, block: Option<nat>, offset: Option<nat>, x: nat)
    requires count < TWO_64 && (stride.Some? ==> 1 <= stride.value < TWO_64) && (block.Some? ==> block.value >= 1)
    requires stride.Some? && block.Some? ==> block.value <= stride.value
    requires TrueExtent(count, stride, block, offset) < TWO_64
    requires Picks(if offset.Some? then offset.value else 0, if stride.Some? then stride.value else 1,
                   if block.Some? then count / block.value else 1, if block.Some? then block.value else count, x)
    ensures x < DimExtent(count, stride, block, offset)
  {
    var o, s := if offset.Some? then offset.value else 0, if stride.Some? then stride.value else 1;
    var c, b := if block.Some? then count / block.value else 1, if block.Some? then block.value else count;
    var k: nat, m: nat :| k < c && m < b && x == Coordinate(o, s, k, m);
    NoWrap(count, stride, block, offset);
    if block.Some? {
      if stride.Some? {
        StretchedEnough(count, s, b, k, m);
      } else {
        AdjacentEnough(count, b, k, m);
      }
    } else if stride.Some? {
      MulMono(1, s, count);
    }
  }

  ghost predicate Inside(x: seq<nat>, dims: seq<nat>) {
    |x| == |dims| && forall i :: 0 <= i < |x| ==> x[i] < dims[i]
  }

  /** No dimension's extent reaches 2^64, and with both given no block is longer than the stride. */
  ghost predicate Sensible(count: seq<nat>, tags: Tags<seq<nat>>)
    requires WellFormed(|count|, tags)
  {
    && (forall i :: 0 <= i < |count| ==> count[i] < TWO_64)
    && (forall i {:trigger Along(tags.offset, i)} :: 0 <= i < |count| ==>
          TrueExtent(count[i], Along(tags.stride, i), Along(tags.block, i), Along(tags.offset, i)) < TWO_64)
    && (tags.stride.Some? && tags.block.Some? ==> forall i :: 0 <= i < |count| ==> tags.block.value[i] <= tags.stride.value[i])
  }

  /** Containment: every coordinate of the hyperslab the write selects lies inside the extent of
      the creation. */
  lemma Contains(count: seq<nat>, tags: Tags<seq<nat>>, dims: seq<nat>, x: seq<nat>)
    requires WellFormed(|count|, tags) && Sensible(count, tags) && |dims| == |count|
    requires forall i :: 0 <= i < |count| ==>
               dims[i] == DimExtent(count[i], Along(tags.stride, i), Along(tags.block, i), Along(tags.offset, i))
    requires Selects(SlabOf(count, tags), x)
    ensures Inside(x, dims)
  {
    var slab := SlabOf(count, tags);
    forall i | 0 <= i < |x|
      ensures x[i] < dims[i]
    {
      assert Picks(slab.offset[i], slab.stride[i], slab.count[i], slab.block[i], x[i]);
      DimContains(count[i], Along(tags.stride, i), Along(tags.block, i), Along(tags.offset, i), x[i]);
    }
  }

  /** Creating and then writing with the same arguments. */
  method CreateThenSelect(count: seq<nat>, tags: Tags<seq<nat>>) returns (dims: seq<nat>, slab: Slab)
    requires WellFormed(|count|, tags) && Sensible(count, tags)
    ensures |dims| == |count| && slab == SlabOf(count, tags)
    ensures forall x {:trigger Selects(slab, x)} :: Selects(slab, x) ==> Inside(x, dims)
  {
    dims := GetCurrentDims(count, tags);
    slab := SelectHyperslab(count, tags);
    forall x | Selects(slab, x)
      ensures Inside(x, dims)
    {
      Contains(count, tags, dims, x);
    }
  }

  /** Every coordinate selected along a dimension is below e. */
  ghost predicate AllBelow(o: nat, s: nat, c: nat, b: nat, e: int) {
    forall x: nat :: Picks(o, s, c, b, x) ==> x < e
  }

  lemma WrappedFactor(count: nat, s: nat, b: nat, o: nat, p: nat)
    requires 1 <= s < b < TWO_64 && p == count * (b - s - 1) && p + o + b < TWO_64
    ensures DimExtent(count, Some(s), Some(b), Some(o)) == Minus(o, p)
  {
    WrappedProduct(count, b - s - 1, s - b + 1, p);
    WrappedSum(o, p);
  }

  lemma WrappedProduct(count: nat, g: nat, d: int, p: nat)
    requires g < TWO_64 && d == 0 - g && p == count * g && p < TWO_64
    ensures (count * (d % TWO_64)) % TWO_64 == if p == 0 then 0 else TWO_64 - p
  {
    if g == 0 {
      ModAt(0, 0, d);
    } else {
      ModAt(-1, TWO_64 - g, d);
      assert count * (TWO_64 - g) == count * TWO_64 - p;
      if p == 0 {
        ModAt(count, 0, count * TWO_64);
      } else {
        MulSucc(count - 1, TWO_64);
        ModAt(count - 1, TWO_64 - p, count * TWO_64 - p);
      }
    }
  }

  lemma WrappedSum(o: nat, p: nat)
    requires p + o < TWO_64
    ensures ((if p == 0 then 0 else TWO_64 - p) + o) % TWO_64 == Minus(o, p)
  {
    if p == 0 {
      ModAt(0, o, o);
    } else if o < p {
      ModAt(0, TWO_64 - p + o, TWO_64 - p + o);
    } else {
      ModAt(1, o - p, TWO_64 - p + o);
    }
  }

  lemma ModAt(q: int, r: nat, x: int)
    requires r < TWO_64 && x == q * TWO_64 + r
    ensures x % TWO_64 == r
  {}

  /** count * (stride - block + 1) without wrapping; negative where the unsigned difference wraps. */
  function Stretch(count: nat, s: nat, b: nat): (p: int) {
    count * (s - b + 1)
  }

  /** Exactly when a dimension is contained. A block longer than the count selects nothing. For a block
      longer than the stride the unsigned difference wraps, and the extent falls to the offset or
      below unless the negative product exceeds the offset (and the extent wraps to nearly 2^64). Where
      such blocks overlap, that is when there is more than one, HDF5 itself refuses the selection. */
  lemma ContainedExactly(count: nat, s: nat, b: nat, o: nat)
    requires 1 <= s < TWO_64 && 1 <= b < TWO_64 && count < TWO_64
    requires b <= s ==> Stretch(count, s, b) + o < TWO_64
    requires b > s ==> count + o + b - Stretch(count, s, b) < TWO_64
    ensures AllBelow(o, s, count / b, b, DimExtent(count, Some(s), Some(b), Some(o)))
       <==> b > count || b <= s || o < -Stretch(count, s, b)
  {
    hide DimExtent, AllBelow, Stretch;
    if b > count {
      NothingSelected(count, s, b, o, DimExtent(count, Some(s), Some(b), Some(o)));
    } else if b <= s {
      NestedDim(count, s, b, o, Stretch(count, s, b));
    } else {
      WrappedDim(count, s, b, o, Stretch(count, s, b));
    }
  }

  lemma NothingSelected(count: nat, s: nat, b: nat, o: nat, e: int)
    requires count < b
    ensures AllBelow(o, s, count / b, b, e)
  {
    DivModUnique(0, count, b);
  }

  lemma NestedDim(count: nat, s: nat, b: nat, o: nat, p: int)
    requires 1 <= b <= s < TWO_64 && count < TWO_64 && p == Stretch(count, s, b) && p + o < TWO_64
    ensures AllBelow(o, s, count / b, b, DimExtent(count, Some(s), Some(b), Some(o)))
  {
    NestedExtent(count, s, b, o);
    NestedContained(count, s, b, o, DimExtent(count, Some(s), Some(b), Some(o)));
  }

  lemma WrappedDim(count: nat, s: nat, b: nat, o: nat, p: int)
    requires 1 <= s < b <= count && p == Stretch(count, s, b) && count + o + b - p < TWO_64
    ensures AllBelow(o, s, count / b, b, DimExtent(count, Some(s), Some(b), Some(o))) <==> o < -p
  {
    hide DimExtent, AllBelow, Minus;
    StretchBack(count, s, b, p);
    WrappedFactor(count, s, b, o, -p);
    WrappedContained(count, s, b, o, -p);
  }

  lemma StretchBack(count: nat, s: nat, b: nat, p: int)
    requires s < b && p == Stretch(count, s, b)
    ensures -p == count * (b - s - 1) && -p >= 0
  {
    var g: int := b - s - 1;
    assert count * (0 - g) == 0 - count * g;
    assert s - b + 1 == 0 - g;
    MulMono(0, g, count);
  }

  /** offset - p in unsigned 64-bit arithmetic */
  function Minus(o: nat, p: nat): (e: int) {
    if o < p then TWO_64 + o - p else o - p
  }

  lemma NestedExtent(count: nat, s: nat, b: nat, o: nat)
    requires 1 <= b <= s < TWO_64 && count < TWO_64 && count * (s - b + 1) + o < TWO_64
    ensures DimExtent(count, Some(s), Some(b), Some(o)) == count * (s - b + 1) + o
  {
    NoWrap(count, Some(s), Some(b), Some(o));
  }

  lemma NestedContained(count: nat, s: nat, b: nat, o: nat, e: nat)
    requires 1 <= b <= s && e == count * (s - b + 1) + o
    ensures AllBelow(o, s, count / b, b, e)
  {
    forall x: nat | Picks(o, s, count / b, b, x)
      ensures x < e
    {
      var k: nat, m: nat :| k < count / b && m < b && x == Coordinate(o, s, k, m);
      StretchedEnough(count, s, b, k, m);
    }
  }

  lemma WrappedContained(count: nat, s: nat, b: nat, o: nat, p: nat)
    requires 1 <= s < b <= count && p + count + o + b < TWO_64
    ensures AllBelow(o, s, count / b, b, Minus(o, p)) <==> o < p
  {
    if o < p {
      forall x: nat | Picks(o, s, count / b, b, x)
        ensures x < Minus(o, p)
      {
        var k: nat, m: nat :| k < count / b && m < b && x == Coordinate(o, s, k, m);
        StridesFit(count, s, b, k);
      }
    } else {
      FirstPicked(count, s, b, o);
    }
  }

  lemma StridesFit(count: nat, s: nat, b: nat, k: nat)
    requires 1 <= s < b && k < count / b
    ensures k * s <= count
  {
    var q := count / b;
    MulMono(k, q, s);
    MulMono(s, b, q);
    BlocksWithin(count, b);
  }

  lemma FirstPicked(count: nat, s: nat, b: nat, o: nat)
    requires 1 <= b <= count
    ensures Picks(o, s, count / b, b, o)
  {
    DivMono(b, count, b);
    DivModUnique(1, 0, b);
    assert o == Coordinate(o, s, 0, 0);
  }
}
