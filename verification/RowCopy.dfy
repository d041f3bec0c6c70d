/**
 Copying rows between a source buffer and consecutive slots of a chunk image: `offs` lists the
 source offsets, slot k starts at `at + k * pitch`, and `len <= pitch` bytes travel per row.
 */
module RowCopy {
  import opened Arith
  import opened Memory

  /** The buffer with x written at byte `at`. */
  function Splice(buf: seq<byte>, at: nat, x: seq<byte>): (r: seq<byte>)
    requires at + |x| <= |buf|
    ensures |r| == |buf|
    ensures forall p :: 0 <= p < |r| ==> r[p] == if at <= p < at + |x| then x[p - at] else buf[p]
  {
    buf[..at] + x + buf[at + |x|..]
  }

  method CopyInto(dst: array<byte>, at: nat, x: seq<byte>)
    requires at + |x| <= dst.Length
    modifies dst
    ensures dst[..] == Splice(old(dst[..]), at, x)
  {
    ghost var before := dst[..];
    MemCpy(dst, at, x);
    assert before[..at] == old(dst[..at]) && before[at + |x|..] == old(dst[at + |x|..]);
  }

  /** The slots for all rows fit an image of `cap` bytes. */
  predicate Fits(offs: seq<nat>, at: nat, pitch: nat, cap: nat) {
    at <= cap && (offs != [] ==> at + pitch <= cap && Fits(offs[1..], at + pitch, pitch, cap))
  }

  /** Every row lies inside a buffer of `total` bytes. */
  predicate Inside(offs: seq<nat>, len: nat, total: nat) {
    forall k :: 0 <= k < |offs| ==> offs[k] + len <= total
  }

  /** Where the slot after the last one starts. */
  function Advance(offs: seq<nat>, at: nat, pitch: nat): (e: nat)
    ensures e >= at
  {
    if offs == [] then at else Advance(offs[1..], at + pitch, pitch)
  }

  lemma {:induction false} FitsAdvance(offs: seq<nat>, at: nat, pitch: nat, cap: nat)
    ensures Fits(offs, at, pitch, cap) <==> Advance(offs, at, pitch) <= cap
    decreases |offs|
  {
    if offs != [] { FitsAdvance(offs[1..], at + pitch, pitch, cap); }
  }

  lemma {:induction false} AdvanceBy(offs: seq<nat>, at: nat, pitch: nat)
    ensures Advance(offs, at, pitch) == at + |offs| * pitch
    decreases |offs|
  {
    if offs != [] {
      AdvanceBy(offs[1..], at + pitch, pitch);
      MulSucc(|offs[1..]|, pitch);
    }
  }

  /** Source rows into consecutive slots. */
  function PutRows(img: seq<byte>, src: seq<byte>, offs: seq<nat>, at: nat, len: nat, pitch: nat): (r: seq<byte>)
    requires len <= pitch && Fits(offs, at, pitch, |img|) && Inside(offs, len, |src|)
    ensures |r| == |img|
    decreases |offs|
  {
    if offs == [] then img
    else PutRows(Splice(img, at, src[offs[0]..offs[0] + len]), src, offs[1..], at + pitch, len, pitch)
  }

  /** Consecutive slots back to their source rows. */
  function FetchRows(dst: seq<byte>, img: seq<byte>, offs: seq<nat>, at: nat, len: nat, pitch: nat): (r: seq<byte>)
    requires len <= pitch && Fits(offs, at, pitch, |img|) && Inside(offs, len, |dst|)
    ensures |r| == |dst|
    decreases |offs|
  {
    if offs == [] then dst
    else FetchRows(Splice(dst, offs[0], img[at..at + len]), img, offs[1..], at + pitch, len, pitch)
  }

  lemma {:induction false} FitsConcat(a: seq<nat>, b: seq<nat>, at: nat, pitch: nat, cap: nat)
    ensures Fits(a + b, at, pitch, cap) <==> Fits(a, at, pitch, cap) && Fits(b, Advance(a, at, pitch), pitch, cap)
    ensures Advance(a + b, at, pitch) == Advance(b, Advance(a, at, pitch), pitch)
    decreases |a|
  {
    if a == [] {
      assert a + b == b;
      if Fits(b, at, pitch, cap) {}
    } else {
      assert (a + b)[1..] == a[1..] + b;
      FitsConcat(a[1..], b, at + pitch, pitch, cap);
    }
  }

  lemma InsideConcat(a: seq<nat>, b: seq<nat>, len: nat, total: nat)
    ensures Inside(a + b, len, total) <==> Inside(a, len, total) && Inside(b, len, total)
  {
    if Inside(a + b, len, total) {
      assert forall k :: 0 <= k < |a| ==> (a + b)[k] == a[k];
      assert forall k :: 0 <= k < |b| ==> (a + b)[|a| + k] == b[k];
    }
  }

  /** Copying a run of rows is copying its parts one after the other. */
  lemma {:induction false} PutConcat(img: seq<byte>, src: seq<byte>, a: seq<nat>, b: seq<nat>, at: nat,
                                     len: nat, pitch: nat)
    requires len <= pitch && Fits(a + b, at, pitch, |img|) && Inside(a + b, len, |src|)
    ensures Fits(a, at, pitch, |img|) && Fits(b, Advance(a, at, pitch), pitch, |img|)
    ensures Inside(a, len, |src|) && Inside(b, len, |src|)
    ensures PutRows(img, src, a + b, at, len, pitch)
         == PutRows(PutRows(img, src, a, at, len, pitch), src, b, Advance(a, at, pitch), len, pitch)
    decreases |a|
  {
    FitsConcat(a, b, at, pitch, |img|);
    InsideConcat(a, b, len, |src|);
    if a == [] {
      assert a + b == b;
    } else {
      assert (a + b)[1..] == a[1..] + b && (a + b)[0] == a[0];
      PutConcat(Splice(img, at, src[a[0]..a[0] + len]), src, a[1..], b, at + pitch, len, pitch);
    }
  }

  lemma {:induction false} FetchConcat(dst: seq<byte>, img: seq<byte>, a: seq<nat>, b: seq<nat>, at: nat,
                                       len: nat, pitch: nat)
    requires len <= pitch && Fits(a + b, at, pitch, |img|) && Inside(a + b, len, |dst|)
    ensures Fits(a, at, pitch, |img|) && Fits(b, Advance(a, at, pitch), pitch, |img|)
    ensures Inside(a, len, |dst|) && Inside(b, len, |dst|)
    ensures FetchRows(dst, img, a + b, at, len, pitch)
         == FetchRows(FetchRows(dst, img, a, at, len, pitch), img, b, Advance(a, at, pitch), len, pitch)
    decreases |a|
  {
    FitsConcat(a, b, at, pitch, |img|);
    InsideConcat(a, b, len, |dst|);
    if a == [] {
      assert a + b == b;
    } else {
      assert (a + b)[1..] == a[1..] + b && (a + b)[0] == a[0];
      FetchConcat(Splice(dst, a[0], img[at..at + len]), img, a[1..], b, at + pitch, len, pitch);
    }
  }

  // ---- putting and fetching back ----

  /** Slot k of img holds row k of src, for every row. */
  predicate Holds(img: seq<byte>, src: seq<byte>, offs: seq<nat>, at: nat, len: nat, pitch: nat)
    requires len <= pitch && Fits(offs, at, pitch, |img|) && Inside(offs, len, |src|)
    decreases |offs|
  {
    offs != [] ==>
      && img[at..at + len] == src[offs[0]..offs[0] + len]
      && Holds(img, src, offs[1..], at + pitch, len, pitch)
  }

  lemma {:induction false} PutBelow(img: seq<byte>, src: seq<byte>, offs: seq<nat>, at: nat, len: nat, pitch: nat)
    requires len <= pitch && Fits(offs, at, pitch, |img|) && Inside(offs, len, |src|)
    ensures PutRows(img, src, offs, at, len, pitch)[..at] == img[..at]
    decreases |offs|
  {
    if offs != [] {
      var img' := Splice(img, at, src[offs[0]..offs[0] + len]);
      PutBelow(img', src, offs[1..], at + pitch, len, pitch);
      var r := PutRows(img, src, offs, at, len, pitch);
      SliceOfPrefix(r, img', at + pitch, 0, at);
      assert r[..at] == r[0..at] && img'[..at] == img'[0..at];
    }
  }

  lemma SliceOfPrefix(a: seq<byte>, b: seq<byte>, n: nat, p: nat, q: nat)
    requires p <= q <= n <= |a| && n <= |b| && a[..n] == b[..n]
    ensures a[p..q] == b[p..q]
  {
    assert a[p..q] == a[..n][p..q] && b[p..q] == b[..n][p..q];
  }

  lemma {:induction false} PutHolds(img: seq<byte>, src: seq<byte>, offs: seq<nat>, at: nat, len: nat, pitch: nat)
    requires len <= pitch && Fits(offs, at, pitch, |img|) && Inside(offs, len, |src|)
    ensures Holds(PutRows(img, src, offs, at, len, pitch), src, offs, at, len, pitch)
    decreases |offs|
  {
    if offs != [] {
      var row := src[offs[0]..offs[0] + len];
      var img' := Splice(img, at, row);
      PutBelow(img', src, offs[1..], at + pitch, len, pitch);
      var r := PutRows(img, src, offs, at, len, pitch);
      SliceOfPrefix(r, img', at + pitch, at, at + len);
      assert img'[at..at + len] == row;
      PutHolds(img', src, offs[1..], at + pitch, len, pitch);
    }
  }

  /** Source byte p belongs to one of the rows. */
  ghost predicate Covered(p: nat, offs: seq<nat>, len: nat) {
    exists k :: 0 <= k < |offs| && offs[k] <= p < offs[k] + len
  }

  /** Fetching an image that holds the rows restores exactly the bytes those rows cover. */
  lemma {:induction false} FetchHeld(dst: seq<byte>, img: seq<byte>, src: seq<byte>, offs: seq<nat>, at: nat,
                                     len: nat, pitch: nat)
    requires len <= pitch && Fits(offs, at, pitch, |img|) && |dst| == |src| && Inside(offs, len, |src|)
    requires Holds(img, src, offs, at, len, pitch)
    ensures var r := FetchRows(dst, img, offs, at, len, pitch);
            forall p: nat :: p < |r| ==> r[p] == if Covered(p, offs, len) then src[p] else dst[p]
    decreases |offs|
  {
    if offs != [] {
      var rest := offs[1..];
      var dst' := Splice(dst, offs[0], img[at..at + len]);
      FetchHeld(dst', img, src, rest, at + pitch, len, pitch);
      var r := FetchRows(dst, img, offs, at, len, pitch);
      forall p: nat | p < |r|
        ensures r[p] == if Covered(p, offs, len) then src[p] else dst[p]
      {
        CoveredCons(p, offs, len);
        assert dst'[p] == if offs[0] <= p < offs[0] + len then src[p] else dst[p] by {
          if offs[0] <= p < offs[0] + len {
            assert img[at..at + len][p - offs[0]] == src[offs[0]..offs[0] + len][p - offs[0]];
          }
        }
      }
    }
  }

  lemma CoveredCons(p: nat, offs: seq<nat>, len: nat)
    requires offs != []
    ensures Covered(p, offs, len) <==> offs[0] <= p < offs[0] + len || Covered(p, offs[1..], len)
  {
    if Covered(p, offs[1..], len) {
      var k :| 0 <= k < |offs[1..]| && offs[1..][k] <= p < offs[1..][k] + len;
      assert offs[k + 1] == offs[1..][k];
    }
    if Covered(p, offs, len) && !(offs[0] <= p < offs[0] + len) {
      var k :| 0 <= k < |offs| && offs[k] <= p < offs[k] + len;
      assert offs[1..][k - 1] == offs[k];
    }
  }

  /** When the slots fill the image and rows fill the slots, nothing of the old image survives. */
  lemma {:induction false} PutFills(img0: seq<byte>, img1: seq<byte>, src: seq<byte>, offs: seq<nat>, at: nat, len: nat)
    requires |img0| == |img1| && Fits(offs, at, len, |img0|) && Inside(offs, len, |src|)
    requires Advance(offs, at, len) == |img0| && img0[..at] == img1[..at]
    ensures PutRows(img0, src, offs, at, len, len) == PutRows(img1, src, offs, at, len, len)
    decreases |offs|
  {
    if offs != [] {
      var row := src[offs[0]..offs[0] + len];
      var a, b := Splice(img0, at, row), Splice(img1, at, row);
      assert a[..at + len] == img0[..at] + row && b[..at + len] == img1[..at] + row;
      PutFills(a, b, src, offs[1..], at + len, len);
    }
  }

  lemma SplicePrefix(img: seq<byte>, at: nat, row: seq<byte>, cut: nat)
    requires at + |row| <= cut <= |img|
    ensures Splice(img, at, row)[..cut] == Splice(img[..cut], at, row)
    ensures Splice(img, at, row)[cut..] == img[cut..]
  {}

  /** Bytes past the last slot take no part in a put... */
  lemma {:induction false} PutPrefix(img: seq<byte>, src: seq<byte>, offs: seq<nat>, at: nat, len: nat,
                                     pitch: nat, cut: nat)
    requires len <= pitch && cut <= |img| && Fits(offs, at, pitch, cut) && Fits(offs, at, pitch, |img|) && Inside(offs, len, |src|)
    ensures PutRows(img, src, offs, at, len, pitch)[..cut] == PutRows(img[..cut], src, offs, at, len, pitch)
    ensures PutRows(img, src, offs, at, len, pitch)[cut..] == img[cut..]
    decreases |offs|
  {
    if offs != [] {
      var row := src[offs[0]..offs[0] + len];
      var img' := Splice(img, at, row);
      SplicePrefix(img, at, row, cut);
      PutPrefix(img', src, offs[1..], at + pitch, len, pitch, cut);
    }
  }

  /** ... nor in a fetch. */
  lemma {:induction false} FetchPrefix(dst: seq<byte>, img: seq<byte>, offs: seq<nat>, at: nat, len: nat,
                                       pitch: nat, cut: nat)
    requires len <= pitch && cut <= |img| && Fits(offs, at, pitch, cut) && Fits(offs, at, pitch, |img|) && Inside(offs, len, |dst|)
    ensures FetchRows(dst, img, offs, at, len, pitch) == FetchRows(dst, img[..cut], offs, at, len, pitch)
    decreases |offs|
  {
    if offs != [] {
      assert img[at..at + len] == img[..cut][at..at + len];
      FetchPrefix(Splice(dst, offs[0], img[at..at + len]), img, offs[1..], at + pitch, len, pitch, cut);
    }
  }

  lemma PutSingle(img: seq<byte>, src: seq<byte>, q: nat, at: nat, len: nat, pitch: nat)
    requires len <= pitch && Fits([q], at, pitch, |img|) && Inside([q], len, |src|)
    ensures q + len <= |src| && at + len <= |img|
    ensures PutRows(img, src, [q], at, len, pitch) == Splice(img, at, src[q..q + len])
  {
    assert [q][0] + len <= |src|;
    assert [q][1..] == [];
  }

  lemma FetchSingle(dst: seq<byte>, img: seq<byte>, q: nat, at: nat, len: nat, pitch: nat)
    requires len <= pitch && Fits([q], at, pitch, |img|) && Inside([q], len, |dst|)
    ensures q + len <= |dst| && at + len <= |img|
    ensures FetchRows(dst, img, [q], at, len, pitch) == Splice(dst, q, img[at..at + len])
  {
    assert [q][0] + len <= |dst|;
    assert [q][1..] == [];
  }

  // ---- what a nest of copy loops still has to do ----

  /** Copying `offs` from slot `at` on yields `goal` and ends at `end`. */
  ghost predicate PutTo(img: seq<byte>, src: seq<byte>, offs: seq<nat>, at: nat, len: nat, pitch: nat,
                        goal: seq<byte>, end: nat) {
    && len <= pitch && Fits(offs, at, pitch, |img|) && Inside(offs, len, |src|)
    && PutRows(img, src, offs, at, len, pitch) == goal
    && Advance(offs, at, pitch) == end
  }

  ghost predicate FetchTo(dst: seq<byte>, img: seq<byte>, offs: seq<nat>, at: nat, len: nat, pitch: nat,
                          goal: seq<byte>, end: nat) {
    && len <= pitch && Fits(offs, at, pitch, |img|) && Inside(offs, len, |dst|)
    && FetchRows(dst, img, offs, at, len, pitch) == goal
    && Advance(offs, at, pitch) == end
  }

  lemma PutToDone(img: seq<byte>, src: seq<byte>, at: nat, len: nat, pitch: nat, goal: seq<byte>, end: nat)
    requires PutTo(img, src, [], at, len, pitch, goal, end)
    ensures img == goal && at == end
  {}

  lemma PutToSplit(img: seq<byte>, src: seq<byte>, a: seq<nat>, b: seq<nat>, at: nat, len: nat, pitch: nat,
                   goal: seq<byte>, end: nat)
    requires PutTo(img, src, a + b, at, len, pitch, goal, end)
    ensures Fits(a, at, pitch, |img|) && Inside(a, len, |src|)
    ensures PutTo(PutRows(img, src, a, at, len, pitch), src, b, Advance(a, at, pitch), len, pitch, goal, end)
  {
    FitsConcat(a, b, at, pitch, |img|);
    PutConcat(img, src, a, b, at, len, pitch);
  }

  lemma FetchToSplit(dst: seq<byte>, img: seq<byte>, a: seq<nat>, b: seq<nat>, at: nat, len: nat, pitch: nat,
                     goal: seq<byte>, end: nat)
    requires FetchTo(dst, img, a + b, at, len, pitch, goal, end)
    ensures Fits(a, at, pitch, |img|) && Inside(a, len, |dst|)
    ensures FetchTo(FetchRows(dst, img, a, at, len, pitch), img, b, Advance(a, at, pitch), len, pitch, goal, end)
  {
    FitsConcat(a, b, at, pitch, |img|);
    FetchConcat(dst, img, a, b, at, len, pitch);
  }
}
