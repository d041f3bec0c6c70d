/**
 The order in which a write visits the chunks: their dataset offsets ascend, the slowest dimension
 counting most.
 */
module CallOrder {
  import opened Tiling
  import opened ChunkGrid

  /** The slowest dimension in which the two differ decides. */
  predicate Precedes(a: seq<nat>, b: seq<nat>) {
    |a| == |b| && exists k :: 0 <= k < |a| && a[..k] == b[..k] && a[k] < b[k]
  }

  ghost predicate Ascending(offsets: seq<seq<nat>>) {
    forall i, j :: 0 <= i < j < |offsets| ==> Precedes(offsets[i], offsets[j])
  }

  /** The same for origins in the loops' coordinates, fastest dimension first. */
  predicate Earlier(a: seq<nat>, b: seq<nat>) {
    |a| == |b| && exists k :: 0 <= k < |a| && a[k] < b[k] && a[k + 1..] == b[k + 1..]
  }

  ghost predicate Sorted(os: seq<seq<nat>>) {
    forall i, j :: 0 <= i < j < |os| ==> Earlier(os[i], os[j])
  }

  /** The outer loops have chosen these coordinates. */
  ghost predicate EndWith(os: seq<seq<nat>>, n: nat, suffix: seq<nat>) {
    forall i :: 0 <= i < |os| ==> |os[i]| == n >= |suffix| && os[i][n - |suffix|..] == suffix
  }

  /** And the next one is at least j. */
  ghost predicate From(os: seq<seq<nat>>, d: nat, j: nat) {
    forall i :: 0 <= i < |os| ==> 0 < d <= |os[i]| && os[i][d - 1] >= j
  }

  lemma {:induction false} GridSorted(s: Shape, d: nat, suffix: seq<nat>)
    requires s.Valid() && d + |suffix| == |s.n|
    ensures Sorted(Grid(s, d, suffix)) && EndWith(Grid(s, d, suffix), |s.n|, suffix)
    decreases d, 0, 0
  {
    if d > 0 { GridLoopSorted(s, d, 0, suffix); }
  }

  lemma {:induction false} GridLoopSorted(s: Shape, d: nat, j: nat, suffix: seq<nat>)
    requires s.Valid() && 0 < d && d + |suffix| == |s.n|
    ensures var os := GridLoop(s, d, j, suffix); Sorted(os) && EndWith(os, |s.n|, suffix) && From(os, d, j)
    decreases d - 1, 1, s.n[d - 1] - j
  {
    if j < s.n[d - 1] {
      GridSorted(s, d - 1, [j] + suffix);
      GridLoopSorted(s, d, j + s.b[d - 1], suffix);
      var rest := GridLoop(s, d, j + s.b[d - 1], suffix);
      Joined(Grid(s, d - 1, [j] + suffix), rest, |s.n|, d, j, j + s.b[d - 1], suffix);
    }
  }

  /** One pass of a loop, then the passes after it. */
  lemma Joined(xs: seq<seq<nat>>, ys: seq<seq<nat>>, n: nat, d: nat, j: nat, next: nat, suffix: seq<nat>)
    requires 0 < d && d + |suffix| == n && j < next
    requires Sorted(xs) && EndWith(xs, n, [j] + suffix)
    requires Sorted(ys) && EndWith(ys, n, suffix) && From(ys, d, next)
    ensures Sorted(xs + ys) && EndWith(xs + ys, n, suffix) && From(xs + ys, d, j)
  {
    forall i | 0 <= i < |xs|
      ensures |xs[i]| == n && xs[i][d - 1] == j && xs[i][d..] == suffix
    {
      assert xs[i][d - 1..] == [j] + suffix;
      assert xs[i][d..] == xs[i][d - 1..][1..];
    }
    forall i, k | 0 <= i < |xs| && 0 <= k < |ys|
      ensures Earlier(xs[i], ys[k])
    {
      assert xs[i][d - 1] < ys[k][d - 1] && xs[i][d - 1 + 1..] == ys[k][d - 1 + 1..];
    }
  }

  lemma Reversed(a: seq<nat>, b: seq<nat>)
    requires Earlier(a, b)
    ensures Precedes(Key(a), Key(b))
  {
    var n := |a|;
    var k :| 0 <= k < n && a[k] < b[k] && a[k + 1..] == b[k + 1..];
    var m := n - 1 - k;
    forall i | 0 <= i < m
      ensures Key(a)[i] == Key(b)[i]
    {
      var p := n - i - 1 - (k + 1);
      assert a[k + 1..][p] == b[k + 1..][p];
    }
    assert Key(a)[..m] == Key(b)[..m] && Key(a)[m] < Key(b)[m];
  }

  /** The chunks of a buffer are visited in ascending order of their dataset offsets. */
  lemma OffsetsAscend(s: Shape)
    requires s.Valid()
    ensures var os := Origins(s); Ascending(seq(|os|, k requires 0 <= k < |os| => Key(os[k])))
  {
    var os := Origins(s);
    GridSorted(s, |s.n|, []);
    forall i, j | 0 <= i < j < |os|
      ensures Precedes(Key(os[i]), Key(os[j]))
    {
      Reversed(os[i], os[j]);
    }
  }
}
