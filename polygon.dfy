/*
 * Stage 2 of polygon fitting, `bestpolygon` (trace.c.cs): the polygon
 * through points of the path that has the fewest segments, and among
 * those the least total penalty. A segment from point i may reach as far
 * as clip0[i]; the polygon starts at point 0 and ends at point n (point 0
 * again), so the search is non-cyclic.
 *
 * The penalty of a segment, `penalty3`, is a computation on doubles and a
 * square root; it is a parameter here, a function of the two end points.
 * Doubles are reals.
 */
module Polygon {
  import opened Auxiliary
  import opened Curve

  /* ---------------------------------------------------------------------- */
  /* clipped paths */

  /**
   * `clip0[i]`: how far a segment from i may reach, from lon of the point
   * before i, cut off at n where it would wrap past the end. With at least
   * two points it always gets past i; with one it stays at 0, and the
   * segment loop below cannot advance.
   */
  function ClipAt(lon: seq<int>, i: int): (c: int)
    requires 0 <= i < |lon|
    requires forall x :: 0 <= x < |lon| ==> IsInt32(lon[x])
    ensures 0 <= c <= |lon|
    ensures |lon| >= 2 ==> i < c <= |lon|
    ensures |lon| >= 2 && i == |lon| - 1 ==> c == |lon|
    ensures |lon| == 1 ==> c == 0
  {
    var n := |lon|;
    var c := Mod(Add32(lon[Mod(i - 1, n)], -1), n);
    var c' := if c == i then Mod(i + 1, n) else c;
    if c' < i then n else c'
  }

  /** The first loop of bestpolygon: clip0[i] for every point i. */
  method Clip0(lon: array<int>) returns (clip0: array<int>)
    requires forall x :: 0 <= x < lon.Length ==> IsInt32(lon[x])
    ensures fresh(clip0) && clip0.Length == lon.Length
    ensures forall i :: 0 <= i < lon.Length ==> clip0[i] == ClipAt(lon[..], i)
    ensures forall i :: 0 <= i < lon.Length ==> 0 <= clip0[i] <= lon.Length
  {
    var n := lon.Length;
    clip0 := new int[n];
    var i := 0;
    while i < n
      invariant 0 <= i <= n
      invariant forall x :: 0 <= x < i ==> clip0[x] == ClipAt(lon[..], x)
    {
      clip0[i] := ClipAt(lon[..], i);
      i := i + 1;
    }
  }

  /** Each segment gets past its start and stays within n. */
  ghost predicate Advancing(clip0: seq<int>)
  {
    forall i :: 0 <= i < |clip0| ==> i < clip0[i] <= |clip0|
  }

  /** A segment starting further on reaches at least as far. */
  ghost predicate Monotone(clip0: seq<int>)
  {
    forall a, b :: 0 <= a <= b < |clip0| ==> clip0[a] <= clip0[b]
  }

  /** With at least two points the clipped table advances. */
  lemma ClipsAdvance(lon: seq<int>, clip0: seq<int>)
    requires |lon| >= 2 && |clip0| == |lon| && forall x :: 0 <= x < |lon| ==> IsInt32(lon[x])
    requires forall i :: 0 <= i < |lon| ==> clip0[i] == ClipAt(lon, i)
    ensures Advancing(clip0)
  {
    forall i | 0 <= i < |clip0|
      ensures i < clip0[i] <= |clip0|
    {
      assert clip0[i] == ClipAt(lon, i);
    }
  }

  /** i is the first point whose segment reaches j. */
  ghost predicate LeastReaching(clip0: seq<int>, j: int, i: int)
  {
    0 <= i < |clip0| && j <= clip0[i] && forall i' :: 0 <= i' < i ==> clip0[i'] < j
  }

  /** Some segment reaches j. */
  ghost predicate Reached(clip0: seq<int>, j: int)
  {
    exists i :: 0 <= i < |clip0| && j <= clip0[i]
  }

  /**
   * What the second loop computes: clip1[j] is the first point whose
   * segment reaches j, for every j that some segment reaches; the other
   * entries keep the array's initial zero.
   */
  ghost predicate ClipTable(clip0: seq<int>, clip1: seq<int>)
  {
    && |clip1| == |clip0| + 1 && clip1[0] == 0
    && (forall j :: 1 <= j <= |clip0| && Reached(clip0, j) ==> LeastReaching(clip0, j, clip1[j]))
    && (forall j :: 1 <= j <= |clip0| && !Reached(clip0, j) ==> clip1[j] == 0)
  }

  /**
   * The second loop: clip1[j] is the first point whose segment reaches j,
   * for every j that some segment reaches; the other entries keep the
   * array's initial zero.
   */
  method Clip1(clip0: array<int>) returns (clip1: array<int>)
    requires forall i :: 0 <= i < clip0.Length ==> clip0[i] <= clip0.Length
    ensures fresh(clip1) && ClipTable(clip0[..], clip1[..])
  {
    var n := clip0.Length;
    clip1 := new int[n + 1](_ => 0);
    var j := 1;
    var i := 0;
    while i < n
      invariant 0 <= i <= n && 1 <= j <= n + 1 && clip1[0] == 0
      invariant forall i' :: 0 <= i' < i ==> clip0[i'] < j
      invariant forall j' :: 1 <= j' < j ==> LeastReaching(clip0[..], j', clip1[j'])
      invariant forall j' :: j <= j' <= n ==> clip1[j'] == 0
    {
      j := Assign(clip0, clip1, i, j);
      i := i + 1;
    }
  }

  /** The inner loop of Clip1: every j up to clip0[i] not yet assigned gets i. */
  method Assign(clip0: array<int>, clip1: array<int>, i: int, j: int) returns (j': int)
    requires clip0 != clip1 && clip1.Length == clip0.Length + 1 && 0 <= i < clip0.Length && 1 <= j <= clip1.Length
    requires clip0[i] <= clip0.Length && clip1[0] == 0
    requires forall i' :: 0 <= i' < i ==> clip0[i'] < j
    requires forall j'' :: 1 <= j'' < j ==> LeastReaching(clip0[..], j'', clip1[j''])
    requires forall j'' :: j <= j'' < clip1.Length ==> clip1[j''] == 0
    modifies clip1
    ensures j <= j' <= clip1.Length && clip1[0] == 0
    ensures forall i' :: 0 <= i' <= i ==> clip0[i'] < j'
    ensures forall j'' :: 1 <= j'' < j' ==> LeastReaching(clip0[..], j'', clip1[j''])
    ensures forall j'' :: j' <= j'' < clip1.Length ==> clip1[j''] == 0
  {
    j' := j;
    while j' <= clip0[i]
      invariant j <= j' <= clip1.Length && j' <= Max(j, clip0[i] + 1) && clip1[0] == 0
      invariant forall j'' :: 1 <= j'' < j ==> LeastReaching(clip0[..], j'', clip1[j''])
      invariant forall j'' :: j <= j'' < j' ==> clip1[j''] == i
      invariant forall j'' :: j' <= j'' < clip1.Length ==> clip1[j''] == 0
    {
      clip1[j'] := i;
      j' := j' + 1;
    }
  }

  /**
   * The comment's promise for clip1: when the reach of the segments grows
   * with their start, j <= clip0[i] exactly when clip1[j] <= i.
   */
  lemma ClipsAgree(clip0: seq<int>, j: int, c: int, i: int)
    requires Monotone(clip0) && LeastReaching(clip0, j, c) && 0 <= i < |clip0|
    ensures j <= clip0[i] <==> c <= i
  {
    if c <= i {
      assert clip0[c] <= clip0[i];
    }
  }

  /* ---------------------------------------------------------------------- */
  /* segment bounds */

  /**
   * What the third loop computes: seg0[t] is the point reached from 0 by t
   * segments that each go as far as allowed, and the m-th reaches n.
   */
  ghost predicate Greedy(clip0: seq<int>, seg0: seq<int>, m: int)
  {
    var n := |clip0|;
    && 0 <= m < |seg0| && seg0[0] == 0 && seg0[m] == n
    && forall t :: 0 <= t < m ==> 0 <= seg0[t] < n && seg0[t + 1] == clip0[seg0[t]]
  }

  /**
   * The third loop, `for (j=0; i<n; j++) { seg0[j] = i; i = clip0[i]; }`
   * and `seg0[j] = n`. It ends when the segments advance. With a single
   * point they never do: j runs past the end of seg0, whose write throws
   * IndexOutOfRangeException, and here `ok` is false.
   */
  method Seg0(clip0: array<int>) returns (ok: bool, seg0: array<int>, m: int)
    requires forall i :: 0 <= i < clip0.Length ==> 0 <= clip0[i] <= clip0.Length
    ensures fresh(seg0) && seg0.Length == clip0.Length + 1
    ensures ok ==> Greedy(clip0[..], seg0[..], m)
    ensures Advancing(clip0[..]) ==> ok
    ensures clip0.Length == 1 && clip0[0] == 0 ==> !ok
  {
    var n := clip0.Length;
    seg0 := new int[n + 1](_ => 0);
    var i := 0;
    var j := 0;
    while i < n
      invariant 0 <= j <= n + 1 && 0 <= i <= n
      invariant j == 0 ==> i == 0
      invariant forall t :: 0 <= t < j ==> 0 <= seg0[t] < n
      invariant j >= 1 ==> seg0[0] == 0 && i == clip0[seg0[j - 1]]
      invariant forall t :: 0 <= t < j - 1 ==> seg0[t + 1] == clip0[seg0[t]]
      invariant Advancing(clip0[..]) ==> j <= i
      invariant n == 1 && clip0[0] == 0 ==> i == 0
      decreases n + 1 - j
    {
      if j > n {
        return false, seg0, j;
      }
      seg0[j] := i;
      i := clip0[i];
      j := j + 1;
    }
    if j > n {
      return false, seg0, j;
    }
    seg0[j] := n;
    m := j;
    ok := true;
  }

  /**
   * A polygon from point 0 whose every segment the clipped table allows:
   * from a point before n, to a point no further than its clip0.
   */
  ghost predicate Allowed(clip0: seq<int>, p: seq<int>)
  {
    && |p| >= 1 && p[0] == 0
    && forall t :: 0 <= t < |p| - 1 ==> 0 <= p[t] < |clip0| && p[t + 1] <= clip0[p[t]]
  }

  /**
   * The count m of seg0 is the fewest segments any allowed polygon from 0
   * to n needs, when the reach of the segments grows with their start.
   */
  lemma FewestSegments(clip0: seq<int>, seg0: seq<int>, m: int, p: seq<int>)
    requires Monotone(clip0) && Greedy(clip0, seg0, m) && Allowed(clip0, p) && p[|p| - 1] == |clip0|
    ensures |p| - 1 >= m
  {
    if |p| - 1 < m {
      AheadOf(clip0, seg0, m, p, |p| - 1);
    }
  }

  /** After t segments an allowed polygon is no further than seg0[t]. */
  lemma {:induction false} AheadOf(clip0: seq<int>, seg0: seq<int>, m: int, p: seq<int>, t: int)
    requires Monotone(clip0) && Greedy(clip0, seg0, m) && Allowed(clip0, p)
    requires 0 <= t < |p| && t <= m
    ensures p[t] <= seg0[t]
    decreases t
  {
    if t > 0 {
      AheadOf(clip0, seg0, m, p, t - 1);
      assert clip0[p[t - 1]] <= clip0[seg0[t - 1]];
    }
  }

  /**
   * What the fourth loop computes: seg1[t] is the point from which n is
   * reached by m - t segments that each start as early as allowed, for
   * 1 <= t <= m, and seg1[0] is 0.
   */
  ghost predicate Backward(clip1: seq<int>, seg1: seq<int>, m: int)
  {
    var n := |clip1| - 1;
    && 0 <= m < |seg1| && seg1[0] == 0 && (m >= 1 ==> seg1[m] == n)
    && (forall t :: 0 <= t <= m ==> 0 <= seg1[t] <= n)
    && (forall t :: 1 <= t < m ==> seg1[t] == clip1[seg1[t + 1]])
  }

  /** The fourth loop, `for (j=m; j>0; j--) { seg1[j] = i; i = clip1[i]; }` from i = n, then `seg1[0] = 0`. */
  method Seg1(clip1: array<int>, m: int) returns (seg1: array<int>)
    requires 0 <= m < clip1.Length
    requires forall j :: 0 <= j < clip1.Length ==> 0 <= clip1[j] < clip1.Length
    ensures fresh(seg1) && seg1.Length == clip1.Length
    ensures Backward(clip1[..], seg1[..], m)
  {
    var n := clip1.Length - 1;
    seg1 := new int[n + 1](_ => 0);
    var i := n;
    var j := m;
    while j > 0
      invariant 0 <= j <= m && 0 <= i <= n
      invariant j == m ==> i == n
      invariant forall t :: j < t <= m ==> 0 <= seg1[t] <= n
      invariant j < m ==> i == clip1[seg1[j + 1]] && seg1[m] == n
      invariant forall t :: j < t < m ==> seg1[t] == clip1[seg1[t + 1]]
    {
      seg1[j] := i;
      i := clip1[i];
      j := j - 1;
    }
    seg1[0] := 0;
  }

  /** The backward bounds never pass the forward ones: seg1[t] <= seg0[t]. */
  lemma LayersOrdered(clip0: seq<int>, clip1: seq<int>, seg0: seq<int>, seg1: seq<int>, m: int, t: int)
    requires ClipTable(clip0, clip1) && Greedy(clip0, seg0, m) && Backward(clip1, seg1, m)
    requires 0 <= t <= m
    ensures seg1[t] <= seg0[t]
    decreases m - t
  {
    if 1 <= t < m {
      LayersOrdered(clip0, clip1, seg0, seg1, m, t + 1);
      var s := seg1[t + 1];
      if s >= 1 {
        assert Reached(clip0, s) by {
          assert s <= clip0[seg0[t]];
        }
      }
    }
  }

  /** A backward segment is allowed: from seg1[u], before n, clip0 reaches seg1[u + 1]. */
  lemma BackStep(clip0: seq<int>, clip1: seq<int>, seg0: seq<int>, seg1: seq<int>, m: int, u: int)
    requires Advancing(clip0) && ClipTable(clip0, clip1) && Greedy(clip0, seg0, m) && Backward(clip1, seg1, m)
    requires 1 <= u < m
    ensures 0 <= seg1[u] < |clip0| && seg1[u + 1] <= clip0[seg1[u]]
  {
    var s := seg1[u + 1];
    LayersOrdered(clip0, clip1, seg0, seg1, m, u + 1);
    if s >= 1 {
      assert Reached(clip0, s) by {
        assert s <= clip0[seg0[u]];
      }
    }
  }

  /**
   * When the reach of the segments grows with their start, the layers
   * seg1[t]..seg0[t] of the points t segments away from 0 come one after
   * the other: seg0[t - 1] < seg1[t]. Otherwise a polygon with fewer than
   * m segments would reach n.
   */
  lemma LayersDisjoint(clip0: seq<int>, clip1: seq<int>, seg0: seq<int>, seg1: seq<int>, m: int, t: int)
    requires Advancing(clip0) && Monotone(clip0) && ClipTable(clip0, clip1)
    requires Greedy(clip0, seg0, m) && Backward(clip1, seg1, m)
    requires 1 <= t <= m
    ensures seg0[t - 1] < seg1[t]
  {
    if seg1[t] <= seg0[t - 1] && t < m {
      var p := seg0[..t] + seg1[t + 1..m + 1];
      forall s | 0 <= s < |p| - 1
        ensures 0 <= p[s] < |clip0| && p[s + 1] <= clip0[p[s]]
      {
        if s < t - 1 {
          assert p[s] == seg0[s] && p[s + 1] == seg0[s + 1];
        } else if s == t - 1 {
          assert p[s] == seg0[t - 1] && p[s + 1] == seg1[t + 1];
          BackStep(clip0, clip1, seg0, seg1, m, t);
          assert clip0[seg1[t]] <= clip0[seg0[t - 1]];
        } else {
          assert p[s] == seg1[s + 1] && p[s + 1] == seg1[s + 2];
          BackStep(clip0, clip1, seg0, seg1, m, s + 1);
        }
      }
      assert p[0] == 0 && p[|p| - 1] == |clip0|;
      FewestSegments(clip0, seg0, m, p);
    }
  }

  /* ---------------------------------------------------------------------- */
  /* the shortest path with m segments */

  /** The total penalty of reaching i from k: the segment's penalty plus the best total up to k. */
  function Candidate(pen: seq<real>, penalty: (int, int) -> real, k: int, i: int): real
    requires 0 <= k < |pen|
  {
    penalty(k, i) + pen[k]
  }

  /** No candidate k in lo..hi has a negative total. */
  ghost predicate NonNegative(pen: seq<real>, penalty: (int, int) -> real, i: int, lo: int, hi: int)
    requires 0 <= lo && hi < |pen|
  {
    forall k :: lo <= k <= hi ==> Candidate(pen, penalty, k, i) >= 0.0
  }

  /**
   * The choice of predecessor k0 for i among the candidates lo..hi, with
   * total best: k0 is a candidate and best its total; when no total is
   * negative, best is the least of them and k0 the largest candidate that
   * attains it (the scan runs downwards and only a strictly smaller total
   * replaces the best so far).
   */
  ghost predicate Chosen(pen: seq<real>, penalty: (int, int) -> real, i: int, lo: int, hi: int, best: real, k0: int)
    requires 0 <= lo && hi < |pen|
  {
    && lo <= k0 <= hi && best == Candidate(pen, penalty, k0, i)
    && (NonNegative(pen, penalty, i, lo, hi) ==>
          && (forall k :: lo <= k <= hi ==> best <= Candidate(pen, penalty, k, i))
          && (forall k :: k0 < k <= hi ==> best < Candidate(pen, penalty, k, i)))
  }

  /**
   * The innermost loop, `for (k=seg0[j-1]; k>=clip1[i]; k--)`, with
   * `if (best < 0 || thispen < best)`: without candidates best stays -1.
   */
  method Relax(pen: array<real>, penalty: (int, int) -> real, i: int, lo: int, hi: int) returns (best: real, k0: int)
    requires 0 <= lo && hi < pen.Length
    ensures lo > hi ==> best == -1.0
    ensures lo <= hi ==> Chosen(pen[..], penalty, i, lo, hi, best, k0)
  {
    best, k0 := -1.0, hi;
    var k := hi;
    while k >= lo
      invariant k <= hi && (k < hi ==> lo - 1 <= k)
      invariant k == hi ==> best == -1.0
      invariant k < hi ==> k < k0 <= hi && best == Candidate(pen[..], penalty, k0, i)
      invariant k < hi && NonNegative(pen[..], penalty, i, k + 1, hi) ==>
        && best >= 0.0
        && (forall k' :: k < k' <= hi ==> best <= Candidate(pen[..], penalty, k', i))
        && (forall k' :: k0 < k' <= hi ==> best < Candidate(pen[..], penalty, k', i))
    {
      var thispen := penalty(k, i) + pen[k];
      if best < 0.0 || thispen < best {
        k0, best := k, thispen;
      }
      k := k - 1;
    }
  }

  /**
   * What the loop over i leaves at point i of a layer whose predecessors
   * are lo..hi: pen[i] is -1 when there are none, and otherwise prev[i]
   * and pen[i] are the choice among them.
   */
  ghost predicate Settled(pen: seq<real>, prev: seq<int>, penalty: (int, int) -> real, i: int, lo: int, hi: int)
    requires 0 <= i < |pen| == |prev| && 0 <= lo && hi < |pen|
  {
    if lo > hi then pen[i] == -1.0 else Chosen(pen, penalty, i, lo, hi, pen[i], prev[i])
  }

  /** Settled depends only on the entries at i and at the candidates. */
  lemma SettledFrame(pen: seq<real>, prev: seq<int>, pen': seq<real>, prev': seq<int>,
                     penalty: (int, int) -> real, i: int, lo: int, hi: int)
    requires 0 <= i < |pen| == |prev| == |pen'| == |prev'| && 0 <= lo && hi < |pen|
    requires pen'[i] == pen[i] && prev'[i] == prev[i]
    requires forall k :: lo <= k <= hi ==> pen'[k] == pen[k]
    requires Settled(pen, prev, penalty, i, lo, hi)
    ensures Settled(pen', prev', penalty, i, lo, hi)
  {
    if lo <= hi {
      ChosenFrame(pen, pen', penalty, i, lo, hi, pen[i], prev[i]);
    }
  }

  /** Chosen depends only on the totals of the candidates. */
  lemma ChosenFrame(pen: seq<real>, pen': seq<real>, penalty: (int, int) -> real, i: int, lo: int, hi: int, best: real, k0: int)
    requires 0 <= lo && hi < |pen| == |pen'|
    requires forall k :: lo <= k <= hi ==> pen'[k] == pen[k]
    requires Chosen(pen, penalty, i, lo, hi, best, k0)
    ensures Chosen(pen', penalty, i, lo, hi, best, k0)
  {
    forall k | lo <= k <= hi
      ensures Candidate(pen', penalty, k, i) == Candidate(pen, penalty, k, i)
    {
    }
  }

  /**
   * The loop over the points first..last of one layer, whose predecessors
   * run from clip1[i] up to top: nothing outside the layer changes, and
   * when all candidates lie before the layer each point ends settled.
   */
  method Layer(pen: array<real>, prev: array<int>, clip1: array<int>, penalty: (int, int) -> real,
               first: int, last: int, top: int)
    requires prev != clip1 && pen.Length == prev.Length == clip1.Length
    requires 0 <= first && last < pen.Length && top < pen.Length
    requires forall x :: 0 <= x < clip1.Length ==> 0 <= clip1[x] < clip1.Length
    requires forall x :: 0 <= x < prev.Length ==> 0 <= prev[x] < prev.Length
    modifies pen, prev
    ensures forall x :: 0 <= x < prev.Length ==> 0 <= prev[x] < prev.Length
    ensures forall x :: 0 <= x < pen.Length && !(first <= x <= last) ==> pen[x] == old(pen[x]) && prev[x] == old(prev[x])
    ensures top < first ==> forall x :: first <= x <= last ==> Settled(pen[..], prev[..], penalty, x, clip1[x], top)
  {
    var i := first;
    while i <= last
      invariant first <= i <= Max(first, last + 1)
      invariant forall x :: 0 <= x < prev.Length ==> 0 <= prev[x] < prev.Length
      invariant forall x :: 0 <= x < pen.Length && !(first <= x < i) ==> pen[x] == old(pen[x]) && prev[x] == old(prev[x])
      invariant top < first ==> forall x :: first <= x < i ==> Settled(pen[..], prev[..], penalty, x, clip1[x], top)
    {
      ghost var pen0, prev0 := pen[..], prev[..];
      SettleOne(pen, prev, clip1, penalty, i, top);
      if top < first {
        forall x | first <= x < i
          ensures Settled(pen[..], prev[..], penalty, x, clip1[x], top)
        {
          SettledFrame(pen0, prev0, pen[..], prev[..], penalty, x, clip1[x], top);
        }
      }
      i := i + 1;
    }
  }

  /** The body of the loop over i: the choice for point i is stored in pen[i] and prev[i]. */
  method SettleOne(pen: array<real>, prev: array<int>, clip1: array<int>, penalty: (int, int) -> real, i: int, top: int)
    requires prev != clip1 && pen.Length == prev.Length == clip1.Length && 0 <= i < pen.Length && top < pen.Length
    requires 0 <= clip1[i] < clip1.Length && 0 <= prev[i] < prev.Length
    modifies pen, prev
    ensures forall x :: 0 <= x < pen.Length && x != i ==> pen[x] == old(pen[x]) && prev[x] == old(prev[x])
    ensures 0 <= prev[i] < prev.Length
    ensures top < i ==> Settled(pen[..], prev[..], penalty, i, clip1[i], top)
  {
    var best, k0 := Relax(pen, penalty, i, clip1[i], top);
    ghost var pen0 := pen[..];
    pen[i] := best;
    if clip1[i] <= top {
      prev[i] := k0;
      if top < i {
        ChosenFrame(pen0, pen[..], penalty, i, clip1[i], top, best, k0);
      }
    }
  }

  /** The layers come one after another: every point of layer u lies before every point of a later layer t. */
  ghost predicate Layered(seg0: seq<int>, seg1: seq<int>, m: int)
    requires 0 <= m < |seg0| && m < |seg1|
  {
    forall u, t :: 0 <= u < t <= m ==> seg0[u] < seg1[t]
  }

  /** The tables the dynamic programme works on, with every entry an index of pen. */
  ghost predicate Tables(clip1: seq<int>, seg0: seq<int>, seg1: seq<int>, m: int)
  {
    && |seg0| == |seg1| == |clip1| && 0 <= m < |clip1|
    && (forall x :: 0 <= x < |clip1| ==> 0 <= clip1[x] < |clip1|)
    && (forall t :: 0 <= t <= m ==> 0 <= seg0[t] < |clip1| && 0 <= seg1[t] < |clip1|)
  }

  /** Every point of the layers 1..upto is settled among its candidates clip1[i]..seg0[j - 1]. */
  ghost predicate Bellman(clip1: seq<int>, seg0: seq<int>, seg1: seq<int>, m: int,
                          pen: seq<real>, prev: seq<int>, penalty: (int, int) -> real, upto: int)
    requires Tables(clip1, seg0, seg1, m) && |pen| == |prev| == |clip1| && upto <= m
  {
    forall j, i :: 1 <= j <= upto && seg1[j] <= i <= seg0[j] ==> Settled(pen, prev, penalty, i, clip1[i], seg0[j - 1])
  }

  /**
   * The two outer loops of the dynamic programme, `pen[0]=0` and then
   * layer by layer for j = 1..m. When the layers come one after another,
   * every point of every layer ends settled with the final totals of its
   * candidates.
   */
  method Layers(clip1: array<int>, seg0: array<int>, seg1: array<int>, m: int, penalty: (int, int) -> real)
    returns (pen: array<real>, prev: array<int>)
    requires Tables(clip1[..], seg0[..], seg1[..], m)
    ensures fresh(pen) && fresh(prev) && pen.Length == prev.Length == clip1.Length
    ensures forall x :: 0 <= x < prev.Length ==> 0 <= prev[x] < prev.Length
    ensures Layered(seg0[..], seg1[..], m) ==>
      pen[0] == 0.0 && Bellman(clip1[..], seg0[..], seg1[..], m, pen[..], prev[..], penalty, m)
  {
    var n := clip1.Length - 1;
    pen := new real[n + 1](_ => 0.0);
    prev := new int[n + 1](_ => 0);
    pen[0] := 0.0;
    var j := 1;
    while j <= m
      invariant 1 <= j <= m + 1
      invariant forall x :: 0 <= x < prev.Length ==> 0 <= prev[x] < prev.Length
      invariant Layered(seg0[..], seg1[..], m) ==>
        pen[0] == 0.0 && Bellman(clip1[..], seg0[..], seg1[..], m, pen[..], prev[..], penalty, j - 1)
    {
      ghost var pen0, prev0 := pen[..], prev[..];
      Layer(pen, prev, clip1, penalty, seg1[j], seg0[j], seg0[j - 1]);
      if Layered(seg0[..], seg1[..], m) {
        assert seg0[0] < seg1[j] && seg0[j - 1] < seg1[j];
        LayerAdded(clip1[..], seg0[..], seg1[..], m, pen0, prev0, pen[..], prev[..], penalty, j);
      }
      j := j + 1;
    }
  }

  /**
   * Settling layer j, which changes nothing before seg1[j], keeps the
   * earlier layers settled: their points and candidates all lie before it.
   */
  lemma LayerAdded(clip1: seq<int>, seg0: seq<int>, seg1: seq<int>, m: int,
                   pen0: seq<real>, prev0: seq<int>, pen: seq<real>, prev: seq<int>, penalty: (int, int) -> real, j: int)
    requires Tables(clip1, seg0, seg1, m) && |pen0| == |prev0| == |pen| == |prev| == |clip1| && 1 <= j <= m
    requires Layered(seg0, seg1, m) && Bellman(clip1, seg0, seg1, m, pen0, prev0, penalty, j - 1)
    requires forall x :: 0 <= x < seg1[j] ==> pen[x] == pen0[x] && prev[x] == prev0[x]
    requires forall x :: seg1[j] <= x <= seg0[j] ==> Settled(pen, prev, penalty, x, clip1[x], seg0[j - 1])
    ensures Bellman(clip1, seg0, seg1, m, pen, prev, penalty, j)
  {
    forall j', i | 1 <= j' < j && seg1[j'] <= i <= seg0[j']
      ensures Settled(pen, prev, penalty, i, clip1[i], seg0[j' - 1])
    {
      assert seg0[j'] < seg1[j] && seg0[j' - 1] < seg1[j];
      SettledFrame(pen0, prev0, pen, prev, penalty, i, clip1[i], seg0[j' - 1]);
    }
  }

  /* ---------------------------------------------------------------------- */
  /* reading off the polygon */

  /** The point reached from n, the last index of prev, after s steps back along prev. */
  ghost function Back(prev: seq<int>, s: nat): (r: int)
    requires |prev| >= 1 && forall x :: 0 <= x < |prev| ==> 0 <= prev[x] < |prev|
    ensures 0 <= r < |prev|
    ensures s == 0 ==> r == |prev| - 1
  {
    if s == 0 then |prev| - 1 else prev[Back(prev, s - 1)]
  }

  /**
   * The last loop, `for (i=n, j=m-1; i>0; j--) { i = prev[i]; po[j] = i; }`
   * into a fresh po of m zeros. It succeeds when the walk back from n
   * along prev reaches 0 within m steps, after f steps say; then po ends
   * with the points of that walk and begins with m - f zeros. Otherwise j
   * runs below 0 and the source's `po[j]` is out of range: `ok` is false.
   */
  method ReadOff(prev: array<int>, m: int) returns (ok: bool, po: array<int>, ghost f: int)
    requires prev.Length >= 1 && m >= 0
    requires forall x :: 0 <= x < prev.Length ==> 0 <= prev[x] < prev.Length
    ensures fresh(po) && po.Length == m
    ensures forall t :: 0 <= t < m ==> 0 <= po[t] < prev.Length
    ensures ok ==> 0 <= f <= m && Back(prev[..], f) == 0
    ensures ok ==> forall s :: 0 <= s < f ==> Back(prev[..], s) > 0
    ensures ok ==> forall s :: 1 <= s <= f ==> po[m - s] == Back(prev[..], s)
    ensures ok ==> forall t :: 0 <= t < m - f ==> po[t] == 0
    ensures !ok ==> forall s :: 0 <= s <= m ==> Back(prev[..], s) > 0
  {
    var n := prev.Length - 1;
    po := new int[m](_ => 0);
    var i := n;
    var j := m - 1;
    while i > 0
      invariant -1 <= j <= m - 1 && i == Back(prev[..], m - 1 - j)
      invariant forall s :: 0 <= s < m - 1 - j ==> Back(prev[..], s) > 0
      invariant forall s :: 1 <= s <= m - 1 - j ==> po[m - s] == Back(prev[..], s)
      invariant forall t :: 0 <= t <= j ==> po[t] == 0
      invariant forall t :: 0 <= t < m ==> 0 <= po[t] < prev.Length
      decreases j + 1
    {
      if j < 0 {
        return false, po, m;
      }
      i := prev[i];
      po[j] := i;
      j := j - 1;
    }
    ok, f := true, m - 1 - j;
  }

  /* ---------------------------------------------------------------------- */
  /* the polygon found */

  /** The forward bounds grow: seg0[u] <= seg0[t] for u <= t. */
  lemma {:induction false} Seg0Grows(clip0: seq<int>, seg0: seq<int>, m: int, u: int, t: int)
    requires Advancing(clip0) && Greedy(clip0, seg0, m) && 0 <= u <= t <= m
    ensures seg0[u] <= seg0[t]
    decreases t - u
  {
    if u < t {
      Seg0Grows(clip0, seg0, m, u, t - 1);
      assert seg0[t] == clip0[seg0[t - 1]];
    }
  }

  /** Under a monotone reach the layers are ordered throughout: every earlier layer ends before every later one starts. */
  lemma LayeredHolds(clip0: seq<int>, clip1: seq<int>, seg0: seq<int>, seg1: seq<int>, m: int)
    requires Advancing(clip0) && Monotone(clip0) && ClipTable(clip0, clip1)
    requires Greedy(clip0, seg0, m) && Backward(clip1, seg1, m)
    ensures Layered(seg0, seg1, m)
  {
    forall u, t | 0 <= u < t <= m
      ensures seg0[u] < seg1[t]
    {
      Seg0Grows(clip0, seg0, m, u, t - 1);
      LayersDisjoint(clip0, clip1, seg0, seg1, m, t);
    }
  }

  /** The tables bestpolygon builds keep their entries within 0..n, as the dynamic program needs. */
  lemma TablesHold(clip0: seq<int>, clip1: seq<int>, seg0: seq<int>, seg1: seq<int>, m: int)
    requires ClipTable(clip0, clip1) && Greedy(clip0, seg0, m) && Backward(clip1, seg1, m)
    requires |seg0| == |seg1| == |clip1|
    ensures Tables(clip1, seg0, seg1, m)
  {
    forall x | 0 <= x < |clip1|
      ensures 0 <= clip1[x] < |clip1|
    {
      if 1 <= x && Reached(clip0, x) {
        assert LeastReaching(clip0, x, clip1[x]);
      }
    }
  }

  /**
   * One step back along prev from a point i of layer j lands in layer
   * j - 1, on a point whose segment reaches i.
   */
  lemma PrevInLayer(clip0: seq<int>, clip1: seq<int>, seg0: seq<int>, seg1: seq<int>, m: int,
                    pen: seq<real>, prev: seq<int>, penalty: (int, int) -> real, j: int, i: int)
    requires Monotone(clip0) && ClipTable(clip0, clip1) && Greedy(clip0, seg0, m) && Backward(clip1, seg1, m)
    requires Tables(clip1, seg0, seg1, m) && |pen| == |prev| == |clip1| && Layered(seg0, seg1, m)
    requires Bellman(clip1, seg0, seg1, m, pen, prev, penalty, m)
    requires 1 <= j <= m && seg1[j] <= i <= seg0[j]
    ensures seg1[j - 1] <= prev[i] <= seg0[j - 1] && i <= clip0[prev[i]]
  {
    var top := seg0[j - 1];
    assert 0 <= top < |clip0| && i <= clip0[top];
    var c := clip1[i];
    assert 1 <= i by {
      assert seg0[0] < seg1[j];
    }
    assert LeastReaching(clip0, i, c);
    assert Settled(pen, prev, penalty, i, c, top);
    if 2 <= j {
      var s := seg1[j];
      assert 1 <= s by {
        assert seg0[0] < seg1[j];
      }
      assert clip0[c] >= s;
      assert LeastReaching(clip0, s, seg1[j - 1]);
    }
  }

  /**
   * Under a monotone reach, the walk back along prev from n visits one
   * point of each layer, from layer m down: after s steps it stands in
   * layer m - s, and every step follows an allowed segment.
   */
  lemma {:induction false} ChainInLayers(clip0: seq<int>, clip1: seq<int>, seg0: seq<int>, seg1: seq<int>, m: int,
                                         pen: seq<real>, prev: seq<int>, penalty: (int, int) -> real, s: nat)
    requires Monotone(clip0) && ClipTable(clip0, clip1) && Greedy(clip0, seg0, m) && Backward(clip1, seg1, m)
    requires Tables(clip1, seg0, seg1, m) && |pen| == |prev| == |clip1| && Layered(seg0, seg1, m)
    requires forall x :: 0 <= x < |prev| ==> 0 <= prev[x] < |prev|
    requires Bellman(clip1, seg0, seg1, m, pen, prev, penalty, m)
    requires s <= m
    ensures seg1[m - s] <= Back(prev, s) <= seg0[m - s]
    ensures 1 <= s ==> Back(prev, s - 1) <= clip0[Back(prev, s)]
  {
    if s >= 1 {
      ChainInLayers(clip0, clip1, seg0, seg1, m, pen, prev, penalty, s - 1);
      PrevInLayer(clip0, clip1, seg0, seg1, m, pen, prev, penalty, m - s + 1, Back(prev, s - 1));
    }
  }

  /** The polygon's vertices strictly increase. */
  ghost predicate Increasing(p: seq<int>)
  {
    forall t :: 0 <= t < |p| - 1 ==> p[t] < p[t + 1]
  }

  /** No allowed path from 0 to n has fewer than m segments. */
  ghost predicate Fewest(clip0: seq<int>, m: int)
  {
    forall p :: Allowed(clip0, p) && p[|p| - 1] == |clip0| ==> |p| - 1 >= m
  }

  /** The walk back from n along prev for m steps, in forward order: its t-th point is m - t steps back. */
  ghost function Walk(prev: seq<int>, m: nat): (w: seq<int>)
    requires |prev| >= 1 && forall x :: 0 <= x < |prev| ==> 0 <= prev[x] < |prev|
    ensures |w| == m + 1 && w[m] == |prev| - 1
  {
    seq(m + 1, t requires 0 <= t <= m => Back(prev, m - t))
  }

  /**
   * What the dynamic program leaves in prev: the walk back from n first
   * reaches 0 after exactly m steps, and its points, in forward order,
   * form an allowed, strictly increasing path from 0 to n with the fewest
   * segments possible.
   */
  ghost predicate BestPath(clip0: seq<int>, prev: seq<int>, m: nat)
    requires |prev| >= 1 && forall x :: 0 <= x < |prev| ==> 0 <= prev[x] < |prev|
  {
    && FirstZero(prev, m)
    && Allowed(clip0, Walk(prev, m)) && Increasing(Walk(prev, m)) && Fewest(clip0, m)
  }

  /** The walk back from n along prev first reaches 0 after exactly m steps. */
  ghost predicate FirstZero(prev: seq<int>, m: nat)
    requires |prev| >= 1 && forall x :: 0 <= x < |prev| ==> 0 <= prev[x] < |prev|
  {
    Back(prev, m) == 0 && forall s :: 0 <= s < m ==> Back(prev, s) > 0
  }

  /** Under a monotone reach the dynamic program finds a best path. */
  lemma PolygonFound(clip0: seq<int>, clip1: seq<int>, seg0: seq<int>, seg1: seq<int>, m: nat,
                     pen: seq<real>, prev: seq<int>, penalty: (int, int) -> real)
    requires Advancing(clip0) && Monotone(clip0) && ClipTable(clip0, clip1)
    requires Greedy(clip0, seg0, m) && Backward(clip1, seg1, m)
    requires |seg0| == |seg1| == |clip1| == |pen| == |prev|
    requires forall x :: 0 <= x < |prev| ==> 0 <= prev[x] < |prev|
    requires Tables(clip1, seg0, seg1, m) && Bellman(clip1, seg0, seg1, m, pen, prev, penalty, m)
    ensures BestPath(clip0, prev, m)
  {
    LayeredHolds(clip0, clip1, seg0, seg1, m);
    var w := Walk(prev, m);
    forall t | 0 <= t <= m
      ensures seg1[t] <= w[t] <= seg0[t]
      ensures t < m ==> 0 <= w[t] < |clip0| && w[t + 1] <= clip0[w[t]]
    {
      ChainInLayers(clip0, clip1, seg0, seg1, m, pen, prev, penalty, m - t);
      assert w[t] == Back(prev, m - t);
      if t < m {
        assert w[t + 1] == Back(prev, m - t - 1);
      }
    }
    WalkShape(clip0, seg0, seg1, prev, m);
    forall q | Allowed(clip0, q) && q[|q| - 1] == |clip0|
      ensures |q| - 1 >= m
    {
      FewestSegments(clip0, seg0, m, q);
    }
  }

  /**
   * A walk back along prev that stays in the layers, each step within
   * the reach of the next point, first reaches 0 after m steps and is an
   * allowed, strictly increasing path.
   */
  lemma WalkShape(clip0: seq<int>, seg0: seq<int>, seg1: seq<int>, prev: seq<int>, m: nat)
    requires |prev| == |clip0| + 1 && forall x :: 0 <= x < |prev| ==> 0 <= prev[x] < |prev|
    requires m < |seg0| && m < |seg1| && seg0[0] == 0 && Layered(seg0, seg1, m)
    requires var w := Walk(prev, m); forall t :: 0 <= t <= m ==> seg1[t] <= w[t] <= seg0[t]
    requires var w := Walk(prev, m); forall t :: 0 <= t < m ==> 0 <= w[t] < |clip0| && w[t + 1] <= clip0[w[t]]
    ensures Back(prev, m) == 0 && (forall s :: 0 <= s < m ==> Back(prev, s) > 0)
    ensures Allowed(clip0, Walk(prev, m)) && Increasing(Walk(prev, m))
  {
    var w := Walk(prev, m);
    assert Back(prev, m) == w[0] <= seg0[0];
    forall s | 0 <= s < m
      ensures Back(prev, s) > 0
    {
      assert Back(prev, s) == w[m - s] >= seg1[m - s] > seg0[0];
    }
    forall t | 0 <= t < m
      ensures w[t] < w[t + 1]
    {
      assert w[t] <= seg0[t] < seg1[t + 1] <= w[t + 1];
    }
  }

  /**
   * Once the walk first reaches 0 after exactly m steps, ReadOff succeeds
   * and po, followed by n, is that walk.
   */
  lemma ReadOffWalk(prev: seq<int>, m: nat, ok: bool, po: seq<int>, f: int)
    requires |prev| >= 1 && forall x :: 0 <= x < |prev| ==> 0 <= prev[x] < |prev|
    requires FirstZero(prev, m) && |po| == m
    requires ok ==> 0 <= f <= m && Back(prev, f) == 0
    requires ok ==> forall s :: 1 <= s <= f ==> po[m - s] == Back(prev, s)
    requires !ok ==> forall s :: 0 <= s <= m ==> Back(prev, s) > 0
    ensures ok && po + [|prev| - 1] == Walk(prev, m)
  {
    assert ok;
    forall t | 0 <= t < m
      ensures po[t] == Walk(prev, m)[t]
    {
      assert po[t] == po[m - (m - t)];
    }
  }

  /* ---------------------------------------------------------------------- */
  /* bestpolygon */

  /** The clipped reach of every point, as the first loop computes it. */
  ghost function Clips(lon: seq<int>): (clip0: seq<int>)
    requires forall x :: 0 <= x < |lon| ==> IsInt32(lon[x])
    ensures |clip0| == |lon|
  {
    seq(|lon|, i requires 0 <= i < |lon| => ClipAt(lon, i))
  }

  /**
   * `bestpolygon(pp)`: sets pp.m and pp.po. With one point the forward
   * segment loop never gets past 0 and runs off the end of seg0; a
   * read-off that has not reached 0 after m steps runs off the front of
   * po. Both throw in the source and give `ok == false` here; the second
   * after pp.m and pp.po are set, as in the source. When the reach of the
   * segments grows with their start, neither happens: po, followed by n,
   * is an allowed path from 0 to n with the fewest segments, m.
   */
  method BestPolygon(pp: PrivPath, penalty: (int, int) -> real) returns (ok: bool)
    requires pp.lon != null && pp.lon.Length == pp.len
    requires forall x :: 0 <= x < pp.lon.Length ==> IsInt32(pp.lon[x])
    modifies pp
    ensures pp.len == old(pp.len) && pp.pt == old(pp.pt) && pp.lon == old(pp.lon) && pp.sums == old(pp.sums)
    ensures pp.x0 == old(pp.x0) && pp.y0 == old(pp.y0)
    ensures pp.curve == old(pp.curve) && pp.ocurve == old(pp.ocurve) && pp.fcurve == old(pp.fcurve)
    ensures pp.len == 1 ==> !ok
    ensures ok ==> pp.po != null && fresh(pp.po) && pp.po.Length == pp.m
    ensures ok ==> forall t :: 0 <= t < pp.m ==> 0 <= pp.po[t] <= pp.len
    ensures pp.len != 1 && Monotone(Clips(pp.lon[..])) ==>
      && ok && Allowed(Clips(pp.lon[..]), pp.po[..] + [pp.len])
      && Increasing(pp.po[..] + [pp.len]) && Fewest(Clips(pp.lon[..]), pp.m)
  {
    var m, prev;
    ok, m, prev := Shortest(pp.lon, penalty);
    if !ok {
      return;
    }
    pp.m := m;
    var po;
    ok, po := ReadPolygon(prev, m);
    pp.po := po;
  }

  /** The read-off of bestpolygon: where the walk first meets 0 after m steps, po followed by n is that walk. */
  method ReadPolygon(prev: array<int>, m: nat) returns (ok: bool, po: array<int>)
    requires prev.Length >= 1 && forall x :: 0 <= x < prev.Length ==> 0 <= prev[x] < prev.Length
    ensures fresh(po) && po.Length == m
    ensures forall t :: 0 <= t < m ==> 0 <= po[t] < prev.Length
    ensures FirstZero(prev[..], m) ==> ok && po[..] + [prev.Length - 1] == Walk(prev[..], m)
  {
    ghost var f;
    ok, po, f := ReadOff(prev, m);
    if FirstZero(prev[..], m) {
      ReadOffWalk(prev[..], m, ok, po[..], f);
    }
  }

  /**
   * The tables and the dynamic program of bestpolygon, up to the
   * read-off: m and the best-path pointers prev. `ok` is false where the
   * segment loop runs off the end of seg0.
   */
  method Shortest(lon: array<int>, penalty: (int, int) -> real) returns (ok: bool, m: nat, prev: array<int>)
    requires forall x :: 0 <= x < lon.Length ==> IsInt32(lon[x])
    ensures fresh(prev) && prev.Length == lon.Length + 1
    ensures forall x :: 0 <= x < prev.Length ==> 0 <= prev[x] < prev.Length
    ensures lon.Length == 1 ==> !ok
    ensures ok ==> m <= lon.Length
    ensures lon.Length != 1 && Monotone(Clips(lon[..])) ==> ok && BestPath(Clips(lon[..]), prev[..], m)
  {
    var n := lon.Length;
    var clip0 := Clip0(lon);
    var clip1 := Clip1(clip0);
    var seg0, m';
    ok, seg0, m' := Seg0(clip0);
    if !ok {
      m, prev := 0, new int[n + 1](_ => 0);
      return;
    }
    m := m';
    var seg1 := Seg1Of(clip0, clip1, seg0, m);
    var pen;
    pen, prev := Layers(clip1, seg0, seg1, m, penalty);
    ShortestFound(lon[..], clip0[..], clip1[..], seg0[..], seg1[..], m, pen[..], prev[..], penalty);
  }

  /** What the tables and the dynamic program of Shortest add up to. */
  lemma ShortestFound(lon: seq<int>, clip0: seq<int>, clip1: seq<int>, seg0: seq<int>, seg1: seq<int>, m: nat,
                      pen: seq<real>, prev: seq<int>, penalty: (int, int) -> real)
    requires forall x :: 0 <= x < |lon| ==> IsInt32(lon[x])
    requires |clip0| == |lon| && forall i :: 0 <= i < |lon| ==> clip0[i] == ClipAt(lon, i)
    requires ClipTable(clip0, clip1) && Greedy(clip0, seg0, m) && Backward(clip1, seg1, m)
    requires Tables(clip1, seg0, seg1, m) && |pen| == |prev| == |clip1|
    requires forall x :: 0 <= x < |prev| ==> 0 <= prev[x] < |prev|
    requires Layered(seg0, seg1, m) ==> Bellman(clip1, seg0, seg1, m, pen, prev, penalty, m)
    ensures clip0 == Clips(lon)
    ensures |lon| != 1 && Monotone(clip0) ==> BestPath(clip0, prev, m)
  {
    assert clip0 == Clips(lon);
    if |lon| != 1 && Monotone(clip0) {
      if |lon| >= 2 {
        ClipsAdvance(lon, clip0);
      }
      LayeredHolds(clip0, clip1, seg0, seg1, m);
      PolygonFound(clip0, clip1, seg0, seg1, m, pen, prev, penalty);
    }
  }

  /** Seg1 on the tables bestpolygon has built, which keep all their entries within 0..n. */
  method Seg1Of(clip0: array<int>, clip1: array<int>, seg0: array<int>, m: int) returns (seg1: array<int>)
    requires ClipTable(clip0[..], clip1[..]) && Greedy(clip0[..], seg0[..], m) && seg0.Length == clip1.Length
    ensures fresh(seg1) && Backward(clip1[..], seg1[..], m)
    ensures Tables(clip1[..], seg0[..], seg1[..], m)
  {
    forall x | 1 <= x < clip1.Length && Reached(clip0[..], x)
      ensures 0 <= clip1[x] < clip1.Length
    {
      assert LeastReaching(clip0[..], x, clip1[x]);
    }
    seg1 := Seg1(clip1, m);
    TablesHold(clip0[..], clip1[..], seg0[..], seg1[..], m);
  }
}
