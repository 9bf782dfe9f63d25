/*
 * Auxiliary functions and the preparation stage of polygon fitting
 * (trace.c.cs): `cyclic`, `xprod` and `calc_sums`.
 */
module Trace {
  import opened Auxiliary
  import opened Curve

  /* ---------------------------------------------------------------------- */
  /* cyclic ranges */

  /** `cyclic(a, b, c)`: a <= b < c, read cyclically. */
  predicate Cyclic(a: int, b: int, c: int)
  {
    if a <= c then a <= b && b < c else a <= b || b < c
  }

  /** The number of forward steps from position a to position b on a cycle of length n. */
  function Steps(a: int, b: int, n: int): (r: int)
    requires 0 <= a < n && 0 <= b < n
    ensures 0 <= r < n
  {
    if a <= b then b - a else b - a + n
  }

  /** The steps from a to b are the difference b - a reduced modulo n. */
  lemma StepsAreMod(a: int, b: int, n: int)
    requires 0 <= a < n && 0 <= b < n
    ensures Steps(a, b, n) == Mod(b - a, n)
  {
    var d := b - a;
    if d < 0 {
      DivUnique(d, n, -1, d + n);
    } else {
      DivUnique(d, n, 0, d);
    }
  }

  /**
   * On a cycle of length n, `cyclic(a, b, c)` holds exactly when b lies in
   * the half-open arc that starts at a and ends just before c: b is fewer
   * steps ahead of a than c is. When a == c the arc is empty.
   */
  lemma CyclicArc(a: int, b: int, c: int, n: int)
    requires 0 <= a < n && 0 <= b < n && 0 <= c < n
    ensures Cyclic(a, b, c) <==> Steps(a, b, n) < Steps(a, c, n)
  {
  }

  /* ---------------------------------------------------------------------- */
  /* cross products */

  /** The exact cross product p1 x p2, the signed area of the parallelogram they span. */
  function Cross(p1: Point, p2: Point): int
  {
    p1.x * p2.y - p1.y * p2.x
  }

  /**
   * `xprod(p1, p2)`: the cross product cut to 32 bits. The source computes
   * it on `long`s and casts to `int` (XProdAsLong shows that this is the
   * same thing).
   */
  function XProd(p1: Point, p2: Point): (r: int)
    ensures IsInt32(r)
    ensures IsInt32(Cross(p1, p2)) ==> r == Cross(p1, p2)
  {
    Wrap32(Cross(p1, p2))
  }

  /** Two integers congruent modulo 2^32 truncate to the same `int`. */
  lemma Wrap32Congruent(a: int, b: int, k: int)
    requires a == b + k * 0x1_0000_0000
    ensures Wrap32(a) == Wrap32(b)
  {
    var m := 0x1_0000_0000;
    var q, r := (b - MinInt32) / m, (b - MinInt32) % m;
    assert a - MinInt32 == (q + k) * m + r;
    DivUnique(a - MinInt32, m, q + k, r);
  }

  /** Truncating to 64 bits first does not change the low 32 bits. */
  lemma Wrap32Of64(a: int)
    ensures Wrap32(Wrap64(a)) == Wrap32(a)
  {
    var k := (Wrap64(a) - a) / 0x1_0000_0000_0000_0000;
    assert Wrap64(a) == a + (k * 0x1_0000_0000) * 0x1_0000_0000;
    Wrap32Congruent(Wrap64(a), a, k * 0x1_0000_0000);
  }

  /**
   * The computation as the source writes it, `(int)(p1.x*p2.y - p1.y*p2.x)`
   * on `long`s: both products and the difference are taken modulo 2^64,
   * and the cast keeps the low 32 bits; that is xprod.
   */
  lemma XProdAsLong(p1: Point, p2: Point)
    ensures Wrap32(Wrap64(Wrap64(p1.x * p2.y) - Wrap64(p1.y * p2.x))) == XProd(p1, p2)
  {
    var u, v := p1.x * p2.y, p1.y * p2.x;
    var ku := (Wrap64(u) - u) / 0x1_0000_0000_0000_0000;
    var kv := (Wrap64(v) - v) / 0x1_0000_0000_0000_0000;
    var d := Wrap64(u) - Wrap64(v);
    assert d == (u - v) + ((ku - kv) * 0x1_0000_0000) * 0x1_0000_0000;
    Wrap32Of64(d);
    Wrap32Congruent(d, u - v, (ku - kv) * 0x1_0000_0000);
  }

  /* ---------------------------------------------------------------------- */
  /* calc_sums */

  function AddSums(s: Sums, t: Sums): Sums
  {
    Sums(s.x + t.x, s.y + t.y, s.x2 + t.x2, s.xy + t.xy, s.y2 + t.y2)
  }

  function SubSums(s: Sums, t: Sums): Sums
  {
    Sums(s.x - t.x, s.y - t.y, s.x2 - t.x2, s.xy - t.xy, s.y2 - t.y2)
  }

  const NoSums: Sums := Sums(0, 0, 0, 0, 0)

  /**
   * What point p adds to the sums: its offset (x, y) from the origin
   * (x0, y0), each cast to `int`, and x*x, x*y, y*y.
   */
  function Term(p: Point, x0: int, y0: int): Sums
  {
    var x := Wrap32(p.x - x0);
    var y := Wrap32(p.y - y0);
    Sums(x, y, x * x, x * y, y * y)
  }

  /** The sums of the terms of the first i points. */
  function Prefix(pt: seq<Point>, x0: int, y0: int, i: nat): Sums
    requires i <= |pt|
  {
    if i == 0 then NoSums else AddSums(Prefix(pt, x0, y0, i - 1), Term(pt[i - 1], x0, y0))
  }

  /** The sums of the terms of the points i..j-1, added from the front. */
  function Between(pt: seq<Point>, x0: int, y0: int, i: nat, j: nat): Sums
    requires i <= j <= |pt|
    decreases j - i
  {
    if i == j then NoSums else AddSums(Term(pt[i], x0, y0), Between(pt, x0, y0, i + 1, j))
  }

  /**
   * What the sums are for: the difference of two prefix sums is the sum
   * over the points between them, so any stretch of the path is summed
   * in constant time.
   */
  lemma {:induction false} PrefixDifference(pt: seq<Point>, x0: int, y0: int, i: nat, j: nat)
    requires i <= j <= |pt|
    ensures SubSums(Prefix(pt, x0, y0, j), Prefix(pt, x0, y0, i)) == Between(pt, x0, y0, i, j)
    decreases j - i
  {
    if i < j {
      PrefixDifference(pt, x0, y0, i, j - 1);
      BetweenSnoc(pt, x0, y0, i, j - 1);
    }
  }

  /** Between grows at the back by the term of one more point. */
  lemma {:induction false} BetweenSnoc(pt: seq<Point>, x0: int, y0: int, i: nat, j: nat)
    requires i <= j < |pt|
    ensures Between(pt, x0, y0, i, j + 1) == AddSums(Between(pt, x0, y0, i, j), Term(pt[j], x0, y0))
    decreases j - i
  {
    if i < j {
      BetweenSnoc(pt, x0, y0, i + 1, j);
    }
  }

  /**
   * The sums over a stretch that wraps around the end of a closed path of n
   * points, from i through the end and on from 0 to j - 1, as the source's
   * `penalty3` and `pointslope` compute them: sums[j] - sums[i] + sums[n].
   */
  lemma WrappedStretch(pt: seq<Point>, x0: int, y0: int, i: nat, j: nat)
    requires j <= i <= |pt|
    ensures AddSums(SubSums(Prefix(pt, x0, y0, j), Prefix(pt, x0, y0, i)), Prefix(pt, x0, y0, |pt|))
         == AddSums(Between(pt, x0, y0, i, |pt|), Between(pt, x0, y0, 0, j))
  {
    PrefixDifference(pt, x0, y0, i, |pt|);
    PrefixDifference(pt, x0, y0, 0, j);
  }

  /**
   * `calc_sums(pp)`: the origin (x0, y0) is the first point, cast to `int`,
   * and sums[i] holds the sums of the first i points' terms, for i in
   * 0..len. The source reads `pt[0]`, so the path must not be empty.
   * Returns 0.
   */
  method CalcSums(pp: PrivPath) returns (r: int)
    requires 1 <= pp.len == |pp.pt|
    modifies pp
    ensures pp.len == old(pp.len) && pp.pt == old(pp.pt) && pp.lon == old(pp.lon) && pp.po == old(pp.po)
    ensures r == 0 && pp.sums != null && fresh(pp.sums) && pp.sums.Length == pp.len + 1
    ensures pp.x0 == Wrap32(pp.pt[0].x) && pp.y0 == Wrap32(pp.pt[0].y)
    ensures forall i :: 0 <= i <= pp.len ==> pp.sums[i] == Prefix(pp.pt, pp.x0, pp.y0, i)
    ensures pp.m == old(pp.m) && pp.curve == old(pp.curve) && pp.ocurve == old(pp.ocurve) && pp.fcurve == old(pp.fcurve)
  {
    pp.x0 := Wrap32(pp.pt[0].x);
    pp.y0 := Wrap32(pp.pt[0].y);
    var sums := PrefixSums(pp.pt, pp.x0, pp.y0);
    pp.sums := sums;
    r := 0;
  }

  /** The loop of calc_sums: a fresh array of the |pt| + 1 prefix sums. */
  method PrefixSums(pt: seq<Point>, x0: int, y0: int) returns (sums: array<Sums>)
    ensures fresh(sums) && sums.Length == |pt| + 1
    ensures forall i :: 0 <= i <= |pt| ==> sums[i] == Prefix(pt, x0, y0, i)
  {
    sums := new Sums[|pt| + 1](_ => NoSums);
    var i := 0;
    while i < |pt|
      invariant 0 <= i <= |pt| && sums.Length == |pt| + 1
      invariant PrefixesUpTo(pt, x0, y0, sums[..], i)
    {
      ghost var before := sums[..];
      // the offsets of pt[i], their squares and their product
      sums[i + 1] := AddSums(sums[i], Term(pt[i], x0, y0));
      PrefixesStep(pt, x0, y0, before, i);
      assert sums[..] == before[i + 1 := AddSums(before[i], Term(pt[i], x0, y0))];
      i := i + 1;
    }
    assert forall k :: 0 <= k <= |pt| ==> sums[k] == sums[..][k];
  }

  /** The first i + 1 entries of sums are the prefix sums: the invariant of PrefixSums. */
  ghost predicate PrefixesUpTo(pt: seq<Point>, x0: int, y0: int, sums: seq<Sums>, i: nat)
    requires i < |sums| == |pt| + 1
  {
    forall k :: 0 <= k <= i ==> sums[k] == Prefix(pt, x0, y0, k)
  }

  /** Storing the next prefix sum extends the invariant by one entry. */
  lemma PrefixesStep(pt: seq<Point>, x0: int, y0: int, sums: seq<Sums>, i: nat)
    requires i < |pt| && |sums| == |pt| + 1 && PrefixesUpTo(pt, x0, y0, sums, i)
    ensures PrefixesUpTo(pt, x0, y0, sums[i + 1 := AddSums(sums[i], Term(pt[i], x0, y0))], i + 1)
  {
  }

  /** The first point is the origin, so it adds nothing: sums[1] is zero too. */
  lemma FirstTermZero(pt: seq<Point>)
    requires |pt| >= 1 && IsInt32(pt[0].x) && IsInt32(pt[0].y)
    ensures Prefix(pt, Wrap32(pt[0].x), Wrap32(pt[0].y), 1) == NoSums
  {
  }
}
