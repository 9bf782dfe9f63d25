/*
 * Stage 1 of polygon fitting, `calc_lon` (trace.c.cs): for each point i of
 * a closed path, lon[i] is the furthest index to which a straight line
 * can be drawn from i.
 *
 * The path's points are the corners findpath recorded: `int` coordinates
 * stored as `long`s, each a unit step from the one before, and the last a
 * unit step from the first. Differences of such coordinates are exact in
 * `long`; the cross products of `xprod` are truncated to `int` (XProd).
 */
module Lon {
  import opened Auxiliary
  import opened Curve
  import opened Trace

  /** `INFTY`: longer than any path. */
  const Infty: int := 10000000

  /** a and b are one unit step apart, horizontally or vertically. */
  predicate Unit(a: Point, b: Point)
  {
    || (a.x == b.x && (b.y == a.y + 1 || b.y == a.y - 1))
    || (a.y == b.y && (b.x == a.x + 1 || b.x == a.x - 1))
  }

  /** The points of a closed path as the decomposition produces them. */
  predicate UnitLoop(pt: seq<Point>)
  {
    && |pt| >= 1
    && (forall i :: 0 <= i < |pt| ==> IsInt32(pt[i].x) && IsInt32(pt[i].y))
    && (forall i :: 0 <= i < |pt| - 1 ==> Unit(pt[i], pt[i + 1]))
    && Unit(pt[|pt| - 1], pt[0])
  }

  /** a and b lie on one horizontal or vertical line. */
  predicate Shares(a: Point, b: Point)
  {
    a.x == b.x || a.y == b.y
  }

  function Sub(a: Point, b: Point): Point
  {
    Point(a.x - b.x, a.y - b.y)
  }

  /* ---------------------------------------------------------------------- */
  /* next corners */

  /**
   * What the `nc` table promises: each entry is a valid index, either 0 or
   * beyond its own index, and on a horizontal or vertical line with it.
   */
  ghost predicate Corners(pt: seq<Point>, nc: seq<int>)
  {
    && |nc| == |pt|
    && forall x :: 0 <= x < |pt| ==>
         && 0 <= nc[x] < |pt| && (nc[x] == 0 || x < nc[x])
         && Shares(pt[x], pt[nc[x]])
  }

  /**
   * The `nc` loop of calc_lon, from the last point down: each point's next
   * corner is the following point's, unless the point is off both lines
   * through that corner, in which case it is the following point itself.
   * Because the path is closed by a unit step, the last point shares a
   * line with point 0 and no entry reaches n.
   */
  method NextCorners(pt: seq<Point>) returns (nc: array<int>)
    requires UnitLoop(pt)
    ensures fresh(nc) && Corners(pt, nc[..])
    ensures nc[|pt| - 1] == 0
    ensures forall x :: 0 <= x < |pt| - 1 ==> nc[x] == nc[x + 1] || nc[x] == x + 1
  {
    var n := |pt|;
    nc := new int[n];
    var k := 0;
    var i := n - 1;
    while i >= 0
      invariant -1 <= i < n
      invariant k == if i == n - 1 then 0 else nc[i + 1]
      invariant nc.Length == |pt| && CornersAbove(pt, nc[..], i)
    {
      ghost var before := nc[..];
      var k' := if pt[i].x != pt[k].x && pt[i].y != pt[k].y then i + 1 else k;
      CornersStep(pt, before, i, k, k');
      nc[i] := k';
      assert nc[..] == before[i := k'];
      k := k';
      i := i - 1;
    }
  }

  /** The entries of nc above index i are final: the loop invariant of NextCorners. */
  ghost predicate CornersAbove(pt: seq<Point>, nc: seq<int>, i: int)
    requires |nc| == |pt| >= 1 && -1 <= i < |pt|
  {
    var n := |pt|;
    && (forall x :: i < x < n ==> 0 <= nc[x] < n && (nc[x] == 0 || x < nc[x]) && Shares(pt[x], pt[nc[x]]))
    && (i < n - 1 ==> nc[n - 1] == 0)
    && (forall x :: i < x < n - 1 ==> nc[x] == nc[x + 1] || nc[x] == x + 1)
  }

  /** One step of the nc loop keeps the entries above it final. */
  lemma CornersStep(pt: seq<Point>, nc: seq<int>, i: int, k: int, k': int)
    requires UnitLoop(pt) && 0 <= i < |pt| && |nc| == |pt| && CornersAbove(pt, nc, i)
    requires k == if i == |pt| - 1 then 0 else nc[i + 1]
    requires k' == if pt[i].x != pt[k].x && pt[i].y != pt[k].y then i + 1 else k
    ensures CornersAbove(pt, nc[i := k'], i - 1)
  {
    var n := |pt|;
    if i == n - 1 {
      assert Unit(pt[n - 1], pt[0]);
    } else {
      assert Unit(pt[i], pt[i + 1]);
    }
  }

  /* ---------------------------------------------------------------------- */
  /* directions */

  /**
   * The index `(3 + 3*sx + sy) / 2` of a direction with both components
   * in -1..1, with C#'s truncating division. It always indexes `ct[4]`.
   */
  function DirIndex(sx: int, sy: int): (r: int)
    requires -1 <= sx <= 1 && -1 <= sy <= 1
    ensures 0 <= r < 4
  {
    CsDiv(3 + 3 * sx + sy, 2)
  }

  /**
   * The four unit directions get four different indices, so `ct` has four
   * non-zero entries exactly when all four directions have occurred.
   */
  lemma AxisDirections()
    ensures DirIndex(-1, 0) == 0 && DirIndex(0, -1) == 1 && DirIndex(0, 1) == 2 && DirIndex(1, 0) == 3
  {
  }

  /* ---------------------------------------------------------------------- */
  /* constraints */

  /**
   * The pair `constraint[0..1]`: future points must lie on or left of lo
   * (xprod(lo, cur) >= 0) and on or right of hi (xprod(hi, cur) <= 0).
   */
  datatype Bounds = Bounds(lo: Point, hi: Point)

  const NoBounds: Bounds := Bounds(Point(0, 0), Point(0, 0))

  predicate Violates(cs: Bounds, cur: Point)
  {
    XProd(cs.lo, cur) < 0 || XProd(cs.hi, cur) > 0
  }

  /** The first offset of the update: cur moved by one unit in each axis, towards the lower bound. */
  function OffsetLo(cur: Point): Point
  {
    Point(cur.x + (if cur.y >= 0 && (cur.y > 0 || cur.x < 0) then 1 else -1),
          cur.y + (if cur.x <= 0 && (cur.x < 0 || cur.y < 0) then 1 else -1))
  }

  /** The second offset of the update, towards the upper bound. */
  function OffsetHi(cur: Point): Point
  {
    Point(cur.x + (if cur.y <= 0 && (cur.y < 0 || cur.x < 0) then 1 else -1),
          cur.y + (if cur.x >= 0 && (cur.x > 0 || cur.y < 0) then 1 else -1))
  }

  /** A point within one unit of i in both axes imposes no constraint (`abs` of the `long` offsets). */
  predicate Near(cur: Point)
  {
    -1 <= cur.x <= 1 && -1 <= cur.y <= 1
  }

  /**
   * The update of the constraints by the corner at offset cur, with each
   * bound taking the value of its offset when that tightens it, as the C
   * original's structure copy `constraint[0] = off` does.
   */
  function Tighten(cs: Bounds, cur: Point): Bounds
  {
    if Near(cur) then cs
    else
      var o1 := OffsetLo(cur);
      var lo := if XProd(cs.lo, o1) >= 0 then o1 else cs.lo;
      var o2 := OffsetHi(cur);
      var hi := if XProd(cs.hi, o2) <= 0 then o2 else cs.hi;
      Bounds(lo, hi)
  }

  /**
   * The new bounds never exclude the corner that produced them: its own
   * offset lies on the allowed side of each (in exact arithmetic).
   */
  lemma OffsetsAdmitCorner(cur: Point)
    ensures Cross(OffsetLo(cur), cur) >= 0
    ensures Cross(OffsetHi(cur), cur) <= 0
  {
  }

  /**
   * The constraints as the C# code keeps them. `point_t` is a class, so
   * `constraint[0] = off` makes the slot refer to the `off` object, and
   * the next writes to `off.x` and `off.y` change the constraint as well.
   * There are three point objects: the two the constraint slots start
   * with and `off`; each slot refers to one of them.
   */
  datatype Obj = Slot0 | Slot1 | Off

  datatype Shared = Shared(lo: Obj, hi: Obj, slot0: Point, slot1: Point, off: Point)

  function Load(s: Shared, o: Obj): Point
  {
    match o
    case Slot0 => s.slot0
    case Slot1 => s.slot1
    case Off => s.off
  }

  function Store(s: Shared, o: Obj, p: Point): Shared
  {
    match o
    case Slot0 => s.(slot0 := p)
    case Slot1 => s.(slot1 := p)
    case Off => s.(off := p)
  }

  /** What the shared objects read as: the values of the objects the two slots refer to. */
  function Read(s: Shared): Bounds
  {
    Bounds(Load(s, s.lo), Load(s, s.hi))
  }

  /** The objects as calc_lon allocates them: each slot its own zero point. */
  const Fresh: Shared := Shared(Slot0, Slot1, Point(0, 0), Point(0, 0), Point(0, 0))

  /** The reset at the start of each point: zero is written into whatever object each slot refers to. */
  function ResetAsWritten(s: Shared): Shared
  {
    var s1 := Store(s, s.lo, Point(0, 0));
    Store(s1, s1.hi, Point(0, 0))
  }

  /** The update as written: `off` is overwritten by the second offset after slot 0 may have taken it. */
  function TightenAsWritten(s: Shared, cur: Point): Shared
  {
    if Near(cur) then s
    else
      var s1 := Store(s, Off, OffsetLo(cur));
      var s2 := if XProd(Load(s1, s1.lo), Load(s1, Off)) >= 0 then s1.(lo := Off) else s1;
      var s3 := Store(s2, Off, OffsetHi(cur));
      if XProd(Load(s3, s3.hi), Load(s3, Off)) <= 0 then s3.(hi := Off) else s3
  }

  /**
   * From zeroed constraints, the first update as written leaves both
   * slots referring to `off`: the two bounds become one and the same point,
   * the second offset.
   */
  lemma AsWrittenMergesBounds(s: Shared, cur: Point)
    requires Read(s) == NoBounds && !Near(cur)
    ensures var t := TightenAsWritten(s, cur);
      t.lo == Off && t.hi == Off && Read(t) == Bounds(OffsetHi(cur), OffsetHi(cur))
  {
    XProdZero(OffsetLo(cur));
    XProdSelf(OffsetLo(cur));
    XProdZero(OffsetHi(cur));
    XProdSelf(OffsetHi(cur));
  }

  /**
   * Once both slots refer to `off`, they keep doing so: every later update
   * and reset leaves the bounds equal.
   */
  lemma AsWrittenStaysMerged(s: Shared, cur: Point)
    requires s.lo == Off && s.hi == Off
    ensures TightenAsWritten(s, cur).lo == Off && TightenAsWritten(s, cur).hi == Off
    ensures ResetAsWritten(s).lo == Off && ResetAsWritten(s).hi == Off
    ensures Read(ResetAsWritten(s)) == NoBounds
  {
    XProdSelf(OffsetLo(cur));
    XProdSelf(OffsetHi(cur));
  }

  lemma XProdSelf(p: Point)
    ensures XProd(p, p) == 0
  {
  }

  lemma XProdZero(p: Point)
    ensures XProd(Point(0, 0), p) == 0
  {
  }

  /**
   * A straight stretch that the code as written cuts short. From i, the
   * corner at offset (3, 1) sets the bounds; the corner at (6, 2) lies on
   * the line through both, and the intended bounds admit it, but as
   * written both bounds are (2, 2) and (6, 2) violates the lower one.
   */
  lemma AsWrittenRejectsStraight(first: Point, second: Point)
    requires first == Point(3, 1) && second == Point(6, 2)
    ensures !Violates(Tighten(NoBounds, first), second)
    ensures Violates(Read(TightenAsWritten(Fresh, first)), second)
  {
    IntendedAdmits(first, second);
    AsWrittenExcludes(first, second);
  }

  /** The intended bounds after the corner (3, 1) admit the corner (6, 2). */
  lemma IntendedAdmits(first: Point, second: Point)
    requires first == Point(3, 1) && second == Point(6, 2)
    ensures !Violates(Tighten(NoBounds, first), second)
  {
    var intended := Tighten(NoBounds, first);
    IntendedBounds();
    CornerAgainst(intended.lo);
    CornerAgainst(intended.hi);
  }

  /** The bounds as written after the corner (3, 1) exclude the corner (6, 2). */
  lemma AsWrittenExcludes(first: Point, second: Point)
    requires first == Point(3, 1) && second == Point(6, 2)
    ensures Violates(Read(TightenAsWritten(Fresh, first)), second)
  {
    var merged := Read(TightenAsWritten(Fresh, first));
    AsWrittenBounds();
    CornerAgainst(merged.lo);
    assert XProd(merged.lo, second) < 0;
  }

  /** The cross products of the two candidate bounds with the corner (6, 2). */
  lemma CornerAgainst(p: Point)
    requires p == Point(4, 0) || p == Point(2, 2)
    ensures XProd(p, Point(6, 2)) == if p == Point(4, 0) then 8 else -8
  {
  }

  /** The intended bounds after the corner (3, 1): the two offsets (4, 0) and (2, 2). */
  lemma IntendedBounds()
    ensures Tighten(NoBounds, Point(3, 1)) == Bounds(Point(4, 0), Point(2, 2))
  {
    var cur := Point(3, 1);
    XProdZero(OffsetLo(cur));
    XProdZero(OffsetHi(cur));
  }

  /** As written, both bounds after the corner (3, 1) read (2, 2). */
  lemma AsWrittenBounds()
    ensures Read(TightenAsWritten(Fresh, Point(3, 1))) == Bounds(Point(2, 2), Point(2, 2))
  {
    var cur := Point(3, 1);
    AsWrittenMergesBounds(Fresh, cur);
  }

  /* ---------------------------------------------------------------------- */
  /* the pivot after a violation */

  /**
   * `j = INFTY; if (b < 0) j = floordiv(a, -b); if (d > 0) j = min(j,
   * floordiv(-c, d));` with `-b` and `-c` negated as `int`s.
   */
  function Reach(a: int, b: int, c: int, d: int): int
    requires IsInt32(b)
  {
    var j := if b < 0 then FloorDiv(a, Wrap32(-b)) else Infty;
    if d > 0 then Min(j, FloorDiv(Wrap32(-c), d)) else j
  }

  /**
   * Reach is the largest integer j with a + j*b >= 0 and c + j*d <= 0,
   * when the starting point satisfies both (a >= 0, c <= 0). The default
   * INFTY caps it only when b >= 0: a negative b replaces INFTY rather than
   * being compared with it.
   */
  lemma ReachLargest(a: int, b: int, c: int, d: int)
    requires IsInt32(a) && IsInt32(b) && IsInt32(c) && IsInt32(d)
    requires a >= 0 && c <= 0 && b != MinInt32 && c != MinInt32
    ensures var j := Reach(a, b, c, d);
      && 0 <= j && (b >= 0 ==> j <= Infty)
      && a + j * b >= 0 && c + j * d <= 0
      && forall j' :: j < j' && (b < 0 || j' <= Infty) ==> a + j' * b < 0 || c + j' * d > 0
  {
    var j := Reach(a, b, c, d);
    if b < 0 {
      FloorDivLargest(a, -b);
    }
    if d > 0 {
      FloorDivLargest(-c, d);
    }
    LoSide(a, b, j);
    HiSide(c, d, j);
    forall j' | j < j' && (b < 0 || j' <= Infty)
      ensures a + j' * b < 0 || c + j' * d > 0
    {
      if b < 0 && j == FloorDiv(a, -b) {
        LoBeyond(a, b, j');
      } else {
        HiBeyond(c, d, j');
      }
    }
  }

  /** Below the lower bound's reach, a + j*b stays non-negative. */
  lemma LoSide(a: int, b: int, j: int)
    requires a >= 0 && 0 <= j && (b < 0 ==> j <= FloorDiv(a, -b))
    ensures a + j * b >= 0
  {
    if b < 0 {
      var q := FloorDiv(a, -b);
      FloorDivLargest(a, -b);
      MulMono(j, q, -b);
      assert j * b == -(j * -b);
    } else {
      MulSign(j, b);
    }
  }

  /** Below the upper bound's reach, c + j*d stays non-positive. */
  lemma HiSide(c: int, d: int, j: int)
    requires c <= 0 && 0 <= j && (d > 0 ==> j <= FloorDiv(-c, d))
    ensures c + j * d <= 0
  {
    if d > 0 {
      FloorDivLargest(-c, d);
      MulMono(j, FloorDiv(-c, d), d);
    } else {
      MulSign(j, -d);
      assert j * d == -(j * -d);
    }
  }

  /** One beyond the lower bound's reach, a + j*b is negative. */
  lemma LoBeyond(a: int, b: int, j: int)
    requires a >= 0 && b < 0 && j > FloorDiv(a, -b)
    ensures a + j * b < 0
  {
    FloorDivLargest(a, -b);
    assert j * b == -(j * -b);
  }

  /** One beyond the upper bound's reach, c + j*d is positive. */
  lemma HiBeyond(c: int, d: int, j: int)
    requires c <= 0 && d > 0 && j > FloorDiv(-c, d)
    ensures c + j * d > 0
  {
    FloorDivLargest(-c, d);
  }

  /** For a >= 0 and m > 0, floordiv(a, m) is the largest q >= 0 with q*m <= a. */
  lemma FloorDivLargest(a: int, m: int)
    requires a >= 0 && m > 0
    ensures var q := FloorDiv(a, m);
      && q >= 0 && a - q * m >= 0
      && forall j' :: j' > q ==> a - j' * m < 0
  {
    var q := FloorDiv(a, m);
    if q < 0 {
      MulMono(q, -1, m);
    }
    forall j' | j' > q
      ensures a - j' * m < 0
    {
      MulMono(q + 1, j', m);
    }
  }

  lemma MulSign(x: int, y: int)
    requires x >= 0 && y >= 0
    ensures x * y >= 0
  {
  }

  lemma MulMono(x: int, y: int, m: int)
    requires x <= y && m > 0
    ensures x * m <= y * m
  {
    MulSign(y - x, m);
  }

  /** `dk`: the unit step (signs of the offset) from point k1 towards point k. */
  function Toward(pt: seq<Point>, k: int, k1: int): Point
    requires 0 <= k < |pt| && 0 <= k1 < |pt|
  {
    Point(Sign(pt[k].x - pt[k1].x), Sign(pt[k].y - pt[k1].y))
  }

  /** The direction index of the step from k1 towards k, as `ct` counts it. */
  function Heading(pt: seq<Point>, k: int, k1: int): int
    requires 0 <= k < |pt| && 0 <= k1 < |pt|
  {
    DirIndex(Sign(pt[k].x - pt[k1].x), Sign(pt[k].y - pt[k1].y))
  }

  /**
   * The pivot once the corner k violates the constraints (or the walk has
   * come round to i): k1 is the last corner that satisfied them, and the
   * pivot is the last point of the straight stretch from k1 towards k that
   * still does, `mod(k1 + j, n)`, with j found through the bilinearity of
   * xprod.
   */
  function PivotAfter(pt: seq<Point>, i: int, k: int, k1: int, cs: Bounds): (p: int)
    requires 0 <= i < |pt| && 0 <= k < |pt| && 0 <= k1 < |pt|
    ensures 0 <= p < |pt|
  {
    Mod(Add32(k1, ReachOf(cs, Sub(pt[k1], pt[i]), Toward(pt, k, k1))), |pt|)
  }

  /** The cross product is linear in its second argument: the step `a + j*b` is the cross product at cur + j*dk. */
  lemma CrossAlong(c: Point, cur: Point, dk: Point, j: int)
    ensures Cross(c, Point(cur.x + j * dk.x, cur.y + j * dk.y)) == Cross(c, cur) + j * Cross(c, dk)
  {
    assert c.x * (cur.y + j * dk.y) == c.x * cur.y + j * (c.x * dk.y);
    assert c.y * (cur.x + j * dk.x) == c.y * cur.x + j * (c.y * dk.x);
  }

  /** The point j steps from cur in direction dk. */
  function Along(cur: Point, dk: Point, j: int): Point
  {
    Point(cur.x + j * dk.x, cur.y + j * dk.y)
  }

  /** The point j steps along lies within the bounds, in exact arithmetic. */
  predicate Within(cs: Bounds, cur: Point, dk: Point, j: int)
  {
    Cross(cs.lo, Along(cur, dk, j)) >= 0 && Cross(cs.hi, Along(cur, dk, j)) <= 0
  }

  /** The four cross products calc_lon computes for the pivot do not wrap. */
  predicate Exact(cs: Bounds, cur: Point, dk: Point)
  {
    && IsInt32(Cross(cs.lo, cur)) && IsInt32(Cross(cs.lo, dk)) && IsInt32(Cross(cs.hi, cur)) && IsInt32(Cross(cs.hi, dk))
    && Cross(cs.lo, dk) != MinInt32 && Cross(cs.hi, cur) != MinInt32
  }

  /** The j of `pivk[i] = mod(k1 + j, n)`. */
  function ReachOf(cs: Bounds, cur: Point, dk: Point): int
  {
    Reach(XProd(cs.lo, cur), XProd(cs.lo, dk), XProd(cs.hi, cur), XProd(cs.hi, dk))
  }

  /**
   * When the cross products are exact and k1 satisfies the bounds, the
   * point j = Reach steps from k1 towards k satisfies them too, and (below
   * the cap) the point one step further does not.
   */
  lemma LastAlong(cs: Bounds, cur: Point, dk: Point)
    requires Exact(cs, cur, dk) && !Violates(cs, cur)
    ensures Within(cs, cur, dk, ReachOf(cs, cur, dk))
    ensures Cross(cs.lo, dk) < 0 || ReachOf(cs, cur, dk) + 1 <= Infty ==> !Within(cs, cur, dk, ReachOf(cs, cur, dk) + 1)
  {
    var a, b, c, d := Cross(cs.lo, cur), Cross(cs.lo, dk), Cross(cs.hi, cur), Cross(cs.hi, dk);
    ReachLargest(a, b, c, d);
    var j := Reach(a, b, c, d);
    CrossAlong(cs.lo, cur, dk, j);
    CrossAlong(cs.hi, cur, dk, j);
    CrossAlong(cs.lo, cur, dk, j + 1);
    CrossAlong(cs.hi, cur, dk, j + 1);
  }

  /* ---------------------------------------------------------------------- */
  /* the walk along the corners */

  /**
   * How the walk from i along the corners ends: all four directions
   * occurred (`goto foundk`, the pivot is k1), the constraints stopped it
   * (`goto constraint_viol` or the `break` once the walk passes i), or,
   * in this model only, its fuel ran out.
   */
  datatype Stop = AllDirections | Blocked | OutOfFuel

  /** The array `ct[4]`: how often each of the four step directions has occurred. */
  datatype Counts = Counts(c0: int, c1: int, c2: int, c3: int)

  /** The counts of a four-element array. */
  function CountsOf(ct: array<int>): Counts
    requires ct.Length == 4
    reads ct
  {
    Counts(ct[0], ct[1], ct[2], ct[3])
  }

  /** `ct[d]++`: one more step in direction d, the other counts unchanged. */
  function Bump(c: Counts, d: int): (r: Counts)
    requires 0 <= d < 4
    ensures d == 0 ==> r == Counts(c.c0 + 1, c.c1, c.c2, c.c3)
    ensures d == 1 ==> r == Counts(c.c0, c.c1 + 1, c.c2, c.c3)
    ensures d == 2 ==> r == Counts(c.c0, c.c1, c.c2 + 1, c.c3)
    ensures d == 3 ==> r == Counts(c.c0, c.c1, c.c2, c.c3 + 1)
  {
    match d
    case 0 => c.(c0 := c.c0 + 1)
    case 1 => c.(c1 := c.c1 + 1)
    case 2 => c.(c2 := c.c2 + 1)
    case _ => c.(c3 := c.c3 + 1)
  }

  /** `ct` after the first step from i: one count for the direction of that step. */
  function StartCounts(pt: seq<Point>, i: int): Counts
    requires UnitLoop(pt) && 0 <= i < |pt|
  {
    Bump(Counts(0, 0, 0, 0), FirstDir(pt, i))
  }

  /** All four directions have occurred. */
  predicate AllSeen(c: Counts)
  {
    c.c0 != 0 && c.c1 != 0 && c.c2 != 0 && c.c3 != 0
  }

  /** Where a walk along the corners stopped: how, at which k and k1, with which bounds and counts. */
  datatype Hop = Hop(stop: Stop, k: int, k1: int, cs: Bounds, ct: Counts)

  /**
   * The walk from i along the corners, from corner k with k1 the last
   * corner taken, as a function of its state. Each hop counts the
   * direction from k1 to k; it stops when all four directions occurred,
   * when the corner at k violates the bounds, or when the next corner
   * leaves the arc from i; otherwise the bounds are tightened by k and
   * k becomes the last corner taken.
   */
  ghost function Walk(pt: seq<Point>, nc: seq<int>, i: int, k: int, k1: int, cs: Bounds, ct: Counts, fuel: nat): (h: Hop)
    requires UnitLoop(pt) && Corners(pt, nc) && 0 <= i < |pt| && 0 <= k < |pt| && 0 <= k1 < |pt|
    ensures 0 <= h.k < |pt| && 0 <= h.k1 < |pt|
    decreases fuel, 1
  {
    if fuel == 0 then Hop(OutOfFuel, k, k1, cs, ct) else Onward(pt, nc, i, k, k1, cs, ct, fuel)
  }

  /** The walk with fuel left: one hop, then either a stop or the rest of the walk. */
  ghost function Onward(pt: seq<Point>, nc: seq<int>, i: int, k: int, k1: int, cs: Bounds, ct: Counts, fuel: nat): (h: Hop)
    requires UnitLoop(pt) && Corners(pt, nc) && 0 <= i < |pt| && 0 <= k < |pt| && 0 <= k1 < |pt| && fuel > 0
    ensures 0 <= h.k < |pt| && 0 <= h.k1 < |pt|
    decreases fuel, 0
  {
    var ct' := Bump(ct, Heading(pt, k, k1));
    if AllSeen(ct') then Hop(AllDirections, k, k1, cs, ct')
    else
      var cur := Sub(pt[k], pt[i]);
      if Violates(cs, cur) then Hop(Blocked, k, k1, cs, ct')
      else if !Cyclic(nc[k], i, k) then Hop(Blocked, nc[k], k, Tighten(cs, cur), ct')
      else Walk(pt, nc, i, nc[k], k, Tighten(cs, cur), ct', fuel - 1)
  }

  /**
   * How a walk can end: with all four directions counted, or at a corner
   * that violates the bounds, or with the next corner outside the arc
   * from i (k having come round past i).
   */
  lemma {:induction false} WalkStops(pt: seq<Point>, nc: seq<int>, i: int, k: int, k1: int, cs: Bounds, ct: Counts, fuel: nat)
    requires UnitLoop(pt) && Corners(pt, nc) && 0 <= i < |pt| && 0 <= k < |pt| && 0 <= k1 < |pt|
    ensures var h := Walk(pt, nc, i, k, k1, cs, ct, fuel);
      && (h.stop == AllDirections ==> AllSeen(h.ct))
      && (h.stop == Blocked ==> Violates(h.cs, Sub(pt[h.k], pt[i])) || !Cyclic(h.k, i, h.k1))
    decreases fuel
  {
    if fuel > 0 {
      assert Walk(pt, nc, i, k, k1, cs, ct, fuel) == Onward(pt, nc, i, k, k1, cs, ct, fuel);
      var ct' := Bump(ct, Heading(pt, k, k1));
      var cur := Sub(pt[k], pt[i]);
      if !AllSeen(ct') && !Violates(cs, cur) && Cyclic(nc[k], i, k) {
        WalkStops(pt, nc, i, nc[k], k, Tighten(cs, cur), ct', fuel - 1);
      }
    }
  }

  /** The walk of point i as calc_lon starts it: from nc[i], with i taken, no bounds and one count. */
  ghost function WalkFrom(pt: seq<Point>, nc: seq<int>, i: int, fuel: nat): Hop
    requires UnitLoop(pt) && Corners(pt, nc) && 0 <= i < |pt|
  {
    Walk(pt, nc, i, nc[i], i, NoBounds, StartCounts(pt, i), fuel)
  }

  /**
   * The points of a bitmap at most 2^30 pixels on a side: the offsets
   * between them are small enough that the cross product of an offset
   * with a unit step never wraps.
   */
  predicate Moderate(pt: seq<Point>)
  {
    forall x :: 0 <= x < |pt| ==> 0 <= pt[x].x < 0x4000_0000 && 0 <= pt[x].y < 0x4000_0000
  }

  /**
   * Tightening the bounds by a corner they admit gives bounds that still
   * admit it: each new bound is either the old one or the corner's own
   * offset, and an offset admits its corner (OffsetsAdmitCorner).
   */
  lemma TightenAdmits(cs: Bounds, cur: Point)
    requires !Violates(cs, cur)
    requires -0x4000_0000 < cur.x < 0x4000_0000 && -0x4000_0000 < cur.y < 0x4000_0000
    ensures !Violates(Tighten(cs, cur), cur)
  {
    if !Near(cur) {
      OffsetsAdmitCorner(cur);
      UnitShiftExact(cur, OffsetLo(cur));
      UnitShiftExact(cur, OffsetHi(cur));
    }
  }

  /** A point one unit from cur in each axis has an `int`-sized cross product with cur, when cur is below 2^30. */
  lemma UnitShiftExact(cur: Point, o: Point)
    requires -0x4000_0000 < cur.x < 0x4000_0000 && -0x4000_0000 < cur.y < 0x4000_0000
    requires o.x - cur.x in {1, -1} && o.y - cur.y in {1, -1}
    ensures IsInt32(Cross(o, cur))
  {
    var a, b := o.x - cur.x, o.y - cur.y;
    assert Cross(o, cur) == a * cur.y - b * cur.x;
    assert a * cur.y == if a == 1 then cur.y else -cur.y;
    assert b * cur.x == if b == 1 then cur.x else -cur.x;
  }

  /**
   * Along the whole walk the last corner taken satisfies the bounds: it
   * does at the start (k1 = i, offset zero), and each corner taken first
   * passes the test and then tightens the bounds in a way it still
   * passes. So the walk stops at k1 inside the bounds, which is what the
   * search for the pivot past k1 starts from.
   */
  lemma {:induction false} WalkAdmits(pt: seq<Point>, nc: seq<int>, i: int, k: int, k1: int, cs: Bounds, ct: Counts, fuel: nat)
    requires UnitLoop(pt) && Corners(pt, nc) && Moderate(pt)
    requires 0 <= i < |pt| && 0 <= k < |pt| && 0 <= k1 < |pt|
    requires !Violates(cs, Sub(pt[k1], pt[i]))
    ensures var h := Walk(pt, nc, i, k, k1, cs, ct, fuel); !Violates(h.cs, Sub(pt[h.k1], pt[i]))
    decreases fuel
  {
    if fuel > 0 {
      assert Walk(pt, nc, i, k, k1, cs, ct, fuel) == Onward(pt, nc, i, k, k1, cs, ct, fuel);
      var ct' := Bump(ct, Heading(pt, k, k1));
      var cur := Sub(pt[k], pt[i]);
      if !AllSeen(ct') && !Violates(cs, cur) {
        TightenAdmits(cs, cur);
        if Cyclic(nc[k], i, k) {
          WalkAdmits(pt, nc, i, nc[k], k, Tighten(cs, cur), ct', fuel - 1);
        }
      }
    }
  }

  /** A hop after which all four directions have been counted ends the walk at k, with k1 taken. */
  lemma WalkAll(pt: seq<Point>, nc: seq<int>, i: int, k: int, k1: int, cs: Bounds, ct: Counts, fuel: nat, ct': Counts)
    requires UnitLoop(pt) && Corners(pt, nc) && 0 <= i < |pt| && 0 <= k < |pt| && 0 <= k1 < |pt|
    requires ct' == Bump(ct, Heading(pt, k, k1)) && AllSeen(ct')
    ensures Walk(pt, nc, i, k, k1, cs, ct, fuel + 1) == Hop(AllDirections, k, k1, cs, ct')
  {
    assert Walk(pt, nc, i, k, k1, cs, ct, fuel + 1) == Onward(pt, nc, i, k, k1, cs, ct, fuel + 1);
  }

  /** A hop to a corner k the bounds exclude ends the walk there, with k1 the last corner taken. */
  lemma WalkBlocked(pt: seq<Point>, nc: seq<int>, i: int, k: int, k1: int, cs: Bounds, ct: Counts, fuel: nat, ct': Counts)
    requires UnitLoop(pt) && Corners(pt, nc) && 0 <= i < |pt| && 0 <= k < |pt| && 0 <= k1 < |pt|
    requires ct' == Bump(ct, Heading(pt, k, k1)) && !AllSeen(ct')
    requires Violates(cs, Sub(pt[k], pt[i]))
    ensures Walk(pt, nc, i, k, k1, cs, ct, fuel + 1) == Hop(Blocked, k, k1, cs, ct')
  {
    assert Walk(pt, nc, i, k, k1, cs, ct, fuel + 1) == Onward(pt, nc, i, k, k1, cs, ct, fuel + 1);
  }

  /** A hop that takes corner k but whose next corner k' leaves the arc from i ends the walk at k', with k taken. */
  lemma WalkLeaves(pt: seq<Point>, nc: seq<int>, i: int, k: int, k1: int, cs: Bounds, ct: Counts, fuel: nat,
                   ct': Counts, k': int, cs': Bounds)
    requires UnitLoop(pt) && Corners(pt, nc) && 0 <= i < |pt| && 0 <= k < |pt| && 0 <= k1 < |pt|
    requires ct' == Bump(ct, Heading(pt, k, k1)) && !AllSeen(ct')
    requires !Violates(cs, Sub(pt[k], pt[i])) && cs' == Tighten(cs, Sub(pt[k], pt[i]))
    requires k' == nc[k] && !Cyclic(k', i, k)
    ensures Walk(pt, nc, i, k, k1, cs, ct, fuel + 1) == Hop(Blocked, k', k, cs', ct')
  {
    assert Walk(pt, nc, i, k, k1, cs, ct, fuel + 1) == Onward(pt, nc, i, k, k1, cs, ct, fuel + 1);
  }

  /** A hop that takes corner k and stays on the arc from i continues the walk from k' = nc[k], with k taken. */
  lemma WalkOn(pt: seq<Point>, nc: seq<int>, i: int, k: int, k1: int, cs: Bounds, ct: Counts, fuel: nat,
               ct': Counts, k': int, cs': Bounds)
    requires UnitLoop(pt) && Corners(pt, nc) && 0 <= i < |pt| && 0 <= k < |pt| && 0 <= k1 < |pt|
    requires ct' == Bump(ct, Heading(pt, k, k1)) && !AllSeen(ct')
    requires !Violates(cs, Sub(pt[k], pt[i])) && cs' == Tighten(cs, Sub(pt[k], pt[i]))
    requires k' == nc[k] && Cyclic(k', i, k)
    ensures Walk(pt, nc, i, k, k1, cs, ct, fuel + 1) == Walk(pt, nc, i, k', k, cs', ct', fuel)
  {
    assert Walk(pt, nc, i, k, k1, cs, ct, fuel + 1) == Onward(pt, nc, i, k, k1, cs, ct, fuel + 1);
  }

  /** The counts at the start of the walk of point i: zero, then one for the step from i to i + 1. */
  method StartCount(pt: seq<Point>, i: int) returns (ct: array<int>)
    requires UnitLoop(pt) && 0 <= i < |pt|
    ensures fresh(ct) && ct.Length == 4 && CountsOf(ct) == StartCounts(pt, i)
  {
    ct := new int[4](_ => 0);
    var dir := FirstDir(pt, i);
    ct[dir] := ct[dir] + 1;
  }

  /** `ct[dir]++`: one more step in direction dir. */
  method Count(ct: array<int>, dir: int)
    requires ct.Length == 4 && 0 <= dir < 4
    modifies ct
    ensures CountsOf(ct) == Bump(old(CountsOf(ct)), dir)
  {
    ct[dir] := ct[dir] + 1;
  }

  /** A walk without fuel ends where it is. */
  lemma WalkEmpty(pt: seq<Point>, nc: seq<int>, i: int, k: int, k1: int, cs: Bounds, ct: Counts)
    requires UnitLoop(pt) && Corners(pt, nc) && 0 <= i < |pt| && 0 <= k < |pt| && 0 <= k1 < |pt|
    ensures Walk(pt, nc, i, k, k1, cs, ct, 0) == Hop(OutOfFuel, k, k1, cs, ct)
  {
  }

  /**
   * One pass of the inner loop for point i: count the direction from k1 to
   * k, then stop (all four directions, or k violates the bounds), or
   * tighten the bounds by k, take k and move on to nc[k], stopping when
   * that leaves the arc from i. `stop` is OutOfFuel when the loop goes on.
   */
  method Step(pt: seq<Point>, nc: seq<int>, i: int, k: int, k1: int, cs: Bounds, ct: array<int>, ghost fuel: nat)
    returns (stop: Stop, k': int, k1': int, cs': Bounds)
    requires UnitLoop(pt) && Corners(pt, nc) && 0 <= i < |pt| && 0 <= k < |pt| && 0 <= k1 < |pt| && ct.Length == 4
    modifies ct
    ensures 0 <= k' < |pt| && 0 <= k1' < |pt|
    ensures stop == OutOfFuel ==> Walk(pt, nc, i, k, k1, cs, old(CountsOf(ct)), fuel + 1) == Walk(pt, nc, i, k', k1', cs', CountsOf(ct), fuel)
    ensures stop != OutOfFuel ==> Walk(pt, nc, i, k, k1, cs, old(CountsOf(ct)), fuel + 1) == Hop(stop, k', k1', cs', CountsOf(ct))
  {
    ghost var before := CountsOf(ct);
    var dir := Heading(pt, k, k1);
    Count(ct, dir);
    ghost var cts := Bump(before, dir);
    stop, k', k1', cs' := OutOfFuel, k, k1, cs;
    if ct[0] != 0 && ct[1] != 0 && ct[2] != 0 && ct[3] != 0 {
      WalkAll(pt, nc, i, k, k1, cs, before, fuel, cts);
      stop := AllDirections;
      return;
    }
    var cur := Sub(pt[k], pt[i]);
    if Violates(cs, cur) {
      WalkBlocked(pt, nc, i, k, k1, cs, before, fuel, cts);
      stop := Blocked;
      return;
    }
    cs' := Tighten(cs, cur);
    k1' := k;
    k' := nc[k1'];
    if !Cyclic(k', i, k1') {
      WalkLeaves(pt, nc, i, k, k1, cs, before, fuel, cts, k', cs');
      stop := Blocked;
      return;
    }
    WalkOn(pt, nc, i, k, k1, cs, before, fuel, cts, k', cs');
  }

  /**
   * The inner `while (true)` loop of calc_lon for point i computes the
   * walk: where it stops, how, and the bounds and direction counts it
   * stops with.
   */
  method Hops(pt: seq<Point>, nc: seq<int>, i: int, fuel: nat)
    returns (stop: Stop, k: int, k1: int, cs: Bounds, ct: array<int>)
    requires UnitLoop(pt) && Corners(pt, nc) && 0 <= i < |pt|
    ensures fresh(ct) && ct.Length == 4 && Hop(stop, k, k1, cs, CountsOf(ct)) == WalkFrom(pt, nc, i, fuel)
  {
    ct := StartCount(pt, i);
    cs := NoBounds;
    k, k1 := nc[i], i;
    var steps := fuel;
    stop := OutOfFuel;
    while steps > 0
      invariant 0 <= k < |pt| && 0 <= k1 < |pt| && ct.Length == 4 && fresh(ct) && stop == OutOfFuel
      invariant Walk(pt, nc, i, k, k1, cs, CountsOf(ct), steps) == WalkFrom(pt, nc, i, fuel)
      decreases steps
    {
      steps := steps - 1;
      stop, k, k1, cs := Step(pt, nc, i, k, k1, cs, ct, steps);
      if stop != OutOfFuel {
        assert Hop(stop, k, k1, cs, CountsOf(ct)) == WalkFrom(pt, nc, i, fuel);
        return;
      }
    }
    WalkEmpty(pt, nc, i, k, k1, cs, CountsOf(ct));
  }

  /** The direction of the step from point i to the next, `(int)((3 + 3*dx + dy) / 2)` with `long` dx, dy. */
  function FirstDir(pt: seq<Point>, i: int): (r: int)
    requires UnitLoop(pt) && 0 <= i < |pt|
    ensures 0 <= r < 4
  {
    var n := |pt|;
    var i1 := Mod(i + 1, n);
    assert Unit(pt[i], pt[i1]) by {
      if i < n - 1 {
        assert i1 == i + 1;
      }
    }
    DirIndex(pt[i1].x - pt[i].x, pt[i1].y - pt[i].y)
  }

  /**
   * `pivk[i]`: k1 when the walk from i met all four directions, and
   * otherwise the last point of the straight stretch past k1 that the
   * bounds allow (PivotAfter).
   */
  ghost function Pivot(pt: seq<Point>, nc: seq<int>, i: int, fuel: nat): (p: int)
    requires UnitLoop(pt) && Corners(pt, nc) && 0 <= i < |pt|
    ensures 0 <= p < |pt|
  {
    var h := WalkFrom(pt, nc, i, fuel);
    if h.stop == AllDirections then h.k1 else PivotAfter(pt, i, h.k, h.k1, h.cs)
  }

  /**
   * p is the furthest point of the stretch from k1 along dk that the
   * bounds admit, as far as exact arithmetic goes: when the four cross
   * products do not wrap, p is j = ReachOf steps past k1 (modulo n), the
   * point j steps along lies within the bounds, and (below INFTY) the
   * next point along the stretch does not.
   */
  predicate FurthestAlong(cs: Bounds, cur: Point, dk: Point, k1: int, n: int, p: int)
    requires n > 0
  {
    var j := ReachOf(cs, cur, dk);
    Exact(cs, cur, dk) ==>
      && p == Mod(Add32(k1, j), n)
      && Within(cs, cur, dk, j)
      && (Cross(cs.lo, dk) < 0 || j + 1 <= Infty ==> !Within(cs, cur, dk, j + 1))
  }

  /** The pivot past a corner k1 the bounds admit is the furthest point along the stretch towards k. */
  lemma BlockedReach(pt: seq<Point>, i: int, k: int, k1: int, cs: Bounds)
    requires 0 <= i < |pt| && 0 <= k < |pt| && 0 <= k1 < |pt|
    requires !Violates(cs, Sub(pt[k1], pt[i]))
    ensures FurthestAlong(cs, Sub(pt[k1], pt[i]), Toward(pt, k, k1), k1, |pt|, PivotAfter(pt, i, k, k1, cs))
  {
    var cur, dk := Sub(pt[k1], pt[i]), Toward(pt, k, k1);
    if Exact(cs, cur, dk) {
      LastAlong(cs, cur, dk);
    }
  }

  /**
   * The pivot of a walk stopped by the bounds is the furthest point of the
   * stretch from k1 towards k that the bounds admit (FurthestAlong): the
   * walk leaves k1 within the bounds (WalkAdmits), and from there
   * BlockedReach applies.
   */
  lemma PivotReach(pt: seq<Point>, nc: seq<int>, i: int, fuel: nat)
    requires UnitLoop(pt) && Corners(pt, nc) && Moderate(pt) && 0 <= i < |pt|
    ensures var h := WalkFrom(pt, nc, i, fuel);
      h.stop == Blocked ==>
        FurthestAlong(h.cs, Sub(pt[h.k1], pt[i]), Toward(pt, h.k, h.k1), h.k1, |pt|, Pivot(pt, nc, i, fuel))
  {
    var h := WalkFrom(pt, nc, i, fuel);
    XProdZero(Sub(pt[i], pt[i]));
    WalkAdmits(pt, nc, i, nc[i], i, NoBounds, StartCounts(pt, i), fuel);
    if h.stop == Blocked {
      BlockedReach(pt, i, h.k, h.k1, h.cs);
    }
  }

  /** The walk of point i ended before its fuel ran out. */
  ghost predicate Finishes(pt: seq<Point>, nc: seq<int>, i: int, fuel: nat)
    requires UnitLoop(pt) && Corners(pt, nc) && 0 <= i < |pt|
  {
    WalkFrom(pt, nc, i, fuel).stop != OutOfFuel
  }

  /** What the loop of Pivots reads off the walk of point i: whether it finished, and its pivot. */
  lemma PivotOfHop(pt: seq<Point>, nc: seq<int>, i: int, fuel: nat, h: Hop)
    requires UnitLoop(pt) && Corners(pt, nc) && 0 <= i < |pt|
    requires h == WalkFrom(pt, nc, i, fuel)
    ensures Finishes(pt, nc, i, fuel) <==> h.stop != OutOfFuel
    ensures 0 <= h.k < |pt| && 0 <= h.k1 < |pt|
    ensures h.stop != OutOfFuel ==>
      Pivot(pt, nc, i, fuel) == if h.stop == AllDirections then h.k1 else PivotAfter(pt, i, h.k, h.k1, h.cs)
  {
  }

  /** The walk of point i finished, with pivot p. */
  ghost predicate Done(pt: seq<Point>, nc: seq<int>, i: int, fuel: nat, p: int)
    requires UnitLoop(pt) && Corners(pt, nc) && 0 <= i < |pt|
  {
    Finishes(pt, nc, i, fuel) && p == Pivot(pt, nc, i, fuel)
  }

  /**
   * The pivots, from the last point down: pivk[i] is Pivot. `ok` is false
   * exactly when some walk runs out of fuel.
   */
  method Pivots(pt: seq<Point>, nc: array<int>, fuel: nat) returns (ok: bool, pivk: array<int>)
    requires UnitLoop(pt) && Corners(pt, nc[..])
    ensures fresh(pivk) && pivk.Length == |pt|
    ensures ok <==> forall x :: 0 <= x < |pt| ==> Finishes(pt, nc[..], x, fuel)
    ensures ok ==> forall x :: 0 <= x < |pt| ==> pivk[x] == Pivot(pt, nc[..], x, fuel)
  {
    var n := |pt|;
    ghost var ncs := nc[..];
    pivk := new int[n];
    var i := n - 1;
    while i >= 0
      invariant -1 <= i < n && nc[..] == ncs
      invariant forall x :: i < x < n ==> Done(pt, ncs, x, fuel, pivk[x])
    {
      var stop, k, k1, cs, ct := Hops(pt, nc[..], i, fuel);
      PivotOfHop(pt, ncs, i, fuel, Hop(stop, k, k1, cs, CountsOf(ct)));
      if stop == OutOfFuel {
        assert !Finishes(pt, ncs, i, fuel);
        assert !forall x :: 0 <= x < |pt| ==> Finishes(pt, ncs, x, fuel);
        assert nc[..] == ncs;
        return false, pivk;
      }
      pivk[i] := if stop == AllDirections then k1 else PivotAfter(pt, i, k, k1, cs);
      i := i - 1;
    }
    ok := true;
    forall x | 0 <= x < n
      ensures Finishes(pt, ncs, x, fuel) && pivk[x] == Pivot(pt, ncs, x, fuel)
    {
      assert Done(pt, ncs, x, fuel, pivk[x]);
    }
  }

  /* ---------------------------------------------------------------------- */
  /* from pivots to lon */

  /**
   * The choice at x: l, the value of lon[x], is whichever of p (pivk[x]) and
   * l1 (lon[x + 1]) comes first counting from x + 1; it is one of the two,
   * and no more steps ahead than either.
   */
  predicate Nearest(x: int, p: int, l: int, l1: int, n: int)
  {
    && 0 <= x < n - 1 && 0 <= p < n && 0 <= l < n && 0 <= l1 < n
    && (l == p || l == l1)
    && Steps(x + 1, l, n) <= Steps(x + 1, p, n)
    && Steps(x + 1, l, n) <= Steps(x + 1, l1, n)
  }

  /**
   * The first clean-up loop, from n - 2 down: lon[i] is whichever of
   * pivk[i] and lon[i + 1] comes first counting from i + 1. `j` ends as
   * lon[0].
   */
  method NearestPivots(pivk: array<int>, lon: array<int>) returns (j: int)
    requires pivk != lon && pivk.Length == lon.Length >= 1
    requires forall x :: 0 <= x < pivk.Length ==> 0 <= pivk[x] < pivk.Length
    modifies lon
    ensures j == lon[0] && lon[lon.Length - 1] == pivk[lon.Length - 1]
    ensures forall x :: 0 <= x < lon.Length ==> 0 <= lon[x] < lon.Length
    ensures forall x :: 0 <= x < lon.Length - 1 ==> Nearest(x, pivk[x], lon[x], lon[x + 1], lon.Length)
  {
    var n := lon.Length;
    j := pivk[n - 1];
    lon[n - 1] := j;
    var i := n - 2;
    while i >= 0
      invariant -1 <= i <= n - 2
      invariant j == lon[i + 1] && lon[n - 1] == pivk[n - 1]
      invariant forall x :: i < x < n ==> 0 <= lon[x] < n
      invariant forall x :: i < x < n - 1 ==> Nearest(x, pivk[x], lon[x], lon[x + 1], n)
    {
      CyclicArc(i + 1, pivk[i], j, n);
      if Cyclic(i + 1, pivk[i], j) {
        j := pivk[i];
      }
      lon[i] := j;
      i := i - 1;
    }
  }

  /**
   * The second clean-up loop: from the last index down, every lon[i] that
   * lies cyclically beyond j, counting from i + 1, is set to j. It stops at
   * the latest at index 0, where lon[0] == j, so it never leaves the
   * array: t is the index where it stops.
   */
  method WrapPivots(lon: array<int>, j: int) returns (ghost t: int)
    requires lon.Length >= 1 && j == lon[0]
    modifies lon
    ensures 0 <= t < lon.Length && !Cyclic(Mod(t + 1, lon.Length), j, old(lon[t]))
    ensures forall x :: t < x < lon.Length ==> Cyclic(Mod(x + 1, lon.Length), j, old(lon[x]))
    ensures lon[..] == old(lon[..t + 1]) + seq(lon.Length - 1 - t, _ => j)
    ensures forall x :: 0 <= x < lon.Length ==> lon[x] == old(lon[x]) || lon[x] == j
  {
    var n := lon.Length;
    var i := n - 1;
    while Cyclic(Mod(i + 1, n), j, lon[i])
      invariant 0 <= i < n
      invariant lon[..i + 1] == old(lon[..i + 1]) && lon[i + 1..] == seq(n - 1 - i, _ => j)
      invariant lon[0] == j
      invariant forall x :: i < x < n ==> Cyclic(Mod(x + 1, n), j, old(lon[x]))
      decreases i
    {
      lon[i] := j;
      i := i - 1;
    }
    t := i;
    forall x | 0 <= x < n
      ensures lon[x] == old(lon[x]) || lon[x] == j
    {
      assert lon[x] == lon[..][x];
      if x <= t {
        assert old(lon[..t + 1])[x] == old(lon[x]);
      }
    }
  }

  /**
   * `calc_lon(pp)`: lon gets one entry per point, each an index of the path.
   * `ok` is false when a walk along the corners runs out of fuel.
   */
  method CalcLon(pp: PrivPath, fuel: nat) returns (ok: bool)
    requires pp.len == |pp.pt| && UnitLoop(pp.pt)
    modifies pp
    ensures pp.len == old(pp.len) && pp.pt == old(pp.pt) && pp.sums == old(pp.sums) && pp.po == old(pp.po)
    ensures pp.m == old(pp.m) && pp.x0 == old(pp.x0) && pp.y0 == old(pp.y0)
    ensures pp.curve == old(pp.curve) && pp.ocurve == old(pp.ocurve) && pp.fcurve == old(pp.fcurve)
    ensures pp.lon != null && fresh(pp.lon) && pp.lon.Length == pp.len
    ensures ok ==> forall i :: 0 <= i < pp.len ==> 0 <= pp.lon[i] < pp.len
  {
    var nc := NextCorners(pp.pt);
    var lon := new int[pp.len];
    pp.lon := lon;
    var pivk;
    ok, pivk := Pivots(pp.pt, nc, fuel);
    if ok {
      forall x | 0 <= x < pivk.Length
        ensures 0 <= pivk[x] < pivk.Length
      {
        assert pivk[x] == Pivot(pp.pt, nc[..], x, fuel);
      }
      var j := NearestPivots(pivk, lon);
      ghost var t := WrapPivots(lon, j);
    }
  }
}
