/*
 * `findpath` (decompose.c.cs): the walk along the boundary between black
 * and white pixels that produces one closed path.
 *
 * Points are pixel corners; the walker starts at (x0, y0) heading down,
 * steps one unit in its direction, adds x * diry to the signed area and
 * stops when it is back at its start. Between steps it looks at the two
 * pixels ahead, c and d, and turns right, turns left or goes straight; when
 * c is black and d white the turn is ambiguous and the turn policy decides.
 *
 * The source keeps the heading in two ints (dirx, diry) that only ever hold
 * one of the four unit vectors; the specification names the four headings
 * (Dir) and the method keeps the source's ints beside it. The source loops
 * until the walk closes; here the number of steps is bounded by a `fuel`
 * argument and an exhausted bound gives None. Coordinates are 32-bit and
 * the area a 64-bit accumulator, as in the source.
 */
module Walk {
  import opened Auxiliary
  import opened Bitmap
  import opened Curve
  import opened Params
  import opened Detrand
  import opened BitmapOps

  /* ---------------------------------------------------------------------- */
  /* headings */

  /** The four headings (dirx, diry) the walker can have. */
  datatype Dir = North | East | South | West

  /** `dirx`. */
  function DX(d: Dir): int
  {
    match d
    case East => 1
    case West => -1
    case _ => 0
  }

  /** `diry`. */
  function DY(d: Dir): int
  {
    match d
    case North => 1
    case South => -1
    case _ => 0
  }

  /** A right turn: (dirx, diry) becomes (diry, -dirx). */
  function RightOf(d: Dir): (r: Dir)
    ensures DX(r) == DY(d) && DY(r) == -DX(d)
  {
    match d
    case North => East
    case East => South
    case South => West
    case West => North
  }

  /** A left turn: (dirx, diry) becomes (-diry, dirx). */
  function LeftOf(d: Dir): (r: Dir)
    ensures DX(r) == -DY(d) && DY(r) == DX(d)
  {
    match d
    case North => West
    case West => South
    case South => East
    case East => North
  }

  /** The opposite heading. */
  function Reverse(d: Dir): (r: Dir)
    ensures DX(r) == -DX(d) && DY(r) == -DY(d)
  {
    match d
    case North => South
    case South => North
    case East => West
    case West => East
  }

  /** `x * diry` for a unit diry in 32-bit arithmetic: x, 0 or -x, where -int.MinValue wraps to itself. */
  function UnitProduct(x: int, d: int): (r: int)
    requires IsInt32(x)
    ensures IsInt32(r)
  {
    if d == 1 then x else if d == 0 then 0 else if x == MinInt32 then x else -x
  }

  /** UnitProduct is the two's-complement product. */
  lemma UnitProductWraps(x: int, d: int)
    requires IsInt32(x) && -1 <= d <= 1
    ensures UnitProduct(x, d) == Wrap32(x * d)
  {
  }

  /** b is one unit step (in 32-bit coordinates) away from a, horizontally or vertically. */
  predicate Adjacent(a: Point, b: Point)
  {
    || (a.y == b.y && (b.x == Add32(a.x, 1) || b.x == Add32(a.x, -1)))
    || (a.x == b.x && (b.y == Add32(a.y, 1) || b.y == Add32(a.y, -1)))
  }

  /** Stepping from a point in one of the four headings reaches an adjacent point. */
  lemma StepAdjacent(x: int, y: int, d: Dir)
    requires IsInt32(x) && IsInt32(y)
    ensures Adjacent(Point(x, y), Point(Add32(x, DX(d)), Add32(y, DY(d))))
  {
  }

  /* ---------------------------------------------------------------------- */
  /* the turn rule */

  /** `c`: the first pixel the walker at corner (x, y) with heading d looks at. */
  function PixelC(pic: Picture, x: int, y: int, d: Dir): bool
  {
    pic(Add32(x, CsDiv(DX(d) + DY(d) - 1, 2)), Add32(y, CsDiv(DY(d) - DX(d) - 1, 2)))
  }

  /** `d`: the second pixel the walker looks at. */
  function PixelD(pic: Picture, x: int, y: int, d: Dir): bool
  {
    pic(Add32(x, CsDiv(DX(d) - DY(d) - 1, 2)), Add32(y, CsDiv(DY(d) + DX(d) - 1, 2)))
  }

  /**
   * Whether an ambiguous turn at (x, y) goes right under the turn policy:
   * Right always; Black for a '+' path and White for a '-' path; Random when
   * detrand gives 1; Majority when majority is black and Minority when it is
   * white. Left and any other value turn left.
   */
  function AmbiguousRight(pic: Picture, x: int, y: int, sign: char, policy: int): bool
    requires IsInt32(x) && IsInt32(y)
  {
    || policy == TurnPolicyRight
    || (policy == TurnPolicyBlack && sign == '+')
    || (policy == TurnPolicyWhite && sign == '-')
    || (policy == TurnPolicyRandom && Detrand.Detrand(x, y) != 0)
    || (policy == TurnPolicyMajority && MajorityFrom(pic, x, y, 2))
    || (policy == TurnPolicyMinority && !MajorityFrom(pic, x, y, 2))
  }

  /**
   * The policies against each other: Left never turns right and Right
   * always does; Black turns right exactly on '+' paths and White exactly
   * on '-' paths; Majority and Minority always decide opposite ways; Random
   * follows detrand; a value outside the seven policies turns left.
   */
  lemma PolicyDecisions(pic: Picture, x: int, y: int, sign: char, policy: int)
    requires IsInt32(x) && IsInt32(y)
    ensures policy == TurnPolicyLeft || !(0 <= policy <= 6) ==> !AmbiguousRight(pic, x, y, sign, policy)
    ensures policy == TurnPolicyRight ==> AmbiguousRight(pic, x, y, sign, policy)
    ensures policy == TurnPolicyBlack ==> (AmbiguousRight(pic, x, y, sign, policy) <==> sign == '+')
    ensures policy == TurnPolicyWhite ==> (AmbiguousRight(pic, x, y, sign, policy) <==> sign == '-')
    ensures AmbiguousRight(pic, x, y, sign, TurnPolicyMajority) != AmbiguousRight(pic, x, y, sign, TurnPolicyMinority)
    ensures policy == TurnPolicyRandom ==> (AmbiguousRight(pic, x, y, sign, policy) <==> Detrand.Detrand(x, y) == 1)
  {
  }

  /**
   * The next heading from the two pixels ahead and the policy's verdict:
   * the walker turns right exactly when c is black and d is black or the
   * ambiguous case goes right, turns left exactly when both are white or
   * the ambiguous case goes left, goes straight exactly when c is white and
   * d black, and never reverses.
   */
  function NextDir(c: bool, d: bool, right: bool, dir: Dir): (r: Dir)
    ensures r == RightOf(dir) <==> c && (d || right)
    ensures r == LeftOf(dir) <==> (!c && !d) || (c && !d && !right)
    ensures r == dir <==> !c && d
    ensures r != Reverse(dir)
  {
    if c && !d then
      if right then RightOf(dir) else LeftOf(dir)
    else if c then RightOf(dir)
    else if !d then LeftOf(dir)
    else dir
  }

  /** The heading the walker takes at (x, y) after arriving with heading d. */
  function Turn(pic: Picture, x: int, y: int, d: Dir, sign: char, policy: int): Dir
    requires IsInt32(x) && IsInt32(y)
  {
    NextDir(PixelC(pic, x, y, d), PixelD(pic, x, y, d), AmbiguousRight(pic, x, y, sign, policy), d)
  }

  /** A rule for the heading at each corner: the corner and the heading the walker arrived with give the next heading. */
  type TurnRule = (int, int, Dir) -> Dir

  /** findpath's rule for a picture, a path sign and a turn policy. */
  function Rule(pic: Picture, sign: char, policy: int): TurnRule
  {
    (x, y, d) => if IsInt32(x) && IsInt32(y) then Turn(pic, x, y, d, sign, policy) else d
  }

  /* ---------------------------------------------------------------------- */
  /* the walk */

  /** A finished path: its points in order, its area and its sign. */
  datatype TracedPath = TracedPath(pt: seq<Point>, area: int, sign: char)

  /** `area <= int.MaxValue ? (int) area : int.MaxValue`. */
  function ClampArea(area: int): (r: int)
    ensures r <= MaxInt32 && IsInt32(r)
    ensures IsInt32(area) ==> r == area
    ensures area > MaxInt32 ==> r == MaxInt32
  {
    if area <= MaxInt32 then Wrap32(area) else MaxInt32
  }

  /**
   * The rest of the walk under the rule `turn` from corner (x, y) with
   * heading d, the area so far and the points so far, in at most `fuel`
   * more steps.
   */
  function WalkFrom(turn: TurnRule, x0: int, y0: int, sign: char,
                    x: int, y: int, d: Dir, area: int, pts: seq<Point>, fuel: nat): Option<TracedPath>
    requires IsInt32(x) && IsInt32(y) && IsInt64(area)
    decreases fuel
  {
    if fuel == 0 then None
    else
      var pts' := pts + [Point(x, y)];
      var x' := Add32(x, DX(d));
      var y' := Add32(y, DY(d));
      var area' := Add64(area, UnitProduct(x', DY(d)));
      if x' == x0 && y' == y0 then Some(TracedPath(pts', ClampArea(area'), sign))
      else WalkFrom(turn, x0, y0, sign, x', y', turn(x', y', d), area', pts', fuel - 1)
  }

  /** The path findpath traces from (x0, y0), heading down, within `fuel` steps. */
  function Traced(pic: Picture, x0: int, y0: int, sign: char, policy: int, fuel: nat): Option<TracedPath>
    requires IsInt32(x0) && IsInt32(y0)
  {
    WalkFrom(Rule(pic, sign, policy), x0, y0, sign, x0, y0, South, 0, [], fuel)
  }

  /**
   * `findpath(bm, x0, y0, sign, turnpolicy)`: walks the boundary from
   * (x0, y0) until it returns there; None when the walk has not closed
   * within `fuel` steps.
   */
  method FindPath(bm: PotraceBitmap, x0: int, y0: int, sign: char, turnpolicy: int, fuel: nat, ghost pic: Picture) returns (p: Option<TracedPath>)
    requires bm.Valid() && Shows(bm, pic) && IsInt32(x0) && IsInt32(y0)
    ensures p == Traced(pic, x0, y0, sign, turnpolicy, fuel)
  {
    var x, y, dirx, diry := x0, y0, 0, -1;
    ghost var dir := South;
    ghost var rule := Rule(pic, sign, turnpolicy);
    var area := 0;
    var points: seq<Point> := [];
    var steps := 0;
    while steps < fuel
      invariant 0 <= steps <= fuel
      invariant IsInt32(x) && IsInt32(y) && IsInt64(area)
      invariant dirx == DX(dir) && diry == DY(dir)
      invariant WalkFrom(rule, x0, y0, sign, x, y, dir, area, points, fuel - steps)
             == Traced(pic, x0, y0, sign, turnpolicy, fuel)
    {
      var done;
      done, x, y, dirx, diry, dir, area, points := Step(bm, x0, y0, sign, turnpolicy, pic, rule, x, y, dirx, diry, dir, area, points, fuel - steps);
      if done.Some? {
        return done;
      }
      steps := steps + 1;
    }
    return None;
  }

  /**
   * One pass of findpath's loop: record the corner, move one unit, add to
   * the area, and either report that the walk is back at its start or turn.
   */
  method Step(bm: PotraceBitmap, x0: int, y0: int, sign: char, turnpolicy: int, ghost pic: Picture, ghost rule: TurnRule,
              x: int, y: int, dirx: int, diry: int, ghost dir: Dir, area: int, points: seq<Point>, ghost fuel: nat)
    returns (done: Option<TracedPath>, x': int, y': int, dirx': int, diry': int, ghost dir': Dir, area': int, points': seq<Point>)
    requires bm.Valid() && Shows(bm, pic) && IsInt32(x) && IsInt32(y) && IsInt64(area) && fuel >= 1
    requires dirx == DX(dir) && diry == DY(dir) && rule == Rule(pic, sign, turnpolicy)
    ensures IsInt32(x') && IsInt32(y') && IsInt64(area')
    ensures dirx' == DX(dir') && diry' == DY(dir')
    ensures done.Some? ==> WalkFrom(rule, x0, y0, sign, x, y, dir, area, points, fuel) == done
    ensures done.None? ==>
              WalkFrom(rule, x0, y0, sign, x, y, dir, area, points, fuel)
              == WalkFrom(rule, x0, y0, sign, x', y', dir', area', points', fuel - 1)
  {
    points' := points + [Point(x, y)];
    x' := Add32(x, dirx);
    y' := Add32(y, diry);
    area' := Add64(area, UnitProduct(x', diry));
    dirx', diry', dir' := dirx, diry, dir;
    done := None;
    if x' == x0 && y' == y0 {
      done := Some(TracedPath(points', ClampArea(area'), sign));
    } else {
      var c := ReadC(bm, x', y', dirx, diry, dir, pic);
      var d := ReadD(bm, x', y', dirx, diry, dir, pic);
      dirx', diry', dir' := Steer(bm, x', y', sign, turnpolicy, c, d, dirx, diry, dir, pic);
    }
  }

  /** The pixel c ahead and to the left of the walker at corner (x, y) with heading (dirx, diry). */
  method ReadC(bm: PotraceBitmap, x: int, y: int, dirx: int, diry: int, ghost dir: Dir, ghost pic: Picture) returns (c: bool)
    requires bm.Valid() && Shows(bm, pic) && dirx == DX(dir) && diry == DY(dir)
    ensures c == PixelC(pic, x, y, dir)
  {
    c := Get(bm, Add32(x, CsDiv(dirx + diry - 1, 2)), Add32(y, CsDiv(diry - dirx - 1, 2)), pic);
  }

  /** The pixel d ahead and to the right of the walker. */
  method ReadD(bm: PotraceBitmap, x: int, y: int, dirx: int, diry: int, ghost dir: Dir, ghost pic: Picture) returns (d: bool)
    requires bm.Valid() && Shows(bm, pic) && dirx == DX(dir) && diry == DY(dir)
    ensures d == PixelD(pic, x, y, dir)
  {
    d := Get(bm, Add32(x, CsDiv(dirx - diry - 1, 2)), Add32(y, CsDiv(diry + dirx - 1, 2)), pic);
  }

  /** `BM_GET(bm, x, y)`, read as a pixel of the bitmap's picture. */
  method Get(bm: PotraceBitmap, x: int, y: int, ghost pic: Picture) returns (b: bool)
    requires bm.Valid() && Shows(bm, pic)
    ensures b == pic(x, y)
  {
    b := BmGet(bm, x, y);
  }

  /**
   * The turn at the end of one step of findpath: the ambiguous case asks the
   * policy, a black c turns right, a white d turns left, otherwise the
   * heading stays.
   */
  method Steer(bm: PotraceBitmap, x: int, y: int, sign: char, turnpolicy: int, c: bool, d: bool,
               dirx: int, diry: int, ghost dir: Dir, ghost pic: Picture) returns (dirx': int, diry': int, ghost dir': Dir)
    requires bm.Valid() && Shows(bm, pic) && IsInt32(x) && IsInt32(y)
    requires dirx == DX(dir) && diry == DY(dir)
    requires c == PixelC(pic, x, y, dir) && d == PixelD(pic, x, y, dir)
    ensures dirx' == DX(dir') && diry' == DY(dir')
    ensures dir' == Turn(pic, x, y, dir, sign, turnpolicy) == Rule(pic, sign, turnpolicy)(x, y, dir)
  {
    dirx', diry', dir' := dirx, diry, dir;
    if c && !d {
      var right := AmbiguousTurn(bm, x, y, sign, turnpolicy, pic);
      if right {
        dirx', diry', dir' := diry, -dirx, RightOf(dir);
      } else {
        dirx', diry', dir' := -diry, dirx, LeftOf(dir);
      }
    } else if c {
      dirx', diry', dir' := diry, -dirx, RightOf(dir);
    } else if !d {
      dirx', diry', dir' := -diry, dirx, LeftOf(dir);
    }
  }

  /**
   * The policy test of an ambiguous turn, evaluated as the source's `||`
   * chain does: majority is computed only under the Majority and Minority
   * policies.
   */
  method AmbiguousTurn(bm: PotraceBitmap, x: int, y: int, sign: char, turnpolicy: int, ghost pic: Picture) returns (right: bool)
    requires bm.Valid() && Shows(bm, pic) && IsInt32(x) && IsInt32(y)
    ensures right == AmbiguousRight(pic, x, y, sign, turnpolicy)
  {
    right := false;
    if turnpolicy == TurnPolicyRight
       || (turnpolicy == TurnPolicyBlack && sign == '+')
       || (turnpolicy == TurnPolicyWhite && sign == '-')
       || (turnpolicy == TurnPolicyRandom && Detrand.Detrand(x, y) != 0) {
      right := true;
    } else if turnpolicy == TurnPolicyMajority {
      right := Majority(bm, x, y, pic);
    } else if turnpolicy == TurnPolicyMinority {
      var m := Majority(bm, x, y, pic);
      right := !m;
    }
  }

  /* ---------------------------------------------------------------------- */
  /* what a traced path looks like */

  /**
   * A closed walk from (x0, y0): it starts there, each point is one unit
   * step from the one before, the last point is one unit step from the
   * first, and no later point is the start again.
   */
  ghost predicate ClosedWalk(pt: seq<Point>, x0: int, y0: int)
  {
    && |pt| >= 1 && pt[0] == Point(x0, y0)
    && (forall k :: 0 <= k < |pt| - 1 ==> Adjacent(pt[k], pt[k + 1]))
    && Adjacent(pt[|pt| - 1], pt[0])
    && (forall k :: 1 <= k < |pt| ==> pt[k] != pt[0])
  }

  /**
   * The walk so far: the points already recorded form an open walk from
   * (x0, y0) that ends one unit step before the current corner, which is
   * not the start; before the first step the walker is at the start.
   */
  ghost predicate Walking(pts: seq<Point>, x0: int, y0: int, x: int, y: int)
  {
    && (pts == [] ==> x == x0 && y == y0)
    && (pts != [] ==>
          && pts[0] == Point(x0, y0)
          && (forall k :: 0 <= k < |pts| - 1 ==> Adjacent(pts[k], pts[k + 1]))
          && Adjacent(pts[|pts| - 1], Point(x, y))
          && (forall k :: 1 <= k < |pts| ==> pts[k] != pts[0])
          && Point(x, y) != pts[0])
  }

  /** Every walk that finishes from a Walking state is a closed walk with the caller's sign and a clamped area. */
  lemma {:induction false} WalkCloses(turn: TurnRule, x0: int, y0: int, sign: char,
                                      x: int, y: int, d: Dir, area: int, pts: seq<Point>, fuel: nat)
    requires IsInt32(x) && IsInt32(y) && IsInt64(area) && Walking(pts, x0, y0, x, y)
    requires WalkFrom(turn, x0, y0, sign, x, y, d, area, pts, fuel).Some?
    ensures var p := WalkFrom(turn, x0, y0, sign, x, y, d, area, pts, fuel).value;
      ClosedWalk(p.pt, x0, y0) && p.sign == sign && p.area <= MaxInt32
    decreases fuel
  {
    var pts' := pts + [Point(x, y)];
    var x' := Add32(x, DX(d));
    var y' := Add32(y, DY(d));
    var area' := Add64(area, UnitProduct(x', DY(d)));
    StepAdjacent(x, y, d);
    if !(x' == x0 && y' == y0) {
      assert Walking(pts', x0, y0, x', y');
      WalkCloses(turn, x0, y0, sign, x', y', turn(x', y', d), area', pts', fuel - 1);
    }
  }

  /** A finished walk extends the points it started from, and then records the current corner. */
  lemma {:induction false} WalkPrefix(turn: TurnRule, x0: int, y0: int, sign: char,
                                      x: int, y: int, d: Dir, area: int, pts: seq<Point>, fuel: nat)
    requires IsInt32(x) && IsInt32(y) && IsInt64(area)
    requires WalkFrom(turn, x0, y0, sign, x, y, d, area, pts, fuel).Some?
    ensures var p := WalkFrom(turn, x0, y0, sign, x, y, d, area, pts, fuel).value;
      |p.pt| > |pts| && p.pt[..|pts|] == pts && p.pt[|pts|] == Point(x, y)
    decreases fuel
  {
    var pts' := pts + [Point(x, y)];
    var x' := Add32(x, DX(d));
    var y' := Add32(y, DY(d));
    var area' := Add64(area, UnitProduct(x', DY(d)));
    if !(x' == x0 && y' == y0) {
      var d' := turn(x', y', d);
      WalkPrefix(turn, x0, y0, sign, x', y', d', area', pts', fuel - 1);
      var p := WalkFrom(turn, x0, y0, sign, x', y', d', area', pts', fuel - 1).value;
      assert p.pt[..|pts|] == p.pt[..|pts'|][..|pts|];
    }
  }

  /**
   * A walk under any rule that starts at (x0, y0) heading down and closes
   * is a closed walk from (x0, y0) whose first step goes down.
   */
  lemma StartCloses(turn: TurnRule, x0: int, y0: int, sign: char, fuel: nat)
    requires IsInt32(x0) && IsInt32(y0)
    requires WalkFrom(turn, x0, y0, sign, x0, y0, South, 0, [], fuel).Some?
    ensures var p := WalkFrom(turn, x0, y0, sign, x0, y0, South, 0, [], fuel).value;
      && ClosedWalk(p.pt, x0, y0) && p.sign == sign && p.area <= MaxInt32
      && |p.pt| >= 2 && p.pt[1] == Point(x0, Add32(y0, -1))
  {
    WalkCloses(turn, x0, y0, sign, x0, y0, South, 0, [], fuel);
    var y1 := Add32(y0, -1);
    var d := turn(x0, y1, South);
    var area := Add64(0, UnitProduct(x0, -1));
    assert [] + [Point(x0, y0)] == [Point(x0, y0)];
    assert WalkFrom(turn, x0, y0, sign, x0, y0, South, 0, [], fuel) == WalkFrom(turn, x0, y0, sign, x0, y1, d, area, [Point(x0, y0)], fuel - 1);
    WalkPrefix(turn, x0, y0, sign, x0, y1, d, area, [Point(x0, y0)], fuel - 1);
  }

  /**
   * findpath's result, when the walk closes, is a closed walk starting at
   * (x0, y0) whose first step goes down, with the given sign and an area
   * of at most int.MaxValue.
   */
  lemma TracedIsClosedWalk(pic: Picture, x0: int, y0: int, sign: char, policy: int, fuel: nat)
    requires IsInt32(x0) && IsInt32(y0)
    requires Traced(pic, x0, y0, sign, policy, fuel).Some?
    ensures var p := Traced(pic, x0, y0, sign, policy, fuel).value;
      && ClosedWalk(p.pt, x0, y0) && p.sign == sign && p.area <= MaxInt32
      && |p.pt| >= 2 && p.pt[1] == Point(x0, Add32(y0, -1))
  {
    StartCloses(Rule(pic, sign, policy), x0, y0, sign, fuel);
  }
}
