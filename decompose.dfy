/*
 * Decomposing a bitmap into paths (decompose.c.cs): `findnext` looks for
 * the next black pixel, and `bm_to_pathlist` traces one path from each
 * such pixel of a working copy, erases it there and keeps the paths that
 * are not too small.
 */
module Decompose {
  import opened Auxiliary
  import opened Words
  import opened Bitmap
  import opened BitmapOps
  import opened Erase
  import opened Curve
  import opened Params
  import opened Walk
  import opened Lists
  import opened PathTree
  import opened Grow
  import opened Relink

  /* ---------------------------------------------------------------------- */
  /* findnext */

  /** Pixel (x', y') comes before (x, y) in findnext's order: scanlines from the top down, each from left to right. */
  predicate Earlier(x': int, y': int, x: int, y: int)
  {
    y' > y || (y' == y && x' < x)
  }

  /**
   * The pixels findnext searches when started at (xp, yp): scanline yp from
   * the start of xp's word on, and every scanline below it. A negative xp
   * makes the word start negative, and the source then skips scanline yp.
   */
  predicate Searched(xp: int, yp: int, x: int, y: int)
  {
    y < yp || (y == yp && 0 <= AlignDown(xp) <= x)
  }

  /**
   * `findnext(bm, &x, &y)`: 0 and the first black pixel in findnext's
   * order among the searched ones, or 1 and (xp, yp) unchanged when there
   * is none. Words are skipped while they are 0, which relies on the bits
   * right of the last column being clear.
   */
  method FindNext(bm: PotraceBitmap, xp: int, yp: int) returns (r: int, x: int, y: int)
    requires bm.Valid() && IsInt32(xp) && yp < bm.h && ExcessClear(bm.mapArray[..], bm.w, bm.dy, bm.h)
    ensures r == 0 || r == 1
    ensures r == 0 ==> Searched(xp, yp, x, y) && BmGet(bm, x, y)
    ensures r == 0 ==> forall x', y' :: Searched(xp, yp, x', y') && Earlier(x', y', x, y) ==> !BmGet(bm, x', y')
    ensures r == 1 ==> x == xp && y == yp
    ensures r == 1 ==> forall x', y' :: Searched(xp, yp, x', y') ==> !BmGet(bm, x', y')
  {
    var x0 := AlignDown(xp);
    Aligned(xp);
    y := yp;
    while y >= 0
      invariant y <= yp && (y < yp ==> x0 == 0) && (y == yp ==> x0 == AlignDown(xp))
      invariant forall x', y' :: Searched(xp, yp, x', y') && y' > y ==> !BmGet(bm, x', y')
    {
      var found;
      found, x := ScanRow(bm, x0, y);
      if found {
        return 0, x, y;
      }
      x0 := 0;
      y := y - 1;
    }
    return 1, xp, yp;
  }

  /**
   * The inner loop of findnext over scanline y: from the word start x0 in
   * steps of one word while the column is within the bitmap and the 32-bit
   * addition has not wrapped, and then to the first black pixel of the
   * first nonzero word.
   */
  method ScanRow(bm: PotraceBitmap, x0: int, y: int) returns (found: bool, x: int)
    requires bm.Valid() && 0 <= y < bm.h && x0 % WordBits == 0 && IsInt32(x0)
    requires ExcessClear(bm.mapArray[..], bm.w, bm.dy, bm.h)
    ensures found ==> 0 <= x0 <= x && BmGet(bm, x, y)
    ensures found ==> forall x' :: x0 <= x' < x ==> !BmGet(bm, x', y)
    ensures !found ==> forall x' :: 0 <= x0 <= x' ==> !BmGet(bm, x', y)
  {
    x := x0;
    while x < bm.w && x >= 0
      invariant IsInt32(x) && (x >= 0 ==> x0 <= x && x % WordBits == 0)
      invariant forall x' :: 0 <= x0 <= x' && (x' < x || x < 0) ==> !BmGet(bm, x', y)
      decreases if x < 0 then 0 else MaxInt32 + 1 - x
    {
      var nonzero, target := TestWord(bm, x, y);
      if nonzero {
        x := FirstBlack(bm, x, y, target);
        return true, x;
      }
      var next := Add32(x, WordBits);
      assert next < 0 ==> x + WordBits > MaxInt32;
      x := next;
    }
    return false, x;
  }

  /**
   * findnext's test `*bm_index(bm, x, y) != 0` of the word at the word
   * start x: a zero word is 64 white pixels, and a nonzero word holds a
   * black pixel within the bitmap.
   */
  method TestWord(bm: PotraceBitmap, x: int, y: int) returns (nonzero: bool, ghost target: int)
    requires bm.Valid() && 0 <= y < bm.h && 0 <= x < bm.w && x % WordBits == 0
    requires ExcessClear(bm.mapArray[..], bm.w, bm.dy, bm.h)
    ensures nonzero ==> x <= target && BmGet(bm, target, y)
    ensures !nonzero ==> forall x' :: x <= x' < x + WordBits ==> !BmGet(bm, x', y)
  {
    WordInBuffer(bm, x, y);
    nonzero := bm.mapArray[y * bm.dy + x / WordBits] != Zero;
    if nonzero {
      target := BlackInWord(bm, x, y);
    } else {
      target := x;
      WhiteWord(bm, x, y);
    }
  }

  /** The word findnext tests, `*bm_index(bm, x, y)`, lies in the buffer. */
  lemma WordInBuffer(bm: PotraceBitmap, x: int, y: int)
    requires bm.Valid() && 0 <= y < bm.h && 0 <= x < bm.w
    ensures 0 <= y * bm.dy + x / WordBits < bm.mapArray.Length && x / WordBits < bm.dy
  {
    BufferHoldsRows(bm);
    MulMono(y + 1, bm.h, bm.dy);
  }

  /** The pixel at bit b of the word at the word start x is pixel x + b. */
  lemma WordPixel(bm: PotraceBitmap, x: int, y: int, b: int)
    requires bm.Valid() && 0 <= y < bm.h && 0 <= x < bm.w && x % WordBits == 0 && 0 <= b < WordBits
    ensures 0 <= y * bm.dy + x / WordBits < bm.mapArray.Length
    ensures Addressable(bm.mapArray[..], bm.dy, x + b, y)
    ensures PixelOf(bm.mapArray[..], bm.dy, x + b, y) == bm.mapArray[y * bm.dy + x / WordBits][b]
  {
    WordInBuffer(bm, x, y);
    assert x == WordBits * (x / WordBits);
    DivUnique(x + b, WordBits, x / WordBits, b);
    Addresses(bm, x, y);
    assert (y + 1) * bm.dy <= bm.mapArray.Length;
  }

  /** A zero word holds 64 white pixels. */
  lemma WhiteWord(bm: PotraceBitmap, x: int, y: int)
    requires bm.Valid() && 0 <= y < bm.h && 0 <= x < bm.w && x % WordBits == 0
    requires 0 <= y * bm.dy + x / WordBits < bm.mapArray.Length && bm.mapArray[y * bm.dy + x / WordBits] == Zero
    ensures forall x' :: x <= x' < x + WordBits ==> !BmGet(bm, x', y)
  {
    forall x' | x <= x' < x + WordBits && bm.Safe(x', y)
      ensures !BmGet(bm, x', y)
    {
      WordPixel(bm, x, y, x' - x);
    }
  }

  /** With the padding clear, a nonzero word holds a black pixel within the bitmap. */
  lemma BlackInWord(bm: PotraceBitmap, x0: int, y: int) returns (t: int)
    requires bm.Valid() && 0 <= y < bm.h && 0 <= x0 < bm.w && x0 % WordBits == 0
    requires ExcessClear(bm.mapArray[..], bm.w, bm.dy, bm.h)
    requires 0 <= y * bm.dy + x0 / WordBits < bm.mapArray.Length && bm.mapArray[y * bm.dy + x0 / WordBits] != Zero
    ensures x0 <= t < x0 + WordBits && BmGet(bm, t, y)
  {
    NonZero(bm.mapArray[y * bm.dy + x0 / WordBits]);
    var b :| 0 <= b < WordBits && bm.mapArray[y * bm.dy + x0 / WordBits][b];
    WordPixel(bm, x0, y, b);
    t := x0 + b;
    assert t < bm.w;
  }

  /**
   * The scan inside a nonzero word, `while (!BM_GET(bm, x, y)) x++`: it
   * stops at the first black pixel from x0 on, which a black pixel at
   * `target` guarantees.
   */
  method FirstBlack(bm: PotraceBitmap, x0: int, y: int, ghost target: int) returns (x: int)
    requires bm.Valid() && x0 <= target && BmGet(bm, target, y)
    ensures x0 <= x <= target && BmGet(bm, x, y)
    ensures forall x' :: x0 <= x' < x ==> !BmGet(bm, x', y)
  {
    x := x0;
    while !BmGet(bm, x, y)
      invariant x0 <= x <= target
      invariant forall x' :: x0 <= x' < x ==> !BmGet(bm, x', y)
      decreases target - x
    {
      x := x + 1;
    }
  }

  /* ---------------------------------------------------------------------- */
  /* the walk stays within the bitmap */

  /** The pixel findpath calls c, ahead and to the left of corner (x, y) in heading d. */
  function AheadLeft(x: int, y: int, d: Dir): Point
  {
    match d
    case North => Point(x, y)
    case South => Point(x - 1, y - 1)
    case East => Point(x, y - 1)
    case West => Point(x - 1, y)
  }

  /** The pixel findpath calls d, ahead and to the right of corner (x, y) in heading d. */
  function AheadRight(x: int, y: int, d: Dir): Point
  {
    match d
    case North => Point(x - 1, y)
    case South => Point(x, y - 1)
    case East => Point(x, y)
    case West => Point(x - 1, y - 1)
  }

  /** Away from the ends of the 32-bit range, findpath's c and d are the pixels AheadLeft and AheadRight. */
  lemma PixelsAhead(pic: Picture, x: int, y: int, d: Dir)
    requires IsInt32(x - 1) && IsInt32(y - 1) && IsInt32(x) && IsInt32(y)
    ensures PixelC(pic, x, y, d) == pic(AheadLeft(x, y, d).x, AheadLeft(x, y, d).y)
    ensures PixelD(pic, x, y, d) == pic(AheadRight(x, y, d).x, AheadRight(x, y, d).y)
  {
  }

  /** Only pixels inside the w x h bitmap are black. */
  ghost predicate BlackWithin(pic: Picture, w: int, h: int)
  {
    forall x, y :: pic(x, y) ==> 0 <= x < w && 0 <= y < h
  }

  /**
   * One step of findpath keeps a black pixel ahead on the right: after
   * moving one unit the walker turns right only onto a black c, goes
   * straight only along a black d, and a left turn keeps the black pixel
   * it had. Both corners lie within the bitmap, being corners of that
   * pixel.
   */
  lemma StepKeepsBlack(pic: Picture, w: int, h: int, x: int, y: int, d: Dir, sign: char, policy: int)
    requires IsInt32(w) && IsInt32(h) && BlackWithin(pic, w, h)
    requires pic(AheadRight(x, y, d).x, AheadRight(x, y, d).y)
    ensures 0 <= x <= w && 0 <= y <= h
    ensures var x', y' := x + DX(d), y + DY(d);
      && 0 <= x' <= w && 0 <= y' <= h && Add32(x, DX(d)) == x' && Add32(y, DY(d)) == y'
      && var d' := Turn(pic, x', y', d, sign, policy);
         pic(AheadRight(x', y', d').x, AheadRight(x', y', d').y)
  {
    var x', y' := x + DX(d), y + DY(d);
    PixelsAhead(pic, x', y', d);
    TurnKeepsBlack(pic, x, y, d, PixelC(pic, x', y', d), PixelD(pic, x', y', d), AmbiguousRight(pic, x', y', sign, policy));
  }

  /**
   * The turn itself, whatever the policy decides: the black pixel ahead on
   * the right of the new heading is c after a right turn, d going
   * straight, and the old one after a left turn.
   */
  lemma TurnKeepsBlack(pic: Picture, x: int, y: int, d: Dir, c: bool, dd: bool, right: bool)
    requires pic(AheadRight(x, y, d).x, AheadRight(x, y, d).y)
    requires var x', y' := x + DX(d), y + DY(d);
      c == pic(AheadLeft(x', y', d).x, AheadLeft(x', y', d).y) && dd == pic(AheadRight(x', y', d).x, AheadRight(x', y', d).y)
    ensures var x', y' := x + DX(d), y + DY(d);
      var d' := NextDir(c, dd, right, d);
      pic(AheadRight(x', y', d').x, AheadRight(x', y', d').y)
  {
  }

  /**
   * A walk under findpath's rule that keeps a black pixel ahead on the
   * right records only corners within the bitmap.
   */
  lemma {:induction false} WalkWithin(pic: Picture, w: int, h: int, x0: int, y0: int, sign: char, policy: int,
                                      x: int, y: int, d: Dir, area: int, pts: seq<Point>, fuel: nat)
    requires IsInt32(w) && IsInt32(h) && BlackWithin(pic, w, h)
    requires IsInt32(x) && IsInt32(y) && IsInt64(area) && pic(AheadRight(x, y, d).x, AheadRight(x, y, d).y)
    requires InBitmap(pts, w, h)
    requires WalkFrom(Rule(pic, sign, policy), x0, y0, sign, x, y, d, area, pts, fuel).Some?
    ensures InBitmap(WalkFrom(Rule(pic, sign, policy), x0, y0, sign, x, y, d, area, pts, fuel).value.pt, w, h)
    decreases fuel
  {
    WalkStepWithin(pic, w, h, x0, y0, sign, policy, x, y, d, area, pts, fuel);
    var x' := Add32(x, DX(d));
    var y' := Add32(y, DY(d));
    if !(x' == x0 && y' == y0) {
      WalkWithin(pic, w, h, x0, y0, sign, policy, x', y', Rule(pic, sign, policy)(x', y', d),
                 Add64(area, UnitProduct(x', DY(d))), pts + [Point(x, y)], fuel - 1);
    }
  }

  /** One step of WalkWithin: the walk closes within the bitmap, or goes on from a state that meets its requirements. */
  lemma WalkStepWithin(pic: Picture, w: int, h: int, x0: int, y0: int, sign: char, policy: int,
                       x: int, y: int, d: Dir, area: int, pts: seq<Point>, fuel: nat)
    requires IsInt32(w) && IsInt32(h) && BlackWithin(pic, w, h)
    requires IsInt32(x) && IsInt32(y) && IsInt64(area) && pic(AheadRight(x, y, d).x, AheadRight(x, y, d).y)
    requires InBitmap(pts, w, h)
    requires WalkFrom(Rule(pic, sign, policy), x0, y0, sign, x, y, d, area, pts, fuel).Some?
    ensures fuel >= 1
    ensures var x', y' := Add32(x, DX(d)), Add32(y, DY(d));
      var area' := Add64(area, UnitProduct(x', DY(d)));
      var d' := Rule(pic, sign, policy)(x', y', d);
      && IsInt32(x') && IsInt32(y') && IsInt64(area')
      && pic(AheadRight(x', y', d').x, AheadRight(x', y', d').y)
      && InBitmap(pts + [Point(x, y)], w, h)
      && (x' == x0 && y' == y0 ==>
            WalkFrom(Rule(pic, sign, policy), x0, y0, sign, x, y, d, area, pts, fuel).value.pt == pts + [Point(x, y)])
      && (!(x' == x0 && y' == y0) ==>
            WalkFrom(Rule(pic, sign, policy), x0, y0, sign, x, y, d, area, pts, fuel)
            == WalkFrom(Rule(pic, sign, policy), x0, y0, sign, x', y', d', area', pts + [Point(x, y)], fuel - 1))
  {
    StepKeepsBlack(pic, w, h, x, y, d, sign, policy);
    var pts' := pts + [Point(x, y)];
    assert InBitmap(pts', w, h);
  }

  /** A bitmap's picture is black only inside the bitmap. */
  lemma ShownWithin(bm: PotraceBitmap, pic: Picture)
    requires bm.Valid() && Shows(bm, pic)
    ensures BlackWithin(pic, bm.w, bm.h)
  {
    forall x, y | pic(x, y)
      ensures 0 <= x < bm.w && 0 <= y < bm.h
    {
      assert BmGet(bm, x, y);
    }
  }

  /**
   * The path findpath traces from the corner above-left of a black pixel
   * (x, y), heading down, is a closed walk from that corner within the
   * bitmap.
   */
  lemma TracedWithin(bm: PotraceBitmap, pic: Picture, x: int, y: int, sign: char, policy: int, fuel: nat)
    requires bm.Valid() && Shows(bm, pic) && BmGet(bm, x, y)
    requires Traced(pic, x, y + 1, sign, policy, fuel).Some?
    ensures IsInt32(y + 1)
    ensures var p := Traced(pic, x, y + 1, sign, policy, fuel).value;
      && InBitmap(p.pt, bm.w, bm.h) && ClosedWalk(p.pt, x, y + 1) && p.sign == sign
  {
    ShownWithin(bm, pic);
    assert AheadRight(x, y + 1, South) == Point(x, y);
    WalkWithin(pic, bm.w, bm.h, x, y + 1, sign, policy, x, y + 1, South, 0, [], fuel);
    TracedIsClosedWalk(pic, x, y + 1, sign, policy, fuel);
  }

  /* ---------------------------------------------------------------------- */
  /* the components bm_to_pathlist meets */

  /** One turn of the loop of bm_to_pathlist: the black pixel findnext returned, and the path traced from the corner above it. */
  datatype Component = Component(x: int, y: int, path: TracedPath)

  /** findnext started at (xp, yp) on pic returns (x, y): the first black pixel in its order among those it searches. */
  ghost predicate FirstFound(pic: Picture, xp: int, yp: int, x: int, y: int)
  {
    && Searched(xp, yp, x, y) && pic(x, y)
    && forall x', y' :: Searched(xp, yp, x', y') && Earlier(x', y', x, y) ==> !pic(x', y')
  }

  /** findnext started at (xp, yp) on pic finds no black pixel. */
  ghost predicate NoneFound(pic: Picture, xp: int, yp: int)
  {
    forall x', y' :: Searched(xp, yp, x', y') ==> !pic(x', y')
  }

  /** pic after `xor_path` with the corners pts on a w x h bitmap: the path's interior inverted. */
  ghost function Xored(pic: Picture, pts: seq<Point>, w: int, h: int): Picture
  {
    (x, y) => pic(x, y) != (BmRange(x, w) && BmRange(y, h) && Odd(Runs(pts), x, y))
  }

  /** The working copy after the turns of found: pic with each of their paths erased in turn. */
  ghost function Remaining(pic: Picture, found: seq<Component>, w: int, h: int): Picture
    decreases |found|
  {
    if found == [] then pic
    else Xored(Remaining(pic, found[..|found| - 1], w, h), found[|found| - 1].path.pt, w, h)
  }

  /** Where findnext starts looking in turn i: at (0, h - 1) in the first, and at the pixel of turn i - 1 after that. */
  function StartOf(found: seq<Component>, i: int, h: int): Point
    requires 0 <= i <= |found|
  {
    if i == 0 then Point(0, h - 1) else Point(found[i - 1].x, found[i - 1].y)
  }

  /** The sign findpath is given for the pixel (x, y): '+' when it is black in the original picture. */
  function SignAt(pic: Picture, x: int, y: int): char
  {
    if pic(x, y) then '+' else '-'
  }

  /**
   * Turn c of the loop on the working picture before: findnext, started
   * at start, returns c's pixel, and findpath traces c's path from the
   * corner above it, with the sign that pixel has in the original pic.
   */
  ghost predicate Meets(pic: Picture, policy: int, fuel: nat, before: Picture, start: Point, c: Component)
  {
    && FirstFound(before, start.x, start.y, c.x, c.y)
    && IsInt32(c.x) && IsInt32(c.y + 1)
    && Traced(before, c.x, c.y + 1, SignAt(pic, c.x, c.y), policy, fuel) == Some(c.path)
  }

  /**
   * found is the first |found| turns of the loop of bm_to_pathlist on a
   * w x h bitmap showing pic: each turn meets its component in the
   * working copy the turns before it left.
   */
  ghost predicate Decomposes(pic: Picture, w: int, h: int, policy: int, fuel: nat, found: seq<Component>)
    decreases |found|
  {
    found != [] ==>
      var n := |found| - 1;
      && Decomposes(pic, w, h, policy, fuel, found[..n])
      && Meets(pic, policy, fuel, Remaining(pic, found[..n], w, h), StartOf(found, n, h), found[n])
  }

  /** The loop has nothing left: findnext, started after the last turn, finds no black pixel. */
  ghost predicate Exhausted(pic: Picture, w: int, h: int, found: seq<Component>)
  {
    var start := StartOf(found, |found|, h);
    NoneFound(Remaining(pic, found, w, h), start.x, start.y)
  }

  /**
   * The loop stops early after the turns of found: findnext finds another
   * black pixel, and either the turns are used up or findpath's walk from
   * it does not close within fuel steps.
   */
  ghost predicate Stalled(pic: Picture, w: int, h: int, policy: int, fuel: nat, found: seq<Component>)
  {
    var start := StartOf(found, |found|, h);
    exists x, y :: FirstFound(Remaining(pic, found, w, h), start.x, start.y, x, y)
      && IsInt32(x) && IsInt32(y + 1)
      && (|found| == fuel || Traced(Remaining(pic, found, w, h), x, y + 1, SignAt(pic, x, y), policy, fuel).None?)
  }

  /** The paths bm_to_pathlist keeps of the turns of found, in order: those whose area is above turdSize. */
  function Survivors(found: seq<Component>, turdSize: int): (r: seq<TracedPath>)
    ensures |r| <= |found|
    ensures forall k :: 0 <= k < |r| ==> r[k].area > turdSize
    decreases |found|
  {
    if found == [] then []
    else
      var c := found[|found| - 1];
      Survivors(found[..|found| - 1], turdSize) + (if c.path.area > turdSize then [c.path] else [])
  }

  /** findnext's answer is unique: two first black pixels from one start are the same pixel. */
  lemma FirstFoundUnique(pic: Picture, xp: int, yp: int, x1: int, y1: int, x2: int, y2: int)
    requires FirstFound(pic, xp, yp, x1, y1) && FirstFound(pic, xp, yp, x2, y2)
    ensures x1 == x2 && y1 == y2
  {
  }

  /**
   * The loop is deterministic: of two decompositions of one picture, the
   * shorter is the start of the longer.
   */
  lemma {:induction false} DecomposesUnique(pic: Picture, w: int, h: int, policy: int, fuel: nat, a: seq<Component>, b: seq<Component>)
    requires Decomposes(pic, w, h, policy, fuel, a) && Decomposes(pic, w, h, policy, fuel, b) && |a| <= |b|
    ensures a == b[..|a|]
    decreases |b|
  {
    if |a| < |b| {
      DecomposesUnique(pic, w, h, policy, fuel, a, b[..|b| - 1]);
      assert b[..|b| - 1][..|a|] == b[..|a|];
    } else if a != [] {
      var n := |a| - 1;
      DecomposesUnique(pic, w, h, policy, fuel, a[..n], b[..n]);
      SameFront(a, b);
      LastUnique(pic, w, h, policy, fuel, a, b);
      SameSeq(a, b);
    }
  }

  /** Sequences of one length agreeing up to their last entries agree there when the first is taken up to its end. */
  lemma SameFront(a: seq<Component>, b: seq<Component>)
    requires |a| == |b| > 0 && a[..|a| - 1] == b[..|b| - 1][..|a| - 1]
    ensures a[..|a| - 1] == b[..|b| - 1]
  {
  }

  /** Sequences of one length agreeing before their last entries and on them are equal. */
  lemma SameSeq(a: seq<Component>, b: seq<Component>)
    requires |a| == |b| > 0 && a[..|a| - 1] == b[..|b| - 1] && a[|a| - 1] == b[|b| - 1]
    ensures a == b[..|a|]
  {
    assert a == a[..|a| - 1] + [a[|a| - 1]];
    assert b == b[..|b| - 1] + [b[|b| - 1]];
  }

  /** Two decompositions of one length that agree before their last turn agree on it. */
  lemma LastUnique(pic: Picture, w: int, h: int, policy: int, fuel: nat, a: seq<Component>, b: seq<Component>)
    requires Decomposes(pic, w, h, policy, fuel, a) && Decomposes(pic, w, h, policy, fuel, b)
    requires |a| == |b| > 0 && a[..|a| - 1] == b[..|b| - 1]
    ensures a[|a| - 1] == b[|b| - 1]
  {
    var n := |a| - 1;
    assert StartOf(a, n, h) == StartOf(b, n, h) by {
      if n > 0 {
        assert a[n - 1] == a[..n][n - 1] && b[n - 1] == b[..n][n - 1];
      }
    }
    MeetsUnique(pic, policy, fuel, Remaining(pic, a[..n], w, h), StartOf(a, n, h), a[n],
                Remaining(pic, b[..n], w, h), StartOf(b, n, h), b[n]);
  }

  /** One turn meets one component: its pixel is findnext's unique answer and its path findpath's. */
  lemma MeetsUnique(pic: Picture, policy: int, fuel: nat, before1: Picture, start1: Point, c1: Component,
                    before2: Picture, start2: Point, c2: Component)
    requires Meets(pic, policy, fuel, before1, start1, c1) && Meets(pic, policy, fuel, before2, start2, c2)
    requires before1 == before2 && start1 == start2
    ensures c1 == c2
  {
    FirstFoundUnique(before1, start1.x, start1.y, c1.x, c1.y, c2.x, c2.y);
  }

  /** A decomposition's prefixes are decompositions. */
  lemma {:induction false} DecomposesPrefix(pic: Picture, w: int, h: int, policy: int, fuel: nat, b: seq<Component>, k: int)
    requires Decomposes(pic, w, h, policy, fuel, b) && 0 <= k <= |b|
    ensures Decomposes(pic, w, h, policy, fuel, b[..k])
    decreases |b|
  {
    if k < |b| {
      DecomposesPrefix(pic, w, h, policy, fuel, b[..|b| - 1], k);
      assert b[..|b| - 1][..k] == b[..k];
    } else {
      assert b[..k] == b;
    }
  }

  /** Turn n of a decomposition meets its component in what the turns before it left. */
  lemma TurnOf(pic: Picture, w: int, h: int, policy: int, fuel: nat, b: seq<Component>, n: int)
    requires Decomposes(pic, w, h, policy, fuel, b) && 0 <= n < |b|
    ensures Meets(pic, policy, fuel, Remaining(pic, b[..n], w, h), StartOf(b, n, h), b[n])
  {
    DecomposesPrefix(pic, w, h, policy, fuel, b, n + 1);
    var b' := b[..n + 1];
    assert b'[..n] == b[..n] && b'[n] == b[n];
    assert StartOf(b', n, h) == StartOf(b, n, h) by {
      if n > 0 {
        assert b'[n - 1] == b[n - 1];
      }
    }
  }

  /** A turn that meets a component finds a black pixel: findnext was not done. */
  lemma MeetsFinds(pic: Picture, policy: int, fuel: nat, before: Picture, start: Point, c: Component)
    requires Meets(pic, policy, fuel, before, start, c)
    ensures !NoneFound(before, start.x, start.y)
  {
    assert Searched(start.x, start.y, c.x, c.y) && before(c.x, c.y);
  }

  /** A decomposition that a longer one extends is not exhausted: findnext still finds the next turn's pixel. */
  lemma MoreFound(pic: Picture, w: int, h: int, policy: int, fuel: nat, a: seq<Component>, b: seq<Component>)
    requires Decomposes(pic, w, h, policy, fuel, a) && Decomposes(pic, w, h, policy, fuel, b) && |a| < |b|
    ensures !Exhausted(pic, w, h, a)
  {
    DecomposesUnique(pic, w, h, policy, fuel, a, b);
    var n := |a|;
    TurnOf(pic, w, h, policy, fuel, b, n);
    assert StartOf(b, n, h) == StartOf(a, n, h) by {
      if n > 0 {
        assert b[n - 1] == a[n - 1];
      }
    }
    assert b[..n] == a;
    MeetsFinds(pic, policy, fuel, Remaining(pic, a, w, h), StartOf(a, n, h), b[n]);
  }

  /**
   * A complete run is determined by the picture: two decompositions
   * that both leave nothing for findnext are the same turns, and so keep
   * the same paths.
   */
  lemma ExhaustedUnique(pic: Picture, w: int, h: int, policy: int, fuel: nat, a: seq<Component>, b: seq<Component>)
    requires Decomposes(pic, w, h, policy, fuel, a) && Exhausted(pic, w, h, a)
    requires Decomposes(pic, w, h, policy, fuel, b) && Exhausted(pic, w, h, b)
    ensures a == b
  {
    if |a| < |b| {
      MoreFound(pic, w, h, policy, fuel, a, b);
      assert false;
    } else if |b| < |a| {
      MoreFound(pic, w, h, policy, fuel, b, a);
      assert false;
    } else {
      DecomposesUnique(pic, w, h, policy, fuel, a, b);
    }
  }

  /** The step bound runs out with a pixel still found: the run stalls. */
  lemma StalledAtBound(pic: Picture, w: int, h: int, policy: int, fuel: nat, found: seq<Component>, x: int, y: int)
    requires FirstFound(Remaining(pic, found, w, h), StartOf(found, |found|, h).x, StartOf(found, |found|, h).y, x, y)
    requires IsInt32(x) && IsInt32(y + 1) && |found| == fuel
    ensures Stalled(pic, w, h, policy, fuel, found)
  {
  }

  /** A decomposition and its paths extend by one turn. */
  lemma DecomposesSnoc(pic: Picture, w: int, h: int, policy: int, fuel: nat, found: seq<Component>, c: Component, turdSize: int)
    requires Decomposes(pic, w, h, policy, fuel, found)
    requires Meets(pic, policy, fuel, Remaining(pic, found, w, h), StartOf(found, |found|, h), c)
    ensures Decomposes(pic, w, h, policy, fuel, found + [c])
    ensures Remaining(pic, found + [c], w, h) == Xored(Remaining(pic, found, w, h), c.path.pt, w, h)
    ensures StartOf(found + [c], |found| + 1, h) == Point(c.x, c.y)
    ensures Survivors(found + [c], turdSize) == Survivors(found, turdSize) + (if c.path.area > turdSize then [c.path] else [])
  {
    assert (found + [c])[..|found|] == found;
  }

  /* ---------------------------------------------------------------------- */
  /* bm_to_pathlist */

  /**
   * A kept path joins the arena and is appended to the list through
   * `plist_hook` (`list_insert_beforehook(p, plist_hook)`).
   */
  method AppendNew(links: Links, hook: Hook, plist: int, ghost xs: seq<int>)
    returns (hook': Hook, plist': int, ghost xs': seq<int>)
    requires links.Valid() && IsList(links.next, plist, xs)
    requires hook == if xs == [] then Local else NextOf(xs[|xs| - 1])
    modifies links
    ensures links.Valid() && |links.next| == old(|links.next|) + 1
    ensures xs' == xs + [old(|links.next|)] && IsList(links.next, plist', xs')
    ensures hook' == NextOf(xs'[|xs'| - 1])
  {
    ghost var next0 := links.next;
    var p := links.NewPath();
    ListGrow(next0, plist, xs, [Nil]);
    ListDistinct(next0, plist, xs);
    ghost var next1 := links.next;
    if xs == [] {
      TailInsert(next1, plist, xs, p);
    } else {
      InsertAppends(next1, plist, xs, p);
    }
    hook', plist' := links.InsertBeforeHook(p, hook, plist);
    xs' := xs + [p];
  }

  /** What bm_to_pathlist promises of each kept path: bigger than a turd, and '+' exactly when its pixel in the picture is black. */
  ghost predicate Kept(pic: Picture, turdSize: int, paths: seq<TracedPath>)
  {
    forall i :: 0 <= i < |paths| ==>
      && paths[i].pt != [] && paths[i].area > turdSize
      && paths[i].sign == (if pic(paths[i].pt[0].x, paths[i].pt[0].y - 1) then '+' else '-')
  }

  /**
   * The state of the loop over the components: the kept paths form the
   * arena, satisfy Kept, and are the list xs from `plist`, whose end is
   * `plist_hook`.
   */
  ghost predicate Collected(links: Links, paths: seq<TracedPath>, plist: int, xs: seq<int>, hook: Hook,
                            w: int, h: int, pic: Picture, turdSize: int)
    reads links
  {
    && links.Valid() && |links.next| == |paths| && Arena(paths, w, h)
    && Kept(pic, turdSize, paths)
    && IsList(links.next, plist, xs) && |xs| == |paths|
    && hook == if xs == [] then Local else NextOf(xs[|xs| - 1])
  }

  /**
   * `bm_to_pathlist(bm, out plist, param, progress)`: on a copy of bm
   * with the padding cleared, each black pixel findnext finds starts a
   * path traced from the corner above it, with the sign of that pixel in
   * bm; the path is erased from the copy, and kept (appended to the list)
   * unless its area is at most `param.turdSize`. found is the turns of
   * that loop, which Decomposes fixes, and the kept paths are their
   * survivors in order. The list is then given its tree structure. bm
   * itself is not written. `ok` is false exactly when the loop stalls: a
   * walk or the loop over the components runs out of `fuel` steps.
   */
  method BmToPathlist(bm: PotraceBitmap, param: PotraceParam, fuel: nat)
    returns (ok: bool, paths: seq<TracedPath>, links: Links, plist: int,
             ghost ys: seq<int>, ghost via: seq<Hook>, ghost done: seq<int>, ghost found: seq<Component>)
    requires bm.Valid()
    ensures bm.mapArray[..] == old(bm.mapArray[..]) && fresh(links)
    ensures Decomposes(Pixels(bm), bm.w, bm.h, param.turnPolicy, fuel, found) && paths == Survivors(found, param.turdSize)
    ensures ok ==> Exhausted(Pixels(bm), bm.w, bm.h, found)
    ensures !ok ==> Stalled(Pixels(bm), bm.w, bm.h, param.turnPolicy, fuel, found)
    ensures ok ==> links.Valid() && |links.next| == |paths| && Arena(paths, bm.w, bm.h)
    ensures ok ==> forall i :: 0 <= i < |paths| ==>
      && paths[i].pt != [] && paths[i].area > param.turdSize
      && paths[i].sign == (if BmGet(bm, paths[i].pt[0].x, paths[i].pt[0].y - 1) then '+' else '-')
    ensures ok ==> IsList(links.next, plist, ys) && Distinct(ys) && forall i :: i in ys <==> 0 <= i < |paths|
    ensures ok ==> Forest(links.sibling, links.childList, via, plist, done)
  {
    ghost var xs;
    ghost var pic := Pixels(bm);
    var bm1 := WorkingCopy(bm, pic);
    ok, paths, links, plist, xs, found := Components(bm, bm1, param, fuel, pic);
    ys, via, done := [], [], [];
    if ok {
      ys, via, done := PathlistToTree(links, plist, xs, paths, bm1);
      ListDistinct(links.next, plist, ys);
      assert |ys| == |xs| by {
        assert |multiset(ys)| == |multiset(xs)|;
      }
      Pigeonhole(ys, |paths|);
    }
  }

  /**
   * `bm1 = bm_dup(bm)` and `bm_clearexcess(bm1)`: a fresh copy of bm
   * showing the same picture, with its padding clear.
   */
  method WorkingCopy(bm: PotraceBitmap, ghost pic: Picture) returns (bm1: PotraceBitmap)
    requires bm.Valid() && Shows(bm, pic)
    ensures fresh(bm1) && fresh(bm1.mapArray) && Working(bm1, bm.w, bm.h) && Shows(bm1, pic)
  {
    bm1 := BmDup(bm);
    ghost var s := bm.mapArray[..];
    BmClearExcess(bm1);
    ExcessClearedIsClear(s, bm1.w, bm1.dy, bm1.h);
    forall x, y
      ensures BmGet(bm1, x, y) == pic(x, y)
    {
      assert BmGet(bm, x, y) == pic(x, y);
      if bm1.Safe(x, y) {
        Addresses(bm, x, y);
        ExcessClearedPixel(s, bm.w, bm.dy, bm.h, x, y);
        assert BmGet(bm, x, y) == PixelOf(s, bm.dy, x, y);
      }
    }
  }

  /**
   * The loop of bm_to_pathlist over the components of the working copy
   * bm1, showing pic: a fresh list, then `findnext(bm1, &x, &y)` from
   * the top left corner and the loop over what it finds.
   */
  method Components(bm: PotraceBitmap, bm1: PotraceBitmap, param: PotraceParam, fuel: nat, ghost pic: Picture)
    returns (ok: bool, paths: seq<TracedPath>, links: Links, plist: int, ghost xs: seq<int>, ghost found: seq<Component>)
    requires bm.Valid() && Shows(bm, pic) && bm1.mapArray != bm.mapArray
    requires Working(bm1, bm.w, bm.h) && Shows(bm1, pic)
    modifies bm1.mapArray
    ensures fresh(links) && links.Valid() && |links.next| == |paths| && Arena(paths, bm.w, bm.h)
    ensures Kept(pic, param.turdSize, paths)
    ensures IsList(links.next, plist, xs) && |xs| == |paths|
    ensures Decomposes(pic, bm.w, bm.h, param.turnPolicy, fuel, found) && paths == Survivors(found, param.turdSize)
    ensures ok ==> Exhausted(pic, bm.w, bm.h, found)
    ensures !ok ==> Stalled(pic, bm.w, bm.h, param.turnPolicy, fuel, found)
  {
    links := new Links(0);
    var r, x, y := Seek(bm1, 0, bm1.h - 1, pic);
    ok, paths, plist, xs, found := Sweep(bm, bm1, pic, param, fuel, links, r, x, y);
  }

  /**
   * `while (findnext(bm1, &x, &y) == 0)`, from the answer (r0, x0, y0)
   * of the first findnext: found is the turns so far, and the kept paths
   * are their survivors in the order found, as the list xs through
   * `Next`. It ends with ok when findnext finds nothing more, and
   * without when the loop stalls.
   */
  method Sweep(bm: PotraceBitmap, bm1: PotraceBitmap, ghost pic: Picture, param: PotraceParam, fuel: nat,
               links: Links, r0: int, x0: int, y0: int)
    returns (ok: bool, paths: seq<TracedPath>, plist: int, ghost xs: seq<int>, ghost found: seq<Component>)
    requires bm.Valid() && Shows(bm, pic) && bm1.mapArray != bm.mapArray
    requires Working(bm1, bm.w, bm.h) && Shows(bm1, pic) && (r0 == 0 ==> BmGet(bm1, x0, y0))
    requires links.Valid() && links.next == []
    requires r0 == 0 ==> FirstFound(pic, 0, bm.h - 1, x0, y0)
    requires r0 != 0 ==> NoneFound(pic, 0, bm.h - 1)
    modifies bm1.mapArray, links
    ensures links.Valid() && |links.next| == |paths| && Arena(paths, bm.w, bm.h)
    ensures Kept(pic, param.turdSize, paths)
    ensures IsList(links.next, plist, xs) && |xs| == |paths|
    ensures Decomposes(pic, bm.w, bm.h, param.turnPolicy, fuel, found) && paths == Survivors(found, param.turdSize)
    ensures ok ==> Exhausted(pic, bm.w, bm.h, found)
    ensures !ok ==> Stalled(pic, bm.w, bm.h, param.turnPolicy, fuel, found)
  {
    paths, plist, xs, found := [], Nil, [], [];
    var hook := Local;
    ghost var start := Point(0, bm.h - 1);
    var r, x, y := r0, x0, y0;
    var steps := fuel;
    while r == 0 && steps > 0
      invariant Working(bm1, bm.w, bm.h) && Shows(bm1, Remaining(pic, found, bm.w, bm.h)) && (r == 0 ==> BmGet(bm1, x, y))
      invariant Collected(links, paths, plist, xs, hook, bm.w, bm.h, pic, param.turdSize)
      invariant |found| + steps == fuel
      invariant Decomposes(pic, bm.w, bm.h, param.turnPolicy, fuel, found) && paths == Survivors(found, param.turdSize)
      invariant start == StartOf(found, |found|, bm.h)
      invariant r == 0 ==> FirstFound(Remaining(pic, found, bm.w, bm.h), start.x, start.y, x, y)
      invariant r != 0 ==> NoneFound(Remaining(pic, found, bm.w, bm.h), start.x, start.y)
      decreases steps
    {
      steps := steps - 1;
      var traced;
      traced, r, x, y, hook, plist, paths, xs, found, start :=
        Advance(bm, bm1, pic, param, fuel, found, start, x, y, links, hook, plist, paths, xs);
      if !traced {
        return false, paths, plist, xs, found;
      }
    }
    ok := r != 0;
    if !ok {
      StalledAtBound(pic, bm.w, bm.h, param.turnPolicy, fuel, found, x, y);
    }
  }

  /**
   * One turn of the loop as a turn of the run found: the pixel (x, y)
   * findnext found is the next component's, and the run grows by that
   * turn, or it stalls.
   */
  method Advance(bm: PotraceBitmap, bm1: PotraceBitmap, ghost pic: Picture, param: PotraceParam, fuel: nat,
                 ghost found: seq<Component>, ghost start: Point,
                 x: int, y: int, links: Links, hook: Hook, plist: int, paths: seq<TracedPath>, ghost xs: seq<int>)
    returns (traced: bool, r: int, x': int, y': int, hook': Hook, plist': int, paths': seq<TracedPath>, ghost xs': seq<int>,
             ghost found': seq<Component>, ghost start': Point)
    requires bm.Valid() && Shows(bm, pic) && bm1.mapArray != bm.mapArray
    requires Working(bm1, bm.w, bm.h) && Shows(bm1, Remaining(pic, found, bm.w, bm.h)) && BmGet(bm1, x, y)
    requires Collected(links, paths, plist, xs, hook, bm.w, bm.h, pic, param.turdSize)
    requires Decomposes(pic, bm.w, bm.h, param.turnPolicy, fuel, found) && paths == Survivors(found, param.turdSize)
    requires start == StartOf(found, |found|, bm.h)
    requires FirstFound(Remaining(pic, found, bm.w, bm.h), start.x, start.y, x, y)
    modifies bm1.mapArray, links
    ensures Working(bm1, bm.w, bm.h) && (traced && r == 0 ==> BmGet(bm1, x', y'))
    ensures Collected(links, paths', plist', xs', hook', bm.w, bm.h, pic, param.turdSize)
    ensures traced ==> |found'| == |found| + 1 && Shows(bm1, Remaining(pic, found', bm.w, bm.h))
    ensures traced ==> Decomposes(pic, bm.w, bm.h, param.turnPolicy, fuel, found') && paths' == Survivors(found', param.turdSize)
    ensures traced ==> start' == StartOf(found', |found'|, bm.h)
    ensures traced && r == 0 ==> FirstFound(Remaining(pic, found', bm.w, bm.h), start'.x, start'.y, x', y')
    ensures traced && r != 0 ==> NoneFound(Remaining(pic, found', bm.w, bm.h), start'.x, start'.y)
    ensures !traced ==> found' == found && paths' == paths && Stalled(pic, bm.w, bm.h, param.turnPolicy, fuel, found)
  {
    ghost var cur := Remaining(pic, found, bm.w, bm.h);
    ghost var c;
    traced, r, x', y', hook', plist', paths', xs', c := Visit(bm, bm1, pic, cur, start, param, fuel,
                                                              x, y, links, hook, plist, paths, xs);
    if !traced {
      assert FirstFound(Remaining(pic, found, bm.w, bm.h), start.x, start.y, x, y);
      return false, r, x', y', hook', plist', paths', xs', found, start;
    }
    DecomposesSnoc(pic, bm.w, bm.h, param.turnPolicy, fuel, found, c, param.turdSize);
    found', start' := found + [c], Point(c.x, c.y);
  }

  /** findnext on a bitmap showing pic: its answer read as a statement about pic. */
  method Seek(bm: PotraceBitmap, xp: int, yp: int, ghost pic: Picture) returns (r: int, x: int, y: int)
    requires bm.Valid() && Shows(bm, pic) && IsInt32(xp) && yp < bm.h && ExcessClear(bm.mapArray[..], bm.w, bm.dy, bm.h)
    ensures r == 0 ==> FirstFound(pic, xp, yp, x, y) && BmGet(bm, x, y)
    ensures r != 0 ==> NoneFound(pic, xp, yp)
  {
    r, x, y := FindNext(bm, xp, yp);
    if r == 0 {
      forall x', y' | Searched(xp, yp, x', y') && Earlier(x', y', x, y)
        ensures !pic(x', y')
      {
        assert !BmGet(bm, x', y');
      }
    } else {
      forall x', y' | Searched(xp, yp, x', y')
        ensures !pic(x', y')
      {
        assert !BmGet(bm, x', y');
      }
    }
  }

  /** The working copy bm1: a valid bitmap of the original's size with its padding clear. */
  ghost predicate Working(bm1: PotraceBitmap, w: int, h: int)
    reads bm1, bm1.mapArray
  {
    bm1.Valid() && bm1.w == w && bm1.h == h && ExcessClear(bm1.mapArray[..], bm1.w, bm1.dy, bm1.h)
  }

  /**
   * One turn of the loop of bm_to_pathlist at the black pixel (x, y) of
   * bm1, which shows cur: the component is traced in cur with the sign
   * of (x, y) in bm, erased from bm1, and kept when bigger than a turd;
   * then findnext looks for the next black pixel from (x, y) on. `traced`
   * is false exactly when the walk runs out of fuel; c is the turn.
   */
  method Visit(bm: PotraceBitmap, bm1: PotraceBitmap, ghost pic: Picture, ghost cur: Picture, ghost start: Point, param: PotraceParam, fuel: nat,
               x: int, y: int, links: Links, hook: Hook, plist: int, paths: seq<TracedPath>, ghost xs: seq<int>)
    returns (traced: bool, r: int, x': int, y': int, hook': Hook, plist': int, paths': seq<TracedPath>, ghost xs': seq<int>,
             ghost c: Component)
    requires bm.Valid() && Shows(bm, pic) && bm1.mapArray != bm.mapArray
    requires Working(bm1, bm.w, bm.h) && Shows(bm1, cur) && BmGet(bm1, x, y) && FirstFound(cur, start.x, start.y, x, y)
    requires Collected(links, paths, plist, xs, hook, bm.w, bm.h, pic, param.turdSize)
    modifies bm1.mapArray, links
    ensures Working(bm1, bm.w, bm.h) && (traced && r == 0 ==> BmGet(bm1, x', y'))
    ensures Collected(links, paths', plist', xs', hook', bm.w, bm.h, pic, param.turdSize)
    ensures IsInt32(x) && IsInt32(y + 1)
    ensures traced <==> Traced(cur, x, y + 1, SignAt(pic, x, y), param.turnPolicy, fuel).Some?
    ensures traced ==> c.x == x && c.y == y && Meets(pic, param.turnPolicy, fuel, cur, start, c)
    ensures traced ==> Shows(bm1, Xored(cur, c.path.pt, bm.w, bm.h))
    ensures traced ==> paths' == paths + (if c.path.area > param.turdSize then [c.path] else [])
    ensures traced && r == 0 ==> FirstFound(Xored(cur, c.path.pt, bm.w, bm.h), x, y, x', y')
    ensures traced && r != 0 ==> NoneFound(Xored(cur, c.path.pt, bm.w, bm.h), x, y)
    ensures !traced ==> paths' == paths
  {
    var p;
    p, c := TraceTurn(bm, bm1, pic, cur, start, param.turnPolicy, fuel, x, y);
    if p.None? {
      return false, 0, x, y, hook, plist, paths, xs, c;
    }
    traced, hook', plist', paths', xs' := true, hook, plist, paths, xs;
    if p.value.area > param.turdSize {
      hook', plist', paths', xs' := Keep(links, p.value, x, y, hook, plist, paths, xs, bm.w, bm.h, pic, param.turdSize);
    }
    r, x', y' := Seek(bm1, x, y, Xored(cur, c.path.pt, bm.w, bm.h));
  }

  /**
   * The first half of a turn: `sign = BM_GET(bm, x, y) ? '+' : '-'`,
   * then findpath and xor_path on bm1. When the walk closes, the turn
   * meets the component c.
   */
  method TraceTurn(bm: PotraceBitmap, bm1: PotraceBitmap, ghost pic: Picture, ghost cur: Picture, ghost start: Point,
                   policy: int, fuel: nat, x: int, y: int)
    returns (p: Option<TracedPath>, ghost c: Component)
    requires bm.Valid() && Shows(bm, pic) && bm1.mapArray != bm.mapArray
    requires Working(bm1, bm.w, bm.h) && Shows(bm1, cur) && BmGet(bm1, x, y) && FirstFound(cur, start.x, start.y, x, y)
    modifies bm1.mapArray
    ensures Working(bm1, bm.w, bm.h) && IsInt32(x) && IsInt32(y + 1)
    ensures p == Traced(cur, x, y + 1, SignAt(pic, x, y), policy, fuel)
    ensures p.Some? ==> c == Component(x, y, p.value) && Meets(pic, policy, fuel, cur, start, c)
    ensures p.Some? ==> Shows(bm1, Xored(cur, c.path.pt, bm.w, bm.h))
    ensures p.Some? ==> InBitmap(p.value.pt, bm.w, bm.h) && p.value.pt != [] && p.value.pt[0] == Point(x, y + 1)
    ensures p.Some? ==> p.value.sign == SignAt(pic, x, y)
  {
    var sign := if BmGet(bm, x, y) then '+' else '-';
    assert sign == SignAt(pic, x, y);
    p := TraceComponent(bm1, x, y, sign, policy, fuel, cur);
    if p.Some? {
      TurnMeets(pic, policy, fuel, cur, start, x, y, sign, p);
      c := Component(x, y, p.value);
    } else {
      c := Component(x, y, TracedPath([], 0, sign));
    }
  }

  /** A turn whose walk closes meets its component. */
  lemma TurnMeets(pic: Picture, policy: int, fuel: nat, cur: Picture, start: Point, x: int, y: int, sign: char, p: Option<TracedPath>)
    requires FirstFound(cur, start.x, start.y, x, y) && IsInt32(x) && IsInt32(y + 1) && sign == SignAt(pic, x, y)
    requires p == Traced(cur, x, y + 1, sign, policy, fuel) && p.Some?
    ensures Meets(pic, policy, fuel, cur, start, Component(x, y, p.value))
  {
  }

  /** A path bigger than a turd, traced from the corner above (x, y) with the sign of (x, y), is appended to the list. */
  method Keep(links: Links, p: TracedPath, x: int, y: int, hook: Hook, plist: int, paths: seq<TracedPath>, ghost xs: seq<int>,
              ghost w: int, ghost h: int, ghost pic: Picture, ghost turdSize: int)
    returns (hook': Hook, plist': int, paths': seq<TracedPath>, ghost xs': seq<int>)
    requires Collected(links, paths, plist, xs, hook, w, h, pic, turdSize)
    requires InBitmap(p.pt, w, h) && p.pt != [] && p.pt[0] == Point(x, y + 1) && p.area > turdSize
    requires p.sign == if pic(x, y) then '+' else '-'
    modifies links
    ensures paths' == paths + [p]
    ensures Collected(links, paths', plist', xs', hook', w, h, pic, turdSize)
  {
    hook', plist', xs' := AppendNew(links, hook, plist, xs);
    paths' := paths + [p];
    assert p.pt[0].y - 1 == y;
  }

  /**
   * One component: findpath from the corner above the black pixel (x, y)
   * of bm1, which shows cur, then `xor_path(bm1, p)`. The path is the
   * walk findpath's rule traces in cur, a closed walk within the bitmap;
   * afterwards bm1 shows cur with the path's interior inverted, and its
   * padding stays clear.
   */
  method TraceComponent(bm1: PotraceBitmap, x: int, y: int, sign: char, policy: int, fuel: nat, ghost cur: Picture)
    returns (p: Option<TracedPath>)
    requires bm1.Valid() && Shows(bm1, cur) && BmGet(bm1, x, y) && ExcessClear(bm1.mapArray[..], bm1.w, bm1.dy, bm1.h)
    modifies bm1.mapArray
    ensures IsInt32(x) && IsInt32(y + 1) && p == Traced(cur, x, y + 1, sign, policy, fuel)
    ensures ExcessClear(bm1.mapArray[..], bm1.w, bm1.dy, bm1.h)
    ensures p.Some? ==> InBitmap(p.value.pt, bm1.w, bm1.h) && ClosedWalk(p.value.pt, x, y + 1) && p.value.sign == sign
    ensures p.Some? ==> Shows(bm1, Xored(cur, p.value.pt, bm1.w, bm1.h))
    ensures p.None? ==> bm1.mapArray[..] == old(bm1.mapArray[..])
  {
    p := FindPath(bm1, x, y + 1, sign, policy, fuel, cur);
    if p.Some? {
      TracedWithin(bm1, cur, x, y, sign, policy, fuel);
      ghost var s0 := bm1.mapArray[..];
      XorPath(bm1, p.value.pt);
      XorPathKeepsExcess(s0, bm1.w, bm1.dy, bm1.h, p.value.pt);
      forall x', y'
        ensures BmGet(bm1, x', y') == Xored(cur, p.value.pt, bm1.w, bm1.h)(x', y')
      {
        if bm1.Safe(x', y') {
          Addresses(bm1, x', y');
          AppliedPixel(s0, bm1.dy, Runs(p.value.pt), x', y');
          assert old(BmGet(bm1, x', y')) == cur(x', y');
        }
      }
    }
  }
}
