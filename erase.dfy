/*
 * Erasing a path from the working bitmap (decompose.c.cs): `xor_to_ref`
 * inverts a run of one scanline between a corner and a word-aligned
 * reference column, and `xor_path` inverts the interior of a closed path
 * as one such run per vertical edge.
 *
 * A run's effect on the words is given once, on values (`Toggled`); the
 * runs of a path are listed by `Runs`, and `Applied` performs them in
 * order. What that does to the pixels is stated by `AppliedPixel`: a pixel
 * is inverted exactly when an odd number of runs cover it.
 */
module Erase {
  import opened Auxiliary
  import opened Words
  import opened Bitmap
  import opened BitmapOps
  import opened Curve

  /** The bits of word column c that hold pixels lo..hi-1 of a scanline. */
  function Span(c: int, lo: int, hi: int): (r: Word)
    ensures forall b :: 0 <= b < WordBits ==> r[b] == (lo <= WordBits * c + b < hi)
  {
    seq(WordBits, b => lo <= WordBits * c + b < hi)
  }

  /** The buffer with pixels lo..hi-1 of scanline y inverted. */
  function Toggled(s: seq<Word>, dy: int, y: int, lo: int, hi: int): (r: seq<Word>)
    ensures |r| == |s|
  {
    if dy <= 0 then s
    else seq(|s|, k requires 0 <= k < |s| => if k / dy == y then Xor(s[k], Span(k % dy, lo, hi)) else s[k])
  }

  /** A run inverts exactly its own pixels. */
  lemma ToggledPixel(s: seq<Word>, dy: int, y: int, lo: int, hi: int, px: int, py: int)
    requires Addressable(s, dy, px, py)
    ensures Addressable(Toggled(s, dy, y, lo, hi), dy, px, py)
    ensures PixelOf(Toggled(s, dy, y, lo, hi), dy, px, py) == (PixelOf(s, dy, px, py) != (py == y && lo <= px < hi))
  {
    PixelWord(s, dy, px, py);
    assert px == WordBits * (px / WordBits) + px % WordBits;
  }

  /** An empty run changes nothing. */
  lemma ToggledEmpty(s: seq<Word>, dy: int, y: int, a: int)
    ensures Toggled(s, dy, y, a, a) == s
  {
    if dy > 0 {
      forall k | 0 <= k < |s|
        ensures Toggled(s, dy, y, a, a)[k] == s[k]
      {
        if k / dy == y {
          Ext(Toggled(s, dy, y, a, a)[k], s[k]);
        }
      }
    }
  }

  /** Inverting the whole word at column i extends a run ending at i by 64 pixels. */
  lemma ToggledWord(s: seq<Word>, dy: int, y: int, lo: int, i: int)
    requires dy > 0 && 0 <= y && lo <= i && 0 <= i && i % WordBits == 0 && i / WordBits < dy
    requires y * dy + i / WordBits < |s|
    ensures 0 <= y * dy + i / WordBits
    ensures var t := Toggled(s, dy, y, lo, i); var j := y * dy + i / WordBits;
      t[j := Xor(t[j], AllBits)] == Toggled(s, dy, y, lo, i + WordBits)
  {
    var t := Toggled(s, dy, y, lo, i);
    var j := y * dy + i / WordBits;
    var a := t[j := Xor(t[j], AllBits)];
    var b := Toggled(s, dy, y, lo, i + WordBits);
    forall k | 0 <= k < |s|
      ensures a[k] == b[k]
    {
      WordOfRow(k, dy, y, i / WordBits);
      if k / dy == y {
        assert i == WordBits * (i / WordBits);
        Ext(a[k], b[k]);
      }
    }
  }

  /** Inverting the low xlo bits of the word holding x extends a run ending at x - xlo to x. */
  lemma ToggledLow(s: seq<Word>, dy: int, y: int, lo: int, x: int)
    requires dy > 0 && 0 <= y && 0 <= x && x % WordBits != 0 && x / WordBits < dy
    requires y * dy + x / WordBits < |s|
    ensures 0 <= y * dy + x / WordBits
    ensures var j := y * dy + x / WordBits;
      s[j := Xor(s[j], Ones(0, x % WordBits))] == Toggled(s, dy, y, x - x % WordBits, x)
  {
    var j := y * dy + x / WordBits;
    var a := s[j := Xor(s[j], Ones(0, x % WordBits))];
    var b := Toggled(s, dy, y, x - x % WordBits, x);
    forall k | 0 <= k < |s|
      ensures a[k] == b[k]
    {
      WordOfRow(k, dy, y, x / WordBits);
      if k / dy == y {
        assert x == WordBits * (x / WordBits) + x % WordBits;
        Ext(a[k], b[k]);
      }
    }
  }

  /** Two adjacent runs of one scanline make one run. */
  lemma ToggledMerge(s: seq<Word>, dy: int, y: int, a: int, m: int, b: int)
    requires a <= m <= b
    ensures Toggled(Toggled(s, dy, y, a, m), dy, y, m, b) == Toggled(s, dy, y, a, b)
  {
    if dy > 0 {
      var l := Toggled(Toggled(s, dy, y, a, m), dy, y, m, b);
      var r := Toggled(s, dy, y, a, b);
      forall k | 0 <= k < |s|
        ensures l[k] == r[k]
      {
        if k / dy == y {
          Ext(l[k], r[k]);
        }
      }
    }
  }

  /** Two runs of one scanline that start together leave the difference inverted. */
  lemma ToggledCancel(s: seq<Word>, dy: int, y: int, a: int, c: int, b: int)
    requires a <= c <= b
    ensures Toggled(Toggled(s, dy, y, a, b), dy, y, a, c) == Toggled(s, dy, y, c, b)
  {
    if dy > 0 {
      var l := Toggled(Toggled(s, dy, y, a, b), dy, y, a, c);
      var r := Toggled(s, dy, y, c, b);
      forall k | 0 <= k < |s|
        ensures l[k] == r[k]
      {
        if k / dy == y {
          Ext(l[k], r[k]);
        }
      }
    }
  }

  /** Runs commute. */
  lemma ToggledCommute(s: seq<Word>, dy: int, y: int, lo: int, hi: int, y': int, lo': int, hi': int)
    ensures Toggled(Toggled(s, dy, y, lo, hi), dy, y', lo', hi') == Toggled(Toggled(s, dy, y', lo', hi'), dy, y, lo, hi)
  {
    if dy > 0 {
      var l := Toggled(Toggled(s, dy, y, lo, hi), dy, y', lo', hi');
      var r := Toggled(Toggled(s, dy, y', lo', hi'), dy, y, lo, hi);
      forall k | 0 <= k < |s|
        ensures l[k] == r[k]
      {
        Ext(l[k], r[k]);
      }
    }
  }

  /** A run performed twice changes nothing. */
  lemma ToggledTwice(s: seq<Word>, dy: int, y: int, lo: int, hi: int)
    ensures Toggled(Toggled(s, dy, y, lo, hi), dy, y, lo, hi) == s
  {
    if dy > 0 {
      var l := Toggled(Toggled(s, dy, y, lo, hi), dy, y, lo, hi);
      forall k | 0 <= k < |s|
        ensures l[k] == s[k]
      {
        Ext(l[k], s[k]);
      }
    }
  }

  /* ---------------------------------------------------------------------- */
  /* xor_to_ref */

  /** The next word start after a word start i below the word start b is at most b. */
  lemma NextAligned(i: int, b: int)
    requires i % WordBits == 0 && b % WordBits == 0 && i < b
    ensures (i + WordBits) % WordBits == 0 && i + WordBits <= b
  {
    assert i == WordBits * (i / WordBits) && b == WordBits * (b / WordBits);
    DivUnique(i + WordBits, WordBits, i / WordBits + 1, 0);
  }

  /** `x & -64` is a word start. */
  lemma Aligned(x: int)
    ensures (x - x % WordBits) % WordBits == 0
  {
    DivUnique(x - x % WordBits, WordBits, x / WordBits, 0);
  }

  /**
   * `xor_to_ref(bm, x, y, xa)`: inverts the pixels of scanline y between
   * column x and the word-aligned column xa, whichever is left, as whole
   * words up to the word holding x and then the low bits of that word. The
   * source writes through `bm_index` without checks: the scanline and both
   * columns must lie within the bitmap.
   */
  method XorToRef(bm: PotraceBitmap, x: int, y: int, xa: int)
    requires bm.Valid() && 0 <= y < bm.h
    requires 0 <= x <= bm.w && 0 <= xa <= bm.w && xa % WordBits == 0
    modifies bm.mapArray
    ensures bm.mapArray[..] == Toggled(old(bm.mapArray[..]), bm.dy, y, Min(x, xa), Max(x, xa))
  {
    var xhi := x - x % WordBits;
    var xlo := x % WordBits;
    ghost var s := bm.mapArray[..];
    Aligned(x);
    if xhi < xa {
      NextAligned(xhi, xa);
      InvertWords(bm, y, xhi, xa);
      ghost var t := bm.mapArray[..];
      LowBits(bm, x, y, xlo);
      assert bm.mapArray[..] == Toggled(t, bm.dy, y, xhi, x);
      ToggledCancel(s, bm.dy, y, xhi, x, xa);
      assert Min(x, xa) == x && Max(x, xa) == xa;
    } else {
      InvertWords(bm, y, xa, xhi);
      ghost var t := bm.mapArray[..];
      LowBits(bm, x, y, xlo);
      assert bm.mapArray[..] == Toggled(t, bm.dy, y, xhi, x);
      ToggledMerge(s, bm.dy, y, xa, xhi, x);
      assert Min(x, xa) == xa && Max(x, xa) == x;
    }
  }

  /** The end of xor_to_ref: inverts the low xlo bits of the word holding x when there are any. */
  method LowBits(bm: PotraceBitmap, x: int, y: int, xlo: int)
    requires bm.Valid() && 0 <= y < bm.h && 0 <= x <= bm.w && xlo == x % WordBits
    modifies bm.mapArray
    ensures bm.mapArray[..] == Toggled(old(bm.mapArray[..]), bm.dy, y, x - x % WordBits, x)
  {
    if xlo != 0 {
      InvertLow(bm, x, y);
    } else {
      ToggledEmpty(bm.mapArray[..], bm.dy, y, x);
    }
  }

  /** xor_to_ref's loops: `*bm_index(bm, i, y) ^= BM_ALLBITS` for the word starts i from lo up to hi. */
  method InvertWords(bm: PotraceBitmap, y: int, lo: int, hi: int)
    requires bm.Valid() && 0 <= y < bm.h && 0 <= lo <= hi <= bm.w && lo % WordBits == 0 && hi % WordBits == 0
    modifies bm.mapArray
    ensures bm.mapArray[..] == Toggled(old(bm.mapArray[..]), bm.dy, y, lo, hi)
  {
    ghost var s := bm.mapArray[..];
    ToggledEmpty(s, bm.dy, y, lo);
    var i := lo;
    while i < hi
      invariant lo <= i <= hi && i % WordBits == 0
      invariant bm.mapArray[..] == Toggled(s, bm.dy, y, lo, i)
    {
      InvertWord(bm, y, lo, i, s);
      NextAligned(i, hi);
      i := i + WordBits;
    }
  }

  /** One pass of xor_to_ref's loops: `*bm_index(bm, i, y) ^= BM_ALLBITS`. */
  method InvertWord(bm: PotraceBitmap, y: int, lo: int, i: int, ghost s: seq<Word>)
    requires bm.Valid() && 0 <= y < bm.h && lo <= i && 0 <= i < bm.w && i % WordBits == 0
    requires |s| == bm.mapArray.Length && bm.mapArray[..] == Toggled(s, bm.dy, y, lo, i)
    modifies bm.mapArray
    ensures bm.mapArray[..] == Toggled(s, bm.dy, y, lo, i + WordBits)
  {
    BufferHoldsRows(bm);
    MulMono(y + 1, bm.h, bm.dy);
    var j := y * bm.dy + i / WordBits;
    ToggledWord(s, bm.dy, y, lo, i);
    ghost var before := bm.mapArray[..];
    var v := Xor(bm.mapArray[j], AllBits);
    bm.mapArray[j] := v;
    assert bm.mapArray[..] == before[j := v];
  }

  /** The last step of xor_to_ref: `*bm_index(bm, xhi, y) ^= BM_ALLBITS << (64 - xlo)`. */
  method InvertLow(bm: PotraceBitmap, x: int, y: int)
    requires bm.Valid() && 0 <= y < bm.h && 0 <= x <= bm.w && x % WordBits != 0
    modifies bm.mapArray
    ensures bm.mapArray[..] == Toggled(old(bm.mapArray[..]), bm.dy, y, x - x % WordBits, x)
  {
    BufferHoldsRows(bm);
    MulMono(y + 1, bm.h, bm.dy);
    var xhi := x - x % WordBits;
    var j := y * bm.dy + xhi / WordBits;
    assert xhi / WordBits == x / WordBits;
    AllBitsShifted(x % WordBits);
    ToggledLow(bm.mapArray[..], bm.dy, y, xhi, x);
    ghost var before := bm.mapArray[..];
    var v := Xor(bm.mapArray[j], ShiftLeft(AllBits, WordBits - x % WordBits));
    bm.mapArray[j] := v;
    assert bm.mapArray[..] == before[j := v];
  }

  /* ---------------------------------------------------------------------- */
  /* xor_path */

  /** One call of xor_to_ref: scanline y between column x and the reference column xa. */
  datatype Run = Run(y: int, x: int, xa: int)

  /** The pixels a run inverts. */
  predicate Covers(r: Run, px: int, py: int)
  {
    py == r.y && Min(r.x, r.xa) <= px < Max(r.x, r.xa)
  }

  /** A path lies within a w x h bitmap: its corners have 0 <= x <= w and 0 <= y <= h. */
  predicate InBitmap(pts: seq<Point>, w: int, h: int)
  {
    forall k :: 0 <= k < |pts| ==> 0 <= pts[k].x <= w && 0 <= pts[k].y <= h
  }

  /** `x & -64` for x >= 0: the start of the word holding column x. */
  function AlignDown(x: int): int
  {
    x - x % WordBits
  }

  /**
   * The runs of xor_path from point k on, with `y1` the y of the point
   * before: each point whose y differs from y1 starts a run in scanline
   * min(y, y1) from its x to the reference column xa.
   */
  function RunsFrom(pts: seq<Point>, xa: int, y1: int, k: nat): (r: seq<Run>)
    ensures forall i :: 0 <= i < |r| ==> r[i].xa == xa
    decreases |pts| - k
  {
    if k >= |pts| then []
    else if pts[k].y != y1 then [Run(Min(pts[k].y, y1), pts[k].x, xa)] + RunsFrom(pts, xa, pts[k].y, k + 1)
    else RunsFrom(pts, xa, y1, k + 1)
  }

  /**
   * The runs xor_path performs for a path: none for an empty path, else one
   * per vertical edge, starting from the closing edge that ends at point 0,
   * with the word start of point 0's column as reference.
   */
  function Runs(pts: seq<Point>): seq<Run>
  {
    if |pts| == 0 then [] else RunsFrom(pts, AlignDown(pts[0].x), pts[|pts| - 1].y, 0)
  }

  /** The buffer after performing the runs in order. */
  function Applied(s: seq<Word>, dy: int, runs: seq<Run>): (r: seq<Word>)
    ensures |r| == |s|
    decreases |runs|
  {
    if runs == [] then s
    else Applied(Toggled(s, dy, runs[0].y, Min(runs[0].x, runs[0].xa), Max(runs[0].x, runs[0].xa)), dy, runs[1..])
  }

  /** Whether an odd number of the runs cover pixel (px, py). */
  function Odd(runs: seq<Run>, px: int, py: int): bool
    decreases |runs|
  {
    if runs == [] then false else Covers(runs[0], px, py) != Odd(runs[1..], px, py)
  }

  /**
   * `xor_path(bm, p)`: inverts the pixels enclosed by the path, one run per
   * vertical edge. The path must lie within the bitmap.
   */
  method XorPath(bm: PotraceBitmap, pts: seq<Point>)
    requires bm.Valid() && InBitmap(pts, bm.w, bm.h)
    modifies bm.mapArray
    ensures bm.mapArray[..] == Applied(old(bm.mapArray[..]), bm.dy, Runs(pts))
  {
    if |pts| <= 0 {
      return;
    }
    var y1 := pts[|pts| - 1].y;
    var xa := AlignDown(pts[0].x);
    Aligned(pts[0].x);
    var k := 0;
    while k < |pts|
      invariant 0 <= k <= |pts| && 0 <= y1 <= bm.h
      invariant 0 <= xa <= bm.w && xa % WordBits == 0
      invariant Applied(bm.mapArray[..], bm.dy, RunsFrom(pts, xa, y1, k)) == Applied(old(bm.mapArray[..]), bm.dy, Runs(pts))
    {
      var x := pts[k].x;
      var y := pts[k].y;
      AppliedStep(bm.mapArray[..], bm.dy, pts, xa, y1, k);
      if y != y1 {
        XorToRef(bm, x, Min(y, y1), xa);
        y1 := y;
      }
      k := k + 1;
    }
  }

  /** Performing the runs from point k on: point k's run, if any, then the runs after it. */
  lemma AppliedStep(s: seq<Word>, dy: int, pts: seq<Point>, xa: int, y1: int, k: nat)
    requires k < |pts|
    ensures Applied(s, dy, RunsFrom(pts, xa, y1, k)) ==
      if pts[k].y != y1 then Applied(Toggled(s, dy, Min(pts[k].y, y1), Min(pts[k].x, xa), Max(pts[k].x, xa)), dy, RunsFrom(pts, xa, pts[k].y, k + 1))
      else Applied(s, dy, RunsFrom(pts, xa, y1, k + 1))
  {
    if pts[k].y != y1 {
      var r := Run(Min(pts[k].y, y1), pts[k].x, xa);
      assert ([r] + RunsFrom(pts, xa, pts[k].y, k + 1))[1..] == RunsFrom(pts, xa, pts[k].y, k + 1);
    }
  }

  /** Performing runs inverts exactly the pixels an odd number of them cover. */
  lemma {:induction false} AppliedPixel(s: seq<Word>, dy: int, runs: seq<Run>, px: int, py: int)
    requires Addressable(s, dy, px, py)
    ensures Addressable(Applied(s, dy, runs), dy, px, py)
    ensures PixelOf(Applied(s, dy, runs), dy, px, py) == (PixelOf(s, dy, px, py) != Odd(runs, px, py))
    decreases |runs|
  {
    if runs != [] {
      var r := runs[0];
      var t := Toggled(s, dy, r.y, Min(r.x, r.xa), Max(r.x, r.xa));
      ToggledPixel(s, dy, r.y, Min(r.x, r.xa), Max(r.x, r.xa), px, py);
      AppliedPixel(t, dy, runs[1..], px, py);
    }
  }

  /** A run can be moved to the end of a sequence of runs. */
  lemma {:induction false} AppliedToggled(s: seq<Word>, dy: int, runs: seq<Run>, y: int, lo: int, hi: int)
    ensures Applied(Toggled(s, dy, y, lo, hi), dy, runs) == Toggled(Applied(s, dy, runs), dy, y, lo, hi)
    decreases |runs|
  {
    if runs != [] {
      var r := runs[0];
      ToggledCommute(s, dy, y, lo, hi, r.y, Min(r.x, r.xa), Max(r.x, r.xa));
      AppliedToggled(Toggled(s, dy, r.y, Min(r.x, r.xa), Max(r.x, r.xa)), dy, runs[1..], y, lo, hi);
    }
  }

  /** Performing the same runs twice restores the buffer. */
  lemma {:induction false} AppliedTwice(s: seq<Word>, dy: int, runs: seq<Run>)
    ensures Applied(Applied(s, dy, runs), dy, runs) == s
    decreases |runs|
  {
    if runs != [] {
      var r := runs[0];
      var lo, hi := Min(r.x, r.xa), Max(r.x, r.xa);
      var t := Toggled(s, dy, r.y, lo, hi);
      AppliedToggled(Applied(t, dy, runs[1..]), dy, runs[1..], r.y, lo, hi);
      AppliedToggled(t, dy, runs[1..], r.y, lo, hi);
      ToggledTwice(s, dy, r.y, lo, hi);
      AppliedTwice(s, dy, runs[1..]);
      AppliedToggled(s, dy, runs[1..], r.y, lo, hi);
    }
  }

  /** xor_path applied twice with the same path restores the words of the bitmap. */
  lemma XorPathTwice(s: seq<Word>, dy: int, pts: seq<Point>)
    ensures Applied(Applied(s, dy, Runs(pts)), dy, Runs(pts)) == s
  {
    AppliedTwice(s, dy, Runs(pts));
  }

  /** The runs of a path within a w-pixel-wide bitmap stay left of column w. */
  lemma {:induction false} RunsFromWithin(pts: seq<Point>, xa: int, y1: int, k: nat, w: int, h: int)
    requires InBitmap(pts, w, h) && 0 <= xa <= w
    ensures forall i :: 0 <= i < |RunsFrom(pts, xa, y1, k)| ==> Max(RunsFrom(pts, xa, y1, k)[i].x, xa) <= w
    decreases |pts| - k
  {
    if k < |pts| {
      if pts[k].y != y1 {
        RunsFromWithin(pts, xa, pts[k].y, k + 1, w, h);
      } else {
        RunsFromWithin(pts, xa, y1, k + 1, w, h);
      }
    }
  }

  /** No run of a path within the bitmap covers a pixel right of the last column. */
  lemma {:induction false} OddWithin(runs: seq<Run>, w: int, px: int, py: int)
    requires forall i :: 0 <= i < |runs| ==> Max(runs[i].x, runs[i].xa) <= w
    requires px >= w
    ensures !Odd(runs, px, py)
    decreases |runs|
  {
    if runs != [] {
      OddWithin(runs[1..], w, px, py);
    }
  }

  /** xor_path on a path within the bitmap keeps the padding right of the last column white. */
  lemma XorPathKeepsExcess(s: seq<Word>, w: int, dy: int, h: int, pts: seq<Point>)
    requires ExcessClear(s, w, dy, h) && InBitmap(pts, w, h) && w >= 0
    ensures ExcessClear(Applied(s, dy, Runs(pts)), w, dy, h)
  {
    var runs := Runs(pts);
    if |pts| > 0 {
      assert 0 <= pts[0].x <= w;
      RunsFromWithin(pts, AlignDown(pts[0].x), pts[|pts| - 1].y, 0, w, h);
    }
    forall x, y | Addressable(Applied(s, dy, runs), dy, x, y) && y < h && x >= w
      ensures !PixelOf(Applied(s, dy, runs), dy, x, y)
    {
      assert Addressable(s, dy, x, y);
      AppliedPixel(s, dy, runs, x, y);
      OddWithin(runs, w, x, y);
    }
  }
}
