/*
 * Auxiliary bitmap manipulations of the decomposition (decompose.c.cs):
 * clearing the padding right of the last column (`bm_clearexcess`),
 * clearing the words of a bounding box (`clear_bm_with_bbox`), the bounding
 * box of a path (`setbbox_path`) and the majority vote around a corner
 * (`majority`).
 *
 * As in module Bitmap, each in-place operation is proved against a function
 * on the word sequence, and what that function does to the pixels is
 * stated separately.
 */
module BitmapOps {
  import opened Auxiliary
  import opened Words
  import opened Bitmap
  import opened Curve

  /** Word k of the buffer is word c of scanline y exactly when k == y*dy + c. */
  lemma WordOfRow(k: int, dy: int, y: int, c: int)
    requires dy > 0 && 0 <= c < dy
    ensures (k / dy == y && k % dy == c) <==> k == y * dy + c
  {
    if k == y * dy + c {
      DivUnique(k, dy, y, c);
    }
  }

  /** Pixel (x, y)'s word sits in scanline y at column x / 64. */
  lemma PixelWord(s: seq<Word>, dy: int, x: int, y: int)
    requires Addressable(s, dy, x, y)
    ensures 0 <= WordIndex(dy, x, y) < |s| && 0 <= x / WordBits < dy
    ensures WordIndex(dy, x, y) / dy == y && WordIndex(dy, x, y) % dy == x / WordBits
  {
    IndexInRange(s, dy, x, y);
    WordOfRow(WordIndex(dy, x, y), dy, y, x / WordBits);
  }

  /* ---------------------------------------------------------------------- */
  /* bm_clearexcess */

  /** The buffer with word `col` of each of the first `rows` scanlines ANDed with `mask`. */
  function MaskedColumn(s: seq<Word>, dy: int, col: int, mask: Word, rows: int): (r: seq<Word>)
    requires dy > 0
    ensures |r| == |s|
  {
    seq(|s|, k requires 0 <= k < |s| => if k / dy < rows && k % dy == col then And(s[k], mask) else s[k])
  }

  /** Masking the next scanline's word is one more row of MaskedColumn. */
  lemma MaskedColumnStep(s: seq<Word>, dy: int, col: int, mask: Word, y: int)
    requires dy > 0 && 0 <= col < dy && 0 <= y && 0 <= y * dy + col < |s|
    ensures MaskedColumn(s, dy, col, mask, y)[y * dy + col := And(s[y * dy + col], mask)] == MaskedColumn(s, dy, col, mask, y + 1)
  {
    var a := MaskedColumn(s, dy, col, mask, y)[y * dy + col := And(s[y * dy + col], mask)];
    var b := MaskedColumn(s, dy, col, mask, y + 1);
    forall k | 0 <= k < |s|
      ensures a[k] == b[k]
    {
      WordOfRow(k, dy, y, col);
    }
  }

  /** Masking no scanline changes nothing. */
  lemma MaskedColumnNone(s: seq<Word>, dy: int, col: int, mask: Word)
    requires dy > 0
    ensures MaskedColumn(s, dy, col, mask, 0) == s
  {
    var r := MaskedColumn(s, dy, col, mask, 0);
    forall k | 0 <= k < |s|
      ensures r[k] == s[k]
    {
      assert k / dy >= 0;
    }
  }

  /**
   * The words of a w-pixel-wide bitmap of h scanlines after bm_clearexcess:
   * when w is not a multiple of 64, the last word of every scanline keeps
   * only its first w % 64 bits.
   */
  function ExcessCleared(s: seq<Word>, w: int, dy: int, h: int): (r: seq<Word>)
    requires w >= 0 && dy == DyFor(w)
    ensures |r| == |s|
  {
    if w % WordBits == 0 then s else MaskedColumn(s, dy, w / WordBits, Ones(0, w % WordBits), h)
  }

  /** After bm_clearexcess the pixels of columns w and beyond read white and every other pixel is unchanged. */
  lemma ExcessClearedPixel(s: seq<Word>, w: int, dy: int, h: int, x: int, y: int)
    requires w >= 0 && dy == DyFor(w) && Addressable(s, dy, x, y) && y < h
    ensures Addressable(ExcessCleared(s, w, dy, h), dy, x, y)
    ensures PixelOf(ExcessCleared(s, w, dy, h), dy, x, y) == (x < w && PixelOf(s, dy, x, y))
  {
    PixelWord(s, dy, x, y);
    assert x == WordBits * (x / WordBits) + x % WordBits;
    assert w == WordBits * (w / WordBits) + w % WordBits;
  }

  /** The padding right of column w is white: bm_clearexcess has been applied, or the bits were never set. */
  ghost predicate ExcessClear(s: seq<Word>, w: int, dy: int, h: int)
  {
    forall x, y :: Addressable(s, dy, x, y) && y < h && x >= w ==> !PixelOf(s, dy, x, y)
  }

  /** bm_clearexcess establishes ExcessClear. */
  lemma ExcessClearedIsClear(s: seq<Word>, w: int, dy: int, h: int)
    requires w >= 0 && dy == DyFor(w)
    ensures ExcessClear(ExcessCleared(s, w, dy, h), w, dy, h)
  {
    forall x, y | Addressable(ExcessCleared(s, w, dy, h), dy, x, y) && y < h && x >= w
      ensures !PixelOf(ExcessCleared(s, w, dy, h), dy, x, y)
    {
      ExcessClearedPixel(s, w, dy, h, x, y);
    }
  }

  /** `bm_clearexcess(bm)`: clears the bits right of column w in the last word of every scanline. */
  method BmClearExcess(bm: PotraceBitmap)
    requires bm.Valid()
    modifies bm.mapArray
    ensures bm.mapArray[..] == ExcessCleared(old(bm.mapArray[..]), bm.w, bm.dy, bm.h)
  {
    if bm.w % WordBits != 0 {
      AllBitsShifted(bm.w % WordBits);
      var mask := ShiftLeft(AllBits, WordBits - bm.w % WordBits);
      ghost var s := bm.mapArray[..];
      MaskedColumnNone(s, bm.dy, bm.w / WordBits, mask);
      var y := 0;
      while y < bm.h
        invariant 0 <= y <= bm.h
        invariant bm.mapArray[..] == MaskedColumn(s, bm.dy, bm.w / WordBits, mask, y)
      {
        MaskLastWord(bm, y, mask, s);
        y := y + 1;
      }
    }
  }

  /** One iteration of bm_clearexcess: `*bm_index(bm, bm.W, y) &= mask`. */
  method MaskLastWord(bm: PotraceBitmap, y: int, mask: Word, ghost s: seq<Word>)
    requires bm.Valid() && 0 <= y < bm.h && bm.w % WordBits != 0 && |s| == bm.mapArray.Length
    requires bm.mapArray[..] == MaskedColumn(s, bm.dy, bm.w / WordBits, mask, y)
    modifies bm.mapArray
    ensures bm.mapArray[..] == MaskedColumn(s, bm.dy, bm.w / WordBits, mask, y + 1)
  {
    LastWordInBuffer(bm, y);
    var j := y * bm.dy + bm.w / WordBits;
    WordOfRow(j, bm.dy, y, bm.w / WordBits);
    MaskedColumnStep(s, bm.dy, bm.w / WordBits, mask, y);
    ghost var before := bm.mapArray[..];
    var v := And(bm.mapArray[j], mask);
    bm.mapArray[j] := v;
    assert bm.mapArray[..] == before[j := v];
  }

  /** When w is not a multiple of 64, the word holding column w is the last word of each scanline. */
  lemma LastWordInBuffer(bm: PotraceBitmap, y: int)
    requires bm.Valid() && 0 <= y < bm.h && bm.w % WordBits != 0
    ensures 0 <= bm.w / WordBits < bm.dy
    ensures 0 <= y * bm.dy + bm.w / WordBits < bm.mapArray.Length
  {
    assert bm.w == WordBits * (bm.w / WordBits) + bm.w % WordBits;
    BufferHoldsRows(bm);
    MulMono(y + 1, bm.h, bm.dy);
  }

  /* ---------------------------------------------------------------------- */
  /* clear_bm_with_bbox */

  /**
   * The buffer with words imin..imax-1 of scanlines y0..y-1 zeroed, and in
   * scanline y the words imin..i-1: the state of clear_bm_with_bbox's loops
   * at (y, i).
   */
  function BoxZeroed(s: seq<Word>, dy: int, y0: int, y: int, imin: int, imax: int, i: int): (r: seq<Word>)
    ensures |r| == |s|
  {
    if dy <= 0 then s
    else
      seq(|s|, k requires 0 <= k < |s| =>
        if (y0 <= k / dy < y && imin <= k % dy < imax) || (k / dy == y && imin <= k % dy < i) then Zero else s[k])
  }

  /** Zeroing word i of scanline y extends the partial row by one word. */
  lemma BoxZeroedStep(s: seq<Word>, dy: int, y0: int, y: int, imin: int, imax: int, i: int)
    requires dy > 0 && 0 <= i < dy && y0 <= y && 0 <= y * dy + i < |s| && imin <= i
    ensures BoxZeroed(s, dy, y0, y, imin, imax, i)[y * dy + i := Zero] == BoxZeroed(s, dy, y0, y, imin, imax, i + 1)
  {
    var a := BoxZeroed(s, dy, y0, y, imin, imax, i)[y * dy + i := Zero];
    var b := BoxZeroed(s, dy, y0, y, imin, imax, i + 1);
    forall k | 0 <= k < |s|
      ensures a[k] == b[k]
    {
      WordOfRow(k, dy, y, i);
    }
  }

  /** A finished row is one more full row. */
  lemma BoxZeroedRow(s: seq<Word>, dy: int, y0: int, y: int, imin: int, imax: int)
    requires y0 <= y
    ensures BoxZeroed(s, dy, y0, y, imin, imax, Max(imin, imax)) == BoxZeroed(s, dy, y0, y + 1, imin, imax, imin)
  {
  }

  /** Before the loops nothing is zeroed. */
  lemma BoxZeroedNone(s: seq<Word>, dy: int, y0: int, imin: int, imax: int)
    ensures BoxZeroed(s, dy, y0, y0, imin, imax, imin) == s
  {
  }

  /** The words of the box [imin, imax) x [y0, y1) of a buffer with dy words per scanline, zeroed. */
  function BoxCleared(s: seq<Word>, dy: int, y0: int, y1: int, imin: int, imax: int): (r: seq<Word>)
    ensures |r| == |s|
  {
    if y0 >= y1 then s else BoxZeroed(s, dy, y0, y1, imin, imax, imin)
  }

  /** After clearing the box, its pixels (columns 64*imin to 64*imax) read white and all others are unchanged. */
  lemma BoxClearedPixel(s: seq<Word>, dy: int, y0: int, y1: int, imin: int, imax: int, x: int, y: int)
    requires Addressable(s, dy, x, y)
    ensures Addressable(BoxCleared(s, dy, y0, y1, imin, imax), dy, x, y)
    ensures PixelOf(BoxCleared(s, dy, y0, y1, imin, imax), dy, x, y) ==
      (PixelOf(s, dy, x, y) && !(y0 <= y < y1 && WordBits * imin <= x < WordBits * imax))
  {
    PixelWord(s, dy, x, y);
    assert x == WordBits * (x / WordBits) + x % WordBits;
    if y0 <= y < y1 && WordBits * imin <= x < WordBits * imax {
      assert imin <= x / WordBits < imax;
    }
  }

  /** An axis-aligned box (`bbox_t`): x0 <= x < x1 by y0 <= y < y1 when tight. */
  class Bbox {
    var x0: int
    var x1: int
    var y0: int
    var y1: int

    constructor ()
      ensures x0 == 0 && x1 == 0 && y0 == 0 && y1 == 0
    {
      x0, x1, y0, y1 := 0, 0, 0, 0;
    }
  }

  /** The first word column clear_bm_with_bbox clears: `bbox.x0 / 64`, truncating. */
  function FirstColumn(x0: int): int
  {
    CsDiv(x0, WordBits)
  }

  /** The column after the last one: `(bbox.x1 + 63) / 64` in 32-bit arithmetic. */
  function EndColumn(x1: int): int
  {
    CsDiv(Wrap32(x1 + WordBits - 1), WordBits)
  }

  /** The words clear_bm_with_bbox writes lie within the scanlines and rows of the bitmap. */
  predicate BoxWithin(bm: PotraceBitmap, y0: int, y1: int, imin: int, imax: int)
    reads bm
  {
    y0 >= y1 || imin >= imax || (0 <= y0 && y1 <= bm.h && 0 <= imin && imax <= bm.dy)
  }

  /**
   * `clear_bm_with_bbox(bm, bbox)`: zeroes the words that hold the box's
   * columns in each of its scanlines. The source writes through a pointer
   * without checks; the box must lie within the bitmap.
   */
  method ClearBmWithBbox(bm: PotraceBitmap, bbox: Bbox)
    requires bm.Valid() && BoxWithin(bm, bbox.y0, bbox.y1, FirstColumn(bbox.x0), EndColumn(bbox.x1))
    modifies bm.mapArray
    ensures bm.mapArray[..] == BoxCleared(old(bm.mapArray[..]), bm.dy, bbox.y0, bbox.y1, FirstColumn(bbox.x0), EndColumn(bbox.x1))
  {
    var imin := FirstColumn(bbox.x0);
    var imax := EndColumn(bbox.x1);
    ghost var s := bm.mapArray[..];
    BoxZeroedNone(s, bm.dy, bbox.y0, imin, imax);
    var y := bbox.y0;
    while y < bbox.y1
      invariant bbox.y0 <= y && (y <= bbox.y1 || y == bbox.y0)
      invariant bm.mapArray[..] == BoxZeroed(s, bm.dy, bbox.y0, y, imin, imax, imin)
    {
      var i := imin;
      while i < imax
        invariant imin <= i && (i <= imax || i == imin)
        invariant bm.mapArray[..] == BoxZeroed(s, bm.dy, bbox.y0, y, imin, imax, i)
      {
        ZeroWord(bm, bbox.y0, y, imin, imax, i, s);
        i := i + 1;
      }
      BoxZeroedRow(s, bm.dy, bbox.y0, y, imin, imax);
      y := y + 1;
    }
  }

  /** One iteration of clear_bm_with_bbox: `bm_scanline(bm, y)[i] = 0`. */
  method ZeroWord(bm: PotraceBitmap, y0: int, y: int, imin: int, imax: int, i: int, ghost s: seq<Word>)
    requires bm.Valid() && 0 <= y0 <= y < bm.h && 0 <= imin <= i < imax <= bm.dy && |s| == bm.mapArray.Length
    requires bm.mapArray[..] == BoxZeroed(s, bm.dy, y0, y, imin, imax, i)
    modifies bm.mapArray
    ensures bm.mapArray[..] == BoxZeroed(s, bm.dy, y0, y, imin, imax, i + 1)
  {
    BufferHoldsRows(bm);
    MulMono(y + 1, bm.h, bm.dy);
    var j := y * bm.dy + i;
    BoxZeroedStep(s, bm.dy, y0, y, imin, imax, i);
    ghost var before := bm.mapArray[..];
    bm.mapArray[j] := Zero;
    assert bm.mapArray[..] == before[j := Zero];
  }

  /* ---------------------------------------------------------------------- */
  /* majority */

  /** A pixel's vote in a ring count: +1 for black, -1 for white. */
  function Vote(b: bool): int
  {
    if b then 1 else -1
  }

  /**
   * The four pixels majority reads at offset a of the ring of radius i
   * around the corner (x, y) of the picture: one on each side of the
   * 2i-by-2i square of pixels centred on the corner. The sums are 32-bit.
   */
  function RingTerm(pic: Picture, x: int, y: int, i: int, a: int): int
  {
    Vote(pic(Add32(x, a), Add32(y, i - 1))) + Vote(pic(Add32(x, i - 1), Add32(y, a - 1)))
    + Vote(pic(Add32(x, a - 1), Add32(y, -i))) + Vote(pic(Add32(x, -i), Add32(y, a)))
  }

  /** The votes of ring i still to be read from offset a on: offsets a .. i-1. */
  function RingSum(pic: Picture, x: int, y: int, i: int, a: int): int
    decreases i - a
  {
    if a >= i then 0 else RingTerm(pic, x, y, i, a) + RingSum(pic, x, y, i, a + 1)
  }

  /** Black minus white over the ring of radius i: offsets -i+1 .. i-1. */
  function RingCount(pic: Picture, x: int, y: int, i: int): int
  {
    RingSum(pic, x, y, i, -i + 1)
  }

  /** The verdict of the rings of radius i .. 4: the first one that does not tie decides, and a full tie is white. */
  function MajorityFrom(pic: Picture, x: int, y: int, i: int): bool
    requires 2 <= i <= 5
    decreases 5 - i
  {
    if i == 5 then false
    else if RingCount(pic, x, y, i) > 0 then true
    else if RingCount(pic, x, y, i) < 0 then false
    else MajorityFrom(pic, x, y, i + 1)
  }

  /** `majority(bm, x, y)`: the majority colour around the corner (x, y), looking at rings of radius 2, 3 and 4. */
  method Majority(bm: PotraceBitmap, x: int, y: int, ghost pic: Picture) returns (r: bool)
    requires bm.Valid() && Shows(bm, pic)
    ensures r == MajorityFrom(pic, x, y, 2)
  {
    var i := 2;
    while i < 5
      invariant 2 <= i <= 5
      invariant MajorityFrom(pic, x, y, i) == MajorityFrom(pic, x, y, 2)
    {
      var ct := CountRing(bm, x, y, i, pic);
      if ct > 0 {
        return true;
      } else if ct < 0 {
        return false;
      }
      i := i + 1;
    }
    return false;
  }

  /** majority's inner loop: black minus white over the ring of radius i. */
  method CountRing(bm: PotraceBitmap, x: int, y: int, i: int, ghost pic: Picture) returns (ct: int)
    requires bm.Valid() && Shows(bm, pic) && i >= 1
    ensures ct == RingCount(pic, x, y, i)
  {
    ct := 0;
    var a := -i + 1;
    while a <= i - 1
      invariant -i + 1 <= a <= i
      invariant ct + RingSum(pic, x, y, i, a) == RingCount(pic, x, y, i)
    {
      ct := CountOffset(bm, x, y, i, a, ct, pic);
      a := a + 1;
    }
  }

  /** The body of majority's inner loop: the four votes at offset a added to ct. */
  method CountOffset(bm: PotraceBitmap, x: int, y: int, i: int, a: int, ct: int, ghost pic: Picture) returns (ct': int)
    requires bm.Valid() && Shows(bm, pic)
    ensures ct' == ct + RingTerm(pic, x, y, i, a)
  {
    ct' := ct + Vote(BmGet(bm, Add32(x, a), Add32(y, i - 1)));
    ct' := ct' + Vote(BmGet(bm, Add32(x, i - 1), Add32(y, a - 1)));
    ct' := ct' + Vote(BmGet(bm, Add32(x, a - 1), Add32(y, -i)));
    ct' := ct' + Vote(BmGet(bm, Add32(x, -i), Add32(y, a)));
  }

  /**
   * majority is black exactly when some ring of radius j in 2..4 has more
   * black than white pixels and every smaller ring ties; when all three tie
   * it is white.
   */
  lemma {:induction false} MajorityFirstRing(pic: Picture, x: int, y: int, i: int)
    requires 2 <= i <= 5
    ensures MajorityFrom(pic, x, y, i) <==>
      exists j :: i <= j < 5 && RingCount(pic, x, y, j) > 0 && forall l :: i <= l < j ==> RingCount(pic, x, y, l) == 0
    decreases 5 - i
  {
    if i < 5 {
      MajorityFirstRing(pic, x, y, i + 1);
      if RingCount(pic, x, y, i) == 0 && MajorityFrom(pic, x, y, i + 1) {
        var j :| i + 1 <= j < 5 && RingCount(pic, x, y, j) > 0 && forall l :: i + 1 <= l < j ==> RingCount(pic, x, y, l) == 0;
        assert forall l :: i <= l < j ==> RingCount(pic, x, y, l) == 0;
      }
      if RingCount(pic, x, y, i) == 0 && !MajorityFrom(pic, x, y, i + 1) {
        forall j | i <= j < 5 && RingCount(pic, x, y, j) > 0
          ensures exists l :: i <= l < j && RingCount(pic, x, y, l) != 0
        {
          assert j != i;
        }
      }
    }
  }

  /** Every pixel that is black in pic is black in pic' as well. */
  ghost predicate Darker(pic: Picture, pic': Picture)
  {
    forall x, y :: pic(x, y) ==> pic'(x, y)
  }

  /** Blackening pixels never lowers a ring count. */
  lemma {:induction false} RingSumMonotone(pic: Picture, pic': Picture, x: int, y: int, i: int, a: int)
    requires Darker(pic, pic')
    ensures RingSum(pic, x, y, i, a) <= RingSum(pic', x, y, i, a)
    decreases i - a
  {
    if a < i {
      RingSumMonotone(pic, pic', x, y, i, a + 1);
    }
  }

  /** majority is monotone in the image: blackening pixels never turns a black verdict white. */
  lemma {:induction false} MajorityMonotone(pic: Picture, pic': Picture, x: int, y: int, i: int)
    requires Darker(pic, pic') && 2 <= i <= 5
    ensures MajorityFrom(pic, x, y, i) ==> MajorityFrom(pic', x, y, i)
    decreases 5 - i
  {
    if i < 5 {
      RingSumMonotone(pic, pic', x, y, i, -i + 1);
      MajorityMonotone(pic, pic', x, y, i + 1);
    }
  }

  /* ---------------------------------------------------------------------- */
  /* setbbox_path */

  /** The smallest of `init` and the entries of xs, taking a later entry only when it is strictly smaller. */
  function Lowest(xs: seq<int>, init: int): (r: int)
    ensures r <= init && forall k :: 0 <= k < |xs| ==> r <= xs[k]
    ensures r == init || exists k :: 0 <= k < |xs| && r == xs[k]
    decreases |xs|
  {
    if xs == [] then init
    else
      var last := xs[|xs| - 1];
      var low := Lowest(xs[..|xs| - 1], init);
      assert forall k :: 0 <= k < |xs| - 1 ==> xs[..|xs| - 1][k] == xs[k];
      if last < low then last else low
  }

  /** The largest of `init` and the entries of xs, taking a later entry only when it is strictly larger. */
  function Highest(xs: seq<int>, init: int): (r: int)
    ensures r >= init && forall k :: 0 <= k < |xs| ==> r >= xs[k]
    ensures r == init || exists k :: 0 <= k < |xs| && r == xs[k]
    decreases |xs|
  {
    if xs == [] then init
    else
      var last := xs[|xs| - 1];
      var high := Highest(xs[..|xs| - 1], init);
      assert forall k :: 0 <= k < |xs| - 1 ==> xs[..|xs| - 1][k] == xs[k];
      if last > high then last else high
  }

  /** One more entry of the folds. */
  lemma FoldStep(xs: seq<int>, k: int, lo: int, hi: int)
    requires 0 <= k < |xs|
    ensures Lowest(xs[..k + 1], lo) == if xs[k] < Lowest(xs[..k], lo) then xs[k] else Lowest(xs[..k], lo)
    ensures Highest(xs[..k + 1], hi) == if xs[k] > Highest(xs[..k], hi) then xs[k] else Highest(xs[..k], hi)
  {
    assert xs[..k + 1][..k] == xs[..k];
  }

  /** The x coordinates of a path's points, cast to `int`. */
  function Xs(pts: seq<Point>): (r: seq<int>)
    ensures |r| == |pts| && forall k :: 0 <= k < |pts| ==> r[k] == Wrap32(pts[k].x)
  {
    seq(|pts|, k requires 0 <= k < |pts| => Wrap32(pts[k].x))
  }

  /** The y coordinates of a path's points, cast to `int`. */
  function Ys(pts: seq<Point>): (r: seq<int>)
    ensures |r| == |pts| && forall k :: 0 <= k < |pts| ==> r[k] == Wrap32(pts[k].y)
  {
    seq(|pts|, k requires 0 <= k < |pts| => Wrap32(pts[k].y))
  }

  /**
   * `setbbox_path(bbox, p)`: x0 and y0 start at int.MaxValue, x1 and y1 at 0,
   * and each point of the path lowers or raises them. For a path of int
   * coordinates, x0 and y0 are the smallest coordinates and x1 and y1 the
   * largest, except that x1 and y1 never drop below 0.
   */
  method SetbboxPath(bbox: Bbox, pts: seq<Point>)
    modifies bbox
    ensures bbox.x0 == Lowest(Xs(pts), MaxInt32) && bbox.x1 == Highest(Xs(pts), 0)
    ensures bbox.y0 == Lowest(Ys(pts), MaxInt32) && bbox.y1 == Highest(Ys(pts), 0)
  {
    bbox.y0 := MaxInt32;
    bbox.y1 := 0;
    bbox.x0 := MaxInt32;
    bbox.x1 := 0;
    var k := 0;
    while k < |pts|
      invariant 0 <= k <= |pts|
      invariant bbox.x0 == Lowest(Xs(pts)[..k], MaxInt32) && bbox.x1 == Highest(Xs(pts)[..k], 0)
      invariant bbox.y0 == Lowest(Ys(pts)[..k], MaxInt32) && bbox.y1 == Highest(Ys(pts)[..k], 0)
    {
      var x := Wrap32(pts[k].x);
      var y := Wrap32(pts[k].y);
      FoldStep(Xs(pts), k, MaxInt32, 0);
      FoldStep(Ys(pts), k, MaxInt32, 0);
      if x < bbox.x0 {
        bbox.x0 := x;
      }
      if x > bbox.x1 {
        bbox.x1 := x;
      }
      if y < bbox.y0 {
        bbox.y0 := y;
      }
      if y > bbox.y1 {
        bbox.y1 := y;
      }
      k := k + 1;
    }
    assert Xs(pts)[..k] == Xs(pts) && Ys(pts)[..k] == Ys(pts);
  }
}
