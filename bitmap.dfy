/*
 * The packed bitmap (bitmap.h.cs, the PotraceBitmap class of potracelib.h.cs).
 *
 * A bitmap of w x h pixels is a row-major buffer of 64-bit words; every
 * scanline takes `dy` words. Pixel (x, y) lives in word `y*dy + x/64`, at
 * the bit `HIBIT >> (x mod 64)`, so the leftmost pixel of a word is its most
 * significant bit (bit x mod 64 of a `Word`). The source reaches the words
 * through a pinned `ulong*`; here the buffer is an `array<Word>` and the
 * pointer arithmetic is index arithmetic. The meaning of a buffer is given
 * once, on values (`PixelOf`, `WithPixel`, `Flipped` over `seq<Word>`), and
 * the methods that update the array in place are proved against it.
 */
module Bitmap {
  import opened Auxiliary
  import opened Util
  import opened Words

  const WordSize: int := 8

  /** `bm_mask(x)`: HIBIT >> (x & 63), where `x & 63` is the Euclidean x % 64. */
  function BmMask(x: int): (m: Word)
    ensures m == Ones(x % WordBits, x % WordBits + 1)
  {
    HiBitShifted(x % WordBits);
    ShiftRight(HiBit, x % WordBits)
  }

  /* ---------------------------------------------------------------------- */
  /* addressing */

  /** `bm_range(x, a)`. */
  predicate BmRange(x: int, a: int)
  {
    0 <= x < a
  }

  /** `bm_index` as a word offset: scanline y starts at word y*dy. */
  function WordIndex(dy: int, x: int, y: int): int
  {
    y * dy + x / WordBits
  }

  /** Pixel (x, y) has a word in `s` when x lies within the dy words of a scanline that `s` holds. */
  predicate Addressable(s: seq<Word>, dy: int, x: int, y: int)
  {
    0 <= x < WordBits * dy && 0 <= y && (y + 1) * dy <= |s|
  }

  lemma IndexInRange(s: seq<Word>, dy: int, x: int, y: int)
    requires Addressable(s, dy, x, y)
    ensures 0 <= x / WordBits < dy
    ensures 0 <= WordIndex(dy, x, y) < |s|
  {
    assert (y + 1) * dy == y * dy + dy;
  }

  /** Two different addressable pixels sit in different words or in different bits of one word. */
  lemma IndexDistinct(dy: int, x: int, y: int, x2: int, y2: int)
    requires 0 <= x < WordBits * dy && 0 <= x2 < WordBits * dy && 0 <= y && 0 <= y2
    requires x != x2 || y != y2
    ensures WordIndex(dy, x, y) != WordIndex(dy, x2, y2) || x % WordBits != x2 % WordBits
  {
    if WordIndex(dy, x, y) == WordIndex(dy, x2, y2) {
      var i := WordIndex(dy, x, y);
      DivUnique(i, dy, y, x / WordBits);
      DivUnique(i, dy, y2, x2 / WordBits);
      DivUnique(x, WordBits, x / WordBits, x % WordBits);
      DivUnique(x2, WordBits, x2 / WordBits, x2 % WordBits);
    }
  }

  /* ---------------------------------------------------------------------- */
  /* the meaning of a buffer */

  /** Whether pixel (x, y) is black in the words `s` with `dy` words per scanline. */
  predicate PixelOf(s: seq<Word>, dy: int, x: int, y: int)
    requires Addressable(s, dy, x, y)
  {
    IndexInRange(s, dy, x, y);
    s[WordIndex(dy, x, y)][x % WordBits]
  }

  /** The words `s` with pixel (x, y) set (b) or cleared (not b), as BM_USET and BM_UCLR write them. */
  function WithPixel(s: seq<Word>, dy: int, x: int, y: int, b: bool): (r: seq<Word>)
    requires Addressable(s, dy, x, y)
    ensures |r| == |s|
  {
    IndexInRange(s, dy, x, y);
    var i := WordIndex(dy, x, y);
    s[i := if b then Or(s[i], BmMask(x)) else And(s[i], Not(BmMask(x)))]
  }

  /** The words `s` with pixel (x, y) inverted, as BM_UINV writes them. */
  function Flipped(s: seq<Word>, dy: int, x: int, y: int): (r: seq<Word>)
    requires Addressable(s, dy, x, y)
    ensures |r| == |s|
  {
    IndexInRange(s, dy, x, y);
    var i := WordIndex(dy, x, y);
    s[i := Xor(s[i], BmMask(x))]
  }

  /** After WithPixel the pixel reads `b` and every other pixel reads as before. */
  lemma WithPixelReads(s: seq<Word>, dy: int, x: int, y: int, b: bool)
    requires Addressable(s, dy, x, y)
    ensures PixelOf(WithPixel(s, dy, x, y, b), dy, x, y) == b
    ensures forall x2, y2 :: Addressable(s, dy, x2, y2) && (x2 != x || y2 != y) ==>
      PixelOf(WithPixel(s, dy, x, y, b), dy, x2, y2) == PixelOf(s, dy, x2, y2)
  {
    IndexInRange(s, dy, x, y);
    forall x2, y2 | Addressable(s, dy, x2, y2) && (x2 != x || y2 != y)
      ensures PixelOf(WithPixel(s, dy, x, y, b), dy, x2, y2) == PixelOf(s, dy, x2, y2)
    {
      IndexInRange(s, dy, x2, y2);
      IndexDistinct(dy, x, y, x2, y2);
    }
  }

  /** Flipped inverts exactly pixel (x, y). */
  lemma FlippedReads(s: seq<Word>, dy: int, x: int, y: int)
    requires Addressable(s, dy, x, y)
    ensures PixelOf(Flipped(s, dy, x, y), dy, x, y) == !PixelOf(s, dy, x, y)
    ensures forall x2, y2 :: Addressable(s, dy, x2, y2) && (x2 != x || y2 != y) ==>
      PixelOf(Flipped(s, dy, x, y), dy, x2, y2) == PixelOf(s, dy, x2, y2)
  {
    IndexInRange(s, dy, x, y);
    forall x2, y2 | Addressable(s, dy, x2, y2) && (x2 != x || y2 != y)
      ensures PixelOf(Flipped(s, dy, x, y), dy, x2, y2) == PixelOf(s, dy, x2, y2)
    {
      IndexInRange(s, dy, x2, y2);
      IndexDistinct(dy, x, y, x2, y2);
    }
  }

  /** Inverting the same pixel twice restores the words. */
  lemma FlippedTwice(s: seq<Word>, dy: int, x: int, y: int)
    requires Addressable(s, dy, x, y)
    ensures Flipped(Flipped(s, dy, x, y), dy, x, y) == s
  {
    IndexInRange(s, dy, x, y);
    var i := WordIndex(dy, x, y);
    XorTwice(s[i], BmMask(x));
  }

  /* ---------------------------------------------------------------------- */
  /* sizes */

  datatype SizeResult = Bytes(n: int) | OutOfBounds

  lemma MulMono(a: int, b: int, c: int)
    requires a <= b && 0 <= c
    ensures a * c <= b * c
  {
  }

  lemma QuotientBelow(s: int, h: int, k: int)
    requires 0 <= s && 0 < h && s < k * h
    ensures s / h < k
  {
    var q := s / h;
    assert q * h <= s;
    if q >= k {
      MulMono(k, q, h);
    }
  }

  lemma ProductFitsLong(d: int, h: int)
    requires IsInt32(d) && 0 <= h <= MaxInt32
    ensures IsInt64(d * h)
  {
    MulMono(d, MaxInt32, h);
    MulMono(MinInt32, d, h);
    MulMono(h, MaxInt32, MaxInt32);
    MulMono(h, MaxInt32, -MinInt32);
  }

  /** The overflow test of getsize on the wrapped `long` product. */
  predicate SizeRejected(size: int, d: int, h: int)
  {
    size < 0 || (h != 0 && d != 0 && CsDiv(CsDiv(size, h), d) != WordSize)
  }

  lemma AcceptedWhenFits(d: int, h: int)
    requires IsInt32(d) && 0 <= h <= MaxInt32 && 0 <= d * h * 8 <= MaxInt64
    ensures !SizeRejected(d * h * 8, d, h)
  {
    if h != 0 && d != 0 {
      var p := d * h * 8;
      assert d > 0;
      assert p == (8 * d) * h;
      DivUnique(p, h, 8 * d, 0);
      CsDivNonNeg(p, h);
      DivUnique(8 * d, d, 8, 0);
      CsDivNonNeg(8 * d, d);
    }
  }

  lemma RejectedWhenNegative(size: int, d: int, h: int)
    requires d < 0 && h > 0
    ensures SizeRejected(size, d, h)
  {
    if size >= 0 {
      CsDivNonNeg(size, h);
    }
  }

  lemma Regroup(a: int, b: int, c: int)
    ensures a * b * c == (c * a) * b
  {
  }

  lemma RejectedWhenWrapped(size: int, d: int, h: int)
    requires d > 0 && h > 0 && size < d * h * 8
    ensures SizeRejected(size, d, h)
  {
    if size >= 0 {
      Regroup(d, h, 8);
      CsDivNonNeg(size, h);
      QuotientBelow(size, h, 8 * d);
      var q := size / h;
      CsDivNonNeg(q, d);
      QuotientBelow(q, d, 8);
    }
  }

  /** The division test rejects the wrapped product exactly when the true product does not fit a `long`. */
  lemma SizeCheck(d: int, h: int)
    requires IsInt32(d) && 0 <= h <= MaxInt32
    ensures SizeRejected(Wrap64(Wrap64(d * h) * 8), d, h) <==> !(0 <= d * h * 8 <= MaxInt64)
    ensures 0 <= d * h * 8 <= MaxInt64 ==> Wrap64(Wrap64(d * h) * 8) == d * h * 8
  {
    ProductFitsLong(d, h);
    var p := d * h * 8;
    if 0 <= p <= MaxInt64 {
      AcceptedWhenFits(d, h);
    } else if p < 0 {
      assert d < 0 && h > 0;
      RejectedWhenNegative(Wrap64(p), d, h);
    } else {
      assert d > 0 && h > 0;
      RejectedWhenWrapped(Wrap64(p), d, h);
    }
  }

  /**
   * `getsize(dy, h)`: the byte size |dy| * h * 8 of a data area, or the
   * "Bitmap size out of bounds" exception (OutOfBounds) exactly when that
   * product does not fit a `long`. |dy| is taken with 32-bit negation, so
   * dy = int.MinValue stays negative and is rejected for every h > 0.
   */
  function GetSize(dy: int, h: int): (r: SizeResult)
    requires IsInt32(dy) && 0 <= h <= MaxInt32
    ensures r == if 0 <= Abs(dy) * h * 8 <= MaxInt64 then Bytes(Abs(dy) * h * 8) else OutOfBounds
  {
    var d := if dy < 0 then Wrap32(-dy) else dy;
    var size := Wrap64(Wrap64(d * h) * WordSize);
    SizeCheck(d, h);
    if SizeRejected(size, d, h) then OutOfBounds else Bytes(size)
  }

  /** Words per scanline chosen by bm_new: 0 for an empty width, ceil(w/64) otherwise. */
  function DyFor(w: int): (dy: int)
    requires w >= 0
    ensures 0 <= dy <= w
    ensures WordBits * dy >= w
    ensures dy > 0 ==> WordBits * (dy - 1) < w
  {
    if w == 0 then 0 else (w - 1) / WordBits + 1
  }

  /**
   * The length bm_new gives the buffer for a byte count `size`: the byte
   * count itself is used as the number of words, and 0 becomes 8.
   */
  function Allocated(size: int): int
  {
    if size == 0 then WordSize else size
  }

  /* ---------------------------------------------------------------------- */
  /* the bitmap object */

  class PotraceBitmap {
    var w: int
    var h: int
    var dy: int
    var mapArray: array<Word>

    /** A bitmap as bm_new builds it. */
    ghost predicate Valid()
      reads this
    {
      && 0 <= w <= MaxInt32 && 0 <= h <= MaxInt32
      && dy == DyFor(w)
      && dy * h * WordSize <= MaxInt64
      && mapArray.Length == Allocated(dy * h * WordSize)
    }

    /** Pixel (x, y) has a word: x within the scanline's words, y a scanline. */
    predicate InWords(x: int, y: int)
      reads this
    {
      0 <= x < WordBits * dy && 0 <= y < h
    }

    /** `bm_safe(bm, x, y)`. */
    predicate Safe(x: int, y: int)
      reads this
    {
      BmRange(x, w) && BmRange(y, h)
    }

    /** The internal constructor: no pixels and an empty buffer until bm_new fills the fields in. */
    constructor ()
      ensures w == 0 && h == 0 && dy == 0
      ensures fresh(mapArray) && mapArray.Length == 0
    {
      w, h, dy := 0, 0, 0;
      mapArray := new Word[0];
    }

    /** `Create(w, h)`: an all-white bitmap of the given size, or null when its size overflows. */
    static method Create(w: int, h: int) returns (bm: PotraceBitmap?)
      requires 0 <= w <= MaxInt32 && 0 <= h <= MaxInt32
      ensures bm == null <==> GetSize(DyFor(w), h).OutOfBounds?
      ensures bm != null ==> fresh(bm) && fresh(bm.mapArray) && bm.Valid() && bm.w == w && bm.h == h
      ensures bm != null ==> forall x, y :: !bm.IsBlack(x, y)
    {
      bm := BmNew(w, h);
      if bm != null {
        forall x, y | bm.Safe(x, y)
          ensures !BmUGet(bm, x, y)
        {
          Addresses(bm, x, y);
          IndexInRange(bm.mapArray[..], bm.dy, x, y);
        }
      }
    }

    function IsBlackUnsafe(x: int, y: int): (b: bool)
      reads this, mapArray
      requires Valid() && InWords(x, y)
      ensures b == PixelOf(mapArray[..], dy, x, y)
    {
      BmUGet(this, x, y)
    }

    method SetBlackUnsafe(x: int, y: int)
      requires Valid() && InWords(x, y)
      modifies mapArray
      ensures mapArray[..] == WithPixel(old(mapArray[..]), dy, x, y, true)
    {
      var _ := BmUSet(this, x, y);
    }

    method SetWhiteUnsafe(x: int, y: int)
      requires Valid() && InWords(x, y)
      modifies mapArray
      ensures mapArray[..] == WithPixel(old(mapArray[..]), dy, x, y, false)
    {
      var _ := BmUClr(this, x, y);
    }

    method InverseColorUnsafe(x: int, y: int)
      requires Valid() && InWords(x, y)
      modifies mapArray
      ensures mapArray[..] == Flipped(old(mapArray[..]), dy, x, y)
    {
      var _ := BmUInv(this, x, y);
    }

    method SetColorUnsafe(x: int, y: int, isBlack: bool)
      requires Valid() && InWords(x, y)
      modifies mapArray
      ensures mapArray[..] == WithPixel(old(mapArray[..]), dy, x, y, isBlack)
    {
      var _ := BmUPut(this, x, y, isBlack);
    }

    /** `IsBlack(x, y)`: false outside the bitmap, the pixel inside. */
    function IsBlack(x: int, y: int): (b: bool)
      reads this, mapArray
      requires Valid()
      ensures !Safe(x, y) ==> !b
      ensures Safe(x, y) ==> InWords(x, y) && b == PixelOf(mapArray[..], dy, x, y)
    {
      BmGet(this, x, y)
    }

    /** `SetBlack`: the pixel reads black afterwards and no other pixel changes; outside the bitmap nothing changes. */
    method SetBlack(x: int, y: int)
      requires Valid()
      modifies mapArray
      ensures Safe(x, y) ==> IsBlack(x, y)
      ensures !Safe(x, y) ==> mapArray[..] == old(mapArray[..])
      ensures forall x2, y2 :: (x2 != x || y2 != y) ==> IsBlack(x2, y2) == old(IsBlack(x2, y2))
    {
      ghost var s := mapArray[..];
      var _ := BmSet(this, x, y);
      if Safe(x, y) {
        SetReads(this, s, x, y, true);
      }
    }

    /** `SetWhite`: the pixel reads white afterwards and no other pixel changes. */
    method SetWhite(x: int, y: int)
      requires Valid()
      modifies mapArray
      ensures !IsBlack(x, y)
      ensures !Safe(x, y) ==> mapArray[..] == old(mapArray[..])
      ensures forall x2, y2 :: (x2 != x || y2 != y) ==> IsBlack(x2, y2) == old(IsBlack(x2, y2))
    {
      ghost var s := mapArray[..];
      var _ := BmClr(this, x, y);
      if Safe(x, y) {
        SetReads(this, s, x, y, false);
      }
    }

    /** `InverseColor`: exactly pixel (x, y) changes colour. */
    method InverseColor(x: int, y: int)
      requires Valid()
      modifies mapArray
      ensures Safe(x, y) ==> IsBlack(x, y) == !old(IsBlack(x, y))
      ensures !Safe(x, y) ==> mapArray[..] == old(mapArray[..])
      ensures Safe(x, y) ==> mapArray[..] == Flipped(old(mapArray[..]), dy, x, y)
      ensures forall x2, y2 :: (x2 != x || y2 != y) ==> IsBlack(x2, y2) == old(IsBlack(x2, y2))
    {
      ghost var s := mapArray[..];
      var _ := BmInv(this, x, y);
      if Safe(x, y) {
        Addresses(this, x, y);
        FlippedReads(s, dy, x, y);
        forall x2, y2 | Safe(x2, y2) {
          Addresses(this, x2, y2);
        }
      }
    }

    /** `SetColor`: an in-range pixel reads `isBlack` afterwards and no other pixel changes. */
    method SetColor(x: int, y: int, isBlack: bool)
      requires Valid()
      modifies mapArray
      ensures Safe(x, y) ==> IsBlack(x, y) == isBlack
      ensures !Safe(x, y) ==> mapArray[..] == old(mapArray[..])
      ensures forall x2, y2 :: (x2 != x || y2 != y) ==> IsBlack(x2, y2) == old(IsBlack(x2, y2))
    {
      ghost var s := mapArray[..];
      var _ := BmPut(this, x, y, isBlack);
      if Safe(x, y) {
        SetReads(this, s, x, y, isBlack);
      }
    }
  }

  /** Every pixel with a word is addressable in the buffer of a valid bitmap; every in-range pixel has a word. */
  lemma Addresses(bm: PotraceBitmap, x: int, y: int)
    requires bm.Valid()
    ensures bm.Safe(x, y) ==> bm.InWords(x, y)
    ensures bm.InWords(x, y) ==> Addressable(bm.mapArray[..], bm.dy, x, y)
  {
    BufferHoldsRows(bm);
    if bm.InWords(x, y) {
      MulMono(y + 1, bm.h, bm.dy);
    }
  }

  /** The buffer of a valid bitmap holds its dy * h words (in fact eight times as many). */
  lemma BufferHoldsRows(bm: PotraceBitmap)
    requires bm.Valid()
    ensures bm.dy * bm.h <= bm.mapArray.Length
    ensures bm.dy * bm.h * WordSize <= bm.mapArray.Length
  {
    MulMono(0, bm.dy, bm.h);
  }

  /** getsize does not throw for a valid bitmap: its size is the byte count dy*h*8. */
  lemma ValidSize(bm: PotraceBitmap)
    requires bm.Valid()
    ensures GetSize(bm.dy, bm.h) == Bytes(bm.dy * bm.h * WordSize)
  {
    MulMono(0, bm.dy, bm.h);
    assert Abs(bm.dy) == bm.dy;
  }

  /** Pixel reads after WithPixel, stated on the bitmap's reader. */
  lemma SetReads(bm: PotraceBitmap, s: seq<Word>, x: int, y: int, b: bool)
    requires bm.Valid() && bm.Safe(x, y) && |s| == bm.mapArray.Length
    requires Addressable(s, bm.dy, x, y) && bm.mapArray[..] == WithPixel(s, bm.dy, x, y, b)
    ensures bm.IsBlack(x, y) == b
    ensures forall x2, y2 :: bm.Safe(x2, y2) && (x2 != x || y2 != y) ==>
      Addressable(s, bm.dy, x2, y2) && bm.IsBlack(x2, y2) == PixelOf(s, bm.dy, x2, y2)
  {
    Addresses(bm, x, y);
    WithPixelReads(s, bm.dy, x, y, b);
    forall x2, y2 | bm.Safe(x2, y2) {
      Addresses(bm, x2, y2);
    }
  }

  /* ---------------------------------------------------------------------- */
  /* the BM_* accessors */

  /** `BM_UGET`: tests the pixel's mask in its word. */
  function BmUGet(bm: PotraceBitmap, x: int, y: int): (b: bool)
    reads bm, bm.mapArray
    requires bm.Valid() && bm.InWords(x, y)
    ensures Addressable(bm.mapArray[..], bm.dy, x, y) && 0 <= WordIndex(bm.dy, x, y) < bm.mapArray.Length
    ensures b == PixelOf(bm.mapArray[..], bm.dy, x, y)
  {
    Addresses(bm, x, y);
    IndexInRange(bm.mapArray[..], bm.dy, x, y);
    TestBit(bm.mapArray[WordIndex(bm.dy, x, y)], x % WordBits);
    And(bm.mapArray[WordIndex(bm.dy, x, y)], BmMask(x)) != Zero
  }

  /** `BM_USET`: ORs the pixel's mask into its word and returns the new word. */
  method BmUSet(bm: PotraceBitmap, x: int, y: int) returns (r: Word)
    requires bm.Valid() && bm.InWords(x, y)
    modifies bm.mapArray
    ensures Addressable(old(bm.mapArray[..]), bm.dy, x, y) && 0 <= WordIndex(bm.dy, x, y) < bm.mapArray.Length
    ensures bm.mapArray[..] == WithPixel(old(bm.mapArray[..]), bm.dy, x, y, true)
    ensures r == bm.mapArray[WordIndex(bm.dy, x, y)]
  {
    Addresses(bm, x, y);
    IndexInRange(bm.mapArray[..], bm.dy, x, y);
    var i := WordIndex(bm.dy, x, y);
    bm.mapArray[i] := Or(bm.mapArray[i], BmMask(x));
    r := bm.mapArray[i];
  }

  /** `BM_UCLR`: ANDs the complement of the pixel's mask into its word and returns the new word. */
  method BmUClr(bm: PotraceBitmap, x: int, y: int) returns (r: Word)
    requires bm.Valid() && bm.InWords(x, y)
    modifies bm.mapArray
    ensures Addressable(old(bm.mapArray[..]), bm.dy, x, y) && 0 <= WordIndex(bm.dy, x, y) < bm.mapArray.Length
    ensures bm.mapArray[..] == WithPixel(old(bm.mapArray[..]), bm.dy, x, y, false)
    ensures r == bm.mapArray[WordIndex(bm.dy, x, y)]
  {
    Addresses(bm, x, y);
    IndexInRange(bm.mapArray[..], bm.dy, x, y);
    var i := WordIndex(bm.dy, x, y);
    bm.mapArray[i] := And(bm.mapArray[i], Not(BmMask(x)));
    r := bm.mapArray[i];
  }

  /** `BM_UINV`: XORs the pixel's mask into its word and returns the new word. */
  method BmUInv(bm: PotraceBitmap, x: int, y: int) returns (r: Word)
    requires bm.Valid() && bm.InWords(x, y)
    modifies bm.mapArray
    ensures Addressable(old(bm.mapArray[..]), bm.dy, x, y) && 0 <= WordIndex(bm.dy, x, y) < bm.mapArray.Length
    ensures bm.mapArray[..] == Flipped(old(bm.mapArray[..]), bm.dy, x, y)
    ensures r == bm.mapArray[WordIndex(bm.dy, x, y)]
  {
    Addresses(bm, x, y);
    IndexInRange(bm.mapArray[..], bm.dy, x, y);
    var i := WordIndex(bm.dy, x, y);
    bm.mapArray[i] := Xor(bm.mapArray[i], BmMask(x));
    r := bm.mapArray[i];
  }

  /** `BM_UPUT`: BM_USET when b holds, BM_UCLR otherwise. */
  method BmUPut(bm: PotraceBitmap, x: int, y: int, b: bool) returns (r: Word)
    requires bm.Valid() && bm.InWords(x, y)
    modifies bm.mapArray
    ensures Addressable(old(bm.mapArray[..]), bm.dy, x, y) && 0 <= WordIndex(bm.dy, x, y) < bm.mapArray.Length
    ensures bm.mapArray[..] == WithPixel(old(bm.mapArray[..]), bm.dy, x, y, b)
    ensures r == bm.mapArray[WordIndex(bm.dy, x, y)]
  {
    if b {
      r := BmUSet(bm, x, y);
    } else {
      r := BmUClr(bm, x, y);
    }
  }

  /** `BM_GET`: false outside the bitmap, BM_UGET inside. */
  function BmGet(bm: PotraceBitmap, x: int, y: int): (b: bool)
    reads bm, bm.mapArray
    requires bm.Valid()
    ensures !bm.Safe(x, y) ==> !b
    ensures bm.Safe(x, y) ==> bm.InWords(x, y) && b == PixelOf(bm.mapArray[..], bm.dy, x, y)
  {
    Addresses(bm, x, y);
    if bm.Safe(x, y) then BmUGet(bm, x, y) else false
  }

  /** An image as a colour per pixel coordinate: black is true. */
  type Picture = (int, int) -> bool

  /** pic is the picture bm shows: BM_GET reads pic's colour at every coordinate. */
  ghost predicate Shows(bm: PotraceBitmap, pic: Picture)
    reads bm, bm.mapArray
    requires bm.Valid()
  {
    forall x, y {:trigger BmGet(bm, x, y)} :: BmGet(bm, x, y) == pic(x, y)
  }

  /** What BM_GET reads from a bitmap, as a picture: its pixels inside, white everywhere outside. */
  ghost function Pixels(bm: PotraceBitmap): (pic: Picture)
    reads bm, bm.mapArray
    requires bm.Valid()
    ensures Shows(bm, pic)
  {
    var s, w, h, dy := bm.mapArray[..], bm.w, bm.h, bm.dy;
    (x, y) => BmRange(x, w) && BmRange(y, h) && Addressable(s, dy, x, y) && PixelOf(s, dy, x, y)
  }

  /** `BM_SET`: BM_USET inside the bitmap; outside it returns 0 and writes nothing. */
  method BmSet(bm: PotraceBitmap, x: int, y: int) returns (r: Word)
    requires bm.Valid()
    modifies bm.mapArray
    ensures bm.Safe(x, y) ==> Addressable(old(bm.mapArray[..]), bm.dy, x, y)
    ensures bm.Safe(x, y) ==> bm.mapArray[..] == WithPixel(old(bm.mapArray[..]), bm.dy, x, y, true)
    ensures !bm.Safe(x, y) ==> r == Zero && bm.mapArray[..] == old(bm.mapArray[..])
  {
    Addresses(bm, x, y);
    if bm.Safe(x, y) {
      r := BmUSet(bm, x, y);
    } else {
      r := Zero;
    }
  }

  /** `BM_CLR`: BM_UCLR inside the bitmap; outside it returns 0 and writes nothing. */
  method BmClr(bm: PotraceBitmap, x: int, y: int) returns (r: Word)
    requires bm.Valid()
    modifies bm.mapArray
    ensures bm.Safe(x, y) ==> Addressable(old(bm.mapArray[..]), bm.dy, x, y)
    ensures bm.Safe(x, y) ==> bm.mapArray[..] == WithPixel(old(bm.mapArray[..]), bm.dy, x, y, false)
    ensures !bm.Safe(x, y) ==> r == Zero && bm.mapArray[..] == old(bm.mapArray[..])
  {
    Addresses(bm, x, y);
    if bm.Safe(x, y) {
      r := BmUClr(bm, x, y);
    } else {
      r := Zero;
    }
  }

  /** `BM_INV`: BM_UINV inside the bitmap; outside it returns 0 and writes nothing. */
  method BmInv(bm: PotraceBitmap, x: int, y: int) returns (r: Word)
    requires bm.Valid()
    modifies bm.mapArray
    ensures bm.Safe(x, y) ==> Addressable(old(bm.mapArray[..]), bm.dy, x, y)
    ensures bm.Safe(x, y) ==> bm.mapArray[..] == Flipped(old(bm.mapArray[..]), bm.dy, x, y)
    ensures !bm.Safe(x, y) ==> r == Zero && bm.mapArray[..] == old(bm.mapArray[..])
  {
    Addresses(bm, x, y);
    if bm.Safe(x, y) {
      r := BmUInv(bm, x, y);
    } else {
      r := Zero;
    }
  }

  /** `BM_PUT`: BM_UPUT inside the bitmap; outside it returns 0 and writes nothing. */
  method BmPut(bm: PotraceBitmap, x: int, y: int, b: bool) returns (r: Word)
    requires bm.Valid()
    modifies bm.mapArray
    ensures bm.Safe(x, y) ==> Addressable(old(bm.mapArray[..]), bm.dy, x, y)
    ensures bm.Safe(x, y) ==> bm.mapArray[..] == WithPixel(old(bm.mapArray[..]), bm.dy, x, y, b)
    ensures !bm.Safe(x, y) ==> r == Zero && bm.mapArray[..] == old(bm.mapArray[..])
  {
    Addresses(bm, x, y);
    if bm.Safe(x, y) {
      r := BmUPut(bm, x, y, b);
    } else {
      r := Zero;
    }
  }

  /* ---------------------------------------------------------------------- */
  /* allocation, clearing, duplication */

  /**
   * `bm_new(w, h)`: dy = ceil(w/64); the buffer has |dy|*h*8 words (the
   * byte count of getsize used as a word count; 8 when that is 0), all
   * zero. null stands for the exception getsize throws.
   */
  method BmNew(w: int, h: int) returns (bm: PotraceBitmap?)
    requires 0 <= w <= MaxInt32 && 0 <= h <= MaxInt32
    ensures bm == null <==> GetSize(DyFor(w), h).OutOfBounds?
    ensures bm != null ==> fresh(bm) && fresh(bm.mapArray) && bm.Valid()
    ensures bm != null ==> bm.w == w && bm.h == h && bm.dy == DyFor(w)
    ensures bm != null ==> bm.mapArray.Length == Max(bm.dy * h * WordSize, WordSize)
    ensures bm != null ==> bm.mapArray.Length >= Max(bm.dy * h, 1)
    ensures bm != null ==> forall i :: 0 <= i < bm.mapArray.Length ==> bm.mapArray[i] == Zero
  {
    var dy := if w == 0 then 0 else (w - 1) / WordBits + 1;
    var size := GetSize(dy, h);
    if size.OutOfBounds? {
      return null;
    }
    var words := size.n;
    if words == 0 {
      words := WordSize;
    }
    bm := new PotraceBitmap();
    bm.w := w;
    bm.h := h;
    bm.dy := dy;
    bm.mapArray := new Word[words](_ => Zero);
    assert Abs(dy) == dy;
    MulMono(0, dy, h);
  }

  /** `bm_base` as a word offset: the last scanline when dy is negative. */
  function BmBase(dy: int, h: int): int
  {
    if dy >= 0 || h == 0 then 0 else (h - 1) * dy
  }

  /**
   * `bm_clear`: memset of bm_size(bm) words from bm_base(bm). The buffer of
   * a valid bitmap has dy >= 0, so the base is word 0, and the count is
   * the byte size dy*h*8; afterwards every pixel reads white.
   */
  method BmClear(bm: PotraceBitmap)
    requires bm.Valid()
    modifies bm.mapArray
    ensures bm.mapArray[..] == Fill(old(bm.mapArray[..]), 0, Zero, bm.dy * bm.h * WordSize)
    ensures bm.dy * bm.h != 0 ==> forall i :: 0 <= i < bm.mapArray.Length ==> bm.mapArray[i] == Zero
    ensures forall x, y :: !bm.IsBlack(x, y)
  {
    ValidSize(bm);
    BufferHoldsRows(bm);
    var size := GetSize(bm.dy, bm.h).n;
    var base := BmBase(bm.dy, bm.h);
    Memset(bm.mapArray, base, Zero, size);
    forall x, y | bm.Safe(x, y)
      ensures !BmUGet(bm, x, y)
    {
      Addresses(bm, x, y);
      IndexInRange(bm.mapArray[..], bm.dy, x, y);
    }
  }

  /** `bm_dup`: a fresh bitmap with the same size and the same words in a separate buffer. */
  method BmDup(bm: PotraceBitmap) returns (bm1: PotraceBitmap)
    requires bm.Valid()
    ensures fresh(bm1) && fresh(bm1.mapArray) && bm1.Valid()
    ensures bm1.w == bm.w && bm1.h == bm.h && bm1.dy == bm.dy
    ensures bm1.mapArray[..] == bm.mapArray[..]
  {
    ValidSize(bm);
    var b := BmNew(bm.w, bm.h);
    bm1 := b;
    forall i | 0 <= i < bm.mapArray.Length {
      bm1.mapArray[i] := bm.mapArray[i];
    }
  }
}
