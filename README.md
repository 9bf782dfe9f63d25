# Potrace (C# port): the integer core, modelled in Dafny

BitmapToVector is a C# port of Potrace, a tracer that turns a black-and-white
bitmap into vector outlines. This project models and verifies the integer and
array part of its engine:

- The packed bitmap: `PotraceBitmap`, `getsize`, `bm_new`, `bm_clear`, `bm_dup`,
  `memset`, and the checked (`BM_GET`, `BM_SET`, …) and unchecked (`BM_UGET`, …)
  pixel accessors. A row-major buffer of 64-bit words holds the pixels. Pixel
  (x, y) is bit `x mod 64`, counted from the most significant end, of word
  `y*dy + x/64`.
- The integer helpers: `mod`, `floordiv`, `sign`, `abs`, `min`, `max`, `sq`, `cu`.
- Path decomposition:
  - `findnext` scans for the next black pixel;
  - `findpath` walks the boundary with the seven turn policies, `majority` and `detrand`;
  - `xor_to_ref` and `xor_path` erase a traced component;
  - `bm_clearexcess`, `setbbox_path` and `clear_bm_with_bbox`;
  - `bm_to_pathlist` with its turd filter;
  - `pathlist_to_tree` gives the path list its tree structure through `Next`, `ChildList` and `Sibling`.
- The linked-list helpers `list_forall` and `list_insert_beforehook`, and the curve
  allocation `path_new`, `privcurve_init` and `privcurve_to_curve`.
- The integer stages of polygon fitting:
  - `cyclic` and `xprod`;
  - `calc_sums`, the prefix sums;
  - `calc_lon`, the longest straight subpaths;
  - the index skeleton of `bestpolygon`;
  - `reverse`;
  - the dynamic program of `opticurve`.

Modelling choices:

- **The bitmap** is a class with fields `w`, `h`, `dy` and `mapArray`. A word is a
  sequence of 64 booleans, most significant bit first. Each accessor that writes
  is proved against a function on the buffer's contents, `WithPixel` or `Flipped`.
  A ghost `Picture`, a function from (x, y) to black or white, states what the
  buffer shows.
- **Paths** live in an arena (`Lists.Links`). Path p's `Next`, `ChildList` and
  `Sibling` are entries of three sequences, and `Nil` (-1) stands for `null`.
- **A hook** is a `LambdaProperty` that stores where the next insertion goes. It
  becomes the datatype `Hook`: `Local` (a local variable), `NextOf(p)` or `ChildOf(p)`.
- **Integer width:** `int` is unbounded. C#'s unchecked `int` and `long` arithmetic
  is written out with `Wrap32`, `Wrap64`, `Add32` and `Add64`. C#'s truncating
  division is written out wherever operands can be negative.
- **Doubles** in curves are modelled as reals. The `calc_sums` sums are exact integers (see "Left out").
- **Oracles:** `penalty3` is a parameter `penalty: (int, int) -> real`.
  `opti_penalty` is a parameter `fit: (int, int) -> Fit`, which gives the success
  flag, whether the call got as far as writing its result object, and what it
  left there if so.

## Model

| member | source | states |
|---|---|---|
| Auxiliary.Wrap32 | src/BitmapToVector/Internal/trace.c.cs:170 | The `(int)` cast: the result is an int32 congruent to x modulo 2^32, and it is x itself when x fits in an int. |
| Auxiliary.Wrap64 | src/BitmapToVector/Internal/bitmap.h.cs:77 | Unchecked `long` arithmetic: the result is an int64 congruent to x modulo 2^64, and it is x itself when x fits. |
| Auxiliary.Add32 | src/BitmapToVector/Internal/decompose.c.cs:224-225 | `x += dirx` on ints: the sum of two ints is an int, and it is exact whenever the true sum fits. |
| Auxiliary.Add32Wraps | src/BitmapToVector/Internal/decompose.c.cs:224-225 | Adding two ints is the true sum wrapped modulo 2^32. |
| Auxiliary.Add64 | src/BitmapToVector/Internal/decompose.c.cs:226 | `area += x*diry` on a long: the result stays a long, and it is exact whenever the true sum fits. |
| Auxiliary.Add64Wraps | src/BitmapToVector/Internal/decompose.c.cs:226 | Adding two longs is the true sum wrapped modulo 2^64. |
| Auxiliary.CsDivNonNeg | src/BitmapToVector/Internal/auxiliary.h.cs:55 | For non-negative operands, C#'s truncating `/` and `%` agree with the Euclidean ones. |
| Auxiliary.Mod | src/BitmapToVector/Internal/auxiliary.h.cs:54-56 | `mod(a, n)` lies in [0, n) and is a's remainder modulo n, also for negative a. |
| Auxiliary.ModNegative | src/BitmapToVector/Internal/auxiliary.h.cs:55 | The branch for negative a, `n-1-(-1-a)%n`, is a's Euclidean remainder. The matching quotient identity is what `floordiv` relies on. |
| Auxiliary.FloorDiv | src/BitmapToVector/Internal/auxiliary.h.cs:59-61 | For n > 0, `floordiv(a, n)` is the largest r with r*n <= a, also for negative a. |
| Auxiliary.Sign | src/BitmapToVector/Internal/auxiliary.h.cs:65 | `sign(x)` is -1, 0 or 1. It is 0 exactly when x is 0, and otherwise has x's sign. |
| Auxiliary.Abs | src/BitmapToVector/Internal/auxiliary.h.cs:69 | `abs(a)` is a or -a and is non-negative, except at int.MinValue, whose negation wraps back to itself. |
| Auxiliary.Min | src/BitmapToVector/Internal/auxiliary.h.cs:73 | `min` returns one of its arguments, and the result is at most both. |
| Auxiliary.Max | src/BitmapToVector/Internal/auxiliary.h.cs:75 | `max` returns one of its arguments, and the result is at least both. |
| Auxiliary.Sq | src/BitmapToVector/Internal/auxiliary.h.cs:77 | `sq(a)` is an int. It equals a*a, which is non-negative, whenever a*a fits. |
| Auxiliary.Cu | src/BitmapToVector/Internal/auxiliary.h.cs:81 | `cu(a)` is an int. It equals a*a*a whenever a*a*a fits. |
| Auxiliary.CubeFits | src/BitmapToVector/Internal/auxiliary.h.cs:77-81 | When a cube fits in an int, so does the square, so the intermediate a*a of `cu` cannot wrap on its own. |
| Words.HiBitShifted | src/BitmapToVector/Internal/bitmap.h.cs:41 | `BM_HIBIT >> c` has exactly one bit set, bit c counted from the most significant end. |
| Words.AllBitsShifted | src/BitmapToVector/Internal/decompose.c.cs:56 | `BM_ALLBITS << (64 - r)` sets exactly the r leftmost bits, the mask for the columns of the last word that lie inside the bitmap. |
| Words.TestBit | src/BitmapToVector/Internal/bitmap.h.cs:47 | Masking a word with a one-bit mask gives a non-zero word exactly when that bit is set. |
| Words.XorTwice | src/BitmapToVector/Internal/bitmap.h.cs:53 | XOR with the same mask twice restores the word. |
| Util.Fill | src/BitmapToVector/Internal/_util.cs:12-18 | What `memset` leaves: every word in [ptr, ptr+size) is value, and every other word is unchanged. |
| Util.Memset | src/BitmapToVector/Internal/_util.cs:12-18 | The loop sets exactly the words `Fill` describes. |
| Util.FillNothing | src/BitmapToVector/Internal/_util.cs:14 | A size of 0 or less changes nothing. |
| Util.FillIdempotent | src/BitmapToVector/Internal/_util.cs:12-18 | Calling `memset` twice with the same arguments gives the same buffer as calling it once. |
| Bitmap.BmMask | src/BitmapToVector/Internal/bitmap.h.cs:41 | `bm_mask(x)` has exactly one bit set, bit `x mod 64` counted from the most significant end. |
| Bitmap.WithPixelReads | src/BitmapToVector/Internal/bitmap.h.cs:49-51 | After a pixel is set to b, it reads b, and every other addressable pixel reads as before. |
| Bitmap.FlippedReads | src/BitmapToVector/Internal/bitmap.h.cs:53 | After a pixel is inverted, it reads the opposite value, and every other pixel reads as before. |
| Bitmap.FlippedTwice | src/BitmapToVector/Internal/bitmap.h.cs:53 | Inverting the same pixel twice restores the buffer. |
| Bitmap.AcceptedWhenFits | src/BitmapToVector/Internal/bitmap.h.cs:77-80 | When dy*h*8 fits in a long, the overflow test does not reject it. |
| Bitmap.RejectedWhenNegative | src/BitmapToVector/Internal/bitmap.h.cs:80 | A negative size is rejected. |
| Bitmap.RejectedWhenWrapped | src/BitmapToVector/Internal/bitmap.h.cs:80 | A wrapped product that comes out below dy*h*8 is rejected by the `size / h / dy != 8` test. |
| Bitmap.SizeCheck | src/BitmapToVector/Internal/bitmap.h.cs:70-85 | The overflow test rejects the wrapped product exactly when the true dy*h*8 does not fit in a long. When it fits, the wrapped product is exact. |
| Bitmap.GetSize | src/BitmapToVector/Internal/bitmap.h.cs:70-85 | `getsize` gives the byte count \|dy\|*h*8, or the "Bitmap size out of bounds" exception when that does not fit in a long. |
| Bitmap.DyFor | src/BitmapToVector/Internal/bitmap.h.cs:122 | dy is 0 for width 0 and otherwise ceil(w/64): the fewest words that hold w bits. |
| Bitmap.PotraceBitmap.constructor | src/BitmapToVector/potracelib.h.cs:90 | A bare bitmap is 0 x 0 with dy 0 and an empty buffer. |
| Bitmap.PotraceBitmap.Create | src/BitmapToVector/potracelib.h.cs:62-68 | It gives a fresh, well-formed w x h bitmap on which every pixel reads white, or none when the size overflows. |
| Bitmap.PotraceBitmap.IsBlackUnsafe | src/BitmapToVector/potracelib.h.cs:92-96 | The bit of pixel (x, y) in its word. |
| Bitmap.PotraceBitmap.SetBlackUnsafe | src/BitmapToVector/potracelib.h.cs:98-102 | The buffer becomes the old one with pixel (x, y) black. |
| Bitmap.PotraceBitmap.SetWhiteUnsafe | src/BitmapToVector/potracelib.h.cs:104-108 | The buffer becomes the old one with pixel (x, y) white. |
| Bitmap.PotraceBitmap.InverseColorUnsafe | src/BitmapToVector/potracelib.h.cs:110-114 | The buffer becomes the old one with pixel (x, y) inverted. |
| Bitmap.PotraceBitmap.SetColorUnsafe | src/BitmapToVector/potracelib.h.cs:116-120 | The buffer becomes the old one with pixel (x, y) set to isBlack. |
| Bitmap.PotraceBitmap.IsBlack | src/BitmapToVector/potracelib.h.cs:122-126 | False outside 0 <= x < W, 0 <= y < H. Inside, it is the pixel's bit. |
| Bitmap.PotraceBitmap.SetBlack | src/BitmapToVector/potracelib.h.cs:128-132 | In range, (x, y) then reads black. Out of range, nothing changes. Every other pixel reads as before. |
| Bitmap.PotraceBitmap.SetWhite | src/BitmapToVector/potracelib.h.cs:134-138 | (x, y) then reads white. Out of range, nothing changes. Every other pixel reads as before. |
| Bitmap.PotraceBitmap.InverseColor | src/BitmapToVector/potracelib.h.cs:140-144 | In range, exactly that pixel flips: the buffer is `Flipped`, so two calls restore it (FlippedTwice). Out of range, nothing changes. |
| Bitmap.PotraceBitmap.SetColor | src/BitmapToVector/potracelib.h.cs:146-150 | In range, (x, y) then reads isBlack. Out of range, nothing changes. Every other pixel reads as before. |
| Bitmap.Addresses | src/BitmapToVector/Internal/bitmap.h.cs:43-45 | In a well-formed bitmap, a pixel that passes `bm_safe` lies inside the buffer. |
| Bitmap.ValidSize | src/BitmapToVector/Internal/bitmap.h.cs:92-94 | `bm_size` of a bitmap made by `bm_new` is its byte count and never the exception. |
| Bitmap.SetReads | src/BitmapToVector/Internal/bitmap.h.cs:49-57 | After a write to pixel (x, y), `IsBlack` reads the written value there and the old value everywhere else. |
| Bitmap.BmUGet | src/BitmapToVector/Internal/bitmap.h.cs:47 | The pixel's word is inside the buffer, and the result is that pixel's bit. |
| Bitmap.BmUSet | src/BitmapToVector/Internal/bitmap.h.cs:49 | The buffer becomes the old one with (x, y) black, and the result is the new word. |
| Bitmap.BmUClr | src/BitmapToVector/Internal/bitmap.h.cs:51 | The buffer becomes the old one with (x, y) white, and the result is the new word. |
| Bitmap.BmUInv | src/BitmapToVector/Internal/bitmap.h.cs:53 | The buffer becomes the old one with (x, y) inverted, and the result is the new word. |
| Bitmap.BmUPut | src/BitmapToVector/Internal/bitmap.h.cs:55 | The buffer becomes the old one with (x, y) set to b, the same as `BM_USET` or `BM_UCLR`. |
| Bitmap.BmGet | src/BitmapToVector/Internal/bitmap.h.cs:57 | False out of range. In range, the pixel's bit. |
| Bitmap.BmSet | src/BitmapToVector/Internal/bitmap.h.cs:58 | In range, it acts as `BM_USET`. Out of range, it returns 0 and leaves the buffer unchanged. |
| Bitmap.BmClr | src/BitmapToVector/Internal/bitmap.h.cs:60 | In range, it acts as `BM_UCLR`. Out of range, it returns 0 and leaves the buffer unchanged. |
| Bitmap.BmInv | src/BitmapToVector/Internal/bitmap.h.cs:62 | In range, it acts as `BM_UINV`. Out of range, it returns 0 and leaves the buffer unchanged. |
| Bitmap.BmPut | src/BitmapToVector/Internal/bitmap.h.cs:64 | In range, it acts as `BM_UPUT`. Out of range, it returns 0 and leaves the buffer unchanged. |
| Bitmap.BmNew | src/BitmapToVector/Internal/bitmap.h.cs:120-136 | It fails exactly when `getsize` throws. Otherwise it gives a w x h bitmap with dy = ceil(w/64). The buffer has max(dy*h*8, 8) words: the byte count, allocated as words. That is at least max(dy*h, 1) words, all zero. |
| Bitmap.BmClear | src/BitmapToVector/Internal/bitmap.h.cs:141-146 | The first dy*h*8 words are zeroed through `memset`, so no pixel reads black afterwards. |
| Bitmap.BmDup | src/BitmapToVector/Internal/bitmap.h.cs:151-155 | A fresh bitmap with the same w, h, dy and words, in a buffer of its own. |
| Curve.PrivCurve.constructor | src/BitmapToVector/Internal/curve.h.cs:24-38 | A new `privcurve_t` has n = 0, alphacurve = 0 and null arrays. |
| Curve.PotraceCurve.constructor | src/BitmapToVector/potracelib.h.cs:178-188 | A new public curve has N = 0 and null arrays. |
| Curve.PrivPath.constructor | src/BitmapToVector/Internal/curve.h.cs:53-66 | A new private path has len 0, no points and null lon, sums and po. Its three curves are fresh objects. |
| Curve.PotracePath.constructor | src/BitmapToVector/potracelib.h.cs:190-199 | A new path has area 0, sign '\0' and no private part, with a fresh public curve. |
| Curve.PathNew | src/BitmapToVector/Internal/curve.c.cs:20-29 | `path_new` gives a fresh path whose `Priv` is a fresh, empty private record. |
| Curve.PrivcurveInit | src/BitmapToVector/Internal/curve.c.cs:51-60 | It returns 0 and sets n. It allocates six fresh, distinct arrays of length n: zero tags, zero control points, zero vertices and zero alpha, alpha0 and beta. |
| Curve.PrivcurveToCurve | src/BitmapToVector/Internal/curve.c.cs:63-67 | The public curve gets n, and shares the private curve's `tag` and `c` arrays. |
| Params.TurnPolicies | src/BitmapToVector/potracelib.h.cs:29-35 | The seven turn-policy constants are 0 to 6, in declaration order. |
| Params.TurnPoliciesDistinct | src/BitmapToVector/potracelib.h.cs:29-35 | The seven constants are distinct, and they are exactly the values 0..6. |
| Params.PotraceParam.constructor | src/BitmapToVector/potracelib.h.cs:37-45 | The defaults: TurdSize 2, TurnPolicy Minority (4), AlphaMax 1.0, OptiCurve true, OptTolerance 0.2 and no QuantizeUnit. |
| Lists.Links.constructor | src/BitmapToVector/potracelib.h.cs:195-198 | n paths whose `Next`, `ChildList` and `Sibling` are all null. |
| Lists.Links.NewPath | src/BitmapToVector/Internal/curve.c.cs:25 | A new path is added to the arena with all three links null, and the existing links are unchanged. |
| Lists.Links.ListForall | src/BitmapToVector/Internal/lists.h.cs:14-22 | The walk visits the list's nodes exactly once each, in `Next` order, and stops at null. |
| Lists.Links.InsertBeforeHook | src/BitmapToVector/Internal/lists.h.cs:24-29 | `p.Next` takes the hook's old target, and the hook's slot (local, some `Next` or some `ChildList`) takes p. The hook then refers to `p.Next`. No other link changes. |
| Lists.ListUnique | src/BitmapToVector/Internal/lists.h.cs:14-22 | A head and the `Next` links determine the list. |
| Lists.ListDistinct | src/BitmapToVector/Internal/lists.h.cs:14-22 | A null-terminated list lies in the arena and never repeats a node. |
| Lists.ListFrame | src/BitmapToVector/Internal/lists.h.cs:24-29 | A list is unaffected by changes to `Next` fields of nodes outside it. |
| Lists.TailInsert | src/BitmapToVector/Internal/lists.h.cs:24-29 | Inserting through a hook that refers to the last node's `Next` appends p at the tail. |
| Lists.InsertAppends | src/BitmapToVector/Internal/lists.h.cs:24-29 | The same for a hook already pointing at p's slot: successive insertions through one hook append in call order. |
| Lists.ListConcat | src/BitmapToVector/Internal/decompose.c.cs:344 | Pointing the last node of a list at the head of a disjoint list gives their concatenation. This is what appending the remainder of a list at a hook achieves. |
| Lists.Pigeonhole | src/BitmapToVector/Internal/decompose.c.cs:382-415 | A repetition-free list of arena nodes has at most n entries. With exactly n it contains every node. |
| Detrand.Lookup | src/BitmapToVector/Internal/decompose.c.cs:43 | The XOR of four table entries is 0 or 1. |
| Detrand.Detrand | src/BitmapToVector/Internal/decompose.c.cs:38-46 | `detrand(x, y)` is always 0 or 1, with the `uint`/`long` arithmetic of the hash written out. |
| BitmapOps.ExcessClearedPixel | src/BitmapToVector/Internal/decompose.c.cs:52-62 | After `bm_clearexcess`, a pixel of a row below h reads black exactly when x < W and it was black before. Pixels inside the width are unchanged, and padding columns are white. |
| BitmapOps.ExcessClearedIsClear | src/BitmapToVector/Internal/decompose.c.cs:52-62 | After `bm_clearexcess`, no padding bit of any row is set. This is the precondition `findnext` relies on. |
| BitmapOps.BmClearExcess | src/BitmapToVector/Internal/decompose.c.cs:52-62 | The loop masks the last word of every row, and nothing else. When W is a multiple of 64, nothing changes. |
| BitmapOps.BoxClearedPixel | src/BitmapToVector/Internal/decompose.c.cs:70-80 | After clearing, a pixel is black exactly when it was black and lies outside rows [y0, y1) and word columns [imin, imax). |
| BitmapOps.Bbox.constructor | src/BitmapToVector/Internal/decompose.c.cs:64-66 | A new bbox is all zeros. |
| BitmapOps.ClearBmWithBbox | src/BitmapToVector/Internal/decompose.c.cs:70-80 | The words of rows y0..y1-1 from `x0/64` up to `ceil(x1/64)` are zeroed, and no others. |
| BitmapOps.Majority | src/BitmapToVector/Internal/decompose.c.cs:87-105 | The loop computes `MajorityFrom(pic, x, y, 2)`: rings 2, 3 and 4 are checked in turn. The first ring with a non-zero count decides, and it is false when all three tie. |
| BitmapOps.CountRing | src/BitmapToVector/Internal/decompose.c.cs:91-97 | The inner loop's ct is the ring's black-minus-white count over its four sides. |
| BitmapOps.MajorityFirstRing | src/BitmapToVector/Internal/decompose.c.cs:87-105 | Majority holds if and only if some ring among 2..4 has a positive count and every earlier ring has count 0. |
| BitmapOps.MajorityMonotone | src/BitmapToVector/Internal/decompose.c.cs:87-105 | Turning white pixels black can never turn majority from true to false. |
| BitmapOps.Lowest | src/BitmapToVector/Internal/decompose.c.cs:171-188 | The running minimum is at most every entry and the initial value, and is one of them. |
| BitmapOps.Highest | src/BitmapToVector/Internal/decompose.c.cs:171-188 | The running maximum is at least every entry and the initial value, and is one of them. |
| BitmapOps.SetbboxPath | src/BitmapToVector/Internal/decompose.c.cs:165-191 | x0 and y0 are the least coordinates, or int.MaxValue for no points. x1 and y1 are the greatest, or 0. Coordinates are cast to int. |
| Walk.RightOf | src/BitmapToVector/Internal/decompose.c.cs:244-246 | A right turn maps (dirx, diry) to (diry, -dirx). |
| Walk.LeftOf | src/BitmapToVector/Internal/decompose.c.cs:248-250 | A left turn maps (dirx, diry) to (-diry, dirx). |
| Walk.Reverse | src/BitmapToVector/Internal/decompose.c.cs:233-260 | The opposite of a direction. A turn never produces it. |
| Walk.UnitProductWraps | src/BitmapToVector/Internal/decompose.c.cs:226 | `x*diry` with diry in {-1, 0, 1} is the wrapped product, computed without overflow. |
| Walk.StepAdjacent | src/BitmapToVector/Internal/decompose.c.cs:224-225 | Each move goes one unit step, horizontal or vertical. |
| Walk.PolicyDecisions | src/BitmapToVector/Internal/decompose.c.cs:237-243 | The ambiguous turn goes right exactly for Right, for Black with '+', for White with '-', for Random when `detrand` is 1, and for Majority or Minority as `majority` says, Minority being its negation. It never goes right for Left or for an unknown policy. |
| Walk.NextDir | src/BitmapToVector/Internal/decompose.c.cs:233-260 | The turn rule, each as an if-and-only-if: it turns right iff c and (d or the policy says right), left iff neither c nor d, or c without d and the policy says left, and straight iff d without c. It never reverses. |
| Walk.ClampArea | src/BitmapToVector/Internal/decompose.c.cs:268 | The stored area is at most int.MaxValue, and it is the exact area when that fits. |
| Walk.FindPath | src/BitmapToVector/Internal/decompose.c.cs:199-272 | The loop's result is the walk `Traced` defines from (x0, y0), heading down, under the bitmap's turn rule. It is none when the step bound runs out. |
| Walk.Step | src/BitmapToVector/Internal/decompose.c.cs:217-260 | One iteration: record the point, move, add to the area, stop at the start, or turn. It either finishes the walk or moves the walk one step on. |
| Walk.Steer | src/BitmapToVector/Internal/decompose.c.cs:233-260 | The new direction is the turn rule applied to the pixels c and d read from the bitmap. |
| Walk.AmbiguousTurn | src/BitmapToVector/Internal/decompose.c.cs:237-243 | It decides the ambiguous case exactly as the policy's rule does. |
| Walk.WalkCloses | src/BitmapToVector/Internal/decompose.c.cs:216-231 | A finished walk is closed: its points go in unit steps and come back to the start. Its sign is the argument and its area at most int.MaxValue. |
| Walk.WalkPrefix | src/BitmapToVector/Internal/decompose.c.cs:217-221 | The points recorded so far, then the current point, begin the final path. |
| Walk.TracedIsClosedWalk | src/BitmapToVector/Internal/decompose.c.cs:199-272 | `findpath`'s path is a closed unit-step walk from (x0, y0) whose second point is straight below it. It has the given sign and a clamped area. |
| Erase.Span | src/BitmapToVector/Internal/decompose.c.cs:112-131 | The mask of word c that covers columns [lo, hi). |
| Erase.ToggledPixel | src/BitmapToVector/Internal/decompose.c.cs:112-131 | Toggling row y over [lo, hi) flips exactly the pixels (px, y) with lo <= px < hi. |
| Erase.ToggledMerge | src/BitmapToVector/Internal/decompose.c.cs:117-129 | Toggling [a, m) and then [m, b) toggles [a, b): the whole words and the partial word combine. |
| Erase.ToggledCommute | src/BitmapToVector/Internal/decompose.c.cs:150-158 | Toggles of two ranges commute. |
| Erase.ToggledTwice | src/BitmapToVector/Internal/decompose.c.cs:112-131 | Toggling the same range twice restores the buffer. |
| Erase.XorToRef | src/BitmapToVector/Internal/decompose.c.cs:112-131 | `xor_to_ref(x, y, xa)` toggles exactly row y over [min(x, xa), max(x, xa)). |
| Erase.XorPath | src/BitmapToVector/Internal/decompose.c.cs:141-161 | The buffer becomes the old one with the path's runs applied: one `xor_to_ref` per change of y, against column xa. |
| Erase.AppliedPixel | src/BitmapToVector/Internal/decompose.c.cs:141-161 | After `xor_path`, a pixel is inverted if and only if an odd number of the path's runs cover it. |
| Erase.AppliedTwice | src/BitmapToVector/Internal/decompose.c.cs:141-161 | Applying the same runs twice restores the buffer. |
| Erase.XorPathTwice | src/BitmapToVector/Internal/decompose.c.cs:141-161 | Applying `xor_path` with the same path twice restores the bitmap. |
| Erase.XorPathKeepsExcess | src/BitmapToVector/Internal/decompose.c.cs:141-161 | For a path inside the bitmap, `xor_path` leaves the padding bits clear. |
| Decompose.FindNext | src/BitmapToVector/Internal/decompose.c.cs:425-448 | Return 0: (x, y) is black and in the searched region, and no black pixel comes earlier in scan order. The scan takes rows from *yp down, each left to right, and starts at the word holding *xp. Return 1: there is no black pixel in that region. |
| Decompose.ScanRow | src/BitmapToVector/Internal/decompose.c.cs:433-443 | Either it finds the first black pixel from x0 on in the row, or the row has none from x0 on. |
| Decompose.TestWord | src/BitmapToVector/Internal/decompose.c.cs:434 | With the padding clear, a non-zero word holds a black pixel, and a zero word means its 64 pixels are white. |
| Decompose.FirstBlack | src/BitmapToVector/Internal/decompose.c.cs:435-437 | The `while` stops at the first black pixel at or after x0. |
| Decompose.StepKeepsBlack | src/BitmapToVector/Internal/decompose.c.cs:224-260 | Each step keeps the pixel ahead and to the right black, so the walk stays within [0, W] x [0, H] and no coordinate wraps. |
| Decompose.TracedWithin | src/BitmapToVector/Internal/decompose.c.cs:474 | A path traced from a black pixel of the bitmap is a closed walk that lies inside the bitmap. |
| Decompose.AppendNew | src/BitmapToVector/Internal/decompose.c.cs:483 | A new path goes at the tail of the list, and the hook moves to its `Next`. |
| Decompose.Survivors | src/BitmapToVector/Internal/decompose.c.cs:480-484 | The kept paths of a run: those whose area is above TurdSize, in the order found. There are at most as many as turns. |
| Decompose.FirstFoundUnique | src/BitmapToVector/Internal/decompose.c.cs:425-448 | `findnext` from one start has one answer. |
| Decompose.MeetsUnique | src/BitmapToVector/Internal/decompose.c.cs:469-477 | One turn from one working picture and start meets one component: its pixel is `findnext`'s answer and its path `findpath`'s. |
| Decompose.LastUnique | src/BitmapToVector/Internal/decompose.c.cs:466-489 | Two runs that agree before their last turn agree on it. |
| Decompose.DecomposesUnique | src/BitmapToVector/Internal/decompose.c.cs:466-489 | The loop is deterministic: of two runs on one picture, the shorter is a prefix of the longer. |
| Decompose.DecomposesPrefix | src/BitmapToVector/Internal/decompose.c.cs:466-489 | Every prefix of a run is a run. |
| Decompose.TurnOf | src/BitmapToVector/Internal/decompose.c.cs:469-477 | Turn n of a run meets its component in the picture the first n turns left, from the pixel of turn n-1. |
| Decompose.MeetsFinds | src/BitmapToVector/Internal/decompose.c.cs:469 | A turn that meets a component had a black pixel for `findnext` to find. |
| Decompose.MoreFound | src/BitmapToVector/Internal/decompose.c.cs:469 | A run that a longer run extends is not exhausted: the loop would go on. |
| Decompose.ExhaustedUnique | src/BitmapToVector/Internal/decompose.c.cs:466-489 | A complete run is fixed by the picture. Two exhausted runs on one picture are the same turns, so they keep the same paths. |
| Decompose.StalledAtBound | src/BitmapToVector/Internal/decompose.c.cs:469 | With all turns used and a pixel still found, the run has stalled. |
| Decompose.DecomposesSnoc | src/BitmapToVector/Internal/decompose.c.cs:469-484 | A run extends by a turn that meets its component. The working picture gets that path XORed out, the next `findnext` starts at the turn's pixel, and the kept paths gain the path unless it is a turd. |
| Decompose.BmToPathlist | src/BitmapToVector/Internal/decompose.c.cs:450-498 | Intended: the input bitmap is never written. `found` is a run of the loop on the input picture (`Decomposes`), and the paths are its survivors in order. With `ok`, `findnext` finds nothing after the last turn (`Exhausted`), so by ExhaustedUnique the paths are fixed by the picture. Every kept path has area > TurdSize, and its sign is '+' exactly when the original pixel above its first point is black. The final list holds every path exactly once, and `ChildList`/`Sibling` form a forest. Without `ok`, the run has stalled (`Stalled`): the next component's walk or the turns ran out of the step bound. |
| Decompose.WorkingCopy | src/BitmapToVector/Internal/decompose.c.cs:460-464 | `bm_dup` then `bm_clearexcess`: a fresh bitmap showing the same picture, with its padding clear. |
| Decompose.Components | src/BitmapToVector/Internal/decompose.c.cs:466-469 | A fresh list, then the first `findnext` from (0, H-1), then the loop. Same results as BmToPathlist, for the working picture. |
| Decompose.Sweep | src/BitmapToVector/Internal/decompose.c.cs:469-489 | The `while (findnext(...) == 0)` loop. `found` is a run and the list holds its survivors in order, with the turd filter and signs as above. It ends exhausted with `ok` and stalled without. |
| Decompose.Seek | src/BitmapToVector/Internal/decompose.c.cs:469 | `findnext` on a bitmap showing a picture: (x, y) is its first black pixel from the start, or there is none. |
| Decompose.Advance | src/BitmapToVector/Internal/decompose.c.cs:469-484 | One loop turn read against the run: the run grows by one turn that meets its component, and the paths stay its survivors. Otherwise the run has stalled and nothing is kept. |
| Decompose.Visit | src/BitmapToVector/Internal/decompose.c.cs:469-485 | One component: it is traced exactly when `findpath` closes. The turn then meets component c, c's path is XORed out of the copy, the paths gain c's path unless it is a turd, and the next `findnext` answer is stated for the new picture. The list invariants hold afterwards. |
| Decompose.TraceTurn | src/BitmapToVector/Internal/decompose.c.cs:471-477 | The sign comes from the original bitmap, and the path is `Traced` from (x, y+1) on the working picture. When it closes, the turn meets that component and the copy shows the picture with the path XORed out. |
| Decompose.Keep | src/BitmapToVector/Internal/decompose.c.cs:480-484 | A kept path is appended to the path list. |
| Decompose.TraceComponent | src/BitmapToVector/Internal/decompose.c.cs:474-477 | The path is `findpath`'s `Traced` walk from (x, y+1) on the working picture. It is then XORed out: the copy shows that picture with the path's interior inverted, and its padding stays clear. |
| PathTree.Cut | src/BitmapToVector/Internal/decompose.c.cs:338-346 | The loop stops at the first path that starts at or above head's bbox y0. Every earlier path starts below it. |
| PathTree.KeepCounts | src/BitmapToVector/Internal/decompose.c.cs:347-351 | The insideness test splits the scanned paths into inside and outside, losing none and duplicating none. |
| PathTree.SplitByCut | src/BitmapToVector/Internal/decompose.c.cs:338-352 | The intended split: the paths before the cut go inside or outside, and the cut path and all that follow go outside. |
| PathTree.SplitKeeps | src/BitmapToVector/Internal/decompose.c.cs:338-352 | Inside and outside together are a permutation of the sublist. |
| PathTree.SplitInside | src/BitmapToVector/Internal/decompose.c.cs:347-349 | A path is put inside only if the scratch pixel above its first point is black after head is rendered, and it starts below head's y0. |
| PathTree.AsWrittenByCut | src/BitmapToVector/Internal/decompose.c.cs:341-345 | As written: the split keeps only the cut path itself on the outside, not the paths that follow it. |
| PathTree.AsWrittenKeeps | src/BitmapToVector/Internal/decompose.c.cs:341-345 | As written, inside and outside together are the sublist up to and including the cut path. |
| PathTree.AsWrittenDropsPath | src/BitmapToVector/Internal/decompose.c.cs:344 | Three paths starting at y 9, 6 and 3, with a cut at y0 = 7: the source keeps path 1 but loses path 2, where the intended split keeps both. |
| PathTree.Place | src/BitmapToVector/Internal/decompose.c.cs:347-351 | Inserting through a hook appends p to that list, leaves the other list and the unscanned rest intact, and changes no other link. |
| PathTree.SplitStep | src/BitmapToVector/Internal/decompose.c.cs:338-352 | One iteration either stops at the cut with both lists as built, or files p and moves on. |
| PathTree.Assign | src/BitmapToVector/Internal/decompose.c.cs:347-351 | Filing p inside or outside extends the matching list, and no link outside the sublist changes. |
| PathTree.SplitLoop | src/BitmapToVector/Internal/decompose.c.cs:338-352 | Before the cut, the inside and outside lists hang from head's `ChildList` and `Next`, and the loop reports the cut path and the rest. |
| PathTree.AttachRemainder | src/BitmapToVector/Internal/decompose.c.cs:342-344 | Intended: the cut path and the rest of the sublist are appended to the outside list. |
| PathTree.AttachAsWritten | src/BitmapToVector/Internal/decompose.c.cs:342-344 | As written: only the cut path is appended, because the hook is rebound to the local `cur`. |
| PathTree.Partition | src/BitmapToVector/Internal/decompose.c.cs:338-352 | Intended: head's `ChildList` is the inside part of the split and head's `Next` the outside part. Links outside the sublist are unchanged. |
| PathTree.PartitionAsWritten | src/BitmapToVector/Internal/decompose.c.cs:338-352 | As written: the lists are the as-written split, which loses the paths after the cut path. |
| Grow.Unlink | src/BitmapToVector/Internal/decompose.c.cs:319-326 | Intended: the first sublist and its first path are unlinked: head's `Next` and `ChildList` become null. |
| Grow.SplitHead | src/BitmapToVector/Internal/decompose.c.cs:328-352 | Intended: y0 is head's lowest y. The picture the split tests against is the bitmap before the call with head's interior inverted (the pixels inside an odd number of its runs), which is what `xor_path` leaves in the working copy. The rest of the sublist is split against that picture into inside, under `ChildList`, and outside, under `Next`, a permutation of the rest. Links of paths outside the sublist are unchanged. Each turn leaves the scratch bitmap white, when it started white: `clear_bm_with_bbox` at line 355 undoes the `xor_path` of line 329. |
| Grow.RenderHead | src/BitmapToVector/Internal/decompose.c.cs:329-330 | Intended: the bbox is the head's bounding box. The picture is the old bitmap with the head's interior inverted, and on a white scratch bitmap every black pixel lies in that interior. |
| Grow.XoredOddOnly | src/BitmapToVector/Internal/decompose.c.cs:329 | `xor_path` on a white bitmap leaves black only pixels covered by an odd number of the path's runs. |
| Grow.RunsInBox | src/BitmapToVector/Internal/decompose.c.cs:329-355 | Every pixel `xor_path` inverts lies in the rows and words `clear_bm_with_bbox` clears for the path's bounding box, when the end column does not wrap. |
| Grow.ClearedBlank | src/BitmapToVector/Internal/decompose.c.cs:355 | Clearing the path's box after `xor_path` leaves the bitmap white, when its black pixels were all in the path's interior and the end column does not wrap. |
| Grow.TakeTurn | src/BitmapToVector/Internal/decompose.c.cs:319-366 | Intended: one turn unlinks the head, splits the rest of its sublist into the inside and outside lists and schedules them, changes no link outside the sublist, and keeps the scratch bitmap white. |
| Grow.Schedule | src/BitmapToVector/Internal/decompose.c.cs:359-366 | Intended: head's outside list and then its inside list are pushed onto the heap, through `ChildList`, when non-empty. |
| Grow.GrowStep | src/BitmapToVector/Internal/decompose.c.cs:317-367 | Intended: one turn of the heap loop adds head to the processed paths and keeps the growth invariant. The scratch bitmap stays white. |
| Grow.SaveLinks | src/BitmapToVector/Internal/decompose.c.cs:303-306 | Intended: `Sibling` takes each listed path's `Next`, and its `ChildList` is cleared. |
| Grow.SavePath | src/BitmapToVector/Internal/decompose.c.cs:304-305 | Intended: the action for one path. |
| Grow.GrowStart | src/BitmapToVector/Internal/decompose.c.cs:308 | Intended: with the whole list as the one sublist, the growth invariant holds at the start. |
| Grow.GrowBound | src/BitmapToVector/Internal/decompose.c.cs:317 | Intended: each turn processes a new path, so the loop ends after at most n turns. |
| Grow.GrownForest | src/BitmapToVector/Internal/decompose.c.cs:317-367 | Intended: when the heap is empty, every path has been processed once and `Next`/`ChildList` form a forest. |
| Grow.GrowLoop | src/BitmapToVector/Internal/decompose.c.cs:317-367 | Intended: the heap loop ends with `Next`/`ChildList` forming a forest rooted at the first path. The scratch bitmap, white from `bm_clear` at line 300, stays white through every turn, so each split tests against the head's interior alone. |
| Grow.GrowTree | src/BitmapToVector/Internal/decompose.c.cs:300-367 | Intended: `Sibling` holds the original `Next` links, and `Next`/`ChildList` form a forest. The scratch bitmap ends white. |
| Relink.CopySiblings | src/BitmapToVector/Internal/decompose.c.cs:370-375 | Walking the saved list, each path's `Sibling` takes its `Next`. |
| Relink.Append | src/BitmapToVector/Internal/decompose.c.cs:390 | A positive path is appended to the new list. |
| Relink.Defer | src/BitmapToVector/Internal/decompose.c.cs:398-410 | A child's non-empty `ChildList` is appended to the end of the heap. |
| Relink.HeapEnd | src/BitmapToVector/Internal/decompose.c.cs:400-409 | The hook loop stops at the heap's last `Next`, or at `heap1` when the heap is empty. |
| Relink.EmitChild | src/BitmapToVector/Internal/decompose.c.cs:393-411 | A child is appended to the new list, and its children are deferred. |
| Relink.EmitChildren | src/BitmapToVector/Internal/decompose.c.cs:393-411 | All of p's children, in `Sibling` order, are appended after p. |
| Relink.EmitGroup | src/BitmapToVector/Internal/decompose.c.cs:387-412 | One heap entry: its siblings and their children are emitted, and the output grows. |
| Relink.Rebuild | src/BitmapToVector/Internal/decompose.c.cs:382-415 | Intended: the rebuilt `Next` list starts at the first path and holds every path exactly once. |
| Relink.PathlistToTree | src/BitmapToVector/Internal/decompose.c.cs:290-418 | Intended: the output list is a permutation of the input list, and `ChildList`/`Sibling` form a forest. |
| Relink.FirstPhase | src/BitmapToVector/Internal/decompose.c.cs:300-367 | Intended: after the heap loop, `Sibling` lists the input in order, and `Next`/`ChildList` form a forest. `bm_clear` leaves the scratch bitmap white, and it ends white. |
| Relink.SecondPhase | src/BitmapToVector/Internal/decompose.c.cs:369-415 | Intended: copying siblings and rebuilding gives a permutation of the input, and the forest moves to `ChildList`/`Sibling`. |
| Trace.Steps | src/BitmapToVector/Internal/trace.c.cs:69-75 | The forward distance from a to b on a cycle of n lies in [0, n). |
| Trace.StepsAreMod | src/BitmapToVector/Internal/trace.c.cs:69-75 | That distance is `mod(b - a, n)`. |
| Trace.CyclicArc | src/BitmapToVector/Internal/trace.c.cs:69-75 | `cyclic(a, b, c)` holds if and only if b is fewer steps ahead of a than c is: b lies in the half-open arc from a to just before c. |
| Trace.XProd | src/BitmapToVector/Internal/trace.c.cs:168-172 | `xprod` is an int, and it is the exact cross product whenever that fits. |
| Trace.Wrap32Congruent | src/BitmapToVector/Internal/trace.c.cs:170 | Values congruent modulo 2^32 cast to the same int. |
| Trace.XProdAsLong | src/BitmapToVector/Internal/trace.c.cs:170 | The long products, the long difference and the int cast together are the cross product cut to 32 bits. |
| Trace.PrefixDifference | src/BitmapToVector/Internal/trace.c.cs:488-493 | `sums[j] - sums[i]` is the sum of the terms of points i..j-1, which is how `penalty3` uses the sums. |
| Trace.BetweenSnoc | src/BitmapToVector/Internal/trace.c.cs:285-291 | A stretch grows at its end by the next point's term. |
| Trace.WrappedStretch | src/BitmapToVector/Internal/trace.c.cs:494-499 | `sums[j] - sums[i] + sums[n]` is the sum over a stretch that wraps past the end of the path. |
| Trace.CalcSums | src/BitmapToVector/Internal/trace.c.cs:273-295 | It returns 0. (x0, y0) is the first point cast to int, sums has len+1 entries, and sums[i] is the sum of the terms (x, y, x², xy, y²) of the first i points. |
| Trace.PrefixSums | src/BitmapToVector/Internal/trace.c.cs:284-292 | The loop fills the prefix sums. |
| Trace.FirstTermZero | src/BitmapToVector/Internal/trace.c.cs:280-284 | The first point is the origin, so sums[1] is zero too. |
| Lon.NextCorners | src/BitmapToVector/Internal/trace.c.cs:347-353 | nc[i] points to the next corner: points i..nc[i]-1 share an x or y with it, nc[n-1] = 0, and each entry is either the next one's or i+1. |
| Lon.CornersStep | src/BitmapToVector/Internal/trace.c.cs:348-352 | One iteration of the backward loop extends the corner invariant. |
| Lon.DirIndex | src/BitmapToVector/Internal/trace.c.cs:364-377 | `(3+3dx+dy)/2` lies in 0..3, so `ct[dir]` stays in bounds. |
| Lon.AxisDirections | src/BitmapToVector/Internal/trace.c.cs:364-377 | The four unit axis steps get the four distinct indices 0..3. |
| Lon.OffsetsAdmitCorner | src/BitmapToVector/Internal/trace.c.cs:398-406 | Both offsets of a corner admit that corner itself: lower bound x cur >= 0 and upper bound x cur <= 0. |
| Lon.AsWrittenMergesBounds | src/BitmapToVector/Internal/trace.c.cs:398-406 | As written: after the first update both constraints are the shared `off` object, holding the second offset. |
| Lon.AsWrittenStaysMerged | src/BitmapToVector/Internal/trace.c.cs:367-406 | Once merged, the constraints stay one object. The reset at the next i zeroes it, so both bounds read (0, 0). |
| Lon.AsWrittenRejectsStraight | src/BitmapToVector/Internal/trace.c.cs:381-406 | Corners (3, 1) then (6, 2) lie on one line through i. The intended bounds admit (6, 2), and the aliased ones reject it. |
| Lon.IntendedAdmits | src/BitmapToVector/Internal/trace.c.cs:381-406 | With separate constraint objects, (6, 2) satisfies the bounds set by (3, 1). |
| Lon.AsWrittenExcludes | src/BitmapToVector/Internal/trace.c.cs:381-406 | With the aliased objects, (6, 2) violates the bounds set by (3, 1). |
| Lon.IntendedBounds | src/BitmapToVector/Internal/trace.c.cs:398-406 | The separate bounds after (3, 1) are (4, 0) and (2, 2). |
| Lon.AsWrittenBounds | src/BitmapToVector/Internal/trace.c.cs:398-406 | The aliased bounds after (3, 1) are both (2, 2). |
| Lon.ReachLargest | src/BitmapToVector/Internal/trace.c.cs:426-439 | j is the largest integer, capped at INFTY when b >= 0, with a + j·b >= 0 and c + j·d <= 0. |
| Lon.FloorDivLargest | src/BitmapToVector/Internal/trace.c.cs:432-438 | `floordiv(a, m)` is the largest q with a - q·m >= 0. |
| Lon.LastAlong | src/BitmapToVector/Internal/trace.c.cs:413-439 | When the four cross products do not wrap, the point j steps from k1 toward k lies within both bounds. The next point violates one of them, unless j is capped at INFTY. |
| Lon.PivotAfter | src/BitmapToVector/Internal/trace.c.cs:439 | `pivk[i] = mod(k1 + j, n)` lies in [0, n). |
| Lon.Bump | src/BitmapToVector/Internal/trace.c.cs:377-378 | `ct[dir]++` adds one to the count of direction dir and leaves the other three. |
| Lon.Walk | src/BitmapToVector/Internal/trace.c.cs:372-414 | Intended: the inner loop as a function of its state (k, k1, the bounds, the counts). Its stop point and last corner are indices of the path. |
| Lon.Onward | src/BitmapToVector/Internal/trace.c.cs:375-413 | Intended: one pass of the inner loop with fuel left. Its stop point and last corner are indices of the path. |
| Lon.WalkStops | src/BitmapToVector/Internal/trace.c.cs:380-413 | Intended: a walk that stops with all directions has all four counts non-zero. A walk stopped by the bounds ends at a corner that violates them, or at a next corner outside the arc from i. |
| Lon.TightenAdmits | src/BitmapToVector/Internal/trace.c.cs:394-408 | Intended: tightening the bounds by a corner they admit gives bounds that still admit it. |
| Lon.UnitShiftExact | src/BitmapToVector/Internal/trace.c.cs:394-408 | An offset one unit away in each axis from a corner below 2^30 has an exact `xprod` with that corner. |
| Lon.WalkAdmits | src/BitmapToVector/Internal/trace.c.cs:372-414 | Intended: for points below 2^30, the last corner taken, k1, satisfies the bounds at every stop. This is where the pivot search starts. |
| Lon.WalkAll | src/BitmapToVector/Internal/trace.c.cs:380-384 | Intended: a pass after which all four counts are non-zero ends the walk at k, with k1 taken. |
| Lon.WalkBlocked | src/BitmapToVector/Internal/trace.c.cs:389-392 | Intended: a pass whose corner k violates the bounds ends the walk there. |
| Lon.WalkLeaves | src/BitmapToVector/Internal/trace.c.cs:409-413 | Intended: a pass that takes k, when nc[k] leaves the arc from i, ends the walk at nc[k], with k taken and the bounds tightened. |
| Lon.WalkOn | src/BitmapToVector/Internal/trace.c.cs:394-413 | Intended: a pass that takes k and stays on the arc continues the walk from nc[k], with k taken and the bounds tightened. |
| Lon.WalkEmpty | src/BitmapToVector/Internal/trace.c.cs:375 | A walk without fuel stops where it is. |
| Lon.StartCount | src/BitmapToVector/Internal/trace.c.cs:361-365 | The counts start at zero, plus one for the direction of the step from i to i+1. |
| Lon.Count | src/BitmapToVector/Internal/trace.c.cs:378 | The array's counts become `Bump` of the old counts. |
| Lon.Step | src/BitmapToVector/Internal/trace.c.cs:375-413 | Intended: one pass of the `while (true)` body advances the walk by one hop: either it reports the stop the walk makes, or the new state from which the rest of the walk is the same. |
| Lon.Hops | src/BitmapToVector/Internal/trace.c.cs:360-414 | Intended: the inner loop for point i returns exactly the stop, k, k1, bounds and counts of the walk from i (`WalkFrom`). |
| Lon.FirstDir | src/BitmapToVector/Internal/trace.c.cs:364 | The first step's direction index lies in 0..3. |
| Lon.Pivot | src/BitmapToVector/Internal/trace.c.cs:380-440 | Intended: `pivk[i]` is k1 when the walk met all four directions, and otherwise the pivot past k1. It lies in [0, n). |
| Lon.BlockedReach | src/BitmapToVector/Internal/trace.c.cs:415-439 | Intended: from a last corner k1 that the bounds admit, the pivot is the furthest point of the stretch from k1 toward k that the bounds admit (`FurthestAlong`). |
| Lon.PivotReach | src/BitmapToVector/Internal/trace.c.cs:360-439 | Intended: for points below 2^30, when the walk from i is stopped by the bounds, `pivk[i]` is the furthest point along the straight stretch past its last corner that the bounds admit. |
| Lon.PivotOfHop | src/BitmapToVector/Internal/trace.c.cs:380-440 | Intended: a walk finishes exactly when it does not run out of fuel. Its pivot is k1 after all four directions, and otherwise the reach past k1. |
| Lon.Pivots | src/BitmapToVector/Internal/trace.c.cs:360-442 | Intended: `ok` holds exactly when every walk finishes, and then every `pivk[i]` is `Pivot` of point i. |
| Lon.NearestPivots | src/BitmapToVector/Internal/trace.c.cs:447-454 | The backward pass sets lon[n-1] = pivk[n-1]. Each lon[i] is pivk[i] when that is cyclically nearer, else lon[i+1]. All lie in [0, n). |
| Lon.WrapPivots | src/BitmapToVector/Internal/trace.c.cs:456-458 | The wrap-around pass replaces a suffix of lon by j, exactly the entries for which `cyclic(i+1, j, lon[i])` holds, and stops at the first that fails. |
| Lon.CalcLon | src/BitmapToVector/Internal/trace.c.cs:327-461 | Intended: the path's other fields are unchanged, lon is a fresh array of length n, and every lon[i] lies in [0, n). |
| Polygon.ClipAt | src/BitmapToVector/Internal/trace.c.cs:543-553 | For n >= 2, `clip0[i]` satisfies i < clip0[i] <= n, and it is n for i = n-1. For n = 1 it is 0. |
| Polygon.Clip0 | src/BitmapToVector/Internal/trace.c.cs:543-553 | The loop fills clip0 with `ClipAt`. |
| Polygon.ClipsAdvance | src/BitmapToVector/Internal/trace.c.cs:543-553 | For n >= 2, every clip0[i] moves strictly forward and stays within n. |
| Polygon.Clip1 | src/BitmapToVector/Internal/trace.c.cs:557-563 | clip1[j] is the least i with j <= clip0[i]. |
| Polygon.Assign | src/BitmapToVector/Internal/trace.c.cs:559-562 | The `while` extends that table up to clip0[i]. |
| Polygon.ClipsAgree | src/BitmapToVector/Internal/trace.c.cs:555-556 | For monotone clip0, j <= clip0[i] if and only if clip1[j] <= i. |
| Polygon.Seg0 | src/BitmapToVector/Internal/trace.c.cs:566-572 | seg0 is the greedy chain 0 → clip0 → … → n, of m segments. It always ends when clip0 advances. For n = 1, where clip0[0] = 0, the chain never advances. The source then writes past the end of seg0 and throws IndexOutOfRangeException; the model reports this as `ok` = false. |
| Polygon.FewestSegments | src/BitmapToVector/Internal/trace.c.cs:565-572 | For monotone clip0, no allowed chain from 0 to n has fewer segments than m. |
| Polygon.AheadOf | src/BitmapToVector/Internal/trace.c.cs:565-572 | After t segments, the greedy chain is at least as far as any allowed chain. |
| Polygon.Seg1 | src/BitmapToVector/Internal/trace.c.cs:574-580 | seg1 is the chain back from n through clip1, with seg1[0] = 0. |
| Polygon.LayersOrdered | src/BitmapToVector/Internal/trace.c.cs:586-588 | seg1[j] <= seg0[j]: each layer of the DP is non-empty. |
| Polygon.LayersDisjoint | src/BitmapToVector/Internal/trace.c.cs:586-588 | For monotone clip0, the layers are disjoint and in order: seg0[j-1] < seg1[j]. |
| Polygon.Relax | src/BitmapToVector/Internal/trace.c.cs:589-596 | best is the least penalty(k, i) + pen[k] over k in [clip1[i], seg0[j-1]], and prev[i] is the largest k that reaches it. It is -1 when the range is empty. |
| Polygon.SettleOne | src/BitmapToVector/Internal/trace.c.cs:588-598 | pen[i] and prev[i] are settled by `Relax`, and no other entry changes. |
| Polygon.Layer | src/BitmapToVector/Internal/trace.c.cs:588-599 | Every i of one layer is settled, entries outside it are unchanged, and prev stays in range. |
| Polygon.Layers | src/BitmapToVector/Internal/trace.c.cs:585-600 | pen[0] = 0, and every layer j = 1..m satisfies the recurrence: each pen[i] is the minimum over the previous layer. |
| Polygon.LayerAdded | src/BitmapToVector/Internal/trace.c.cs:587-599 | Settling layer j extends the recurrence from j-1 to j. |
| Polygon.ReadOff | src/BitmapToVector/Internal/trace.c.cs:604-608 | The read-off follows prev back from n. po[m-s] is the s-th step back, and it reports whether 0 is reached within m steps. |
| Polygon.PolygonFound | src/BitmapToVector/Internal/trace.c.cs:585-608 | For monotone clip0, following prev from n reaches 0 in exactly m steps, through an allowed and strictly increasing chain. |
| Polygon.WalkShape | src/BitmapToVector/Internal/trace.c.cs:601-608 | A chain back from n that stays within the layers is allowed, increasing, and reaches 0 exactly at step m. |
| Polygon.ReadOffWalk | src/BitmapToVector/Internal/trace.c.cs:601-608 | When 0 is first reached at step m, `po` followed by n is exactly the walk back. |
| Polygon.ReadPolygon | src/BitmapToVector/Internal/trace.c.cs:601-608 | The read-off method gives that walk. |
| Polygon.Shortest | src/BitmapToVector/Internal/trace.c.cs:541-600 | The tables, from lon up to prev. For n = 1 it fails. For n != 1 with monotone clip0, it succeeds and prev encodes a best path of m <= n segments. |
| Polygon.ShortestFound | src/BitmapToVector/Internal/trace.c.cs:541-600 | The facts about the tables combine into the best-path property. |
| Polygon.Seg1Of | src/BitmapToVector/Internal/trace.c.cs:574-580 | seg1 computed from clip1 and m, together with the facts the DP needs. |
| Polygon.BestPolygon | src/BitmapToVector/Internal/trace.c.cs:521-610 | pp.m and a fresh pp.po of m entries in [0, n]. For n = 1 it fails. For n != 1 with monotone clip0, `po` followed by n is an allowed, strictly increasing chain from po[0] = 0 with the fewest segments. |
| OptiCurve.Reversed | src/BitmapToVector/Internal/trace.c.cs:804-814 | The reversal of a sequence has its length. |
| OptiCurve.ReversedAt | src/BitmapToVector/Internal/trace.c.cs:804-814 | Entry k of the reversal is entry n-1-k. |
| OptiCurve.ReversedTwice | src/BitmapToVector/Internal/trace.c.cs:804-814 | Reversing twice gives the original. |
| OptiCurve.Reverse | src/BitmapToVector/Internal/trace.c.cs:804-814 | The first n vertices are reversed in place, and the rest of the array and n are unchanged. |
| OptiCurve.ReverseTwice | src/BitmapToVector/Internal/trace.c.cs:804-814 | Two calls of `reverse` restore the vertex array. |
| OptiCurve.OptiS.constructor | src/BitmapToVector/Internal/trace.c.cs:870-875 | A fresh `opti_s` holds zeros. |
| OptiCurve.OptiS.Store | src/BitmapToVector/Internal/trace.c.cs:954-963 | A call of `opti_penalty` that reaches its writes overwrites the object's fields with its result. |
| OptiCurve.Default | src/BitmapToVector/Internal/trace.c.cs:1079-1081 | Column j starts from j-1: pt = j-1, one more segment, and the same penalty plus no join. |
| OptiCurve.Joined | src/BitmapToVector/Internal/trace.c.cs:1088-1091 | A join from i: pt = i, len[i]+1 segments, and pen[i] plus the join's penalty. |
| OptiCurve.Scan | src/BitmapToVector/Internal/trace.c.cs:1083-1093 | The inner loop over i = j-2 down to 0 stops at the first failing `opti_penalty`. It also gives what the shared result object holds afterwards. |
| OptiCurve.After | src/BitmapToVector/Internal/trace.c.cs:880-1016 | A successful call leaves its result in the object. A call that fails before its writes leaves the object as it was. |
| OptiCurve.Columns | src/BitmapToVector/Internal/trace.c.cs:1071-1095 | The tables for columns 0..j, with column 0 the start (-1, 0, 0). |
| OptiCurve.ScanPicks | src/BitmapToVector/Internal/trace.c.cs:1083-1093 | A column is its default or a join from some earlier i whose `opti_penalty` succeeded, with that call's parameters. |
| OptiCurve.ColumnsLinked | src/BitmapToVector/Internal/trace.c.cs:1077-1095 | Every column points to an earlier one, with one segment more and its penalty added. So following pt from m reaches 0 in len[m] steps. |
| OptiCurve.FewerSegments | src/BitmapToVector/Internal/trace.c.cs:1077-1095 | len[k] <= k for every column, so om = len[m] <= m. |
| OptiCurve.ScanBest | src/BitmapToVector/Internal/trace.c.cs:1083-1093 | The scan's result is no worse, fewer segments first and then less penalty, than the default and every join it examined. |
| OptiCurve.ColumnBest | src/BitmapToVector/Internal/trace.c.cs:1077-1093 | Column j is no worse than its default and than every join from the i its scan reached. |
| OptiCurve.ScanColumn | src/BitmapToVector/Internal/trace.c.cs:1083-1093 | The loop writes column j as `Scan` gives it, and it leaves the other columns unchanged. |
| OptiCurve.OptiTables | src/BitmapToVector/Internal/trace.c.cs:1071-1095 | The intended tables: pt, pen, len and opt hold `Columns`. Each opt[j] holds a copy of its own parameters. |
| OptiCurve.NewTables | src/BitmapToVector/Internal/trace.c.cs:1040-1073 | Fresh tables of m+1 entries, with column 0 the start. |
| OptiCurve.Column | src/BitmapToVector/Internal/trace.c.cs:1077-1094 | One outer iteration appends column j. |
| OptiCurve.OptiTablesAsWritten | src/BitmapToVector/Internal/trace.c.cs:1071-1095 | As written: pt, pen and len are the same. Every joined column's opt[j] is the one shared object o, and copied ones are null. |
| OptiCurve.NewTablesAsWritten | src/BitmapToVector/Internal/trace.c.cs:1040-1043 | The as-written tables start with opt all null. |
| OptiCurve.ColumnAsWritten | src/BitmapToVector/Internal/trace.c.cs:1077-1094 | One as-written outer iteration: `opt[j] = o` stores the reference. |
| OptiCurve.Interval | src/BitmapToVector/Internal/auxiliary.h.cs:34-40 | `interval(0, a, b)` is a and `interval(1, a, b)` is b. |
| OptiCurve.Out | src/BitmapToVector/Internal/trace.c.cs:1103-1123 | A copied column keeps its input segment. A joined one is a CURVETO with the input's end point and alpha = alpha0 = the join's alpha. |
| OptiCurve.Walk | src/BitmapToVector/Internal/trace.c.cs:1101-1125 | s steps back along pt from m reach a column with len[m]-s segments. |
| OptiCurve.WalkEnds | src/BitmapToVector/Internal/trace.c.cs:1101-1125 | The walk back strictly decreases and reaches 0 after exactly om steps. |
| OptiCurve.Segs | src/BitmapToVector/Internal/trace.c.cs:1022 | The segments of a curve, read off its arrays. |
| OptiCurve.OwnParameters | src/BitmapToVector/Internal/trace.c.cs:1092 | In the intended tables, each column keeps its own parameters. |
| OptiCurve.PutSegment | src/BitmapToVector/Internal/trace.c.cs:1103-1124 | Output segment i gets `Out`, and s[i] and t[i] get 1.0 or the join's s and t. Nothing else changes. |
| OptiCurve.EmitStep | src/BitmapToVector/Internal/trace.c.cs:1101-1125 | Writing segment i extends the part of the output already emitted. |
| OptiCurve.ReadOffCurve | src/BitmapToVector/Internal/trace.c.cs:1098-1126 | Every output segment i is `Out` of the column the walk reaches after om-1-i steps back, read with the given parameters. |
| OptiCurve.Emit | src/BitmapToVector/Internal/trace.c.cs:1102-1125 | One read-off iteration writes segment i and steps back along pt. |
| OptiCurve.Plan | src/BitmapToVector/Internal/trace.c.cs:1071-1096 | The intended tables from a fresh `opti_s`: linked columns and om = len[m] <= m, each column with its own parameters. |
| OptiCurve.Assemble | src/BitmapToVector/Internal/trace.c.cs:1097-1135 | `privcurve_init(om)`, then the read-off, then alphacurve = 1. Every segment is the intended one. |
| OptiCurve.Opticurve | src/BitmapToVector/Internal/trace.c.cs:1021-1136 | Intended: it returns 0 and ocurve has om = len[m] <= m segments. Each is copied from the input or is the join with its own parameters, and alphacurve is 1. |
| OptiCurve.SharedParameters | src/BitmapToVector/Internal/trace.c.cs:1092 | As written: every joined column reads the shared object's final contents. |
| OptiCurve.Deref | src/BitmapToVector/Internal/trace.c.cs:1109-1122 | What the read-off sees through each `opt[j]`. |
| OptiCurve.OpticurveAsWritten | src/BitmapToVector/Internal/trace.c.cs:1021-1136 | As written: the same segment count, but every joined segment gets the parameters of the last `opti_penalty` call. |
| OptiCurve.PlanAsWritten | src/BitmapToVector/Internal/trace.c.cs:1071-1096 | As written: the same pt and len, and the read-off sees the shared parameters. |
| OptiCurve.AssembleWith | src/BitmapToVector/Internal/trace.c.cs:1097-1135 | The read-off with any given parameters per column. |
| OptiCurve.SharedParametersDiffer | src/BitmapToVector/Internal/trace.c.cs:1092 | A three-segment curve where the best curve is the join from 0 to 2, then the segment from 2 to 3. The as-written join gets alpha 0.75, left by the later call (1, 0); the intended one gets 1.0. |

## Left out

- Walk.FindPath: the source loops with `while (true)`. The model takes a step bound and returns none when it runs out, and then says nothing about the walk.
- Decompose.BmToPathlist: the component loop also has a step bound. When it runs out, `ok` is false: `Stalled` says where, and the list still holds the survivors of the turns made, but the tree is not built.
- Decompose.BmToPathlist: with `ok`, the model proves that `findnext` finds nothing after the last turn. It does not prove that the working copy is then blank, because the pixels before that point in scan order are not followed through each `xor_path`.
- Lon.CalcLon: the pivot search is bounded in the same way. Only when `ok` holds does it state that lon[i] lies in [0, n). Its own contract does not state that lon[i] is the end of the longest straight stretch; Lon.Pivots ties each `pivk[i]` to `Pivot`, Lon.PivotReach states the furthest-reach property of a pivot, and Lon.NearestPivots and Lon.WrapPivots state how lon is built from `pivk`.
- The as-written C# behaviour of the tree building in decompose.c.cs (the hook rebound to `cur`) and of calc_lon in trace.c.cs (the shared constraint object) is modelled only at PathTree.PartitionAsWritten, PathTree.AttachAsWritten and Lon.TightenAsWritten, with the lemmas listed under Findings. The rows marked "Intended:" state the corrected behaviour that the rest of the model uses.
- Polygon.BestPolygon and Polygon.Shortest: the optimal-polygon facts are proved under the hypothesis that clip0 is monotone. That this holds for every lon `calc_lon` can produce is not proved. Penalty minimality is stated per layer (`Bellman`), not as global optimality over all chains.
- Decompose.BmToPathlist and Relink.PathlistToTree: the tree is proved to be a forest, with the output list a permutation of the input. The "inside" relation is stated at each split (Grow.SplitHead, PathTree.Partition), not about the final forest. The order of the rebuilt list, each positive path followed by its children, is not stated.
- Grow.GrowStep, Grow.GrowLoop, Grow.GrowTree and Relink.FirstPhase: the white scratch bitmap is proved only for widths up to int.MaxValue - 63. Beyond that `(bbox.x1 + 63) / 64` in `clear_bm_with_bbox` (decompose.c.cs:70) can wrap, and the clear then misses words.
- OptiCurve.Opticurve: the loop that sets `beta[i] = s[i] / (s[i] + t[i+1])` after the read-off is not modelled, so the contract states the beta values the read-off leaves.
- OptiCurve.Opticurve: the precomputations of `convc` and `areac` are not modelled. They only feed `opti_penalty`.
- `penalty3`, `opti_penalty`, `pointslope`, `quadform`, `dpara`, `ddenom`, `cprod`, `iprod`, `bezier`, `tangent`, `adjust_vertices` and `smooth` are floating-point geometry. `penalty3` and `opti_penalty` are parameters, and the others are not part of this model. What `opti_penalty` leaves in its result object when it fails after its first writes is a parameter, like its result.
- `process_path` (trace.c.cs), `potracelib.c.cs`, `progress.h.cs`, `bbox.c.cs`, the SkiaSharp adapters and the demo app are not part of this model. Progress callbacks are dropped from `bm_to_pathlist`.
- `path_free`, `privcurve_free_members` and `pathlist_free` do nothing in C#. GC pinning, `Dispose` and the finalizer are runtime memory management.
- `bm_base` with a negative dy: every bitmap here comes from `bm_new`, whose dy is non-negative, so the buffer starts at `Map`.
- `LambdaProperty` and `ArrayExtensions.SetAll` are closure and initialisation machinery. They are replaced by the `Hook` datatype and plain array initialisation.
- `calc_sums` accumulates x, y, x², xy and y² in doubles. The model keeps them as exact integers. The doubles are exact only while every sum stays below 2^53, and rounding beyond that is not modelled.
- `QuantizeUnit` is an optional `nat`; the `uint` upper bound is not enforced.
- Bitmap.PotraceBitmap.constructor: the source leaves `MapArray` null in a bare bitmap. The model allocates an empty array instead, because the field is a non-null `array<Word>`.
- Bitmap.PotraceBitmap.Create and Bitmap.BmNew: the exception `getsize` throws is modelled as a null result.

## Findings

| source | as written | input that shows it | evidently intended | confidence | as-written member | corrected member |
|---|---|---|---|---|---|---|
| src/BitmapToVector/Internal/decompose.c.cs:341-345 | `hook_out.Change(() => cur, …)` rebinds the hook to the local `cur`, so the rest of the sublist after the first path starting at or above head's bbox y0 is attached to nothing. | Three paths whose first points are at y = 9, 6 and 3, with head's bbox y0 = 7. This happens for three blobs stacked vertically: the third path disappears from the output. | The C original's `*hook_out = cur`: the remainder is appended to head's `Next` list. | not executed | PathTree.PartitionAsWritten, PathTree.AsWrittenDropsPath | PathTree.Partition |
| src/BitmapToVector/Internal/trace.c.cs:398-406 | `constraint[0] = off` and `constraint[1] = off` store references to the one `off` object, so later writes to `off`, and the reset at lines 367-370, move both constraints together. | From i, the corner (3, 1) and then (6, 2), which is on the same line. The aliased bounds are both (2, 2) and reject (6, 2). | Copy the offset's value, as the C struct assignment does: the bounds (4, 0) and (2, 2) admit (6, 2). | not executed | Lon.AsWrittenRejectsStraight, Lon.AsWrittenMergesBounds | Lon.IntendedAdmits, Lon.OffsetsAdmitCorner |
| src/BitmapToVector/Internal/trace.c.cs:1092 | `opt[j] = o` stores the one reused `opti_s` object, so every joined segment reads the parameters of the last `opti_penalty` call. | A three-segment curve of CurveTo segments, with the `opti_penalty` results as parameters: the join from 0 to 2 succeeds with alpha 1.0. The join from 1 to 3, the call (1, 0), succeeds with alpha 0.75 but loses. The last call, (0, 0), returns at its `i == j` check (trace.c.cs:889-891) without writing, so o still holds 0.75. The joined segment comes out with alpha 0.75. | Keep a copy of the parameters per column, as the C struct assignment does. | not executed | OptiCurve.OpticurveAsWritten, OptiCurve.SharedParametersDiffer | OptiCurve.Opticurve, OptiCurve.OptiTables |
