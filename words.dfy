/*
 * The 64-bit machine word (`ulong`) the bitmap packs its pixels into.
 *
 * A word is modelled by its 64 bits, most significant first: element k of a
 * `Word` is the bit of value 2^(63-k), so element 0 is BM_HIBIT and the
 * leftmost pixel of a word. The C# bitwise operators become pointwise
 * operations on the bits, and the shifts the bitmap code uses are defined
 * by the bit each result position takes.
 */
module Words {

  const WordBits: int := 64

  type Word = w: seq<bool> | |w| == WordBits witness seq(WordBits, _ => false)

  /** The word 0. */
  const Zero: Word := Ones(0, 0)

  /** The word whose bits lo..hi-1 are set and no others. */
  function Ones(lo: int, hi: int): (r: Word)
    ensures forall k :: 0 <= k < WordBits ==> r[k] == (lo <= k < hi)
  {
    seq(WordBits, k => lo <= k < hi)
  }

  /** `ulong.MaxValue`. */
  const AllBits: Word := Ones(0, WordBits)

  /** `BM_HIBIT`, the most significant bit. */
  const HiBit: Word := Ones(0, 1)

  /** `a | b`. */
  function Or(a: Word, b: Word): (r: Word)
    ensures forall k :: 0 <= k < WordBits ==> r[k] == (a[k] || b[k])
  {
    seq(WordBits, k requires 0 <= k < WordBits => a[k] || b[k])
  }

  /** `a & b`. */
  function And(a: Word, b: Word): (r: Word)
    ensures forall k :: 0 <= k < WordBits ==> r[k] == (a[k] && b[k])
  {
    seq(WordBits, k requires 0 <= k < WordBits => a[k] && b[k])
  }

  /** `a ^ b`. */
  function Xor(a: Word, b: Word): (r: Word)
    ensures forall k :: 0 <= k < WordBits ==> r[k] == (a[k] != b[k])
  {
    seq(WordBits, k requires 0 <= k < WordBits => a[k] != b[k])
  }

  /** `~a`. */
  function Not(a: Word): (r: Word)
    ensures forall k :: 0 <= k < WordBits ==> r[k] == !a[k]
  {
    seq(WordBits, k requires 0 <= k < WordBits => !a[k])
  }

  /** `a >> n` for a shift count below 64: bit k comes from bit k - n, zeros shift in at the top. */
  function ShiftRight(a: Word, n: int): (r: Word)
    requires 0 <= n < WordBits
    ensures forall k :: 0 <= k < WordBits ==> r[k] == (n <= k && a[k - n])
  {
    seq(WordBits, k requires 0 <= k < WordBits => n <= k && a[k - n])
  }

  /** `a << n` for a shift count below 64: bit k comes from bit k + n, zeros shift in at the bottom. */
  function ShiftLeft(a: Word, n: int): (r: Word)
    requires 0 <= n < WordBits
    ensures forall k :: 0 <= k < WordBits ==> r[k] == (k + n < WordBits && a[k + n])
  {
    seq(WordBits, k requires 0 <= k < WordBits => k + n < WordBits && a[k + n])
  }

  /** A word differs from 0 exactly when one of its bits is set. */
  lemma NonZero(a: Word)
    ensures a != Zero <==> exists k :: 0 <= k < WordBits && a[k]
  {
    if a != Zero {
      var k :| 0 <= k < WordBits && a[k] != Zero[k];
    }
  }

  /** Two words with the same bits are the same word. */
  lemma Ext(a: Word, b: Word)
    requires forall k :: 0 <= k < WordBits ==> a[k] == b[k]
    ensures a == b
  {
  }

  /** `HIBIT >> c` is the word with bit c alone. */
  lemma HiBitShifted(c: int)
    requires 0 <= c < WordBits
    ensures ShiftRight(HiBit, c) == Ones(c, c + 1)
  {
    Ext(ShiftRight(HiBit, c), Ones(c, c + 1));
  }

  /** `ALLBITS << (64 - r)` keeps the top r bits, for 0 < r < 64. */
  lemma AllBitsShifted(r: int)
    requires 0 < r < WordBits
    ensures ShiftLeft(AllBits, WordBits - r) == Ones(0, r)
  {
    Ext(ShiftLeft(AllBits, WordBits - r), Ones(0, r));
  }

  /** `(a & m) != 0` for the one-bit mask of bit c reads bit c of a. */
  lemma TestBit(a: Word, c: int)
    requires 0 <= c < WordBits
    ensures (And(a, Ones(c, c + 1)) != Zero) == a[c]
  {
    NonZero(And(a, Ones(c, c + 1)));
  }

  /** XOR with the same word twice is the identity. */
  lemma XorTwice(a: Word, m: Word)
    ensures Xor(Xor(a, m), m) == a
  {
    Ext(Xor(Xor(a, m), m), a);
  }
}
