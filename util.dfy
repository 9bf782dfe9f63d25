/*
 * The word-buffer fill used to clear bitmaps (_util.cs).
 *
 * The source writes through a raw `ulong*`; here the buffer is an array of
 * words and the pointer is an offset into it.
 */
module Util {
  import opened Words

  /** The buffer `s` after `size` words from offset `ptr` on are set to `value`. */
  function Fill(s: seq<Word>, ptr: int, value: Word, size: int): (r: seq<Word>)
    requires size <= 0 || 0 <= ptr <= ptr + size <= |s|
    ensures |r| == |s|
    ensures forall i :: 0 <= i < |s| ==> r[i] == if ptr <= i < ptr + size then value else s[i]
  {
    if size <= 0 then s else s[..ptr] + seq(size, _ => value) + s[ptr + size..]
  }

  /**
   * `memset(ptr, value, size)`: sets the words [ptr, ptr + size) to `value`,
   * one by one, and leaves every other word as it was; a size of zero or
   * less writes nothing.
   */
  method Memset(a: array<Word>, ptr: int, value: Word, size: int)
    requires size <= 0 || 0 <= ptr <= ptr + size <= a.Length
    modifies a
    ensures a[..] == Fill(old(a[..]), ptr, value, size)
  {
    var i := 0;
    while i < size
      invariant size <= 0 ==> i == 0
      invariant size > 0 ==> 0 <= i <= size
      invariant forall k :: 0 <= k < a.Length ==> a[k] == if ptr <= k < ptr + i then value else old(a[k])
    {
      a[ptr + i] := value;
      i := i + 1;
    }
  }

  /** Filling with a non-positive size is the identity. */
  lemma FillNothing(s: seq<Word>, ptr: int, value: Word, size: int)
    requires size <= 0
    ensures Fill(s, ptr, value, size) == s
  {
  }

  /** Filling the same range twice with the same value is the same as filling it once. */
  lemma FillIdempotent(s: seq<Word>, ptr: int, value: Word, size: int)
    requires size <= 0 || 0 <= ptr <= ptr + size <= |s|
    ensures Fill(Fill(s, ptr, value, size), ptr, value, size) == Fill(s, ptr, value, size)
  {
    var once := Fill(s, ptr, value, size);
    var twice := Fill(once, ptr, value, size);
    assert forall i | 0 <= i < |s| :: twice[i] == once[i];
  }
}
