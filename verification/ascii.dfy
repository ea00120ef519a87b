/** Bytes, the word-part character class and ASCII case folding.

    The counting engine works on raw bytes. A byte is a "word part" when it is
    an ASCII letter, an ASCII digit or the underscore; every other byte,
    including every byte above 0x7F, separates words. Case folding is the
    plain ASCII one: only 'A'..'Z' change, by adding 0x20.
 */
module Ascii {

  newtype byte = b: int | 0 <= b < 256

  type Bytes = seq<byte>

  predicate IsUpper(b: byte) {
    0x41 <= b <= 0x5A
  }

  predicate IsLower(b: byte) {
    0x61 <= b <= 0x7A
  }

  predicate IsDigit(b: byte) {
    0x30 <= b <= 0x39
  }

  /** The word-part class: letters, digits and '_'. */
  predicate IsWordPart(b: byte) {
    IsUpper(b) || IsLower(b) || IsDigit(b) || b == 0x5F
  }

  /** ASCII lower-casing of one byte. */
  function ToLower(b: byte): (r: byte)
    ensures !IsUpper(r)
    ensures IsWordPart(r) <==> IsWordPart(b)
    ensures r == b <==> !IsUpper(b)
    ensures IsUpper(b) ==> IsLower(r) && r - b == 0x20
  {
    if IsUpper(b) then b + 0x20 else b
  }

  /** ASCII lower-casing of a word, byte by byte: a copy with no upper-case
      letter that the map's key comparison treats as the same word. */
  function LowerWord(w: Bytes): (r: Bytes)
    ensures |r| == |w|
    ensures forall i :: 0 <= i < |w| ==> r[i] == ToLower(w[i])
    ensures SameIgnoringCase(w, r)
    ensures IsLowerWord(r)
  {
    seq(|w|, i requires 0 <= i < |w| => ToLower(w[i]))
  }

  /** A word holding no upper-case ASCII letter. */
  predicate IsLowerWord(w: Bytes) {
    forall i :: 0 <= i < |w| ==> !IsUpper(w[i])
  }

  /** Case-insensitive byte-string equality, as the occurrence map compares
      keys: same length and the same bytes once both are lower-cased. */
  predicate SameIgnoringCase(a: Bytes, b: Bytes) {
    |a| == |b| && forall i :: 0 <= i < |a| ==> ToLower(a[i]) == ToLower(b[i])
  }

  lemma LowerWordIsLower(w: Bytes)
    ensures IsLowerWord(LowerWord(w))
  {
  }

  /** Two spellings compare equal exactly when their lower-case forms are
      the same string. */
  lemma SameIgnoringCaseIffLowerEqual(a: Bytes, b: Bytes)
    ensures SameIgnoringCase(a, b) <==> LowerWord(a) == LowerWord(b)
  {
    if LowerWord(a) == LowerWord(b) {
      forall i | 0 <= i < |a|
        ensures ToLower(a[i]) == ToLower(b[i])
      {
        assert LowerWord(a)[i] == LowerWord(b)[i];
      }
    }
  }

  /** Lower-casing commutes with slicing. */
  lemma LowerWordSlice(w: Bytes, i: nat, j: nat)
    requires i <= j <= |w|
    ensures LowerWord(w[i..j]) == LowerWord(w)[i..j]
    ensures LowerWord(w[i..]) == LowerWord(w)[i..]
  {
    forall k | 0 <= k < j - i
      ensures LowerWord(w[i..j])[k] == LowerWord(w)[i..j][k]
    {
      assert w[i..j][k] == w[i + k];
    }
    forall k | 0 <= k < |w| - i
      ensures LowerWord(w[i..])[k] == LowerWord(w)[i..][k]
    {
      assert w[i..][k] == w[i + k];
    }
  }
}
