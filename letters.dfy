/**
 * Letters and words of the game (src/lib.rs).
 *
 * A `Letter` stores the index 0..25 of a lower-case ASCII letter; a `Word`
 * is the sequence of its letters.  The conversions from bytes, characters
 * and strings panic on anything outside 'a'..'z'; here that is a
 * precondition.
 */
module Letters {

  /** An unsigned 8-bit value (Rust's `u8`). */
  type Byte = b: int | 0 <= b < 256

  /** The range of a letter's index, 'a' = 0 .. 'z' = 25. */
  type LetterIndex = i: int | 0 <= i < 26

  const ByteA: Byte := 97
  const ByteZ: Byte := 122

  /** The only way to build a letter is `FromByte`, so its index is below 26. */
  datatype Letter = Letter(index: LetterIndex)

  predicate IsLowerByte(b: Byte) { ByteA <= b <= ByteZ }

  predicate IsLowerChar(c: char) { 'a' <= c <= 'z' }

  /** Every character of `s` is in 'a'..'z'. */
  predicate IsLowercase(s: string) { forall i :: 0 <= i < |s| ==> IsLowerChar(s[i]) }

  function FromByte(b: Byte): (l: Letter)
    requires IsLowerByte(b)
    ensures l.index == b - ByteA
  {
    Letter(b - ByteA)
  }

  function FromChar(c: char): (l: Letter)
    requires IsLowerChar(c)
    ensures AsChar(l) == c
  {
    FromByte(c as int)
  }

  function AsIndex(l: Letter): (i: nat)
    ensures i < 26
  {
    l.index
  }

  /** Letters are equal exactly when their indices are (derived equality on the byte). */
  lemma LetterEquality(l: Letter, m: Letter)
    ensures l == m <==> AsIndex(l) == AsIndex(m)
  {
  }

  function AsByte(l: Letter): (b: Byte)
    ensures IsLowerByte(b)
    ensures FromByte(b) == l
  {
    l.index + ByteA
  }

  function AsChar(l: Letter): (c: char)
    ensures IsLowerChar(c)
  {
    AsByte(l) as char
  }

  /** Converting a lower-case byte to a letter and back gives the byte. */
  lemma ByteRoundTrip(b: Byte)
    requires IsLowerByte(b)
    ensures AsByte(FromByte(b)) == b
  {
  }

  /** Converting a letter to a character and back gives the letter. */
  lemma CharRoundTrip(l: Letter)
    ensures FromChar(AsChar(l)) == l
  {
  }

  datatype Word = Word(letters: seq<Letter>)

  /** `Word::new`: the empty word. */
  function NewWord(): (w: Word)
    ensures Len(w) == 0 && IsEmpty(w)
  {
    Word([])
  }

  /** `Word::len`: the number of letters. */
  function Len(w: Word): (n: nat)
    ensures n == |w.letters|
  {
    |w.letters|
  }

  function IsEmpty(w: Word): (b: bool)
    ensures b <==> Len(w) == 0
  {
    w.letters == []
  }

  /** `Index<usize> for Word`; indexing past the end panics. */
  function At(w: Word, i: nat): (l: Letter)
    requires i < Len(w)
    ensures l == w.letters[i]
  {
    w.letters[i]
  }

  /** `From<&str> for Word`: one letter per character. */
  function WordFromString(s: string): (w: Word)
    requires IsLowercase(s)
    ensures Len(w) == |s|
    ensures forall i :: 0 <= i < |s| ==> AsChar(w.letters[i]) == s[i]
  {
    Word(seq(|s|, i requires 0 <= i < |s| => FromChar(s[i])))
  }

  /** `From<&Word> for String`: one character per letter. */
  function WordToString(w: Word): (s: string)
    ensures IsLowercase(s)
    ensures |s| == Len(w)
    ensures forall i :: 0 <= i < |s| ==> FromChar(s[i]) == w.letters[i]
  {
    seq(|w.letters|, i requires 0 <= i < |w.letters| => AsChar(w.letters[i]))
  }

  /** Text to word and back is the identity on lower-case strings. */
  lemma StringRoundTrip(s: string)
    requires IsLowercase(s)
    ensures WordToString(WordFromString(s)) == s
  {
    var t := WordToString(WordFromString(s));
    assert |t| == |s|;
    forall i | 0 <= i < |s| ensures t[i] == s[i] {
      CharRoundTrip(FromChar(s[i]));
    }
  }

  /** Word to text and back is the identity on every word. */
  lemma WordRoundTrip(w: Word)
    ensures WordFromString(WordToString(w)) == w
  {
    var v := WordFromString(WordToString(w));
    assert |v.letters| == |w.letters|;
    forall i | 0 <= i < |w.letters| ensures v.letters[i] == w.letters[i] {
      CharRoundTrip(w.letters[i]);
    }
  }

  /** Text to word is injective on lower-case strings. */
  lemma WordFromStringInjective(s: string, t: string)
    requires IsLowercase(s) && IsLowercase(t)
    ensures WordFromString(s) == WordFromString(t) <==> s == t
  {
    if WordFromString(s) == WordFromString(t) {
      StringRoundTrip(s);
      StringRoundTrip(t);
    }
  }
}
