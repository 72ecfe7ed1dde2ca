/** Five halvings to a base-32 character, and back. */
module GeohashText {

  const ALPHABET := "0123456789bcdefghjkmnpqrstuvwxyz"

  /** The alphabet as runs of letters: a, i, l and o are left out. */
  function Letter(i: nat): char
    requires i < 32
  {
    if i < 10 then '0' + i as char
    else if i < 17 then 'b' + (i - 10) as char
    else if i < 19 then 'j' + (i - 17) as char
    else if i < 21 then 'm' + (i - 19) as char
    else 'p' + (i - 21) as char
  }

  lemma LettersAreTheAlphabet()
    ensures |ALPHABET| == 32 && forall i :: 0 <= i < 32 ==> ALPHABET[i] == Letter(i)
  {
  }

  // ----------------------------------------------------------- bits of an index

  /** The number a few bits spell, highest first. */
  function Value(bits: seq<bool>): nat {
    if bits == [] then 0 else Value(bits[..|bits| - 1]) * 2 + if bits[|bits| - 1] then 1 else 0
  }

  function ShiftRight(idx: nat, i: nat): nat {
    if i == 0 then idx else ShiftRight(idx / 2, i - 1)
  }

  predicate Bit(idx: nat, i: nat) {
    ShiftRight(idx, i) % 2 == 1
  }

  function FiveBits(idx: nat): (bits: seq<bool>)
    ensures |bits| == 5
  {
    [Bit(idx, 4), Bit(idx, 3), Bit(idx, 2), Bit(idx, 1), Bit(idx, 0)]
  }

  lemma {:induction false} BitOfValue(bits: seq<bool>, i: nat)
    requires i < |bits|
    ensures Bit(Value(bits), i) == bits[|bits| - 1 - i]
  {
    var shorter := bits[..|bits| - 1];
    assert Value(bits) / 2 == Value(shorter);
    if i > 0 { BitOfValue(shorter, i - 1); }
  }

  lemma {:induction false} ValueIsBounded(bits: seq<bool>, bound: nat)
    requires bound == ShiftLeft(1, |bits|)
    ensures Value(bits) < bound
  {
    if bits != [] { ValueIsBounded(bits[..|bits| - 1], ShiftLeft(1, |bits| - 1)); }
  }

  function ShiftLeft(x: nat, i: nat): nat {
    if i == 0 then x else 2 * ShiftLeft(x, i - 1)
  }

  lemma FiveBitsAreAnIndex(bits: seq<bool>)
    requires |bits| == 5
    ensures Value(bits) < 32 && FiveBits(Value(bits)) == bits
  {
    assert ShiftLeft(1, 0) == 1 && ShiftLeft(1, 1) == 2 && ShiftLeft(1, 2) == 4;
    assert ShiftLeft(1, 3) == 8 && ShiftLeft(1, 4) == 16 && ShiftLeft(1, 5) == 32;
    hide Value, Bit;
    ValueIsBounded(bits, 32);
    BitOfValue(bits, 0);
    BitOfValue(bits, 1);
    BitOfValue(bits, 2);
    BitOfValue(bits, 3);
    BitOfValue(bits, 4);
    assert FiveBits(Value(bits)) == [bits[0], bits[1], bits[2], bits[3], bits[4]];
  }

  /** Taking the lowest bits of a number and spelling them loses only what lies above them. */
  lemma {:induction false} ValueOfBits(bits: seq<bool>, idx: nat)
    requires forall i :: 0 <= i < |bits| ==> bits[|bits| - 1 - i] == Bit(idx, i)
    requires idx < ShiftLeft(1, |bits|)
    ensures Value(bits) == idx
  {
    if bits != [] {
      var n := |bits| - 1;
      forall i | 0 <= i < n ensures bits[..n][n - 1 - i] == Bit(idx / 2, i) {
        assert bits[|bits| - 1 - (i + 1)] == Bit(idx, i + 1);
      }
      ValueOfBits(bits[..n], idx / 2);
      assert bits[|bits| - 1 - 0] == Bit(idx, 0);
    }
  }

  lemma IndexIsItsFiveBits(idx: nat)
    requires idx < 32
    ensures Value(FiveBits(idx)) == idx
  {
    assert ShiftLeft(1, 0) == 1 && ShiftLeft(1, 1) == 2 && ShiftLeft(1, 2) == 4;
    assert ShiftLeft(1, 3) == 8 && ShiftLeft(1, 4) == 16 && ShiftLeft(1, 5) == 32;
    hide Value, Bit;
    ValueOfBits(FiveBits(idx), idx);
  }

  // ---------------------------------------------------------------- characters

  /** byte(c): the codec looks only at the low byte of a character. */
  function LowByte(c: char): int {
    c as int % 256
  }

  predicate IsIndex(c: int, i: int) {
    0 <= i < 32 && Letter(i) as int == c
  }

  predicate KnownByte(c: int) {
    exists i :: 0 <= i < 32 && IsIndex(c, i)
  }

  predicate Known(c: char) {
    KnownByte(LowByte(c))
  }

  predicate AllKnown(hash: string) {
    forall k :: 0 <= k < |hash| ==> Known(hash[k])
  }

  lemma {:induction false} AlphabetAscends(i: nat, j: nat)
    requires i < j < 32
    ensures Letter(i) < Letter(j)
  {
    assert Letter(j - 1) < Letter(j);
    if i < j - 1 { AlphabetAscends(i, j - 1); }
  }

  lemma LetterIsKnown(i: nat)
    requires i < 32
    ensures LowByte(Letter(i)) == Letter(i) as int && IsIndex(LowByte(Letter(i)), i)
  {
    assert Letter(31) as int == 122;
    if i < 31 { AlphabetAscends(i, 31); }
  }

  lemma IndexIsUnique(c: int, i: int, j: int)
    requires IsIndex(c, i) && IsIndex(c, j)
    ensures i == j
  {
    hide Letter;
    if i < j { AlphabetAscends(i, j); }
    if j < i { AlphabetAscends(j, i); }
  }

  ghost function IndexOf(c: char): (i: nat)
    requires Known(c)
    ensures IsIndex(LowByte(c), i)
  {
    var i :| 0 <= i < 32 && IsIndex(LowByte(c), i);
    i
  }

  lemma IndexOfLetter(i: nat)
    requires i < 32
    ensures Known(Letter(i)) && IndexOf(Letter(i)) == i
  {
    hide Letter, LowByte;
    LetterIsKnown(i);
    IndexIsUnique(LowByte(Letter(i)), i, IndexOf(Letter(i)));
  }

  ghost function BitsOf(hash: string): (bits: seq<bool>)
    requires AllKnown(hash)
    ensures |bits| == 5 * |hash|
  {
    if hash == "" then [] else BitsOf(hash[..|hash| - 1]) + FiveBits(IndexOf(hash[|hash| - 1]))
  }

  /** The bits as n characters, five to each. */
  function Text(bits: seq<bool>, n: nat): (hash: string)
    requires |bits| == 5 * n
    ensures |hash| == n
  {
    if n == 0 then ""
    else
      var low := 5 * (n - 1);
      FiveBitsAreAnIndex(bits[low..]);
      Text(bits[..low], n - 1) + [Letter(Value(bits[low..]))]
  }

  /** The letter the codec reads for a character. */
  ghost function LetterFor(c: char): char
    requires Known(c)
  {
    Letter(IndexOf(c))
  }

  /** The hash with every character replaced by the letter it is read as. */
  ghost function Canonical(hash: string): (c: string)
    requires AllKnown(hash)
    ensures |c| == |hash|
  {
    if hash == "" then "" else Canonical(hash[..|hash| - 1]) + [LetterFor(hash[|hash| - 1])]
  }

  lemma {:induction false} TextOfBits(hash: string)
    requires AllKnown(hash)
    ensures Text(BitsOf(hash), |hash|) == Canonical(hash)
  {
    hide Letter, Value, FiveBits, Known;
    if hash != "" {
      var n := |hash| - 1;
      var bits := BitsOf(hash);
      TextOfBits(hash[..n]);
      IndexIsItsFiveBits(IndexOf(hash[n]));
      assert bits[..5 * n] == BitsOf(hash[..n]) && bits[5 * n..] == FiveBits(IndexOf(hash[n]));
    }
  }

  lemma {:induction false} BitsOfText(bits: seq<bool>, n: nat)
    requires |bits| == 5 * n
    ensures AllKnown(Text(bits, n)) && BitsOf(Text(bits, n)) == bits
  {
    hide Letter, Value, FiveBits, Known;
    if n > 0 {
      var low, high := bits[..5 * (n - 1)], bits[5 * (n - 1)..];
      BitsOfText(low, n - 1);
      FiveBitsAreAnIndex(high);
      IndexOfLetter(Value(high));
      assert Text(bits, n)[..n - 1] == Text(low, n - 1);
      assert bits == low + high;
    }
  }

  predicate InAlphabet(c: char) {
    exists i :: 0 <= i < 32 && Letter(i) == c
  }

  lemma LetterForIffAlphabet(c: char)
    requires Known(c)
    ensures LetterFor(c) == c <==> InAlphabet(c)
  {
    hide LowByte, Letter;
    if InAlphabet(c) {
      var i :| 0 <= i < 32 && Letter(i) == c;
      IndexOfLetter(i);
    }
  }

  /** A hash is read as itself exactly when it is written in the alphabet. */
  lemma {:induction false} CanonicalIffAlphabet(hash: string)
    requires AllKnown(hash)
    ensures Canonical(hash) == hash <==> forall k :: 0 <= k < |hash| ==> InAlphabet(hash[k])
  {
    hide InAlphabet, LetterFor, Known;
    if hash != "" {
      var n := |hash| - 1;
      CanonicalIffAlphabet(hash[..n]);
      LetterForIffAlphabet(hash[n]);
      assert hash == hash[..n] + [hash[n]];
    }
  }

  lemma LettersAreKnown(c: char)
    requires InAlphabet(c)
    ensures Known(c)
  {
    hide Letter;
    var i :| 0 <= i < 32 && Letter(i) == c;
    LetterIsKnown(i);
  }

  /** The first of the five bits of a character weighs most. */
  lemma ValueOfFive(bits: seq<bool>)
    requires |bits| == 5
    ensures Value(bits) == (if bits[0] then 16 else 0) + (if bits[1] then 8 else 0) + (if bits[2] then 4 else 0)
                         + (if bits[3] then 2 else 0) + (if bits[4] then 1 else 0)
  {
    assert bits[..4][..3] == bits[..3] && bits[..3][..2] == bits[..2] && bits[..2][..1] == bits[..1];
    assert bits[..1][..0] == [] && Value([]) == 0;
    var one := Value(bits[..1]);
    assert one == if bits[0] then 1 else 0;
    var two := Value(bits[..2]);
    assert two == one * 2 + if bits[1] then 1 else 0;
    var three := Value(bits[..3]);
    assert three == two * 2 + if bits[2] then 1 else 0;
    var four := Value(bits[..4]);
    assert four == three * 2 + if bits[3] then 1 else 0;
  }

  /** A character is read as the letter with its lowest byte, if there is one. */
  lemma KnownMeans(c: char)
    ensures Known(c) <==> exists i :: 0 <= i < 32 && ALPHABET[i] as int == c as int % 256
    ensures Known(c) ==> LetterFor(c) as int == c as int % 256
  {
    hide Letter;
    LettersAreTheAlphabet();
    forall i | 0 <= i < 32 ensures ALPHABET[i] as int == c as int % 256 <==> IsIndex(LowByte(c), i) {
      assert ALPHABET[i] == Letter(i);
    }
    if Known(c) {
      assert IsIndex(LowByte(c), IndexOf(c));
      assert ALPHABET[IndexOf(c)] == Letter(IndexOf(c));
    }
  }
}
