/** Geohash encoding and decoding, and what ties them together. */
module GeohashCodec {
  import opened Geohash
  import opened GeohashText

  function Encode(p: Point, precision: nat): string {
    Text(EncodeBits(p, 5 * precision), precision)
  }

  /** How many characters are read before one outside the alphabet. */
  ghost function KnownLength(hash: string): (n: nat)
    ensures n <= |hash| && AllKnown(hash[..n]) && (n < |hash| ==> !Known(hash[n]))
  {
    if hash == "" || !Known(hash[0]) then 0
    else
      var n := KnownLength(hash[1..]);
      assert forall k :: 0 < k <= n ==> hash[k] == hash[1..][k - 1];
      n + 1
  }

  ghost function BBox(hash: string): Box {
    BoxOf(BitsOf(hash[..KnownLength(hash)]))
  }

  ghost function Decode(hash: string): Point {
    Middle(BBox(hash))
  }

  // ------------------------------------------------------------------- methods

  lemma EncodeStep(p: Point, n: nat)
    ensures var bits := EncodeBits(p, n);
      var bit := IsUpper(BoxOf(bits), n % 2 == 0, p);
      EncodeBits(p, n + 1) == bits + [bit] && BoxOf(bits + [bit]) == Half(BoxOf(bits), n % 2 == 0, bit)
  {
    BoxStep(EncodeBits(p, n), IsUpper(BoxOf(EncodeBits(p, n)), n % 2 == 0, p));
  }

  lemma BoxStep(bits: seq<bool>, bit: bool)
    ensures BoxOf(bits + [bit]) == Half(BoxOf(bits), |bits| % 2 == 0, bit)
  {
    assert (bits + [bit])[..|bits|] == bits;
  }

  lemma SplitStep(bits: seq<bool>, bit: bool, m: nat)
    requires m <= |bits|
    ensures (bits + [bit])[..m] == bits[..m]
    ensures Value((bits + [bit])[m..]) == Value(bits[m..]) * 2 + if bit then 1 else 0
  {
    assert (bits + [bit])[m..][..|bits| - m] == bits[m..];
  }

  lemma TextStep(bits: seq<bool>, five: seq<bool>, n: nat)
    requires |bits| == 5 * n && |five| == 5
    ensures Value(five) < 32 && Text(bits + five, n + 1) == Text(bits, n) + [Letter(Value(five))]
  {
    hide Letter, Value;
    FiveBitsAreAnIndex(five);
    assert (bits + five)[..|bits|] == bits && (bits + five)[|bits|..] == five;
  }

  lemma CharacterStep(bits: seq<bool>, pos: nat)
    requires |bits| == 5 * (pos + 1)
    ensures Value(bits[5 * pos..]) < 32
    ensures Text(bits[..5 * (pos + 1)], pos + 1) == Text(bits[..5 * pos], pos) + [Letter(Value(bits[5 * pos..]))]
    ensures Value(bits[5 * (pos + 1)..]) == 0
  {
    hide Letter;
    TextStep(bits[..5 * pos], bits[5 * pos..], pos);
    assert bits[..5 * pos] + bits[5 * pos..] == bits == bits[..5 * (pos + 1)];
  }

  lemma BitsStep(hash: string, c: char)
    requires AllKnown(hash) && Known(c)
    ensures AllKnown(hash + [c]) && BitsOf(hash + [c]) == BitsOf(hash) + FiveBits(IndexOf(c))
  {
    hide Known, FiveBits;
    assert (hash + [c])[..|hash|] == hash;
  }

  /** What the encoder knows after the choices in `all`: pos characters are
      done, isLng tells what comes next, and ch holds the bits of the character
      that has been begun. */
  ghost predicate Encoding(p: Point, all: seq<bool>, pos: nat, isLng: bool, box: Box, ch: int) {
    && 5 * pos <= |all| && (isLng <==> |all| % 2 == 0)
    && all == EncodeBits(p, |all|)
    && box == BoxOf(all)
    && ch == Value(all[5 * pos..])
  }

  lemma EncodingGoesOn(p: Point, all: seq<bool>, pos: nat, isLng: bool, box: Box, ch: int, bit: bool)
    requires Encoding(p, all, pos, isLng, box, ch) && bit == IsUpper(box, isLng, p)
    ensures Encoding(p, all + [bit], pos, !isLng, Half(box, isLng, bit), ch * 2 + if bit then 1 else 0)
    ensures (all + [bit])[..5 * pos] == all[..5 * pos]
  {
    hide EncodeBits, BoxOf, Value, IsUpper, Half;
    EncodeStep(p, |all|);
    SplitStep(all, bit, 5 * pos);
  }

  lemma CharacterEnds(p: Point, all: seq<bool>, pos: nat, isLng: bool, box: Box, ch: int)
    requires Encoding(p, all, pos, isLng, box, ch) && |all| == 5 * (pos + 1)
    ensures 0 <= ch < 32 && Encoding(p, all, pos + 1, isLng, box, 0)
    ensures Text(all[..5 * (pos + 1)], pos + 1) == Text(all[..5 * pos], pos) + [Letter(ch)]
  {
    hide EncodeBits, BoxOf, Value, Letter, Text;
    CharacterStep(all, pos);
  }

  lemma EncodingStarts(p: Point)
    ensures Encoding(p, [], 0, true, GLOBE, 0) && Text([][..0], 0) == ""
  {
    assert forall none: seq<bool> :: none == [] ==> none[0..] == [];
    Start(p);
  }

  lemma EncodingEnds(p: Point, all: seq<bool>, precision: nat, isLng: bool, box: Box, ch: int)
    requires Encoding(p, all, precision, isLng, box, ch) && |all| == 5 * precision
    ensures Text(all[..5 * precision], precision) == Encode(p, precision)
  {
    hide EncodeBits, BoxOf, Value, Text;
    assert all[..5 * precision] == all;
  }

  /** geohashEncode. */
  method GeohashEncode(lat: real, lng: real, precision: nat) returns (hash: string)
    ensures hash == Encode(Point(lat, lng), precision)
  {
    hide EncodeBits, BoxOf, Text, Value, Letter, Encoding, Encode;
    ghost var p := Point(lat, lng);
    var minLat, maxLat := -90.0, 90.0;
    var minLng, maxLng := -180.0, 180.0;
    var bits, ch, pos, isLng := 0, 0, 0, true;
    var result := new char[precision];
    ghost var all: seq<bool> := [];
    EncodingStarts(p);
    while pos < precision
      invariant 0 <= pos <= precision && 0 <= bits < 5 && (pos == precision ==> bits == 0)
      invariant |all| == 5 * pos + bits && Encoding(p, all, pos, isLng, Box(minLat, maxLat, minLng, maxLng), ch)
      invariant result[..pos] == Text(all[..5 * pos], pos)
      decreases precision - pos, 5 - bits
    {
      ghost var box := Box(minLat, maxLat, minLng, maxLng);
      ghost var bit := IsUpper(box, isLng, p);
      EncodingGoesOn(p, all, pos, isLng, box, ch, bit);
      if isLng {
        var mid := (minLng + maxLng) / 2.0;
        if lng >= mid {
          ch := ch * 2 + 1;
          minLng := mid;
        } else {
          ch := ch * 2;
          maxLng := mid;
        }
      } else {
        var mid := (minLat + maxLat) / 2.0;
        if lat >= mid {
          ch := ch * 2 + 1;
          minLat := mid;
        } else {
          ch := ch * 2;
          maxLat := mid;
        }
      }
      all := all + [bit];
      isLng := !isLng;
      bits := bits + 1;
      if bits == 5 {
        CharacterEnds(p, all, pos, isLng, Box(minLat, maxLat, minLng, maxLng), ch);
        ghost var done := result[..pos];
        result[pos] := Letter(ch);
        assert result[..pos + 1] == done + [Letter(ch)];
        pos := pos + 1;
        bits := 0;
        ch := 0;
      }
    }
    EncodingEnds(p, all, precision, isLng, Box(minLat, maxLat, minLng, maxLng), ch);
    return result[..];
  }

  lemma Start(p: Point)
    ensures EncodeBits(p, 0) == [] && BoxOf([]) == GLOBE && Value([]) == 0 && Text([], 0) == ""
  {
  }

  /** indexInBase32. */
  method IndexInBase32(c: int) returns (index: int)
    ensures index == -1 || (index >= 0 && IsIndex(c, index))
    ensures index == -1 <==> !KnownByte(c)
  {
    hide Letter;
    for i := 0 to 32
      invariant forall j :: 0 <= j < i ==> !IsIndex(c, j)
    {
      if Letter(i) as int == c { return i; }
    }
    return -1;
  }

  /** Reading one more character adds its five bits. */
  lemma CharacterBits(hash: string, k: nat, idx: nat)
    requires k < |hash| && AllKnown(hash[..k]) && IsIndex(LowByte(hash[k]), idx)
    ensures AllKnown(hash[..k + 1])
    ensures BitsOf(hash[..k + 1]) == BitsOf(hash[..k]) + FiveBits(idx)
  {
    hide *;
    IndexIsKnown(hash[k], idx);
    assert hash[..k] + [hash[k]] == hash[..k + 1];
    BitsStep(hash[..k], hash[k]);
  }

  /** The bits read once m of the five bits of character k are in. */
  ghost function BitsRead(hash: string, k: nat, idx: nat, m: nat): (bits: seq<bool>)
    requires k < |hash| && AllKnown(hash[..k]) && m <= 5
    ensures |bits| == 5 * k + m
  {
    BitsOf(hash[..k]) + FiveBits(idx)[..m]
  }

  lemma ReadCharacter(hash: string, k: nat, idx: nat)
    requires k < |hash| && AllKnown(hash[..k]) && IsIndex(LowByte(hash[k]), idx)
    ensures AllKnown(hash[..k + 1]) && k + 1 <= KnownLength(hash)
    ensures BitsRead(hash, k, idx, 0) == BitsOf(hash[..k])
    ensures BitsRead(hash, k, idx, 5) == BitsOf(hash[..k + 1])
  {
    hide FiveBits, BitsOf, LowByte, KnownLength, AllKnown, IsIndex;
    CharacterBits(hash, k, idx);
    KnownSoFar(hash, k + 1);
    assert FiveBits(idx)[..5] == FiveBits(idx);
  }

  lemma OneMoreBit(hash: string, k: nat, idx: nat, i: nat)
    requires k < |hash| && AllKnown(hash[..k]) && i < 5
    ensures BitsRead(hash, k, idx, 4 - i) + [Bit(idx, i)] == BitsRead(hash, k, idx, 5 - i)
  {
    hide Bit, BitsOf, AllKnown;
    assert FiveBits(idx)[4 - i] == Bit(idx, i);
  }

  lemma ReadBit(hash: string, k: nat, idx: nat, i: nat)
    requires k < |hash| && AllKnown(hash[..k]) && i < 5
    ensures BoxOf(BitsRead(hash, k, idx, 5 - i))
         == Half(BoxOf(BitsRead(hash, k, idx, 4 - i)), (k + i) % 2 == 0, Bit(idx, i))
  {
    hide Bit, BoxOf, BitsRead, Half, AllKnown;
    OneMoreBit(hash, k, idx, i);
    BoxStep(BitsRead(hash, k, idx, 4 - i), Bit(idx, i));
  }

  lemma IndexIsKnown(c: char, idx: nat)
    requires IsIndex(LowByte(c), idx)
    ensures Known(c) && IndexOf(c) == idx
  {
    hide LowByte, Letter;
    assert KnownByte(LowByte(c));
    IndexIsUnique(LowByte(c), idx, IndexOf(c));
  }

  /** geohashBBox. */
  method GeohashBBox(hash: string) returns (minLat: real, maxLat: real, minLng: real, maxLng: real)
    ensures Box(minLat, maxLat, minLng, maxLng) == BBox(hash)
  {
    hide BoxOf, BitsOf, BitsRead, Bit, IsIndex, KnownByte, LowByte, KnownLength, AllKnown, Known;
    minLat, maxLat := -90.0, 90.0;
    minLng, maxLng := -180.0, 180.0;
    var isLng := true;
    Start(Point(0.0, 0.0));
    NoBits(hash[..0]);
    var k := 0;
    while k < |hash|
      invariant 0 <= k <= KnownLength(hash) <= |hash|
      invariant AllKnown(hash[..k]) && Box(minLat, maxLat, minLng, maxLng) == BoxOf(BitsOf(hash[..k]))
      invariant isLng <==> k % 2 == 0
    {
      var idx := IndexInBase32(LowByte(hash[k]));
      if idx < 0 { break; }
      ReadCharacter(hash, k, idx);
      var i := 4;
      while i >= 0
        invariant -1 <= i <= 4
        invariant Box(minLat, maxLat, minLng, maxLng) == BoxOf(BitsRead(hash, k, idx, 4 - i))
        invariant isLng <==> (k + i) % 2 == 0
      {
        ReadBit(hash, k, idx, i);
        var bit := Bit(idx, i);
        if isLng {
          var mid := (minLng + maxLng) / 2.0;
          if bit { minLng := mid; } else { maxLng := mid; }
        } else {
          var mid := (minLat + maxLat) / 2.0;
          if bit { minLat := mid; } else { maxLat := mid; }
        }
        isLng := !isLng;
        i := i - 1;
      }
      k := k + 1;
    }
    KnownEnds(hash, k);
  }

  lemma PrefixIsKnown(hash: string, n: nat)
    requires n <= |hash| && AllKnown(hash[..n])
    ensures forall j :: 0 <= j < n ==> Known(hash[j])
  {
    hide Known;
    forall j | 0 <= j < n ensures Known(hash[j]) {
      assert hash[..n][j] == hash[j];
    }
  }

  lemma KnownEnds(hash: string, k: nat)
    requires k <= KnownLength(hash) && (k < |hash| ==> !KnownByte(LowByte(hash[k])))
    ensures k == KnownLength(hash)
  {
    PrefixIsKnown(hash, KnownLength(hash));
  }

  lemma NoBits(hash: string)
    requires hash == ""
    ensures AllKnown(hash) && BitsOf(hash) == []
  {
  }

  lemma KnownSoFar(hash: string, k: nat)
    requires k <= |hash| && AllKnown(hash[..k])
    ensures k <= KnownLength(hash)
  {
    hide Known;
    PrefixIsKnown(hash, k);
  }

  /** geohashDecode. */
  method GeohashDecode(hash: string) returns (lat: real, lng: real)
    ensures Point(lat, lng) == Decode(hash)
  {
    hide BBox;
    var minLat, maxLat, minLng, maxLng := GeohashBBox(hash);
    return (minLat + maxLat) / 2.0, (minLng + maxLng) / 2.0;
  }

  // ------------------------------------------------------------------ theorems

  lemma AllOfKnown(hash: string)
    requires AllKnown(hash)
    ensures KnownLength(hash) == |hash| && hash[..KnownLength(hash)] == hash
  {
    assert hash[..|hash|] == hash;
    KnownSoFar(hash, |hash|);
  }

  lemma MiddleIsOwned(b: Box)
    requires Proper(b)
    ensures Owns(b, Middle(b)) && Inside(b, Middle(b))
  {
  }

  /** Encoding the centre of a cell gives back the characters that were read. */
  lemma EncodeOfDecode(hash: string)
    ensures var n := KnownLength(hash); Encode(Decode(hash), n) == Canonical(hash[..n])
  {
    hide Owns, Middle, BoxOf, EncodeBits, Text, BitsOf, Canonical, KnownLength;
    var bits := BitsOf(hash[..KnownLength(hash)]);
    MiddleIsOwned(BoxOf(bits));
    CellIsItsCode(bits, Middle(BoxOf(bits)));
    TextOfBits(hash[..KnownLength(hash)]);
  }

  /** The round trip at full length returns the hash exactly for hashes written
      in the alphabet; so decoding is injective on those of one length. */
  lemma RoundTrip(hash: string)
    ensures Encode(Decode(hash), |hash|) == hash <==> forall k :: 0 <= k < |hash| ==> InAlphabet(hash[k])
  {
    hide InAlphabet, Known, Decode, Canonical;
    if AllKnown(hash) {
      AllOfKnown(hash);
      EncodeOfDecode(hash);
      CanonicalIffAlphabet(hash);
    } else {
      EncodedIsInAlphabet(Decode(hash), |hash|);
      if forall k :: 0 <= k < |hash| ==> InAlphabet(hash[k]) {
        forall k | 0 <= k < |hash| ensures Known(hash[k]) { LettersAreKnown(hash[k]); }
      }
    }
  }

  lemma DecodeIsInjective(a: string, b: string)
    requires |a| == |b| && Decode(a) == Decode(b)
    requires forall k :: 0 <= k < |a| ==> InAlphabet(a[k]) && InAlphabet(b[k])
    ensures a == b
  {
    hide Decode, InAlphabet;
    RoundTrip(a);
    RoundTrip(b);
  }

  lemma {:induction false} TextIsInAlphabet(bits: seq<bool>, n: nat)
    requires |bits| == 5 * n
    ensures forall k :: 0 <= k < n ==> InAlphabet(Text(bits, n)[k])
  {
    hide Letter, Value;
    if n > 0 {
      TextIsInAlphabet(bits[..5 * (n - 1)], n - 1);
      FiveBitsAreAnIndex(bits[5 * (n - 1)..]);
    }
  }

  lemma EncodedIsInAlphabet(p: Point, precision: nat)
    ensures |Encode(p, precision)| == precision
    ensures forall k :: 0 <= k < precision ==> InAlphabet(Encode(p, precision)[k])
  {
    hide InAlphabet;
    TextIsInAlphabet(EncodeBits(p, 5 * precision), precision);
  }

  /** The box of an encoding is the box its halvings lead to. */
  lemma BoxOfEncoding(p: Point, precision: nat)
    ensures BBox(Encode(p, precision)) == BoxOf(EncodeBits(p, 5 * precision))
  {
    hide BoxOf, EncodeBits, Text, BitsOf, KnownLength, Known;
    BitsOfText(EncodeBits(p, 5 * precision), precision);
    AllOfKnown(Encode(p, precision));
  }

  /** The box of a point's geohash owns the point, contains it if it lies on the
      globe, and has the promised size. */
  lemma EncodedBoxContains(p: Point, precision: nat)
    ensures var b := BBox(Encode(p, precision));
      && Owns(b, p)
      && (Contains(GLOBE, p) ==> Contains(b, p))
      && Height(b) == Halved(180.0, 5 * precision / 2)
      && Width(b) == Halved(360.0, (5 * precision + 1) / 2)
  {
    hide BBox, Encode, BoxOf, Halved, EncodeBits;
    var bits := EncodeBits(p, 5 * precision);
    BoxOfEncoding(p, precision);
    CellIsItsCode(bits, p);
    BoxSize(bits);
  }

  /** A shorter geohash of the same point is a prefix, and its box encloses the longer one's. */
  lemma ShorterIsPrefix(p: Point, short: nat, long: nat)
    requires short <= long
    ensures Encode(p, short) <= Encode(p, long)
    ensures Encloses(BBox(Encode(p, short)), BBox(Encode(p, long)))
  {
    hide BBox, Encloses, BoxOf, EncodeBits, Text;
    BoxOfEncoding(p, short);
    BoxOfEncoding(p, long);
    EncodePrefix(p, 5 * short, 5 * long);
    LongerIsSmaller(EncodeBits(p, 5 * long), 5 * short);
    TextPrefix(EncodeBits(p, 5 * long), short, long);
  }

  lemma {:induction false} TextPrefix(bits: seq<bool>, short: nat, long: nat)
    requires short <= long && |bits| == 5 * long
    ensures Text(bits[..5 * short], short) <= Text(bits, long)
  {
    hide Letter, Value;
    if short == long {
      assert bits[..5 * short] == bits;
    } else {
      var low := bits[..5 * (long - 1)];
      TextPrefix(low, short, long - 1);
      assert low[..5 * short] == bits[..5 * short];
    }
  }

  /** The cells of one length tile the globe: every point is owned by the cell of
      its own geohash and by no other. */
  lemma OneCellPerPoint(p: Point, hash: string)
    requires AllKnown(hash)
    ensures Owns(BBox(hash), p) <==> Encode(p, |hash|) == Canonical(hash)
  {
    hide Owns, BoxOf, EncodeBits, Text, BitsOf, Canonical, Known, KnownLength;
    AllOfKnown(hash);
    CellIsItsCode(BitsOf(hash), p);
    TextOfBits(hash);
    BitsOfText(EncodeBits(p, 5 * |hash|), |hash|);
    BitsOfText(BitsOf(hash), |hash|);
  }

  /** Boxes of different geohashes of one length share no interior point. */
  lemma DistinctBoxesAreDisjoint(a: string, b: string, p: Point)
    requires |a| == |b| && a != b
    requires forall k :: 0 <= k < |a| ==> InAlphabet(a[k]) && InAlphabet(b[k])
    ensures !(Inside(BBox(a), p) && Inside(BBox(b), p))
  {
    hide BBox, Encode, Canonical, InAlphabet, Known;
    forall k | 0 <= k < |a| ensures Known(a[k]) && Known(b[k]) {
      LettersAreKnown(a[k]);
      LettersAreKnown(b[k]);
    }
    OneCellPerPoint(p, a);
    OneCellPerPoint(p, b);
    CanonicalIffAlphabet(a);
    CanonicalIffAlphabet(b);
  }

  /** Points of the globe more than a degree of latitude apart have different
      geohashes from the fourth character on. */
  lemma FarPointsDiffer(p: Point, q: Point, precision: nat)
    requires Contains(GLOBE, p) && Contains(GLOBE, q) && p.lat > q.lat + 1.0 && precision >= 4
    ensures Encode(p, precision) != Encode(q, precision)
  {
    hide Encode, BBox;
    EncodedBoxContains(p, precision);
    EncodedBoxContains(q, precision);
    HalvedShrinks(180.0, 10, 5 * precision / 2);
    DegreesLeft();
  }

  lemma DegreesLeft()
    ensures Halved(180.0, 10) < 1.0
  {
    assert Halved(180.0, 5) == 180.0 / 32.0;
    assert Halved(180.0, 8) == 180.0 / 256.0;
  }

  /** The south-western corner of a hash's box is encoded as the hash. */
  lemma CornerEncodesToItsHash(hash: string)
    requires forall k :: 0 <= k < |hash| ==> InAlphabet(hash[k])
    ensures Encode(Point(BBox(hash).minLat, BBox(hash).minLng), |hash|) == hash
  {
    hide BoxOf, EncodeBits, Text, BitsOf, Canonical, Known, KnownLength, InAlphabet;
    forall k | 0 <= k < |hash| ensures Known(hash[k]) { LettersAreKnown(hash[k]); }
    AllOfKnown(hash);
    CornerIsOwned(BitsOf(hash));
    TextOfBits(hash);
    CanonicalIffAlphabet(hash);
  }
}
