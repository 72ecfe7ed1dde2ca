/** The geohash codec, over the reals. A geohash is a sequence of halvings of the
    globe, longitude first; five of them make one base-32 character. */
module Geohash {

  datatype Point = Point(lat: real, lng: real)

  datatype Box = Box(minLat: real, maxLat: real, minLng: real, maxLng: real)

  const GLOBE := Box(-90.0, 90.0, -180.0, 180.0)

  // ------------------------------------------------------------------ halvings

  function Middle(b: Box): Point {
    Point((b.minLat + b.maxLat) / 2.0, (b.minLng + b.maxLng) / 2.0)
  }

  /** The half of b that a bit selects. */
  function Half(b: Box, isLng: bool, upper: bool): Box {
    var mid := Middle(b);
    if isLng then if upper then b.(minLng := mid.lng) else b.(maxLng := mid.lng)
    else if upper then b.(minLat := mid.lat) else b.(maxLat := mid.lat)
  }

  predicate IsUpper(b: Box, isLng: bool, p: Point) {
    if isLng then p.lng >= Middle(b).lng else p.lat >= Middle(b).lat
  }

  predicate Proper(b: Box) {
    -90.0 <= b.minLat < b.maxLat <= 90.0 && -180.0 <= b.minLng < b.maxLng <= 180.0
  }

  function BoxOf(bits: seq<bool>): (b: Box)
    ensures Proper(b)
  {
    if bits == [] then GLOBE
    else
      var n := |bits| - 1;
      Half(BoxOf(bits[..n]), n % 2 == 0, bits[n])
  }

  function EncodeBits(p: Point, n: nat): (bits: seq<bool>)
    ensures |bits| == n
  {
    if n == 0 then []
    else
      var bits := EncodeBits(p, n - 1);
      bits + [IsUpper(BoxOf(bits), (n - 1) % 2 == 0, p)]
  }

  /** The points a cell owns: its lower edges but not its upper ones, and at the
      rim of the globe everything beyond. */
  predicate Owns(b: Box, p: Point) {
    && (b.minLat <= p.lat || b.minLat == -90.0) && (p.lat < b.maxLat || b.maxLat == 90.0)
    && (b.minLng <= p.lng || b.minLng == -180.0) && (p.lng < b.maxLng || b.maxLng == 180.0)
  }

  predicate Contains(b: Box, p: Point) {
    b.minLat <= p.lat <= b.maxLat && b.minLng <= p.lng <= b.maxLng
  }

  predicate Inside(b: Box, p: Point) {
    b.minLat < p.lat < b.maxLat && b.minLng < p.lng < b.maxLng
  }

  predicate Encloses(outer: Box, inner: Box) {
    outer.minLat <= inner.minLat && inner.maxLat <= outer.maxLat && outer.minLng <= inner.minLng
        && inner.maxLng <= outer.maxLng
  }

  lemma HalfOwns(b: Box, isLng: bool, upper: bool, p: Point)
    requires Proper(b)
    ensures Owns(Half(b, isLng, upper), p) <==> Owns(b, p) && IsUpper(b, isLng, p) == upper
  {
  }

  lemma GlobeOwnsAll(p: Point)
    ensures Owns(BoxOf([]), p)
  {
  }

  lemma LastBox(bits: seq<bool>)
    requires bits != []
    ensures BoxOf(bits) == Half(BoxOf(bits[..|bits| - 1]), (|bits| - 1) % 2 == 0, bits[|bits| - 1])
  {
    hide Half, Proper;
  }

  lemma LastChoice(p: Point, n: nat)
    ensures EncodeBits(p, n + 1) == EncodeBits(p, n) + [IsUpper(BoxOf(EncodeBits(p, n)), n % 2 == 0, p)]
  {
    hide BoxOf, IsUpper;
  }

  lemma SameEnds(front: seq<bool>, last: bool, bits: seq<bool>)
    requires |bits| == |front| + 1
    ensures front + [last] == bits <==> front == bits[..|front|] && last == bits[|front|]
  {
    assert bits == bits[..|front|] + [bits[|front|]];
    assert (front + [last])[..|front|] == front;
  }

  /** A cell owns exactly the points that encode to it, so the cells of one
      length partition all points. */
  lemma {:induction false} CellIsItsCode(bits: seq<bool>, p: Point)
    ensures Owns(BoxOf(bits), p) <==> EncodeBits(p, |bits|) == bits
  {
    hide BoxOf, EncodeBits, Owns, Half, IsUpper, Proper;
    if bits == [] {
      GlobeOwnsAll(p);
      assert EncodeBits(p, 0) == [];
    } else {
      var n := |bits| - 1;
      LastBox(bits);
      LastChoice(p, n);
      SameEnds(EncodeBits(p, n), IsUpper(BoxOf(EncodeBits(p, n)), n % 2 == 0, p), bits);
      CellIsItsCode(bits[..n], p);
      HalfOwns(BoxOf(bits[..n]), n % 2 == 0, bits[n], p);
    }
  }

  lemma FirstBits(p: Point, n: nat)
    requires n > 0
    ensures EncodeBits(p, n)[..n - 1] == EncodeBits(p, n - 1)
  {
    hide BoxOf, IsUpper;
    var shorter, bit := EncodeBits(p, n - 1), IsUpper(BoxOf(EncodeBits(p, n - 1)), (n - 1) % 2 == 0, p);
    assert EncodeBits(p, n) == shorter + [bit];
  }

  lemma {:induction false} EncodePrefix(p: Point, m: nat, n: nat)
    requires m <= n
    ensures EncodeBits(p, n)[..m] == EncodeBits(p, m)
  {
    hide EncodeBits;
    if m < n {
      EncodePrefix(p, m, n - 1);
      FirstBits(p, n);
      assert EncodeBits(p, n)[..n - 1][..m] == EncodeBits(p, n)[..m];
    } else {
      assert EncodeBits(p, n)[..m] == EncodeBits(p, n);
    }
  }

  lemma {:induction false} LongerIsSmaller(bits: seq<bool>, m: nat)
    requires m <= |bits|
    ensures Encloses(BoxOf(bits[..m]), BoxOf(bits))
  {
    if m < |bits| {
      var shorter := bits[..|bits| - 1];
      LongerIsSmaller(shorter, m);
      assert shorter[..m] == bits[..m];
    } else {
      assert bits[..m] == bits;
    }
  }

  /** x halved k times. */
  function Halved(x: real, k: nat): real {
    if k == 0 then x else Halved(x, k - 1) / 2.0
  }

  function Height(b: Box): real {
    b.maxLat - b.minLat
  }

  function Width(b: Box): real {
    b.maxLng - b.minLng
  }

  lemma HalfSize(b: Box, isLng: bool, upper: bool)
    ensures Height(Half(b, isLng, upper)) == if isLng then Height(b) else Height(b) / 2.0
    ensures Width(Half(b, isLng, upper)) == if isLng then Width(b) / 2.0 else Width(b)
  {
  }

  lemma {:induction false} BoxSize(bits: seq<bool>)
    ensures Height(BoxOf(bits)) == Halved(180.0, |bits| / 2)
    ensures Width(BoxOf(bits)) == Halved(360.0, (|bits| + 1) / 2)
  {
    hide Half, Proper, Height, Width;
    if bits == [] {
      GlobeSize();
    } else {
      var n := |bits| - 1;
      BoxSize(bits[..n]);
      HalfSize(BoxOf(bits[..n]), n % 2 == 0, bits[n]);
      HalvedOnce(180.0, n);
      HalvedOnce(360.0, n + 1);
    }
  }

  lemma GlobeSize()
    ensures Height(BoxOf([])) == 180.0 && Width(BoxOf([])) == 360.0
  {
  }

  lemma HalvedOnce(x: real, n: nat)
    ensures Halved(x, (n + 1) / 2) == if n % 2 == 1 then Halved(x, n / 2) / 2.0 else Halved(x, n / 2)
  {
    if n % 2 == 1 { assert (n + 1) / 2 == n / 2 + 1; } else { assert (n + 1) / 2 == n / 2; }
  }

  lemma {:induction false} HalvedShrinks(x: real, j: nat, k: nat)
    requires x >= 0.0 && j <= k
    ensures 0.0 <= Halved(x, k) <= Halved(x, j)
  {
    if j < k {
      HalvedShrinks(x, j, k - 1);
    } else if k > 0 {
      HalvedShrinks(x, j - 1, k - 1);
    }
  }

  /** How far east of the globe's edge the choices lead: each upper half of a
      longitude adds half of what was left. */
  function Eastwards(bits: seq<bool>): real {
    if bits == [] then 0.0
    else
      var n := |bits| - 1;
      Eastwards(bits[..n]) + if n % 2 == 0 && bits[n] then Halved(360.0, n / 2 + 1) else 0.0
  }

  function Northwards(bits: seq<bool>): real {
    if bits == [] then 0.0
    else
      var n := |bits| - 1;
      Northwards(bits[..n]) + if n % 2 == 1 && bits[n] then Halved(180.0, n / 2 + 1) else 0.0
  }

  lemma HalfCorner(b: Box, isLng: bool, upper: bool)
    ensures Half(b, isLng, upper).minLng == b.minLng + if isLng && upper then Width(b) / 2.0 else 0.0
    ensures Half(b, isLng, upper).minLat == b.minLat + if !isLng && upper then Height(b) / 2.0 else 0.0
  {
  }

  /** Where a cell lies: the choices are the binary digits of its south-western
      corner, longitude and latitude by turns, an upper half being the digit one. */
  lemma {:induction false} CornerIsItsDigits(bits: seq<bool>)
    ensures BoxOf(bits).minLng == -180.0 + Eastwards(bits) && BoxOf(bits).minLat == -90.0 + Northwards(bits)
  {
    hide Half, Proper, Halved;
    if bits == [] {
      GlobeCorner();
    } else {
      var n := |bits| - 1;
      CornerIsItsDigits(bits[..n]);
      BoxSize(bits[..n]);
      LastBox(bits);
      HalfCorner(BoxOf(bits[..n]), n % 2 == 0, bits[n]);
      NextHalving(n);
    }
  }

  lemma GlobeCorner()
    ensures BoxOf([]).minLng == -180.0 && BoxOf([]).minLat == -90.0
  {
  }

  lemma NextHalving(n: nat)
    ensures n % 2 == 0 ==> Halved(360.0, n / 2 + 1) == Halved(360.0, (n + 1) / 2) / 2.0
    ensures n % 2 == 1 ==> Halved(180.0, n / 2 + 1) == Halved(180.0, n / 2) / 2.0
  {
    if n % 2 == 0 { assert (n + 1) / 2 == n / 2; }
  }

  /** A point on the edge of two cells belongs to the northern and the eastern one:
      the south-western corner of a cell is encoded as the cell. */
  lemma CornerIsOwned(bits: seq<bool>)
    ensures EncodeBits(Point(BoxOf(bits).minLat, BoxOf(bits).minLng), |bits|) == bits
  {
    hide BoxOf, EncodeBits;
    CellIsItsCode(bits, Point(BoxOf(bits).minLat, BoxOf(bits).minLng));
  }
}
