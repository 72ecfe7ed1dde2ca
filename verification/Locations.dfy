/** Find-or-create for the venues of imported events. */
module Locations {
  import opened Options
  import Sets
  import Geohash
  import GeohashCodec

  /** The text columns an import may fill in; None is NULL. */
  datatype Texts = Texts(
    shortName: Option<string>, address: Option<string>, town: Option<string>, zipcode: Option<string>,
    country: Option<string>, countryCode: Option<string>, region: Option<string>)

  datatype Coordinates = Coordinates(lat: Option<real>, lng: Option<real>)

  datatype Osm = Osm(osmType: Option<string>, osmId: Option<int>)

  datatype Row = Row(
    name: string, texts: Texts, place: Coordinates, osm: Osm, site: string, geohash: Option<string>,
    parent: Option<int>)

  type Rows = map<int, Row>

  datatype Alias = Alias(location: int, alias: string)

  datatype Table = Table(rows: Rows, lastId: int, aliases: set<Alias>)

  datatype GivenTexts = GivenTexts(
    shortName: string, address: string, town: string, zipcode: string, country: string, countryCode: string,
    region: string)

  /** What a feed says about a venue; entities are already decoded. */
  datatype Request = Request(name: string, texts: GivenTexts, place: Coordinates, osmId: Option<int>, osmType: string,
      site: string)

  // ---------------------------------------------------------------------- lookups

  predicate IsLowest(ids: set<int>, id: int) {
    id in ids && forall other :: other in ids ==> id <= other
  }

  lemma {:induction false} LowestExists(ids: set<int>)
    requires ids != {}
    ensures exists id :: IsLowest(ids, id)
  {
    Sets.HasInt(ids);
    var x :| x in ids;
    if ids - {x} == {} {
      assert ids == {x};
      assert IsLowest(ids, x);
    } else {
      LowestExists(ids - {x});
      var y :| IsLowest(ids - {x}, y);
      forall other | other in ids ensures (if x < y then x else y) <= other {
        assert other == x || other in ids - {x};
      }
      assert IsLowest(ids, if x < y then x else y);
    }
  }

  /** The row a single-row query returns: the lowest id. */
  ghost function Pick(ids: set<int>): (r: Option<int>)
    ensures r.None? <==> ids == {}
    ensures forall id :: r == Some(id) <==> IsLowest(ids, id)
  {
    if ids == {} then None
    else
      LowestExists(ids);
      var id :| IsLowest(ids, id);
      Some(id)
  }

  function SameOsm(rows: Rows, osmType: string, osmId: int): set<int> {
    set id | id in rows && rows[id].osm == Osm(Some(osmType), Some(osmId))
  }

  function Named(rows: Rows, name: string): set<int> {
    set id | id in rows && rows[id].name == name
  }

  function Aliased(aliases: set<Alias>, name: string): set<int> {
    set a | a in aliases && a.alias == name :: a.location
  }

  predicate HasOsm(loc: Request) {
    loc.osmId.Some? && loc.osmType != ""
  }

  ghost function ByOsm(t: Table, loc: Request): Option<int> {
    if HasOsm(loc) then Pick(SameOsm(t.rows, loc.osmType, loc.osmId.value)) else None
  }

  /** The name, then "name - address" as another export writes it, then the aliases. */
  ghost function ByName(t: Table, loc: Request): Option<int> {
    var named := Pick(Named(t.rows, loc.name));
    if named.Some? then named
    else
      var composite :=
        if loc.texts.address != "" then Pick(Named(t.rows, loc.name + " - " + loc.texts.address)) else None;
      if composite.Some? then composite else Pick(Aliased(t.aliases, loc.name))
  }

  // ---------------------------------------------------------------------- updates

  /** COALESCE(NULLIF(stored, ''), given). */
  function Backfill(stored: Option<string>, given: string): Option<string> {
    if stored.Some? && stored.value != "" then stored else Some(given)
  }

  predicate GivesText(g: GivenTexts) {
    || g.shortName != "" || g.address != "" || g.town != "" || g.zipcode != ""
    || g.country != "" || g.countryCode != "" || g.region != ""
  }

  function Backfilled(t: Texts, g: GivenTexts): Texts {
    if GivesText(g) then
      Texts(Backfill(t.shortName, g.shortName), Backfill(t.address, g.address), Backfill(t.town, g.town),
            Backfill(t.zipcode, g.zipcode), Backfill(t.country, g.country), Backfill(t.countryCode, g.countryCode),
            Backfill(t.region, g.region))
    else t
  }

  predicate GivesPlace(loc: Request) {
    loc.place.lat.Some? || loc.place.lng.Some?
  }

  function Updated(row: Row, loc: Request, byOsm: bool): Row {
    row.(place := if GivesPlace(loc) then loc.place else row.place,
         texts := Backfilled(row.texts, loc.texts),
         osm := if !byOsm && HasOsm(loc) && row.osm.osmId.None? then Osm(Some(loc.osmType), loc.osmId) else row.osm)
  }

  /** UPDATE ... WHERE id = ?: without effect when the row is missing. */
  function UpdatedAt(t: Table, id: int, loc: Request, byOsm: bool): Table {
    if id in t.rows then t.(rows := t.rows[id := Updated(t.rows[id], loc, byOsm)]) else t
  }

  function GeohashOf(at: Coordinates): Option<string> {
    if at.lat.Some? && at.lng.Some?
    then Some(GeohashCodec.Encode(Geohash.Point(at.lat.value, at.lng.value), 7)) else None
  }

  function NewRow(loc: Request): Row {
    var g := loc.texts;
    Row(loc.name,
        Texts(Some(g.shortName), Some(g.address), Some(g.town), Some(g.zipcode), Some(g.country), Some(g.countryCode),
            Some(g.region)),
        loc.place, Osm(Some(loc.osmType), loc.osmId), loc.site, GeohashOf(loc.place), None)
  }

  /** The two unique indexes: (osm_type, osm_id), and geohash among rows without a parent. */
  predicate Clashes(a: Row, b: Row) {
    || (a.osm.osmId.Some? && a.osm.osmType.Some? && a.osm == b.osm)
    || (a.parent.None? && b.parent.None? && a.geohash.Some? && a.geohash == b.geohash)
  }

  predicate InsertFails(rows: Rows, row: Row) {
    exists id :: id in rows && Clashes(rows[id], row)
  }

  datatype Reply = Nothing | Id(id: int) | Failed

  datatype Result = Result(table: Table, reply: Reply)

  ghost function Ensure(t: Table, loc: Request): Result {
    if loc.name == "" then Result(t, Nothing)
    else if ByOsm(t, loc).Some? then
      Result(UpdatedAt(t, ByOsm(t, loc).value, loc, true), Id(ByOsm(t, loc).value))
    else if ByName(t, loc).Some? then
      Result(UpdatedAt(t, ByName(t, loc).value, loc, false), Id(ByName(t, loc).value))
    else if InsertFails(t.rows, NewRow(loc)) then Result(t, Failed)
    else Result(t.(rows := t.rows[t.lastId + 1 := NewRow(loc)], lastId := t.lastId + 1), Id(t.lastId + 1))
  }

  ghost predicate Consistent(t: Table) {
    && (forall id :: id in t.rows ==> id <= t.lastId)
    && (forall a, b :: a in t.rows && b in t.rows && a != b ==> !Clashes(t.rows[a], t.rows[b]))
  }

  // -------------------------------------------------------------------- idempotence

  lemma UpdatedTwice(row: Row, loc: Request, byOsm: bool, again: bool)
    requires byOsm ==> again
    requires again && !byOsm && HasOsm(loc) ==> row.osm.osmId.None?
    ensures Updated(Updated(row, loc, byOsm), loc, again) == Updated(row, loc, byOsm)
  {
  }

  /** An update changes no name and gives a venue's OSM identity to at most one row. */
  lemma LookupsAfterUpdate(t: Table, id: int, loc: Request, byOsm: bool)
    requires id in t.rows
    ensures forall name :: Named(UpdatedAt(t, id, loc, byOsm).rows, name) == Named(t.rows, name)
    ensures ByName(UpdatedAt(t, id, loc, byOsm), loc) == ByName(t, loc)
    ensures HasOsm(loc) ==>
              var same, same' := SameOsm(t.rows, loc.osmType, loc.osmId.value),
                                 SameOsm(UpdatedAt(t, id, loc, byOsm).rows, loc.osmType, loc.osmId.value);
              same' == if !byOsm && t.rows[id].osm.osmId.None? then same + {id} else same
  {
    var after := UpdatedAt(t, id, loc, byOsm);
    forall name ensures Named(after.rows, name) == Named(t.rows, name) {
      assert forall k :: k in after.rows ==> after.rows[k].name == t.rows[k].name;
    }
  }

  lemma FoundByOsmAgain(t: Table, loc: Request)
    requires loc.name != "" && ByOsm(t, loc).Some?
    ensures Ensure(Ensure(t, loc).table, loc) == Ensure(t, loc)
  {
    var id := ByOsm(t, loc).value;
    assert IsLowest(SameOsm(t.rows, loc.osmType, loc.osmId.value), id);
    LookupsAfterUpdate(t, id, loc, true);
    UpdatedTwice(t.rows[id], loc, true, true);
  }

  lemma FoundByNameAgain(t: Table, loc: Request)
    requires loc.name != "" && ByOsm(t, loc).None? && ByName(t, loc).Some?
    ensures Ensure(Ensure(t, loc).table, loc) == Ensure(t, loc)
  {
    var id := ByName(t, loc).value;
    if id in t.rows {
      var after := UpdatedAt(t, id, loc, false);
      LookupsAfterUpdate(t, id, loc, false);
      if HasOsm(loc) && t.rows[id].osm.osmId.None? {
        assert IsLowest(SameOsm(after.rows, loc.osmType, loc.osmId.value), id);
        UpdatedTwice(t.rows[id], loc, false, true);
      } else {
        UpdatedTwice(t.rows[id], loc, false, false);
      }
    }
  }

  lemma InsertedFoundAgain(t: Table, loc: Request)
    requires Consistent(t) && loc.name != "" && ByOsm(t, loc).None? && ByName(t, loc).None?
    requires !InsertFails(t.rows, NewRow(loc))
    ensures Ensure(Ensure(t, loc).table, loc) == Ensure(t, loc)
  {
    hide Clashes, GeohashOf;
    var id := t.lastId + 1;
    var after := Ensure(t, loc).table;
    assert Named(t.rows, loc.name) == {};
    assert Named(after.rows, loc.name) == {id};
    assert IsLowest(Named(after.rows, loc.name), id);
    if HasOsm(loc) {
      assert SameOsm(t.rows, loc.osmType, loc.osmId.value) == {};
      assert SameOsm(after.rows, loc.osmType, loc.osmId.value) == {id};
      assert IsLowest(SameOsm(after.rows, loc.osmType, loc.osmId.value), id);
    }
    assert Updated(NewRow(loc), loc, HasOsm(loc)) == NewRow(loc);
    assert UpdatedAt(after, id, loc, HasOsm(loc)) == after;
  }

  /** Repeating a successful call finds the same row and changes nothing, along
      every path the first call may have taken. */
  lemma EnsureIsIdempotent(t: Table, loc: Request)
    requires Consistent(t) && !Ensure(t, loc).reply.Failed?
    ensures Ensure(Ensure(t, loc).table, loc) == Ensure(t, loc)
  {
    if loc.name != "" {
      if ByOsm(t, loc).Some? {
        FoundByOsmAgain(t, loc);
      } else if ByName(t, loc).Some? {
        FoundByNameAgain(t, loc);
      } else {
        InsertedFoundAgain(t, loc);
      }
    }
  }

  // --------------------------------------------------------------- what is preserved

  predicate Keeps(before: Option<string>, after: Option<string>) {
    before.Some? && before.value != "" ==> after == before
  }

  predicate KeepsTexts(a: Texts, b: Texts) {
    && Keeps(a.shortName, b.shortName) && Keeps(a.address, b.address) && Keeps(a.town, b.town)
        && Keeps(a.zipcode, b.zipcode)
    && Keeps(a.country, b.country) && Keeps(a.countryCode, b.countryCode) && Keeps(a.region, b.region)
  }

  /** No import overwrites a name, a parent, a web site, an OSM identity or a
      non-empty text; only the returned row may change at all. */
  lemma EnsureOverwritesNoText(t: Table, loc: Request, id: int)
    requires Consistent(t) && id in t.rows
    ensures var r := Ensure(t, loc);
      && id in r.table.rows
      && var before, after := t.rows[id], r.table.rows[id];
         && before.name == after.name && before.parent == after.parent && before.site == after.site
         && before.geohash == after.geohash
         && (before.osm.osmId.Some? ==> after.osm == before.osm)
         && KeepsTexts(before.texts, after.texts)
         && (r.reply != Id(id) ==> after == before)
  {
  }

  /** The ignored results of the UPDATEs hide nothing: they never break a unique
      index, and neither does a successful insert. */
  lemma EnsureKeepsConsistent(t: Table, loc: Request)
    requires Consistent(t)
    ensures Consistent(Ensure(t, loc).table)
  {
    var after := Ensure(t, loc).table;
    var r := Ensure(t, loc).reply;
    if r.Id? && r.id in t.rows {
      EnsureGivesNewIdentity(t, loc, r.id);
      forall a, b | a in after.rows && b in after.rows && a != b ensures !Clashes(after.rows[a], after.rows[b]) {
        assert !Clashes(t.rows[a], t.rows[b]);
        if a == r.id || b == r.id { EnsureOverwritesNoText(t, loc, r.id); }
      }
    } else if r.Id? && r.id in after.rows {
      assert after.rows == t.rows[r.id := NewRow(loc)];
      ClashIsSymmetric();
    }
  }

  lemma ClashIsSymmetric()
    ensures forall a, b :: Clashes(a, b) <==> Clashes(b, a)
  {
  }

  lemma EnsureGivesNewIdentity(t: Table, loc: Request, id: int)
    requires Consistent(t) && id in t.rows && Ensure(t, loc).reply == Id(id)
    ensures var after := Ensure(t, loc).table.rows[id];
      after.osm != t.rows[id].osm ==>
        forall other :: other in t.rows ==> t.rows[other].osm != after.osm
  {
    if HasOsm(loc) && ByOsm(t, loc).None? {
      assert SameOsm(t.rows, loc.osmType, loc.osmId.value) == {};
      forall other | other in t.rows ensures t.rows[other].osm != Osm(Some(loc.osmType), loc.osmId) {
        assert other !in SameOsm(t.rows, loc.osmType, loc.osmId.value);
      }
    }
  }

  /** An update moves the coordinates but not the geohash. A row whose geohash
      fits its coordinates goes on fitting exactly when the call gives no
      coordinates or ones in the same cell; half a coordinate never fits. */
  lemma GeohashFitsExactly(t: Table, loc: Request, id: int)
    requires Consistent(t) && id in t.rows && Ensure(t, loc).reply == Id(id)
    requires t.rows[id].geohash == GeohashOf(t.rows[id].place)
    ensures var after := Ensure(t, loc).table.rows[id];
      after.geohash == GeohashOf(after.place) <==> !GivesPlace(loc) || GeohashOf(loc.place) == t.rows[id].geohash
  {
    hide Clashes, Backfilled;
    var before, after := t.rows[id], Ensure(t, loc).table.rows[id];
    assert after.geohash == before.geohash;
    assert after.place == if GivesPlace(loc) then loc.place else before.place;
  }

  const NO_TEXTS := GivenTexts("", "", "", "", "", "", "")

  function VenueAt(name: string, p: Geohash.Point): Request {
    Request(name, NO_TEXTS, Coordinates(Some(p.lat), Some(p.lng)), None, "", "")
  }

  /** A venue that a feed creates at p and later places at q, more than a degree
      away, keeps the geohash of p. */
  lemma MovedVenueKeepsGeohash(name: string, p: Geohash.Point, q: Geohash.Point)
    requires name != "" && p.lat > q.lat + 1.0
    requires Geohash.Contains(Geohash.GLOBE, p) && Geohash.Contains(Geohash.GLOBE, q)
    ensures var created := Ensure(Table(map[], 0, {}), VenueAt(name, p)).table;
      var moved := Ensure(created, VenueAt(name, q));
      && 1 in created.rows && created.rows[1].geohash == GeohashOf(created.rows[1].place)
      && moved.reply == Id(1) && 1 in moved.table.rows
      && moved.table.rows[1].place == Coordinates(Some(q.lat), Some(q.lng))
      && moved.table.rows[1].geohash != GeohashOf(moved.table.rows[1].place)
  {
    hide GeohashOf, Backfilled;
    var empty, loc, far := Table(map[], 0, {}), VenueAt(name, p), VenueAt(name, q);
    assert Named(empty.rows, name) == {} && Aliased(empty.aliases, name) == {};
    var created := Ensure(empty, loc).table;
    assert created.rows == map[1 := NewRow(loc)];
    assert Named(created.rows, name) == {1} && IsLowest(Named(created.rows, name), 1);
    assert ByName(created, far) == Some(1);
    GeohashCodec.FarPointsDiffer(p, q, 7);
    GeohashIsEncoding(p);
    GeohashIsEncoding(q);
  }

  lemma GeohashIsEncoding(p: Geohash.Point)
    ensures GeohashOf(Coordinates(Some(p.lat), Some(p.lng))) == Some(GeohashCodec.Encode(p, 7))
  {
  }
}
