/** The locations table, and ensureLocation as it runs on it. */
module LocationStoreModule {
  import opened Options
  import opened Locations
  import Sets

  class LocationStore {
    var rows: Rows
    var lastId: int
    var aliases: set<Alias>

    function Current(): Table
      reads this
    {
      Table(rows, lastId, aliases)
    }

    constructor ()
      ensures Current() == Table(map[], 0, {})
    {
      rows, lastId, aliases := map[], 0, {};
    }

    /** QueryRow over the matching ids. */
    method FirstRow(ids: set<int>) returns (r: Option<int>)
      ensures r == Pick(ids)
    {
      hide Pick;
      r := None;
      var pending := ids;
      while pending != {}
        invariant pending <= ids
        invariant r.Some? ==> r.value in ids
        invariant forall x :: x in ids ==> x in pending || (r.Some? && r.value <= x)
        decreases |pending|
      {
        Sets.HasInt(pending);
        var id :| id in pending;
        pending := pending - {id};
        if r.None? || id < r.value { r := Some(id); }
      }
      assert r.None? ==> forall x :: x !in ids;
      Sets.HasInt(ids);
      assert r.Some? ==> IsLowest(ids, r.value);
    }

    /** ensureLocation: an id, Nothing for an unnamed venue, or a failed INSERT. */
    method EnsureLocation(loc: Request) returns (reply: Reply)
      modifies this
      ensures Result(Current(), reply) == Ensure(old(Current()), loc)
    {
      hide Pick, Updated, GeohashOf, Clashes;
      if loc.name == "" { return Nothing; }
      var id: Option<int> := None;
      var matchedByOsm := false;
      if loc.osmId.Some? && loc.osmType != "" {
        id := FirstRow(SameOsm(rows, loc.osmType, loc.osmId.value));
        matchedByOsm := id.Some?;
      }
      if !matchedByOsm {
        id := FirstRow(Named(rows, loc.name));
        if id.None? && loc.texts.address != "" {
          id := FirstRow(Named(rows, loc.name + " - " + loc.texts.address));
        }
        if id.None? {
          id := FirstRow(Aliased(aliases, loc.name));
        }
      }
      if id.Some? {
        UpdateRow(id.value, loc, matchedByOsm);
        return Id(id.value);
      }
      var row := NewRow(loc);
      if InsertFails(rows, row) { return Failed; }
      lastId := lastId + 1;
      rows := rows[lastId := row];
      return Id(lastId);
    }

    /** The three UPDATE statements for a row that was found. */
    method UpdateRow(id: int, loc: Request, matchedByOsm: bool)
      modifies `rows
      ensures Current() == UpdatedAt(old(Current()), id, loc, matchedByOsm)
    {
      hide Backfill;
      if id !in rows { return; }
      if loc.place.lat.Some? || loc.place.lng.Some? {
        rows := rows[id := rows[id].(place := loc.place)];
      }
      var g := loc.texts;
      if g.shortName != "" || g.address != "" || g.town != "" || g.zipcode != ""
         || g.country != "" || g.countryCode != "" || g.region != "" {
        var t := rows[id].texts;
        rows := rows[id := rows[id].(texts := Texts(
          Backfill(t.shortName, g.shortName), Backfill(t.address, g.address), Backfill(t.town, g.town),
          Backfill(t.zipcode, g.zipcode), Backfill(t.country, g.country), Backfill(t.countryCode, g.countryCode),
          Backfill(t.region, g.region)))];
      }
      if !matchedByOsm && loc.osmId.Some? && loc.osmType != "" && rows[id].osm.osmId.None? {
        rows := rows[id := rows[id].(osm := Osm(Some(loc.osmType), loc.osmId))];
      }
    }
  }
}
