/** Which venue a call returns and what it leaves in the row, column by column. */
module LocationLaws {
  import opened Options
  import opened Locations
  import Geohash
  import GeohashCodec

  // ------------------------------------------------------------------- the lookups

  datatype Lookup = OfOsm | OfName | OfNameAndAddress | OfAlias

  /** The venue has the given OSM identity, the given name, the given name as
      another export writes it, with the address after it, or an alias like that. */
  ghost predicate Answers(t: Table, loc: Request, way: Lookup, id: int) {
    match way
    case OfOsm =>
      && loc.osmId.Some? && loc.osmType != "" && id in t.rows
      && t.rows[id].osm.osmType == Some(loc.osmType) && t.rows[id].osm.osmId == loc.osmId
    case OfName => id in t.rows && t.rows[id].name == loc.name
    case OfNameAndAddress =>
      loc.texts.address != "" && id in t.rows && t.rows[id].name == loc.name + " - " + loc.texts.address
    case OfAlias => Alias(id, loc.name) in t.aliases
  }

  ghost predicate IsFirst(t: Table, loc: Request, way: Lookup, id: int) {
    Answers(t, loc, way, id) && forall other :: Answers(t, loc, way, other) ==> id <= other
  }

  lemma PickIsFirst(t: Table, loc: Request, way: Lookup, ids: set<int>)
    requires forall id :: id in ids <==> Answers(t, loc, way, id)
    ensures match Pick(ids)
      case None => forall id :: !Answers(t, loc, way, id)
      case Some(id) => IsFirst(t, loc, way, id)
  {
    hide Answers;
    if Pick(ids).Some? { assert Locations.IsLowest(ids, Pick(ids).value); }
  }

  lemma OsmLookup(t: Table, loc: Request)
    ensures match ByOsm(t, loc)
      case None => forall id :: !Answers(t, loc, OfOsm, id)
      case Some(id) => IsFirst(t, loc, OfOsm, id)
  {
    hide Pick, IsFirst;
    if HasOsm(loc) { PickIsFirst(t, loc, OfOsm, SameOsm(t.rows, loc.osmType, loc.osmId.value)); }
  }

  lemma AliasLookup(t: Table, loc: Request)
    ensures match Pick(Aliased(t.aliases, loc.name))
      case None => forall id :: !Answers(t, loc, OfAlias, id)
      case Some(id) => IsFirst(t, loc, OfAlias, id)
  {
    hide Pick, IsFirst;
    forall id ensures id in Aliased(t.aliases, loc.name) <==> Answers(t, loc, OfAlias, id) {
      if Answers(t, loc, OfAlias, id) { assert Alias(id, loc.name).alias == loc.name; }
    }
    PickIsFirst(t, loc, OfAlias, Aliased(t.aliases, loc.name));
  }

  lemma NameLookup(t: Table, loc: Request)
    ensures match ByName(t, loc)
      case None => forall way, id :: way in {OfName, OfNameAndAddress, OfAlias} ==> !Answers(t, loc, way, id)
      case Some(id) =>
        if exists other :: Answers(t, loc, OfName, other) then IsFirst(t, loc, OfName, id)
        else if exists other :: Answers(t, loc, OfNameAndAddress, other) then IsFirst(t, loc, OfNameAndAddress, id)
        else IsFirst(t, loc, OfAlias, id)
  {
    AliasLookup(t, loc);
    PickIsFirst(t, loc, OfName, Named(t.rows, loc.name));
    if loc.texts.address != "" {
      PickIsFirst(t, loc, OfNameAndAddress, Named(t.rows, loc.name + " - " + loc.texts.address));
    }
    hide Pick;
  }

  /** Which venue a call returns: one with the given OSM identity, else one with
      that name, else one with that name and address, else one with that alias,
      and always the lowest id; a new one only when there is none of these. */
  lemma LookupMeans(t: Table, loc: Request)
    requires loc.name != ""
    ensures var reply := Ensure(t, loc).reply;
      if exists id :: Answers(t, loc, OfOsm, id) then reply.Id? && IsFirst(t, loc, OfOsm, reply.id)
      else if exists id :: Answers(t, loc, OfName, id) then reply.Id? && IsFirst(t, loc, OfName, reply.id)
      else if exists id :: Answers(t, loc, OfNameAndAddress, id) then
        reply.Id? && IsFirst(t, loc, OfNameAndAddress, reply.id)
      else if exists id :: Answers(t, loc, OfAlias, id) then reply.Id? && IsFirst(t, loc, OfAlias, reply.id)
      else reply == Failed || reply == Id(t.lastId + 1)
  {
    hide Pick, UpdatedAt, InsertFails, NewRow, Answers, ByName, ByOsm;
    OsmLookup(t, loc);
    NameLookup(t, loc);
  }

  // --------------------------------------------------------------------- the update

  /** A text column is filled in only when it has no text and the feed gives some
      text for the venue. */
  ghost predicate FilledIn(before: Option<string>, given: string, anyGiven: bool, after: Option<string>) {
    after == if anyGiven && (before == None || before == Some("")) then Some(given) else before
  }

  ghost predicate TextsFilledIn(before: Texts, g: GivenTexts, after: Texts) {
    var any := exists s :: s != "" && s in [g.shortName, g.address, g.town, g.zipcode, g.country, g.countryCode,
                                            g.region];
    && FilledIn(before.shortName, g.shortName, any, after.shortName)
    && FilledIn(before.address, g.address, any, after.address)
    && FilledIn(before.town, g.town, any, after.town)
    && FilledIn(before.zipcode, g.zipcode, any, after.zipcode)
    && FilledIn(before.country, g.country, any, after.country)
    && FilledIn(before.countryCode, g.countryCode, any, after.countryCode)
    && FilledIn(before.region, g.region, any, after.region)
  }

  lemma BackfilledMeans(before: Texts, g: GivenTexts)
    ensures TextsFilledIn(before, g, Backfilled(before, g))
  {
    var given := [g.shortName, g.address, g.town, g.zipcode, g.country, g.countryCode, g.region];
    assert given[0] in given && given[1] in given && given[2] in given && given[3] in given
        && given[4] in given && given[5] in given && given[6] in given;
    assert GivesText(g) <==> exists s :: s != "" && s in given;
  }

  /** What a call does to the venue it found: given coordinates replace the stored
      ones, even half a pair; texts are filled in; the OSM identity is taken over
      by a venue that has none. Nothing else changes, and no other venue does. */
  lemma FoundVenueMeans(t: Table, loc: Request, id: int)
    requires Consistent(t) && id in t.rows && Ensure(t, loc).reply == Id(id)
    ensures var after := Ensure(t, loc).table;
      && id in after.rows && after == t.(rows := t.rows[id := after.rows[id]])
      && var row, updated := t.rows[id], after.rows[id];
         && updated.name == row.name && updated.site == row.site && updated.geohash == row.geohash
         && updated.parent == row.parent
         && updated.place == (if loc.place == Coordinates(None, None) then row.place else loc.place)
         && TextsFilledIn(row.texts, loc.texts, updated.texts)
         && updated.osm == (if row.osm.osmId == None && loc.osmId.Some? && loc.osmType != ""
                            then Osm(Some(loc.osmType), loc.osmId) else row.osm)
  {
    BackfilledMeans(t.rows[id].texts, loc.texts);
    if ByOsm(t, loc).Some? {
      assert IsLowest(SameOsm(t.rows, loc.osmType, loc.osmId.value), ByOsm(t, loc).value);
    }
    hide Backfilled, TextsFilledIn, Pick, Clashes, SameOsm;
  }

  // --------------------------------------------------------------------- the insert

  /** The venue would have the OSM identity of another one, or lie in the cell of
      another one that has no parent. */
  ghost predicate InTheWay(row: Row, loc: Request) {
    || (loc.osmId.Some? && row.osm.osmType == Some(loc.osmType) && row.osm.osmId == loc.osmId)
    || (loc.place.lat.Some? && loc.place.lng.Some? && row.parent == None
        && row.geohash == Some(GeohashCodec.Encode(Geohash.Point(loc.place.lat.value, loc.place.lng.value), 7)))
  }

  ghost predicate CarriesVenue(row: Row, loc: Request) {
    && row.name == loc.name && row.place == loc.place && row.site == loc.site && row.parent == None
    && row.osm.osmType == Some(loc.osmType) && row.osm.osmId == loc.osmId
    && row.texts.shortName == Some(loc.texts.shortName) && row.texts.address == Some(loc.texts.address)
    && row.texts.town == Some(loc.texts.town) && row.texts.zipcode == Some(loc.texts.zipcode)
    && row.texts.country == Some(loc.texts.country) && row.texts.countryCode == Some(loc.texts.countryCode)
    && row.texts.region == Some(loc.texts.region)
    && row.geohash ==
       (if loc.place.lat.Some? && loc.place.lng.Some?
        then Some(GeohashCodec.Encode(Geohash.Point(loc.place.lat.value, loc.place.lng.value), 7)) else None)
  }

  /** A venue that no lookup finds is inserted as the feed describes it, under the
      next id, unless some venue is in the way, and then nothing happens. */
  lemma NewVenueMeans(t: Table, loc: Request)
    requires loc.name != ""
    requires forall way, id :: !Answers(t, loc, way, id)
    ensures var r := Ensure(t, loc);
      if exists id :: id in t.rows && InTheWay(t.rows[id], loc) then r == Result(t, Failed)
      else
        && r.reply == Id(t.lastId + 1) && r.reply.id in r.table.rows
        && r.table == Table(t.rows[r.reply.id := r.table.rows[r.reply.id]], r.reply.id, t.aliases)
        && CarriesVenue(r.table.rows[r.reply.id], loc)
  {
    hide GeohashCodec.Encode;
    OsmLookup(t, loc);
    NameLookup(t, loc);
    assert ByOsm(t, loc).None? && ByName(t, loc).None? by { hide ByOsm, ByName; }
    hide ByOsm, ByName, Answers;
    forall id | id in t.rows ensures Clashes(t.rows[id], NewRow(loc)) <==> InTheWay(t.rows[id], loc) {
    }
    hide Clashes, InTheWay;
  }

  /** A venue without a name is nobody's. */
  lemma UnnamedVenueIsNothing(t: Table, loc: Request)
    ensures Ensure(t, loc).reply == Nothing <==> loc.name == ""
    ensures loc.name == "" ==> Ensure(t, loc).table == t
  {
    hide Pick;
  }
}
