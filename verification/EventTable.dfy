/** The events table: its rows, the payload an import writes, and the
    deterministic row choice used wherever a query can match several rows. */
module EventTable {
  import opened Options
  import opened Sets

  /** The tolerance shared by duplicate detection and rescheduling, in seconds. */
  const THREE_HOURS := 10800

  /** The columns duplicate detection looks at. */
  datatype MatchKey = MatchKey(
    uid: Option<string>, title: string, start: int, location: Option<int>,
    url: Option<string>, fetchSource: Option<int>)

  /** The remaining columns a source may update. */
  datatype Content = Content(description: string, end: int, cancelled: bool, difficulty: string,
      pricing: Option<string>)

  /** The columns feeds do not carry reliably. */
  datatype Curated = Curated(hasBall: bool, hasWorkshop: bool, hasFestival: bool, published: bool)

  /** Columns of the entry that are stored by an insert only. */
  datatype Details = Details(
    noLiveMusic: bool, food: string, drink: string, floorCondition: string, attributes: string,
    contactName: string, contactEmail: string, createdBy: Option<int>, imageAiGenerated: bool,
    timetableTracks: Option<string>, reservationRequested: bool)

  /** Columns no import changes once the row exists. An empty code stands for NULL. */
  datatype Fixed = Fixed(shortCode: string, source: Option<string>, bookingUrl: Option<string>, details: Details)

  /** When and by whom the row was written. */
  datatype Stamp = Stamp(
    lastModified: Option<int>, changedAt: Option<int>, changedBy: string, icalSequence: int, emailVerified: bool)

  /** One row of the events table. */
  datatype Event = Event(
    key: MatchKey, content: Content, curated: Curated, fixed: Fixed, stamp: Stamp,
    organization: Option<int>, previousStart: Option<int>, flagged: bool, duplicateOf: Option<int>)

  /** What a feed entry or a manual creation asks insertEvent to store. Empty
      strings and zeroes mean "not given". */
  datatype EventInput = EventInput(
    title: string, description: string, start: int, end: int, location: int,
    curated: Curated, cancelled: bool, confirmNew: bool,
    difficulty: string, bookingUrl: string, organization: Option<int>,
    uid: string, url: string, source: string, lastModified: int, icalSequence: int,
    pricing: Option<string>, fetchSource: int, details: Details)

  type Rows = map<int, Event>

  /** The table together with the highest id it ever handed out. */
  datatype Table = Table(rows: Rows, lastId: int)

  /** Ids are positive and never above the highest id handed out. */
  ghost predicate IdsBounded(t: Table) {
    t.lastId >= 0 && forall id :: id in t.rows ==> 0 < id <= t.lastId
  }

  /** The UNIQUE constraint on uid. */
  ghost predicate UidsUnique(rows: Rows) {
    forall a, b :: a in rows && b in rows && rows[a].key.uid.Some? && rows[a].key.uid == rows[b].key.uid ==> a == b
  }

  /** The UNIQUE constraint on short_code. */
  ghost predicate CodesUnique(rows: Rows) {
    forall a, b :: (a in rows && b in rows && rows[a].fixed.shortCode != ""
                    && rows[a].fixed.shortCode == rows[b].fixed.shortCode) ==> a == b
  }

  /** Every duplicate reference sits on a flagged row and names another row that exists. */
  ghost predicate FlagsSound(rows: Rows) {
    forall id :: id in rows && rows[id].duplicateOf.Some? ==>
      rows[id].flagged && rows[id].duplicateOf.value != id && rows[id].duplicateOf.value in rows
  }

  /** What every operation on the table keeps. */
  ghost predicate Consistent(t: Table) {
    IdsBounded(t) && UidsUnique(t.rows) && CodesUnique(t.rows) && FlagsSound(t.rows)
  }

  function Abs(x: int): int {
    if x < 0 then -x else x
  }

  /** ABS(start_time - ?) < 3h. */
  predicate Near(a: int, b: int) {
    Abs(a - b) < THREE_HOURS
  }

  /** An empty string is stored as NULL. */
  function NullIfEmpty(s: string): Option<string> {
    if s == "" then None else Some(s)
  }

  /** A value that is not positive is stored as NULL. */
  function PositiveOrNull(n: int): Option<int> {
    if n > 0 then Some(n) else None
  }

  // ---------------------------------------------------------------- row choice

  /** Candidates of a query: row id to sort key. */
  type Candidates = map<int, int>

  /** a is returned before b: smaller sort key first, then lower id. */
  predicate Before(c: Candidates, a: int, b: int)
    requires a in c && b in c
  {
    c[a] < c[b] || (c[a] == c[b] && a <= b)
  }

  predicate ComesFirst(c: Candidates, ids: set<int>, id: int)
    requires ids <= c.Keys
  {
    id in ids && forall other :: other in ids ==> Before(c, id, other)
  }

  lemma {:induction false} FirstExists(c: Candidates, ids: set<int>)
    requires ids <= c.Keys && ids != {}
    ensures exists id :: ComesFirst(c, ids, id)
  {
    HasInt(ids);
    var x :| x in ids;
    var rest := ids - {x};
    if rest == {} {
      assert ids == {x} && ComesFirst(c, ids, x);
    } else {
      FirstExists(c, rest);
      var y :| ComesFirst(c, rest, y);
      var best := if Before(c, x, y) then x else y;
      forall other | other in ids ensures Before(c, best, other) {
        if other != x { assert Before(c, y, other); }
      }
      assert ComesFirst(c, ids, best);
    }
  }

  /** The row a query with LIMIT 1 (or QueryRow) returns. */
  function First(c: Candidates): (id: int)
    requires c != map[]
    ensures id in c && forall other :: other in c ==> Before(c, id, other)
  {
    FirstExists(c, c.Keys);
    var id :| ComesFirst(c, c.Keys, id);
    id
  }

  lemma FirstIs(c: Candidates, x: int)
    requires x in c && forall other :: other in c ==> Before(c, x, other)
    ensures First(c) == x
  {
    assert Before(c, First(c), x) && Before(c, x, First(c));
  }
}
