/** The five-tier search for an event that an entry duplicates. */
module Dedup {
  import opened Options
  import opened EventTable
  import opened Titles

  datatype Tier =
    | TierNone
    | TierUID
    | TierURL
    | TierLocation
    | TierTitle
    | TierFuzzyReview
    | TierLocationReview
  {
    /** A hint to flag both rows, rather than a match to merge into. */
    predicate IsReview() {
      TierFuzzyReview? || TierLocationReview?
    }

    predicate IsMatch() {
      TierUID? || TierURL? || TierLocation? || TierTitle?
    }
  }

  /** The row found and the tier that found it; id is 0 when no tier did. */
  datatype Found = Found(id: int, tier: Tier)

  const NOTHING := Found(0, TierNone)

  /** The columns of an entry the search looks at. A start that could not be
      parsed (previews only) is None. */
  datatype Query = Query(title: string, url: string, start: Option<int>, location: int, uid: string, fetchSource: int)

  function QueryOf(inp: EventInput): Query {
    Query(inp.title, inp.url, Some(inp.start), inp.location, inp.uid, inp.fetchSource)
  }

  // ------------------------------------------------------------ one query a tier

  function UidRows(rows: Rows, uid: string): Candidates {
    map id | id in rows && rows[id].key.uid == Some(uid) :: 0
  }

  function UrlRows(rows: Rows, url: string, start: int): Candidates {
    map id | id in rows && rows[id].key.url == Some(url) && Near(rows[id].key.start, start) :: 0
  }

  /** The entry's own feed first, then the closest start. */
  function VenueRank(e: Event, fetchSource: int, start: int): int {
    (if e.key.fetchSource.Or(0) == fetchSource then 0 else THREE_HOURS) + Abs(e.key.start - start)
  }

  function VenueRows(rows: Rows, location: int, start: int, fetchSource: int): Candidates {
    map id | id in rows && rows[id].key.location == Some(location) && Near(rows[id].key.start, start)
      :: VenueRank(rows[id], fetchSource, start)
  }

  function TitleRows(rows: Rows, title: string, start: int): Candidates {
    map id | id in rows && rows[id].key.title == title && Near(rows[id].key.start, start) :: 0
  }

  function FeedRows(rows: Rows, fetchSource: int, start: int): Candidates {
    map id | id in rows && rows[id].key.fetchSource == Some(fetchSource) && Near(rows[id].key.start, start) :: 0
  }

  function FuzzyRows(rows: Rows, title: string, fetchSource: int, start: int): Candidates {
    map id | id in rows && rows[id].key.fetchSource == Some(fetchSource) && Near(rows[id].key.start, start)
             && FuzzyOverlap(title, rows[id].key.title) :: 0
  }

  /** A venue hit is the same event when the same feed sends it again, or when
      another feed sends it under the same or an overlapping title. */
  predicate SameEvent(e: Event, title: string, fetchSource: int) {
    && fetchSource > 0
    && (e.key.fetchSource.Or(0) == fetchSource || title == e.key.title || FuzzyOverlap(title, e.key.title))
  }

  // ---------------------------------------------------------------- the hierarchy

  function FindExisting(rows: Rows, q: Query): Found {
    if q.uid != "" && UidRows(rows, q.uid) != map[] then
      Found(First(UidRows(rows, q.uid)), TierUID)
    else if q.start.None? then
      NOTHING
    else
      FindByStart(rows, q, q.start.value)
  }

  function FindByStart(rows: Rows, q: Query, start: int): Found {
    if q.url != "" && UrlRows(rows, q.url, start) != map[] then
      Found(First(UrlRows(rows, q.url, start)), TierURL)
    else if q.location > 0 && VenueRows(rows, q.location, start, q.fetchSource) != map[] then
      var id := First(VenueRows(rows, q.location, start, q.fetchSource));
      Found(id, if SameEvent(rows[id], q.title, q.fetchSource) then TierLocation else TierLocationReview)
    else if TitleRows(rows, q.title, start) != map[] then
      Found(First(TitleRows(rows, q.title, start)), TierTitle)
    else if q.fetchSource > 0 && q.title != "" && FuzzyRows(rows, q.title, q.fetchSource, start) != map[] then
      Found(First(FuzzyRows(rows, q.title, q.fetchSource, start)), TierFuzzyReview)
    else
      NOTHING
  }

  /** What a hit means: the row exists, and below the uid tier it starts within
      three hours of the entry. */
  lemma FoundMeans(rows: Rows, q: Query)
    ensures var f := FindExisting(rows, q);
      && (if f.tier.TierNone? then f.id == 0 else f.id in rows)
      && (f.tier.TierUID? ==> q.uid != "" && rows[f.id].key.uid == Some(q.uid))
      && (f.tier != TierNone && !f.tier.TierUID? ==> q.start.Some? && Near(rows[f.id].key.start, q.start.value))
      && (f.tier.TierURL? ==> q.url != "" && rows[f.id].key.url == Some(q.url))
      && (f.tier.TierTitle? ==> rows[f.id].key.title == q.title)
      && (f.tier.TierLocation? || f.tier.TierLocationReview? ==>
          q.location > 0 && rows[f.id].key.location == Some(q.location))
      && (f.tier.TierFuzzyReview? ==> q.fetchSource > 0 && rows[f.id].key.fetchSource == Some(q.fetchSource)
                                      && FuzzyOverlap(q.title, rows[f.id].key.title))
  {
  }

  // ------------------------------------------------- the search in terms of columns

  predicate SameUid(e: Event, q: Query) {
    q.uid != "" && e.key.uid == Some(q.uid)
  }

  predicate AtThatTime(e: Event, q: Query) {
    q.start.Some? && -10800 < e.key.start - q.start.value < 10800
  }

  predicate SameUrl(e: Event, q: Query) {
    AtThatTime(e, q) && q.url != "" && e.key.url == Some(q.url)
  }

  predicate SameVenue(e: Event, q: Query) {
    AtThatTime(e, q) && q.location > 0 && e.key.location == Some(q.location)
  }

  predicate SameTitle(e: Event, q: Query) {
    AtThatTime(e, q) && e.key.title == q.title
  }

  predicate SimilarInFeed(e: Event, q: Query) {
    && AtThatTime(e, q) && q.fetchSource > 0 && q.title != "" && e.key.fetchSource == Some(q.fetchSource)
    && FuzzyOverlap(q.title, e.key.title)
  }

  /** Which tier answers: the first one that any row answers, in the order uid,
      URL, venue, title and similar title. */
  lemma TierMeans(rows: Rows, q: Query)
    ensures var tier := FindExisting(rows, q).tier;
      if exists id :: id in rows && SameUid(rows[id], q) then tier == TierUID
      else if exists id :: id in rows && SameUrl(rows[id], q) then tier == TierURL
      else if exists id :: id in rows && SameVenue(rows[id], q) then tier == TierLocation || tier == TierLocationReview
      else if exists id :: id in rows && SameTitle(rows[id], q) then tier == TierTitle
      else if exists id :: id in rows && SimilarInFeed(rows[id], q) then tier == TierFuzzyReview
      else tier == TierNone
  {
    hide FuzzyOverlap;
    forall id | id in rows
      ensures SameUid(rows[id], q) <==> q.uid != "" && id in UidRows(rows, q.uid)
    {
    }
    if q.start.Some? {
      var start := q.start.value;
      forall id | id in rows
        ensures SameUrl(rows[id], q) <==> q.url != "" && id in UrlRows(rows, q.url, start)
        ensures SameVenue(rows[id], q) <==> q.location > 0 && id in VenueRows(rows, q.location, start, q.fetchSource)
        ensures SameTitle(rows[id], q) <==> id in TitleRows(rows, q.title, start)
        ensures SimilarInFeed(rows[id], q) <==>
                q.fetchSource > 0 && q.title != "" && id in FuzzyRows(rows, q.title, q.fetchSource, start)
      {
      }
    }
  }

  /** The lowest id a condition singles out. */
  ghost predicate IsLowest(rows: Rows, id: int, chosen: Event -> bool) {
    id in rows && chosen(rows[id]) && forall other :: other in rows && chosen(rows[other]) ==> id <= other
  }

  /** Which row it returns: one that answers the tier, and the lowest id of those
      everywhere but at a venue. */
  lemma RowMeans(rows: Rows, q: Query)
    ensures match FindExisting(rows, q)
      case Found(id, TierUID) => IsLowest(rows, id, e => SameUid(e, q))
      case Found(id, TierURL) => IsLowest(rows, id, e => SameUrl(e, q))
      case Found(id, TierTitle) => IsLowest(rows, id, e => SameTitle(e, q))
      case Found(id, TierFuzzyReview) => IsLowest(rows, id, e => SimilarInFeed(e, q))
      case Found(id, TierNone) => id == 0
      case Found(id, _) => id in rows && SameVenue(rows[id], q)
  {
    hide FuzzyOverlap;
    var f := FindExisting(rows, q);
    if f.tier.TierUID? {
      LowestOf(rows, UidRows(rows, q.uid), e => SameUid(e, q));
    } else if q.start.Some? {
      var start := q.start.value;
      match f.tier {
        case TierURL => LowestOf(rows, UrlRows(rows, q.url, start), e => SameUrl(e, q));
        case TierTitle => LowestOf(rows, TitleRows(rows, q.title, start), e => SameTitle(e, q));
        case TierFuzzyReview =>
          LowestOf(rows, FuzzyRows(rows, q.title, q.fetchSource, start), e => SimilarInFeed(e, q));
        case _ =>
      }
    }
  }

  lemma LowestOf(rows: Rows, c: Candidates, chosen: Event -> bool)
    requires c != map[] && forall id :: id in c <==> id in rows && chosen(rows[id])
    requires forall id :: id in c ==> c[id] == 0
    ensures IsLowest(rows, First(c), chosen)
  {
    var id := First(c);
    forall other | other in rows && chosen(rows[other]) ensures id <= other {
      assert other in c;
      assert other == id || Before(c, id, other);
    }
  }

  /** What a venue hit is taken for: the same event exactly when a feed asks, and
      the row comes from that feed, has the same title or an overlapping one. Any
      other venue hit, and every hit of a manual creation, is only a hint. */
  lemma VenueHitMeans(rows: Rows, q: Query)
    ensures var f := FindExisting(rows, q);
      f.tier.TierLocation? || f.tier.TierLocationReview? ==>
        && f.id in rows
        && var e := rows[f.id].key;
           f.tier.TierLocation? <==>
             q.fetchSource > 0
             && (e.fetchSource == Some(q.fetchSource) || e.title == q.title || FuzzyOverlap(q.title, e.title))
  {
    hide FuzzyOverlap;
  }
}
