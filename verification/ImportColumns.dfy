/** What an import writes, column by column: the merge, the overwrite and the
    insert agree wherever the entry speaks, and differ only where it is silent. */
module ImportColumns {
  import opened Options
  import opened EventTable
  import opened Dedup
  import opened DuplicateFlags
  import opened EventImport

  /** The given value where there is one, and the kept one where there is none. */
  function Either<T>(given: Option<T>, kept: Option<T>): Option<T> {
    if given.Some? then given else kept
  }

  /** The first text that is not empty. */
  function EitherText(given: string, kept: string): string {
    if given != "" then given else kept
  }

  /** What every update does: the entry's times, cancellation and source
      timestamp are recorded, an organisation is filled in, and a published row
      that moves by three hours or more remembers where it stood. */
  ghost predicate RecordsTheEntry(e: Event, written: Event, inp: EventInput, inserted: Event) {
    && written.key.start == inp.start && written.content.end == inp.end && written.content.cancelled == inp.cancelled
    && written.organization == Either(e.organization, inserted.organization)
    && written.stamp.lastModified == inserted.stamp.lastModified && written.stamp.emailVerified
    && written.stamp.icalSequence == (if inp.icalSequence > 0 then inp.icalSequence else e.stamp.icalSequence)
    && written.previousStart ==
       (if e.curated.published && !e.content.cancelled && e.key.start > 0
           && !(-10800 < inp.start - e.key.start < 10800)
        then Some(e.key.start) else e.previousStart)
    && written.fixed == e.fixed && written.flagged == e.flagged && written.duplicateOf == e.duplicateOf
  }

  /** A merge takes, column by column, what the entry gives, as an insert would
      store it, and keeps the row's value where the entry is silent. A uid is
      only filled in, and the curated columns and the change stamp stay. */
  ghost predicate TakesWhatIsGiven(e: Event, merged: Event, inserted: Event) {
    && merged.key.uid == Either(e.key.uid, inserted.key.uid)
    && merged.key.title == inserted.key.title
    && merged.key.location == Either(inserted.key.location, e.key.location)
    && merged.key.url == Either(inserted.key.url, e.key.url)
    && merged.key.fetchSource == Either(inserted.key.fetchSource, e.key.fetchSource)
    && merged.content.description == EitherText(inserted.content.description, e.content.description)
    && merged.content.difficulty == EitherText(inserted.content.difficulty, e.content.difficulty)
    && merged.content.pricing == Either(inserted.content.pricing, e.content.pricing)
    && merged.curated == e.curated
    && merged.stamp.changedAt == e.stamp.changedAt && merged.stamp.changedBy == e.stamp.changedBy
  }

  /** An overwrite leaves the content, the curated columns and the URL an insert
      would have stored, even where the entry is silent; the title stays. Only an
      import claims the row for its feed. */
  ghost predicate MirrorsInsert(e: Event, written: Event, inp: EventInput, inserted: Event) {
    && written.content == inserted.content && written.curated == inserted.curated
    && written.key.url == inserted.key.url && written.key.title == e.key.title
    && written.key.location == Either(inserted.key.location, e.key.location)
    && (if inp.source == "" then
          && written.key.uid == e.key.uid && written.key.fetchSource == e.key.fetchSource
          && written.stamp.changedAt == e.stamp.changedAt && written.stamp.changedBy == e.stamp.changedBy
        else
          && written.key.uid == Either(e.key.uid, inserted.key.uid)
          && written.key.fetchSource == Either(inserted.key.fetchSource, e.key.fetchSource)
          && written.stamp.changedAt == inserted.stamp.changedAt && written.stamp.changedBy == "fetch")
  }

  /** What an insert stores: the entry, with empty texts and values that are not
      given stored as NULL, and the time and author of the insert. */
  ghost predicate CarriesEntry(e: Event, inp: EventInput, now: int) {
    && e.key.uid == (if inp.uid == "" then None else Some(inp.uid))
    && e.key.title == inp.title && e.key.start == inp.start
    && e.key.location == (if inp.location == 0 then None else Some(inp.location))
    && e.key.url == (if inp.url == "" then None else Some(inp.url))
    && e.key.fetchSource == (if inp.fetchSource > 0 then Some(inp.fetchSource) else None)
    && e.content.description == inp.description && e.content.end == inp.end
    && e.content.cancelled == inp.cancelled && e.content.difficulty == inp.difficulty
    && e.content.pricing == inp.pricing && e.curated == inp.curated
    && e.fixed.source == (if inp.source == "" then None else Some(inp.source))
    && e.fixed.bookingUrl == (if inp.bookingUrl == "" then None else Some(inp.bookingUrl))
    && e.fixed.details == inp.details
    && e.stamp.lastModified == (if inp.lastModified > 0 then Some(inp.lastModified) else None)
    && e.stamp.changedAt == Some(now) && e.stamp.changedBy == (if inp.fetchSource > 0 then "fetch" else "admin")
    && e.stamp.icalSequence == (if inp.icalSequence > 0 then inp.icalSequence else 0) && e.stamp.emailVerified
    && e.organization == inp.organization && e.previousStart == None
  }

  /** The first of the drawn codes no row uses. */
  ghost predicate FirstUnused(rows: Rows, codes: seq<string>, code: string) {
    && !CodeTaken(rows, code)
    && exists i :: 0 <= i < |codes| && codes[i] == code && forall j :: 0 <= j < i ==> CodeTaken(rows, codes[j])
  }

  /** The row of an insert carries the entry, under the next id and the first
      drawn code no row uses; it is flagged, together with the row the search
      returned, exactly when the search returned one. */
  lemma NewRowCarriesEntry(t: Table, inp: EventInput, d: Draws)
    requires IdsBounded(t)
    requires var r := Store(t, inp, d).1; r.Stored? && r.outcome == New
    ensures var (after, r) := Store(t, inp, d); var hit := FindExisting(t.rows, QueryOf(inp)).id;
      && r.id == t.lastId + 1 == after.lastId && after.rows.Keys == t.rows.Keys + {r.id}
      && CarriesEntry(after.rows[r.id], inp, d.now)
      && after.rows[r.id].fixed.shortCode == r.shortCode && FirstUnused(t.rows, d.codes, r.shortCode)
      && after.rows[r.id].flagged == (hit > 0)
      && after.rows[r.id].duplicateOf == (if hit > 0 then Some(hit) else None)
      && forall id :: id in t.rows ==>
           after.rows[id] == if id == hit then t.rows[id].(flagged := true, duplicateOf := Some(r.id)) else t.rows[id]
  {
    var hit := FindExisting(t.rows, QueryOf(inp)).id;
    NewIsInserted(t, inp, d);
    hide FindExisting, Store, Inserted, InsertedRow, CarriesEntry, CodeTaken, FreeCode, FirstUnused;
    FreeCodeIsFirstUnused(t, inp, d, hit);
    InsertedAddsOneRow(t, inp, d, hit);
    InsertedRowCarriesEntry(inp, Store(t, inp, d).1.shortCode, d.now, hit);
  }

  lemma NewIsInserted(t: Table, inp: EventInput, d: Draws)
    requires IdsBounded(t)
    requires var r := Store(t, inp, d).1; r.Stored? && r.outcome == New
    ensures var hit := FindExisting(t.rows, QueryOf(inp)).id;
      Store(t, inp, d) == Inserted(t, inp, d, hit) && (hit == 0 || hit in t.rows)
  {
    FoundMeans(t.rows, QueryOf(inp));
    hide FindExisting, Inserted, Merged, Overwritten, WithSequence;
  }

  lemma FreeCodeIsFirstUnused(t: Table, inp: EventInput, d: Draws, candidate: int)
    requires Inserted(t, inp, d, candidate).1.Stored?
    ensures FirstUnused(t.rows, d.codes, Inserted(t, inp, d, candidate).1.shortCode)
  {
    hide FlagPair, NewRow, WithSequence, CodeTaken;
    FreeCodeIsFree(t.rows, d.codes);
  }

  lemma InsertedRowCarriesEntry(inp: EventInput, code: string, now: int, candidate: int)
    ensures var e := InsertedRow(inp, code, now, candidate);
      && CarriesEntry(e, inp, now) && e.fixed.shortCode == code
      && e.flagged == (candidate > 0) && e.duplicateOf == if candidate > 0 then Some(candidate) else None
  {
  }

  /** What one call that reports an update leaves in the row, measured against
      any row an insert of the entry would have left: an edited row that an import
      meets is merged, any other mirrored. */
  lemma UpdateAgreesWithInsert(t: Table, inp: EventInput, d: Draws, inserted: Event)
    requires IdsBounded(t) && CarriesEntry(inserted, inp, d.now)
    requires var r := Store(t, inp, d).1; r.Stored? && r.outcome == Updated
    ensures var (after, r) := Store(t, inp, d);
      && r.id in t.rows && r.id in after.rows
      && var e, written := t.rows[r.id], after.rows[r.id];
         && RecordsTheEntry(e, written, inp, inserted)
         && (if inp.source != "" && e.stamp.changedAt.Or(0) > 0
             then TakesWhatIsGiven(e, written, inserted)
             else MirrorsInsert(e, written, inp, inserted))
         && after.rows == t.rows[r.id := written] && after.lastId == t.lastId
  {
    FoundMeans(t.rows, QueryOf(inp));
    UpdateIsDecided(t, inp, d);
    var id := Store(t, inp, d).1.id;
    hide FindExisting, Store, Decide, TakesWhatIsGiven, MirrorsInsert, RecordsTheEntry, CarriesEntry, Merged,
      Overwritten, WithSequence;
    MergedTakesWhatIsGiven(t.rows[id], inp, inserted, d.now);
    OverwrittenMirrorsInsert(t.rows[id], inp, inserted, d.now);
  }

  lemma UpdateIsDecided(t: Table, inp: EventInput, d: Draws)
    requires IdsBounded(t)
    requires var r := Store(t, inp, d).1; r.Stored? && r.outcome == Updated
    ensures var (after, r) := Store(t, inp, d);
      && r.id in t.rows
      && after == t.(rows := t.rows[r.id := WithSequence(
           if Guarded(t.rows[r.id], inp)
           then Merged(t.rows[r.id], inp)
           else Overwritten(t.rows[r.id], inp, d.now), inp)])
  {
    FoundMeans(t.rows, QueryOf(inp));
    hide FindExisting, Merged, Overwritten, WithSequence;
  }

  lemma MergedTakesWhatIsGiven(e: Event, inp: EventInput, inserted: Event, now: int)
    requires CarriesEntry(inserted, inp, now)
    ensures var merged := WithSequence(Merged(e, inp), inp);
            RecordsTheEntry(e, merged, inp, inserted) && TakesWhatIsGiven(e, merged, inserted)
  {
  }

  lemma OverwrittenMirrorsInsert(e: Event, inp: EventInput, inserted: Event, now: int)
    requires CarriesEntry(inserted, inp, now)
    ensures var written := WithSequence(Overwritten(e, inp, now), inp);
            RecordsTheEntry(e, written, inp, inserted) && MirrorsInsert(e, written, inp, inserted)
  {
  }

  /** The venue tier returns a row of the entry's own feed whenever one is near,
      among rows of one kind the closest start, and the lowest id of those. */
  lemma OwnFeedFirstThenClosest(rows: Rows, q: Query, other: int)
    requires FindExisting(rows, q).tier in {TierLocation, TierLocationReview}
    requires other in rows && SameVenue(rows[other], q)
    ensures var id := FindExisting(rows, q).id;
      && id in rows && SameVenue(rows[id], q)
      && var own, ownOther := rows[id].key.fetchSource.Or(0) == q.fetchSource,
                              rows[other].key.fetchSource.Or(0) == q.fetchSource;
         var gap, gapOther := Abs(rows[id].key.start - q.start.value), Abs(rows[other].key.start - q.start.value);
         && (ownOther ==> own)
         && (own == ownOther ==> gap < gapOther || (gap == gapOther && id <= other))
  {
    RowMeans(rows, q);
    var c := VenueRows(rows, q.location, q.start.value, q.fetchSource);
    assert Before(c, First(c), other);
  }

  /** Every rescheduling update of a published row that is not cancelled records
      where the row stood before. */
  lemma RescheduleIsRecorded(t: Table, inp: EventInput, d: Draws, id: int)
    requires IdsBounded(t) && id in t.rows
    requires var r := Store(t, inp, d).1; r.Stored? && r.id == id && r.outcome == Updated
    requires t.rows[id].curated.published && !t.rows[id].content.cancelled && t.rows[id].key.start > 0
    requires !Near(t.rows[id].key.start, inp.start)
    ensures id in Store(t, inp, d).0.rows && Store(t, inp, d).0.rows[id].previousStart == Some(t.rows[id].key.start)
  {
    StoreTouchesRow(t, inp, d, id);
    hide Store, Decide;
  }
}
