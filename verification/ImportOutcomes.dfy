/** What one import reports, in terms of the row the search returned and the
    columns of the entry. */
module ImportOutcomes {
  import opened Options
  import opened EventTable
  import opened Dedup
  import opened EventImport
  import opened ImportColumns

  predicate DifficultyAllowed(difficulty: string) {
    difficulty in {"", "beginner", "advanced", "profi"}
  }

  /** An entry is turned away, with nothing written, exactly when nobody sent it
      through a feed or confirmed it and it matches by URL. */
  lemma RefusedExactly(t: Table, inp: EventInput, d: Draws)
    ensures var f := FindExisting(t.rows, QueryOf(inp)); var (after, r) := Store(t, inp, d);
      if f.tier.TierURL? && inp.fetchSource == 0 && !inp.confirmNew
      then after == t && r == Refused(f.id)
      else !r.Refused?
  {
    FoundMeans(t.rows, QueryOf(inp));
    hide FindExisting, Merged, Overwritten;
  }

  /** An entry without a match becomes a new row, and so does one with a review
      hint only or a confirmed URL match. It fails exactly when the difficulty is
      not one of the allowed ones or all five codes are taken. */
  lemma InsertedExactly(t: Table, inp: EventInput, d: Draws)
    requires IdsBounded(t)
    requires match FindExisting(t.rows, QueryOf(inp)).tier
      case TierNone => true
      case TierLocationReview => true
      case TierFuzzyReview => true
      case TierURL => inp.fetchSource == 0 && inp.confirmNew
      case _ => false
    ensures var (after, r) := Store(t, inp, d);
      if DifficultyAllowed(inp.difficulty)
         && exists i :: 0 <= i < 5 && forall id :: id in t.rows ==> t.rows[id].fixed.shortCode != d.codes[i]
      then r.Stored? && r.outcome == New
      else after == t && r == Failed
  {
    var f := FindExisting(t.rows, QueryOf(inp));
    FoundMeans(t.rows, QueryOf(inp));
    assert Store(t, inp, d) == Inserted(t, inp, d, f.id) by { hide FindExisting; }
    hide FindExisting, Store;
    FreeCodeIsFree(t.rows, d.codes);
  }

  /** The entry has nothing for a matched row: its timestamp is not after the
      stored one, or it repeats the stored sequence number without a later
      timestamp, or nothing says that it is later than an edit of the row. */
  predicate BringsNothing(e: Event, inp: EventInput) {
    var at, stored, edited := inp.lastModified, e.stamp.lastModified.Or(0), e.stamp.changedAt.Or(0);
    || 0 < at <= stored
    || (inp.icalSequence > 0 && inp.icalSequence == e.stamp.icalSequence && (at == 0 || at <= stored))
    || (inp.source != "" && edited > 0 && (at == 0 || at <= edited))
  }

  /** The difficulty an update would store. */
  function DifficultyAfter(e: Event, inp: EventInput): string {
    if inp.source != "" && e.stamp.changedAt.Or(0) > 0 then EitherText(inp.difficulty, e.content.difficulty)
    else inp.difficulty
  }

  /** A match is never lost: the matched row is left as it was exactly when the
      entry has nothing for it, and otherwise updated, unless the difficulty it
      would get is not allowed. */
  lemma MatchedExactly(t: Table, inp: EventInput, d: Draws)
    requires var f := FindExisting(t.rows, QueryOf(inp));
      f.tier in {TierUID, TierLocation, TierTitle} || (f.tier.TierURL? && inp.fetchSource != 0)
    ensures var id := FindExisting(t.rows, QueryOf(inp)).id; var (after, r) := Store(t, inp, d);
      && id in t.rows
      && var e := t.rows[id];
         if BringsNothing(e, inp) then after == t && r == Stored(id, e.fixed.shortCode, Unchanged)
         else if !DifficultyAllowed(DifficultyAfter(e, inp)) then after == t && r == Failed
         else r == Stored(id, e.fixed.shortCode, Updated)
  {
    FoundMeans(t.rows, QueryOf(inp));
    hide FindExisting, PreviousStart, WithSequence;
  }

  /** News is never dropped: an entry newer than the row and than its last edit
      updates the row it matches, and its times and cancellation are stored. */
  lemma NewerEntryIsStored(t: Table, inp: EventInput, d: Draws)
    requires IdsBounded(t) && inp.fetchSource != 0
    requires FindExisting(t.rows, QueryOf(inp)).tier in {TierUID, TierURL, TierLocation, TierTitle}
    requires var id := FindExisting(t.rows, QueryOf(inp)).id;
      id in t.rows ==>
        && inp.lastModified > 0
        && inp.lastModified > t.rows[id].stamp.lastModified.Or(0) && inp.lastModified > t.rows[id].stamp.changedAt.Or(0)
        && DifficultyAllowed(inp.difficulty) && DifficultyAllowed(t.rows[id].content.difficulty)
    ensures var id := FindExisting(t.rows, QueryOf(inp)).id; var (after, r) := Store(t, inp, d);
      && id in t.rows && id in after.rows
      && r == Stored(id, t.rows[id].fixed.shortCode, Updated)
      && var e := after.rows[id];
         && e.key.start == inp.start && e.content.end == inp.end && e.content.cancelled == inp.cancelled
         && e.stamp.lastModified == Some(inp.lastModified)
  {
    MatchedExactly(t, inp, d);
    var inserted := InsertedRow(inp, "", d.now, 0);
    InsertedRowCarriesEntry(inp, "", d.now, 0);
    hide FindExisting, Store, InsertedRow, CarriesEntry, TakesWhatIsGiven, MirrorsInsert;
    UpdateAgreesWithInsert(t, inp, d, inserted);
  }
}
