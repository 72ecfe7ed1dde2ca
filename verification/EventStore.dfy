/** The events table as the server works on it, statement by statement. Every
    method is proved against the functions the other modules reason about. */
module EventStoreModule {
  import opened Options
  import opened EventTable
  import opened Titles
  import opened Dedup
  import opened DuplicateFlags
  import opened EventImport
  import opened ImportLaws
  import opened BatchImport

  lemma UpdateTwice(rows: Rows, id: int, first: Event, second: Event)
    ensures rows[id := first][id := second] == rows[id := second]
    ensures id in rows && rows[id] == second ==> rows[id := second] == rows
  {
  }

  class EventStore {
    var rows: Rows
    var lastId: int

    ghost function Contents(): Table
      reads this
    {
      Table(rows, lastId)
    }

    constructor ()
      ensures Contents() == Table(map[], 0) && Consistent(Contents())
    {
      rows, lastId := map[], 0;
    }

    // ------------------------------------------------------------------- dedup.go

    method FindExistingEvent(q: Query) returns (f: Found)
      ensures f == FindExisting(rows, q)
    {
      if q.uid != "" {
        var hits := UidRows(rows, q.uid);
        if hits != map[] { return Found(First(hits), TierUID); }
      }
      if q.start.None? { return NOTHING; }
      var start := q.start.value;
      if q.url != "" {
        var hits := UrlRows(rows, q.url, start);
        if hits != map[] { return Found(First(hits), TierURL); }
      }
      if q.location > 0 {
        var hits := VenueRows(rows, q.location, start, q.fetchSource);
        if hits != map[] {
          var id := First(hits);
          var e := rows[id];
          var candidateSource := e.key.fetchSource.Or(0);
          var sameSource := q.fetchSource > 0 && candidateSource == q.fetchSource;
          var otherFeedSameEvent := q.fetchSource > 0 && candidateSource != q.fetchSource
                                    && (q.title == e.key.title || FuzzyOverlap(q.title, e.key.title));
          if sameSource || otherFeedSameEvent { return Found(id, TierLocation); }
          return Found(id, TierLocationReview);
        }
      }
      {
        var hits := TitleRows(rows, q.title, start);
        if hits != map[] { return Found(First(hits), TierTitle); }
      }
      if q.fetchSource > 0 && q.title != "" {
        f := FirstFuzzy(q.title, q.fetchSource, start);
        return;
      }
      return NOTHING;
    }

    /** The last tier reads the feed's rows one by one and stops at the first overlapping title. */
    method FirstFuzzy(title: string, fetchSource: int, start: int) returns (f: Found)
      ensures var hits := FuzzyRows(rows, title, fetchSource, start);
              f == if hits != map[] then Found(First(hits), TierFuzzyReview) else NOTHING
    {
      ghost var hits := FuzzyRows(rows, title, fetchSource, start);
      var pending := FeedRows(rows, fetchSource, start);
      while pending != map[]
        invariant forall id :: id in pending ==> id in FeedRows(rows, fetchSource, start) && pending[id] == 0
        invariant hits.Keys <= pending.Keys
        decreases |pending|
      {
        var id := First(pending);
        if FuzzyOverlap(title, rows[id].key.title) {
          assert id in hits && forall other :: other in hits ==> Before(pending, id, other);
          FirstIs(hits, id);
          return Found(id, TierFuzzyReview);
        }
        assert (pending - {id}).Keys == pending.Keys - {id};
        pending := pending - {id};
      }
      return NOTHING;
    }

    // ------------------------------------------------------------------ events.go

    method SetDuplicateFlag(id: int, partner: int)
      modifies this
      ensures rows == SetFlag(old(rows), id, partner) && lastId == old(lastId)
    {
      if id in rows && partner in rows {
        rows := rows[id := rows[id].(flagged := true, duplicateOf := Some(partner))];
      }
    }

    method FlagDuplicateReview(newId: int, candidate: int)
      modifies this
      ensures rows == FlagPair(old(rows), newId, candidate) && lastId == old(lastId)
    {
      SetDuplicateFlag(newId, candidate);
      SetDuplicateFlag(candidate, newId);
    }

    /** Up to five attempts to insert the row under an unused short code. */
    method InsertRow(inp: EventInput, d: Draws) returns (id: int, code: string)
      requires IdsBounded(Contents())
      modifies this
      ensures var free := FreeCode(old(rows), d.codes);
        if ValidDifficulty(inp.difficulty) && free.Some? then
          && id == old(lastId) + 1 == lastId && code == free.value
          && rows == old(rows)[id := NewRow(inp, code, d.now)]
        else id == 0 && Contents() == old(Contents())
    {
      id, code := 0, "";
      if !ValidDifficulty(inp.difficulty) { return; }
      var i := 0;
      while i < 5
        invariant 0 <= i <= 5 && id == 0 && Contents() == old(Contents())
        invariant FreeCode(rows, d.codes) == FreeCode(rows, d.codes[i..])
      {
        code := d.codes[i];
        if !CodeTaken(rows, code) {
          id := lastId + 1;
          lastId := id;
          rows := rows[id := NewRow(inp, code, d.now)];
          return;
        }
        assert d.codes[i..][1..] == d.codes[i + 1..];
        i := i + 1;
      }
    }

    /** The feed's SEQUENCE is written by the caller, for every outcome but "unchanged". */
    ghost function Sequenced(t: Table, r: Result, inp: EventInput): Table {
      if r.Stored? && r.outcome != Unchanged && r.id in t.rows
      then t.(rows := t.rows[r.id := WithSequence(t.rows[r.id], inp)])
      else t
    }

    method InsertEventCore(inp: EventInput, d: Draws) returns (r: Result)
      requires IdsBounded(Contents())
      modifies this
      ensures (Sequenced(Contents(), r, inp), r) == Store(old(Contents()), inp, d)
      ensures r.Stored? ==> r.id in rows && r.id > 0
      ensures !r.Stored? || r.outcome == Unchanged ==> Contents() == old(Contents())
    {
      var f := FindExistingEvent(QueryOf(inp));
      FoundMeans(rows, QueryOf(inp));
      hide FindExisting;
      var tier := f.tier;
      if tier == TierURL && inp.fetchSource == 0 {
        if !inp.confirmNew { return Refused(f.id); }
        tier := TierLocationReview;
      }
      if tier.IsMatch() {
        r := UpdateExisting(f.id, inp, d);
      } else {
        var id, code := InsertRow(inp, d);
        if id == 0 { return Failed; }
        var candidate := if tier.IsReview() then f.id else 0;
        if candidate > 0 { FlagDuplicateReview(id, candidate); }
        r := Stored(id, code, New);
      }
    }

    /** The update side of the upsert, once a match is known. */
    method UpdateExisting(id: int, inp: EventInput, d: Draws) returns (r: Result)
      requires IdsBounded(Contents()) && id in rows
      requires Decide(rows, inp) == (
        if UpToDate(rows[id], inp) then Skip(id)
        else if !Guarded(rows[id], inp) then Overwrite(id)
        else if inp.lastModified == 0 || inp.lastModified <= rows[id].stamp.changedAt.Or(0) then Skip(id)
        else Merge(id))
      modifies this
      ensures (Sequenced(Contents(), r, inp), r) == Store(old(Contents()), inp, d)
      ensures r.Stored? ==> r.id in rows && r.id > 0
      ensures !r.Stored? || r.outcome == Unchanged ==> Contents() == old(Contents())
    {
      var e := rows[id];
      var code := e.fixed.shortCode;
      if inp.icalSequence > 0 && inp.icalSequence == e.stamp.icalSequence
         && (inp.lastModified == 0 || inp.lastModified <= e.stamp.lastModified.Or(0)) {
        return Stored(id, code, Unchanged);
      }
      if inp.lastModified > 0 && inp.lastModified <= e.stamp.lastModified.Or(0) {
        return Stored(id, code, Unchanged);
      }
      if inp.source != "" && e.stamp.changedAt.Or(0) > 0 {
        if inp.lastModified == 0 || inp.lastModified <= e.stamp.changedAt.Or(0) {
          return Stored(id, code, Unchanged);
        }
        if !ValidDifficulty(Merged(e, inp).content.difficulty) { return Failed; }
        rows := rows[id := Merged(e, inp)];
        UpdateTwice(old(rows), id, Merged(e, inp), WithSequence(Merged(e, inp), inp));
        return Stored(id, code, Updated);
      }
      if !ValidDifficulty(inp.difficulty) { return Failed; }
      rows := rows[id := Overwritten(e, inp, d.now)];
      UpdateTwice(old(rows), id, Overwritten(e, inp, d.now), WithSequence(Overwritten(e, inp, d.now), inp));
      return Stored(id, code, Updated);
    }

    method InsertEvent(inp: EventInput, d: Draws) returns (r: Result)
      requires IdsBounded(Contents())
      modifies this
      ensures (Contents(), r) == Store(old(Contents()), inp, d)
    {
      r := InsertEventCore(inp, d);
      hide Store;
      if r.Stored? { UpdateTwice(rows, r.id, rows[r.id], rows[r.id]); }
      if r.Stored? && r.id > 0 && inp.icalSequence > 0 && r.outcome != Unchanged {
        var e := rows[r.id];
        rows := rows[r.id := e.(stamp := e.stamp.(icalSequence := inp.icalSequence))];
      }
    }

    /** Clear the partners' flags, then delete; returns the number of rows deleted. */
    method HardDeleteEvent(id: int) returns (deleted: int)
      modifies this
      ensures rows == HardDelete(old(rows), id) && lastId == old(lastId)
      ensures deleted == if id in old(rows) then 1 else 0
    {
      rows := map e | e in rows ::
        if rows[e].duplicateOf == Some(id) && !PointedAt(rows, e, id)
        then rows[e].(flagged := false, duplicateOf := None) else rows[e];
      deleted := if id in rows then 1 else 0;
      rows := map e | e in rows && e != id ::
        if rows[e].duplicateOf == Some(id) then rows[e].(duplicateOf := None) else rows[e];
    }

    // -------------------------------------------------------------- duplicates.go

    /** Other rows the checked one collides with, for information. */
    method OtherConflicts(id: int, ids: seq<int>) returns (others: seq<int>)
      requires id in rows && forall i :: 0 <= i < |ids| ==> ids[i] in rows
      ensures others == Colliding(rows, id, ids)
    {
      hide Collide;
      others := [];
      var i := 0;
      while i < |ids|
        invariant 0 <= i <= |ids|
        invariant Colliding(rows, id, ids) == others + Colliding(rows, id, ids[i..])
      {
        if Collide(rows[id], rows[ids[i]]) { others := others + [ids[i]]; }
        assert ids[i..][1..] == ids[i + 1..];
        i := i + 1;
      }
    }

    method CheckDuplicates(id: int) returns (res: Option<DuplicateCheck>)
      requires Consistent(Contents())
      ensures res == if id in rows then Some(Check(rows, id)) else None
    {
      hide NearbyIds, Reasons, UidsUnique, CodesUnique, Colliding;
      if id !in rows { return None; }
      var ev := rows[id];
      var partner, collides, reasons := ev.duplicateOf.Or(0), false, [];
      if partner > 0 {
        if partner in rows {
          reasons := Reasons(DupEventOf(ev), DupEventOf(rows[partner]));
          collides := |reasons| > 1;
        } else {
          partner := 0;
        }
      }
      var others := OtherConflicts(id, NearbyIds(rows, id));
      return Some(DuplicateCheck(ev.flagged, partner, collides, reasons, others));
    }

    method ClearDuplicatePair(id: int, partner: int)
      modifies this
      ensures rows == ClearPair(old(rows), id, partner) && lastId == old(lastId)
    {
      rows := map e | e in rows ::
        if e == id || (e == partner && rows[e].duplicateOf == Some(id))
        then rows[e].(flagged := false, duplicateOf := None) else rows[e];
    }

    method RecheckDuplicatePair(id: int)
      requires Consistent(Contents())
      modifies this
      ensures rows == Recheck(old(rows), id) && lastId == old(lastId)
    {
      var res := CheckDuplicates(id);
      if res.None? || !res.value.flagged || res.value.collides { return; }
      ClearDuplicatePair(id, res.value.partner);
    }

    // ---------------------------------------------------------------- fetchurl.go

    /** Stores the dates of an entry in order; on an error it leaves the writes so far to the caller. */
    method CreateEventFromRequest(e: Entry) returns (made: Option<Created>)
      requires Consistent(Contents())
      modifies this
      ensures (Contents(), made) == Create(old(Contents()), e.base, DatesOf(e), Created([], ZERO))
      ensures Consistent(Contents())
    {
      var dates := DatesOf(e);
      var ids, counts := [], ZERO;
      var i := 0;
      while i < |dates|
        invariant 0 <= i <= |dates| && Consistent(Contents())
        invariant Create(old(Contents()), e.base, dates, Created([], ZERO))
               == Create(Contents(), e.base, dates[i..], Created(ids, counts))
      {
        var date := dates[i];
        if date.start.None? || date.end.None? { return None; }
        var inp := InputFor(e.base, date);
        StoreKeepsConsistent(Contents(), inp, date.draws);
        hide Store, Consistent, IdsBounded;
        var r := StoreDate(inp, date.draws);
        if !r.Stored? || date.linksFail { return None; }
        counts := counts.Add(r.outcome);
        ids := ids + [r.id];
        assert dates[i..][1..] == dates[i + 1..];
        i := i + 1;
      }
      return Some(Created(ids, counts));
    }

    /** InsertEvent, with the table's constraints carried along. */
    method StoreDate(inp: EventInput, d: Draws) returns (r: Result)
      requires Consistent(Contents())
      modifies this
      ensures (Contents(), r) == Store(old(Contents()), inp, d) && Consistent(Contents())
    {
      StoreKeepsConsistent(Contents(), inp, d);
      hide Store;
      r := InsertEvent(inp, d);
    }

    /** One import attempt inside one transaction, with a savepoint per entry. */
    method ImportEntriesTx(entries: seq<Entry>, ending: Ending) returns (ok: bool, ids: seq<int>, counts: Counts)
      requires Consistent(Contents())
      modifies this
      ensures ok <==> ending == Commits
      ensures ok ==> Batch(Contents(), ids, counts) == ImportAll(Begin(old(Contents())), entries)
      ensures !ok ==> Contents() == old(Contents())
      ensures Consistent(Contents())
    {
      hide Create, Consistent;
      ids, counts := [], ZERO;
      var rowsBefore, lastIdBefore := rows, lastId;
      var i := 0;
      while i < |entries|
        invariant 0 <= i <= |entries| && Consistent(Contents())
        invariant ImportAll(Begin(old(Contents())), entries) == ImportAll(Batch(Contents(), ids, counts), entries[i..])
      {
        var savedRows, savedLastId := rows, lastId;
        var made := CreateEventFromRequest(entries[i]);
        if made.None? {
          rows, lastId := savedRows, savedLastId;
          counts := counts.(failed := counts.failed + 1);
        } else {
          counts := counts.Merge(made.value.counts);
          ids := ids + made.value.ids;
        }
        assert entries[i..][1..] == entries[i + 1..];
        i := i + 1;
      }
      ok := ending == Commits;
      if !ok {
        rows, lastId := rowsBefore, lastIdBefore;
      }
    }

    /** Retries the transaction while the database is busy. */
    method ImportEntriesAfterCommit(entries: seq<Entry>, weather: seq<Weather>)
      returns (report: Report, ghost run: RetryRun)
      requires Consistent(Contents()) && |weather| == BUSY_RETRIES + 1
      modifies this
      ensures run == Retry(old(Contents()), entries, weather, 0)
      ensures Contents() == run.table && report == run.report && Consistent(Contents())
    {
      run := Retry(Contents(), entries, weather, 0);
      var attempt := 0;
      while true
        invariant 0 <= attempt <= BUSY_RETRIES && Contents() == old(Contents()) && Consistent(Contents())
        invariant run == Retry(old(Contents()), entries, weather, attempt)
        decreases BUSY_RETRIES - attempt
      {
        hide ImportAll, Consistent;
        var ok, ids, counts := ImportEntriesTx(entries, weather[attempt].ending);
        if ok { return Imported(ids, counts), run; }
        if weather[attempt].ending != Busy || attempt >= BUSY_RETRIES { return ImportError, run; }
        if weather[attempt].cancelled { return ImportError, run; }
        attempt := attempt + 1;
      }
    }
  }
}
