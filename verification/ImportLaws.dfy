/** What every import keeps, what a run of imports can do to an edited row, and
    how the search agrees with the collision rule. */
module ImportLaws {
  import opened Options
  import opened EventTable
  import opened Titles
  import opened Dedup
  import opened DuplicateFlags
  import opened EventImport

  // --------------------------------------------------- agreement of the two rules

  /** The search misses nothing: when no tier fires, the new row collides with
      no row of the table. */
  lemma NoHitMeansNoCollision(rows: Rows, inp: EventInput, row: Event, id: int)
    requires FindExisting(rows, QueryOf(inp)).tier.TierNone? && id in rows
    requires row.key == MatchKey(NullIfEmpty(inp.uid), inp.title, inp.start, LocationOrNull(inp.location),
                                 NullIfEmpty(inp.url), PositiveOrNull(inp.fetchSource))
    ensures !Collide(row, rows[id])
  {
    CollideMeans(row, rows[id]);
    OverlapLaws(inp.title, rows[id].key.title);
    assert inp.location > 0 ==> id !in VenueRows(rows, inp.location, inp.start, inp.fetchSource);
    assert id !in TitleRows(rows, inp.title, inp.start);
    assert inp.fetchSource > 0 && inp.title != "" ==> id !in FuzzyRows(rows, inp.title, inp.fetchSource, inp.start);
  }

  /** The search invents nothing: a review hint flags the new row and its
      candidate against each other, they collide, and rechecking either row
      therefore changes nothing. */
  lemma ReviewHintCollides(t: Table, inp: EventInput, d: Draws)
    requires IdsBounded(t) && FindExisting(t.rows, QueryOf(inp)).tier.IsReview()
    requires Store(t, inp, d).1.Stored?
    ensures var (after, r) := Store(t, inp, d); var c := FindExisting(t.rows, QueryOf(inp)).id;
      && r.outcome == New && r.id in after.rows && c in after.rows
      && after.rows[r.id].flagged && after.rows[r.id].duplicateOf == Some(c)
      && after.rows[c].flagged && after.rows[c].duplicateOf == Some(r.id)
      && Collide(after.rows[r.id], after.rows[c]) && Collide(after.rows[c], after.rows[r.id])
      && Recheck(after.rows, r.id) == after.rows && Recheck(after.rows, c) == after.rows
  {
    var f := FindExisting(t.rows, QueryOf(inp));
    FoundMeans(t.rows, QueryOf(inp));
    assert Store(t, inp, d) == Inserted(t, inp, d, f.id);
    hide FindExisting, Store, Inserted, Recheck, Collide;
    InsertedAddsOneRow(t, inp, d, f.id);
    var (after, r) := Store(t, inp, d);
    CollideMeans(after.rows[r.id], after.rows[f.id]);
    RecheckOfLinkedPair(after.rows, r.id, f.id);
    RecheckOfLinkedPair(after.rows, f.id, r.id);
  }

  /** A manual creation that confirms a URL match is labelled as a venue hint,
      although the collision rule never looks at URLs. The flagged pair collides
      exactly when it also shares the venue or a non-empty title; otherwise the
      next recheck of the new row drops both flags. */
  lemma ConfirmedUrlMatchCollidesExactly(t: Table, inp: EventInput, d: Draws)
    requires IdsBounded(t) && inp.fetchSource == 0 && inp.confirmNew
    requires FindExisting(t.rows, QueryOf(inp)).tier.TierURL? && Store(t, inp, d).1.Stored?
    ensures var (after, r) := Store(t, inp, d); var c := FindExisting(t.rows, QueryOf(inp)).id;
      && r.id in after.rows && c in after.rows && c in t.rows
      && after.rows[r.id].duplicateOf == Some(c) && after.rows[c].duplicateOf == Some(r.id)
      && (Collide(after.rows[r.id], after.rows[c]) <==> (
            || (inp.location > 0 && t.rows[c].key.location == Some(inp.location))
            || (inp.title != "" && t.rows[c].key.title == inp.title)))
      && (Collide(after.rows[r.id], after.rows[c]) ==> Recheck(after.rows, r.id) == after.rows)
      && (!Collide(after.rows[r.id], after.rows[c]) ==>
            Recheck(after.rows, r.id)
            == after.rows[r.id := Unflagged(after.rows[r.id])][c := Unflagged(after.rows[c])])
  {
    var f := FindExisting(t.rows, QueryOf(inp));
    FoundMeans(t.rows, QueryOf(inp));
    assert Store(t, inp, d) == Inserted(t, inp, d, f.id);
    hide FindExisting, Store, Inserted, Recheck, Collide;
    InsertedAddsOneRow(t, inp, d, f.id);
    var (after, r) := Store(t, inp, d);
    CollideMeans(after.rows[r.id], after.rows[f.id]);
    RecheckOfLinkedPair(after.rows, r.id, f.id);
  }

  /** A pair that does not collide: the confirmed row shares nothing but the URL
      and the time with the one it is flagged against. */
  lemma ConfirmedUrlMatchCanMiss(e: Event, inp: EventInput, d: Draws)
    requires inp.url != "" && e.key.url == Some(inp.url) && e.key.start == inp.start
    requires inp.title != e.key.title && inp.location == 0 && inp.uid == "" && inp.difficulty == ""
    requires inp.fetchSource == 0 && inp.confirmNew && d.codes[0] != e.fixed.shortCode
    ensures var (after, r) := Store(Table(map[1 := e], 1), inp, d);
      && r.Stored? && r.id == 2 && after.rows.Keys == {1, 2}
      && after.rows[2].duplicateOf == Some(1) && after.rows[1].duplicateOf == Some(2)
      && !Collide(after.rows[2], after.rows[1])
      && !Recheck(after.rows, 2)[1].flagged && !Recheck(after.rows, 2)[2].flagged
  {
    var t := Table(map[1 := e], 1);
    assert 1 in UrlRows(t.rows, inp.url, inp.start);
    assert FindExisting(t.rows, QueryOf(inp)) == Found(1, TierURL);
    assert Store(t, inp, d) == Inserted(t, inp, d, 1);
    hide FindExisting, Store, Recheck, Collide;
    FreeCodeIsFree(t.rows, d.codes);
    assert !CodeTaken(t.rows, d.codes[0]);
    ConfirmedUrlMatchCollidesExactly(t, inp, d);
    InsertedAddsOneRow(t, inp, d, 1);
  }

  // ------------------------------------------------------------- table constraints

  /** A rewrite gives a row a uid only when no other row has it. */
  lemma RewriteKeepsConsistent(t: Table, inp: EventInput, id: int, row: Event)
    requires Consistent(t) && id in t.rows
    requires FindExisting(t.rows, QueryOf(inp)).id == id && FindExisting(t.rows, QueryOf(inp)).tier.IsMatch()
    requires row.key.uid == t.rows[id].key.uid || row.key.uid == t.rows[id].key.uid.OrElse(NullIfEmpty(inp.uid))
    requires row.fixed == t.rows[id].fixed && row.flagged == t.rows[id].flagged
        && row.duplicateOf == t.rows[id].duplicateOf
    ensures Consistent(t.(rows := t.rows[id := row]))
  {
    if row.key.uid != t.rows[id].key.uid {
      assert inp.uid != "" && row.key.uid == Some(inp.uid);
      forall other | other in t.rows && other != id ensures t.rows[other].key.uid != Some(inp.uid) {
        assert t.rows[other].key.uid == Some(inp.uid) ==> other in UidRows(t.rows, inp.uid);
      }
    }
  }

  /** An insert takes a uid no row has, because otherwise the uid tier would have matched. */
  lemma InsertedUidIsFree(rows: Rows, inp: EventInput, id: int)
    requires Decide(rows, inp).Insert? && inp.uid != "" && id in rows
    ensures rows[id].key.uid != Some(inp.uid)
  {
    assert rows[id].key.uid == Some(inp.uid) ==> id in UidRows(rows, inp.uid);
  }

  /** after is rows with row `id` added; of the others only the candidate's flag moves. */
  ghost predicate AddsRow(rows: Rows, after: Rows, id: int, candidate: int) {
    && id !in rows && after.Keys == rows.Keys + {id} && (candidate == 0 || candidate in rows)
    && (forall e :: e in rows ==>
          after[e] == if e == candidate then rows[e].(flagged := true, duplicateOf := Some(id)) else rows[e])
    && after[id].flagged == (candidate > 0)
    && after[id].duplicateOf == if candidate > 0 then Some(candidate) else None
  }

  lemma AddedRowKeepsUnique(rows: Rows, after: Rows, id: int, candidate: int)
    requires UidsUnique(rows) && CodesUnique(rows) && AddsRow(rows, after, id, candidate)
    requires forall e :: e in rows && after[id].key.uid.Some? ==> rows[e].key.uid != after[id].key.uid
    requires forall e :: e in rows ==> rows[e].fixed.shortCode != after[id].fixed.shortCode
    ensures UidsUnique(after) && CodesUnique(after)
  {
    forall e | e in rows ensures after[e].key == rows[e].key && after[e].fixed == rows[e].fixed {
    }
  }

  lemma AddedRowKeepsFlagsSound(rows: Rows, after: Rows, id: int, candidate: int)
    requires FlagsSound(rows) && AddsRow(rows, after, id, candidate)
    ensures FlagsSound(after)
  {
  }

  /** Adding a row with a fresh id, a free uid and a free code, and flagging it
      against a candidate, keeps the table consistent. */
  lemma AddedRowKeepsConsistent(t: Table, after: Table, id: int, candidate: int)
    requires Consistent(t) && id == t.lastId + 1 == after.lastId && AddsRow(t.rows, after.rows, id, candidate)
    requires forall e :: e in t.rows && after.rows[id].key.uid.Some? ==> t.rows[e].key.uid != after.rows[id].key.uid
    requires forall e :: e in t.rows ==> t.rows[e].fixed.shortCode != after.rows[id].fixed.shortCode
    ensures Consistent(after)
  {
    hide UidsUnique, CodesUnique, FlagsSound;
    AddedRowKeepsUnique(t.rows, after.rows, id, candidate);
    AddedRowKeepsFlagsSound(t.rows, after.rows, id, candidate);
  }

  lemma CandidateIsStored(rows: Rows, inp: EventInput, candidate: int)
    requires Decide(rows, inp) == Insert(candidate)
    ensures candidate == 0 || candidate in rows
  {
    FoundMeans(rows, QueryOf(inp));
    hide FindExisting;
  }

  lemma InsertedRowMeans(inp: EventInput, code: string, now: int, candidate: int)
    ensures var e := InsertedRow(inp, code, now, candidate);
      && e.key.uid == NullIfEmpty(inp.uid) && e.fixed.shortCode == code
      && e.flagged == (candidate > 0) && e.duplicateOf == if candidate > 0 then Some(candidate) else None
  {
  }

  lemma InsertKeepsConsistent(t: Table, inp: EventInput, d: Draws, candidate: int)
    requires Consistent(t) && Decide(t.rows, inp) == Insert(candidate) && Inserted(t, inp, d, candidate).1.Stored?
    ensures Consistent(Inserted(t, inp, d, candidate).0)
  {
    hide Decide, Inserted, InsertedRow, UidsUnique, CodesUnique, FlagsSound;
    CandidateIsStored(t.rows, inp, candidate);
    InsertedAddsOneRow(t, inp, d, candidate);
    var (after, r) := Inserted(t, inp, d, candidate);
    InsertedRowMeans(inp, r.shortCode, d.now, candidate);
    forall id | id in t.rows
      ensures inp.uid != "" ==> t.rows[id].key.uid != Some(inp.uid)
      ensures t.rows[id].fixed.shortCode != r.shortCode
    {
      if inp.uid != "" { InsertedUidIsFree(t.rows, inp, id); }
    }
    AddedRowKeepsConsistent(t, after, r.id, candidate);
  }

  lemma RewrittenKeepsConsistent(t: Table, inp: EventInput, d: Draws, id: int)
    requires Consistent(t) && (Decide(t.rows, inp) == Merge(id) || Decide(t.rows, inp) == Overwrite(id))
    ensures id in t.rows
    ensures Consistent(t.(rows := t.rows[id := WithSequence(Merged(t.rows[id], inp), inp)]))
    ensures Consistent(t.(rows := t.rows[id := WithSequence(Overwritten(t.rows[id], inp, d.now), inp)]))
  {
    FoundMeans(t.rows, QueryOf(inp));
    assert FindExisting(t.rows, QueryOf(inp)).id == id && FindExisting(t.rows, QueryOf(inp)).tier.IsMatch();
    hide FindExisting, Decide, Consistent;
    RewriteKeepsConsistent(t, inp, id, WithSequence(Merged(t.rows[id], inp), inp));
    RewriteKeepsConsistent(t, inp, id, WithSequence(Overwritten(t.rows[id], inp, d.now), inp));
  }

  lemma InsertOnlyAdds(t: Table, inp: EventInput, d: Draws, candidate: int)
    requires IdsBounded(t) && Decide(t.rows, inp) == Insert(candidate)
    ensures var after := Inserted(t, inp, d, candidate).0;
            t.rows.Keys <= after.rows.Keys && t.lastId <= after.lastId
  {
    hide Decide, Inserted;
    CandidateIsStored(t.rows, inp, candidate);
    if Inserted(t, inp, d, candidate).1.Stored? {
      InsertedAddsOneRow(t, inp, d, candidate);
    } else {
      FailedInsertChangesNothing(t, inp, d, candidate);
    }
  }

  /** No import ever violates a constraint: uids and short codes stay unique,
      ids stay bounded, and duplicate references stay sound. No row disappears. */
  lemma StoreKeepsConsistent(t: Table, inp: EventInput, d: Draws)
    requires Consistent(t)
    ensures var after := Store(t, inp, d).0;
            Consistent(after) && t.rows.Keys <= after.rows.Keys && t.lastId <= after.lastId
  {
    ConsistentIsBounded(t);
    hide Decide, Inserted, Consistent, Merged, Overwritten, WithSequence, ValidDifficulty, IdsBounded;
    match Decide(t.rows, inp)
    case Refuse(_) =>
    case Skip(_) =>
    case Merge(id) => RewrittenKeepsConsistent(t, inp, d, id);
    case Overwrite(id) => RewrittenKeepsConsistent(t, inp, d, id);
    case Insert(candidate) =>
      InsertOnlyAdds(t, inp, d, candidate);
      if Inserted(t, inp, d, candidate).1.Stored? {
        InsertKeepsConsistent(t, inp, d, candidate);
      } else {
        FailedInsertChangesNothing(t, inp, d, candidate);
      }
  }

  lemma ConsistentIsBounded(t: Table)
    requires Consistent(t)
    ensures IdsBounded(t)
  {
  }

  // ------------------------------------------------------------ edited rows over runs

  /** What an import may have done to a row that somebody edited. */
  ghost predicate Evolved(e: Event, after: Event) {
    && after.curated == e.curated && after.fixed == e.fixed
    && after.stamp.changedAt == e.stamp.changedAt && after.stamp.changedBy == e.stamp.changedBy
    && (e.key.uid.Some? ==> after.key.uid == e.key.uid)
    && (e.organization.Some? ==> after.organization == e.organization)
    && e.stamp.lastModified.Or(0) <= after.stamp.lastModified.Or(0)
    && (after.key != e.key || after.content != e.content || after.organization != e.organization
        || after.previousStart != e.previousStart || after.stamp != e.stamp
        ==> after.stamp.lastModified.Or(0) > e.stamp.lastModified.Or(0)
            && after.stamp.lastModified.Or(0) > e.stamp.changedAt.Or(0))
  }

  lemma MergedRowEvolved(e: Event, inp: EventInput)
    requires inp.lastModified > e.stamp.lastModified.Or(0) && inp.lastModified > e.stamp.changedAt.Or(0) > 0
    ensures var after := WithSequence(Merged(e, inp), inp);
      && Evolved(e, after) && after.stamp.lastModified == Some(inp.lastModified)
  {
  }

  /** One import and one row: an edited row evolves, the row reported as updated
      gets a strictly newer source timestamp, and every other row keeps all but
      its flag. */
  lemma StoreEvolvesRow(t: Table, inp: EventInput, d: Draws, id: int)
    requires IdsBounded(t) && inp.source != "" && id in t.rows && t.rows[id].stamp.changedAt.Or(0) > 0
    ensures var (after, r) := Store(t, inp, d);
      && id in after.rows && Evolved(t.rows[id], after.rows[id])
      && (r.Stored? && r.id == id && r.outcome == Updated ==>
            && after.rows[id].stamp.lastModified == Some(inp.lastModified)
            && inp.lastModified > t.rows[id].stamp.lastModified.Or(0)
            && inp.lastModified > t.rows[id].stamp.changedAt.Or(0))
      && (!(r.Stored? && r.id == id && r.outcome == Updated) ==>
            after.rows[id] == t.rows[id].(flagged := after.rows[id].flagged, duplicateOf := after.rows[id].duplicateOf))
  {
    StoreTouchesRow(t, inp, d, id);
    FoundMeans(t.rows, QueryOf(inp));
    hide FindExisting, Store, Merged, Overwritten, WithSequence;
    if Decide(t.rows, inp) == Merge(id) { MergedRowEvolved(t.rows[id], inp); }
  }

  /** A start time is recorded as rescheduled only on a uid match, for a row
      that was published and not cancelled; every other tier matches within the
      very window that does not count as a reschedule. */
  lemma RescheduleNeedsUid(t: Table, inp: EventInput, d: Draws, id: int)
    requires IdsBounded(t) && id in t.rows
    ensures var after := Store(t, inp, d).0;
      && id in after.rows
      && (after.rows[id].previousStart != t.rows[id].previousStart ==>
            && FindExisting(t.rows, QueryOf(inp)) == Found(id, TierUID)
            && t.rows[id].key.uid == Some(inp.uid)
            && t.rows[id].curated.published && !t.rows[id].content.cancelled
            && !Near(t.rows[id].key.start, inp.start)
            && after.rows[id].previousStart == Some(t.rows[id].key.start))
  {
    StoreTouchesRow(t, inp, d, id);
    FoundMeans(t.rows, QueryOf(inp));
    hide FindExisting, Store;
  }

  /** One feed entry of a run, with the clock and the codes drawn for it. */
  datatype Import = Import(inp: EventInput, draws: Draws)

  function Run(t: Table, imports: seq<Import>): Table
    decreases |imports|
  {
    if imports == [] then t
    else Run(Store(t, imports[0].inp, imports[0].draws).0, imports[1..])
  }

  /** How often a run reports the row as updated. */
  function UpdatesOf(t: Table, imports: seq<Import>, id: int): nat
    decreases |imports|
  {
    if imports == [] then 0
    else
      var (after, r) := Store(t, imports[0].inp, imports[0].draws);
      (if r.Stored? && r.id == id && r.outcome == Updated then 1 else 0) + UpdatesOf(after, imports[1..], id)
  }

  /** Over any run of feed imports an edited row keeps its curated and fixed
      columns, its uid, its organisation and its change stamp. Its content
      changes only for a source newer than the edit, and each update costs a
      strictly newer source timestamp, so their number is bounded by the
      difference of the timestamps. */
  lemma {:induction false} RunProtectsEdits(t: Table, imports: seq<Import>, id: int)
    requires Consistent(t) && id in t.rows && t.rows[id].stamp.changedAt.Or(0) > 0
    requires forall i :: 0 <= i < |imports| ==> imports[i].inp.source != ""
    ensures var after := Run(t, imports);
      && Consistent(after) && t.rows.Keys <= after.rows.Keys
      && Evolved(t.rows[id], after.rows[id])
      && UpdatesOf(t, imports, id) <= after.rows[id].stamp.lastModified.Or(0) - t.rows[id].stamp.lastModified.Or(0)
    decreases |imports|
  {
    if imports != [] {
      var next := Store(t, imports[0].inp, imports[0].draws).0;
      StoreKeepsConsistent(t, imports[0].inp, imports[0].draws);
      StoreEvolvesRow(t, imports[0].inp, imports[0].draws, id);
      hide Store;
      RunProtectsEdits(next, imports[1..], id);
    }
  }
}
