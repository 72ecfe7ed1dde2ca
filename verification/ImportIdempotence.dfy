/** Importing the same feed entry again changes nothing. */
module ImportIdempotence {
  import opened Options
  import opened EventTable
  import opened Dedup
  import opened EventImport

  /** Only row x may look different to the duplicate search. */
  ghost predicate SameElsewhere(rows: Rows, after: Rows, x: int) {
    x in after
    && (forall id :: id != x ==> (id in rows <==> id in after))
    && (forall id :: id != x && id in rows ==> rows[id].key == after[id].key)
  }

  /** The row carries everything a feed's next search will look for. */
  predicate Carries(e: Event, q: Query) {
    && Some(e.key.start) == q.start
    && (q.url != "" ==> e.key.url == Some(q.url))
    && (q.location > 0 ==> e.key.location == Some(q.location))
    && q.fetchSource > 0 && e.key.fetchSource == Some(q.fetchSource)
  }

  /** A search that returned x, or that had no candidate, returns x once x
      sorts no later than before and the other candidates are as they were. */
  lemma StaysFirst(c: Candidates, after: Candidates, x: int)
    requires x in after
    requires forall id :: id in after && id != x ==> id in c && c[id] == after[id]
    requires c == map[] || (x in c && First(c) == x && after[x] <= c[x])
    ensures First(after) == x
  {
    forall other | other in after ensures Before(after, x, other) {
      if other != x { assert Before(c, x, other); }
    }
    FirstIs(after, x);
  }

  /** The venue tier: a row of the entry's own feed that starts with the entry
      comes first, unless another such row was returned before. */
  lemma StaysFirstAtVenue(rows: Rows, after: Rows, x: int, q: Query, start: int)
    requires SameElsewhere(rows, after, x) && Carries(after[x], q) && q.start == Some(start) && q.location > 0
    requires var c := VenueRows(rows, q.location, start, q.fetchSource);
             c == map[] || (x in rows && First(c) == x)
             || !SameEvent(rows[First(c)], q.title, q.fetchSource)
    ensures var c := VenueRows(after, q.location, start, q.fetchSource);
            c != map[] && First(c) == x && SameEvent(after[x], q.title, q.fetchSource)
  {
    var c := VenueRows(rows, q.location, start, q.fetchSource);
    var d := VenueRows(after, q.location, start, q.fetchSource);
    assert x in d && d[x] == 0;
    forall other | other in d ensures Before(d, x, other) {
      if other != x {
        assert other in c && c[other] == d[other];
        assert Before(c, First(c), other);
      }
    }
    FirstIs(d, x);
  }

  /** The search that led to row x, repeated after x was written, returns x as a match. */
  lemma SearchReturnsWritten(rows: Rows, after: Rows, x: int, q: Query)
    requires q.start.Some? && SameElsewhere(rows, after, x) && Carries(after[x], q)
    requires var f := FindExisting(rows, q);
             if x in rows then f.id == x && f.tier.IsMatch() else !f.tier.IsMatch()
    requires q.uid != "" ==>
               after[x].key.uid == Some(q.uid)
                   || (x in rows && rows[x].key.uid.Some? && after[x].key.uid == rows[x].key.uid)
    requires x !in rows || FindExisting(rows, q).tier.TierTitle? ==> after[x].key.title == q.title
    ensures FindExisting(after, q).id == x && FindExisting(after, q).tier.IsMatch()
  {
    var f, start := FindExisting(rows, q), q.start.value;
    FoundMeans(rows, q);
    if q.uid != "" && UidRows(after, q.uid) != map[] {
      assert x in UidRows(after, q.uid) by {
        var y := First(UidRows(after, q.uid));
        if y != x { assert y in UidRows(rows, q.uid); }
      }
      StaysFirst(UidRows(rows, q.uid), UidRows(after, q.uid), x);
    } else {
      assert f.tier.TierUID? ==> x in UidRows(after, q.uid);
      if q.url != "" {
        StaysFirst(UrlRows(rows, q.url, start), UrlRows(after, q.url, start), x);
      } else if q.location > 0 {
        StaysFirstAtVenue(rows, after, x, q, start);
      } else {
        StaysFirst(TitleRows(rows, q.title, start), TitleRows(after, q.title, start), x);
      }
    }
  }

  /** The row written for an entry makes the same entry a no-op. */
  lemma WrittenRowSkips(rows: Rows, after: Rows, inp: EventInput, x: int)
    requires inp.source != "" && inp.fetchSource > 0
    requires FindExisting(after, QueryOf(inp)).id == x && FindExisting(after, QueryOf(inp)).tier.IsMatch()
    requires x in after && WrittenFor(after[x], inp)
    ensures Decide(after, inp) == Skip(x)
  {
  }

  /** The row was written for this entry: the search will return it, and the
      entry is no news for it. */
  predicate WrittenFor(e: Event, inp: EventInput) {
    && Carries(e, QueryOf(inp))
    && e.stamp.lastModified == PositiveOrNull(inp.lastModified)
    && (inp.lastModified > 0 || e.stamp.changedAt.Or(0) > 0)
  }

  lemma InsertedRowIsWrittenFor(inp: EventInput, code: string, now: int, candidate: int)
    requires inp.fetchSource > 0 && now > 0
    ensures var e := InsertedRow(inp, code, now, candidate);
            WrittenFor(e, inp) && e.key.title == inp.title && e.key.uid == NullIfEmpty(inp.uid)
                && e.fixed.shortCode == code
  {
  }

  lemma MergedRowIsWrittenFor(e: Event, inp: EventInput)
    requires inp.fetchSource > 0 && inp.lastModified > 0
    ensures var r := WithSequence(Merged(e, inp), inp);
            WrittenFor(r, inp) && r.key.title == inp.title && r.key.uid == e.key.uid.OrElse(NullIfEmpty(inp.uid))
                && r.fixed.shortCode == e.fixed.shortCode
  {
  }

  lemma OverwrittenRowIsWrittenFor(e: Event, inp: EventInput, now: int)
    requires inp.fetchSource > 0 && inp.source != "" && now > 0
    ensures var r := WithSequence(Overwritten(e, inp, now), inp);
            WrittenFor(r, inp) && r.key.title == e.key.title && r.key.uid == e.key.uid.OrElse(NullIfEmpty(inp.uid))
                && r.fixed.shortCode == e.fixed.shortCode
  {
  }

  lemma InsertedThenSkipped(t: Table, inp: EventInput, d: Draws, candidate: int)
    requires IdsBounded(t) && inp.source != "" && inp.fetchSource > 0 && d.now > 0
    requires Decide(t.rows, inp) == Insert(candidate) && Inserted(t, inp, d, candidate).1.Stored?
    ensures var (after, r) := Inserted(t, inp, d, candidate);
      && r.id in after.rows && Decide(after.rows, inp) == Skip(r.id) && after.rows[r.id].fixed.shortCode == r.shortCode
  {
    var q := QueryOf(inp);
    FoundMeans(t.rows, q);
    assert (candidate == 0 || candidate in t.rows) && !FindExisting(t.rows, q).tier.IsMatch();
    hide FindExisting, Decide, Inserted, InsertedRow;
    InsertedAddsOneRow(t, inp, d, candidate);
    var (after, r) := Inserted(t, inp, d, candidate);
    InsertedRowIsWrittenFor(inp, r.shortCode, d.now, candidate);
    assert SameElsewhere(t.rows, after.rows, r.id);
    SearchReturnsWritten(t.rows, after.rows, r.id, q);
    WrittenRowSkips(t.rows, after.rows, inp, r.id);
  }

  lemma RewrittenThenSkipped(rows: Rows, inp: EventInput, id: int, row: Event)
    requires inp.source != "" && inp.fetchSource > 0 && id in rows
    requires FindExisting(rows, QueryOf(inp)).id == id && FindExisting(rows, QueryOf(inp)).tier.IsMatch()
    requires WrittenFor(row, inp) && row.key.uid == rows[id].key.uid.OrElse(NullIfEmpty(inp.uid))
    requires row.key.title == inp.title || row.key.title == rows[id].key.title
    ensures Decide(rows[id := row], inp) == Skip(id)
  {
    var q, after := QueryOf(inp), rows[id := row];
    FoundMeans(rows, q);
    hide FindExisting, Decide;
    assert SameElsewhere(rows, after, id);
    SearchReturnsWritten(rows, after, id, q);
    WrittenRowSkips(rows, after, inp, id);
  }

  /** Import is idempotent. Whichever tier matched or path was taken the first
      time, the second import of the entry, at any later time, reports the same
      row as unchanged and leaves the table as it was. */
  lemma ImportIsIdempotent(t: Table, inp: EventInput, first: Draws, second: Draws)
    requires IdsBounded(t) && inp.source != "" && inp.fetchSource > 0 && first.now > 0
    requires Store(t, inp, first).1.Stored?
    ensures var (once, r) := Store(t, inp, first);
            Store(once, inp, second) == (once, Stored(r.id, r.shortCode, Unchanged))
  {
    FoundMeans(t.rows, QueryOf(inp));
    match Decide(t.rows, inp)
    case Refuse(_) =>
    case Skip(_) =>
    case Merge(id) =>
      MergedRowIsWrittenFor(t.rows[id], inp);
      RewrittenThenSkipped(t.rows, inp, id, WithSequence(Merged(t.rows[id], inp), inp));
    case Overwrite(id) =>
      OverwrittenRowIsWrittenFor(t.rows[id], inp, first.now);
      RewrittenThenSkipped(t.rows, inp, id, WithSequence(Overwritten(t.rows[id], inp, first.now), inp));
    case Insert(candidate) =>
      InsertedThenSkipped(t, inp, first, candidate);
  }
}
