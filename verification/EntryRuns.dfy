/** What importing one entry does, date by date. */
module EntryRuns {
  import opened Options
  import opened EventTable
  import opened Dedup
  import opened EventImport
  import opened ImportColumns
  import opened ImportLaws
  import opened BatchImport

  /** The i-th date an entry asks for: its own when it lists none, and otherwise
      the i-th listed one, described as the entry is where it says nothing. */
  ghost predicate AsksFor(e: Entry, i: nat, date: Date) {
    if e.dates == [] then i == 0 && date == e.main
    else
      && i < |e.dates|
      && date.start == e.dates[i].start && date.end == e.dates[i].end
      && date.description == (if e.dates[i].description != "" then e.dates[i].description else e.main.description)
      && date.draws == e.dates[i].draws && date.linksFail == e.dates[i].linksFail
  }

  /** A date that parses is stored as the entry at that time, under that description. */
  ghost predicate StoresDate(base: EventInput, date: Date, before: Table, after: Table, r: Result) {
    && date.start.Some? && date.end.Some?
    && (after, r) == Store(before,
         base.(start := date.start.value, end := date.end.value, description := date.description), date.draws)
  }

  /** Nothing went wrong with a date that was stored. */
  predicate Kept(date: Date, r: Result) {
    r.Stored? && !date.linksFail
  }

  function Tally(results: seq<Result>, outcome: Outcome): nat {
    if results == [] then 0
    else Tally(results[1..], outcome) + (if results[0].Stored? && results[0].outcome == outcome then 1 else 0)
  }

  /** The tables an entry leads through and what each store reported. */
  ghost predicate IsTrace(t: Table, base: EventInput, dates: seq<Date>, tables: seq<Table>, results: seq<Result>) {
    && |tables| == |results| + 1 && |results| <= |dates| && tables[0] == t
    && (forall i :: 0 <= i < |results| ==> StoresDate(base, dates[i], tables[i], tables[i + 1], results[i]))
    && (forall i :: 0 <= i < |results| - 1 ==> Kept(dates[i], results[i]))
  }

  /** All dates went well. */
  ghost predicate Complete(dates: seq<Date>, results: seq<Result>) {
    |results| == |dates| && forall i :: 0 <= i < |results| ==> Kept(dates[i], results[i])
  }

  /** The events returned are those of the stores, in order, and every count is
      the number of stores with that outcome. */
  ghost predicate Reports(done: Created, results: seq<Result>, made: Created) {
    && |made.ids| == |done.ids| + |results| && made.ids[..|done.ids|] == done.ids
    && (forall i :: 0 <= i < |results| ==> results[i].Stored? && made.ids[|done.ids| + i] == results[i].id)
    && made.counts.created == done.counts.created + Tally(results, New)
    && made.counts.updated == done.counts.updated + Tally(results, Updated)
    && made.counts.kept == done.counts.kept + Tally(results, Unchanged)
    && made.counts.failed == done.counts.failed
  }

  lemma ConsTrace(t: Table, base: EventInput, dates: seq<Date>, after: Table, r: Result,
                  tables: seq<Table>, results: seq<Result>)
    requires dates != [] && StoresDate(base, dates[0], t, after, r) && Kept(dates[0], r)
    requires IsTrace(after, base, dates[1..], tables, results)
    ensures IsTrace(t, base, dates, [t] + tables, [r] + results)
    ensures Complete(dates, [r] + results) <==> Complete(dates[1..], results)
  {
    hide StoresDate, Kept;
    var ts, rs := [t] + tables, [r] + results;
    forall i | 0 <= i < |rs| ensures StoresDate(base, dates[i], ts[i], ts[i + 1], rs[i]) {
      if i > 0 {
        assert StoresDate(base, dates[1..][i - 1], tables[i - 1], tables[i], results[i - 1]);
      }
    }
    forall i | 0 <= i < |rs| ensures Kept(dates[i], rs[i]) <==> i == 0 || Kept(dates[1..][i - 1], results[i - 1]) {
    }
    if Complete(dates, rs) {
      forall i | 0 <= i < |results| ensures Kept(dates[1..][i], results[i]) {
        assert Kept(dates[i + 1], rs[i + 1]);
      }
    }
  }

  lemma ConsReports(done: Created, r: Result, results: seq<Result>, made: Created)
    requires r.Stored? && Reports(Created(done.ids + [r.id], done.counts.Add(r.outcome)), results, made)
    ensures Reports(done, [r] + results, made)
  {
    assert ([r] + results)[1..] == results;
    var ids := done.ids + [r.id];
    assert made.ids[..|done.ids|] == made.ids[..|ids|][..|done.ids|] == ids[..|done.ids|] == done.ids;
    assert made.ids[|done.ids|] == made.ids[..|ids|][|done.ids|] == r.id;
    forall i | 0 <= i < |results| + 1
      ensures ([r] + results)[i].Stored? && made.ids[|done.ids| + i] == ([r] + results)[i].id
    {
      if i > 0 { assert results[i - 1].Stored? && made.ids[|ids| + (i - 1)] == results[i - 1].id; }
    }
  }

  /** The loop over the dates: it stops at the first date that does not parse, is
      not stored or fails on a linked table, and leaves the table as the stores so
      far made it. */
  lemma {:induction false} DatesAreStoredInOrder(t: Table, base: EventInput, dates: seq<Date>, done: Created)
    returns (tables: seq<Table>, results: seq<Result>)
    ensures IsTrace(t, base, dates, tables, results)
    ensures var (after, made) := Create(t, base, dates, done);
      && after == tables[|results|]
      && (made.Some? <==> Complete(dates, results))
      && (made.Some? ==> Reports(done, results, made.value))
      && (|results| < |dates| && (results == [] || Kept(dates[|results| - 1], results[|results| - 1])) ==>
            dates[|results|].start.None? || dates[|results|].end.None?)
    decreases |dates|
  {
    hide Store;
    if dates == [] || dates[0].start.None? || dates[0].end.None? {
      tables, results := [t], [];
      assert Reports(done, [], done);
    } else {
      var (after, r) := Store(t, InputFor(base, dates[0]), dates[0].draws);
      assert StoresDate(base, dates[0], t, after, r);
      if Kept(dates[0], r) {
        var next := Created(done.ids + [r.id], done.counts.Add(r.outcome));
        var ts, rs := DatesAreStoredInOrder(after, base, dates[1..], next);
        hide StoresDate, IsTrace, Complete, Reports, Kept;
        tables, results := [t] + ts, [r] + rs;
        ConsTrace(t, base, dates, after, r, ts, rs);
        var made := Create(after, base, dates[1..], next).1;
        if made.Some? { ConsReports(done, r, rs, made.value); }
        assert rs != [] ==> dates[|results| - 1] == dates[1..][|rs| - 1];
        assert |rs| < |dates[1..]| ==> dates[|results|] == dates[1..][|rs|];
      } else {
        tables, results := [t, after], [r];
      }
    }
  }

  /** The row a date was stored in has that date's times and description; an
      update keeps a description when the date has none. */
  ghost predicate HoldsDate(table: Table, r: Result, date: Date) {
    r.Stored? && r.outcome != Unchanged ==>
      && r.id in table.rows
      && date.start == Some(table.rows[r.id].key.start) && date.end == Some(table.rows[r.id].content.end)
      && (r.outcome == New || date.description != "" ==> table.rows[r.id].content.description == date.description)
  }

  lemma StoredDateIsHeld(base: EventInput, date: Date, before: Table, after: Table, r: Result)
    requires IdsBounded(before) && StoresDate(base, date, before, after, r)
    ensures HoldsDate(after, r, date)
  {
    var inp := base.(start := date.start.value, end := date.end.value, description := date.description);
    hide Store, MirrorsInsert, TakesWhatIsGiven, RecordsTheEntry, CarriesEntry, FindExisting, InsertedRow;
    if r.Stored? && r.outcome == New {
      NewRowCarriesEntry(before, inp, date.draws);
      CarriedDate(after.rows[r.id], inp, date.draws.now);
    } else if r.Stored? && r.outcome == Updated {
      var inserted := InsertedRow(inp, "", date.draws.now, 0);
      InsertedRowCarriesEntry(inp, "", date.draws.now, 0);
      UpdateAgreesWithInsert(before, inp, date.draws, inserted);
      CarriedDate(inserted, inp, date.draws.now);
      UpdatedDate(before.rows[r.id], after.rows[r.id], inp, inserted);
    }
  }

  lemma CarriedDate(e: Event, inp: EventInput, now: int)
    requires CarriesEntry(e, inp, now)
    ensures e.key.start == inp.start && e.content.end == inp.end && e.content.description == inp.description
  {
  }

  lemma UpdatedDate(e: Event, written: Event, inp: EventInput, inserted: Event)
    requires RecordsTheEntry(e, written, inp, inserted) && inserted.content.description == inp.description
    requires TakesWhatIsGiven(e, written, inserted) || MirrorsInsert(e, written, inp, inserted)
    ensures written.key.start == inp.start && written.content.end == inp.end
    ensures inp.description != "" ==> written.content.description == inp.description
  {
  }

  lemma {:induction false} TraceStaysConsistent(t: Table, base: EventInput, dates: seq<Date>,
                                                tables: seq<Table>, results: seq<Result>, i: nat)
    requires Consistent(t) && IsTrace(t, base, dates, tables, results) && i <= |results|
    ensures Consistent(tables[i])
  {
    hide Consistent, Store;
    if i > 0 {
      TraceStaysConsistent(t, base, dates, tables, results, i - 1);
      var date := dates[i - 1];
      assert StoresDate(base, date, tables[i - 1], tables[i], results[i - 1]);
      StoreKeepsConsistent(tables[i - 1],
        base.(start := date.start.value, end := date.end.value, description := date.description), date.draws);
    }
  }

  lemma DatesAreAskedFor(e: Entry)
    ensures |DatesOf(e)| == if e.dates == [] then 1 else |e.dates|
    ensures forall i :: 0 <= i < |DatesOf(e)| ==> AsksFor(e, i, DatesOf(e)[i])
  {
  }

  lemma TraceHoldsDates(t: Table, base: EventInput, dates: seq<Date>, tables: seq<Table>, results: seq<Result>)
    requires Consistent(t) && IsTrace(t, base, dates, tables, results)
    ensures forall i :: 0 <= i < |results| ==> HoldsDate(tables[i + 1], results[i], dates[i])
  {
    hide Consistent, IdsBounded, HoldsDate, StoresDate, Kept;
    forall i | 0 <= i < |results| ensures HoldsDate(tables[i + 1], results[i], dates[i]) {
      TraceStaysConsistent(t, base, dates, tables, results, i);
      ConsistentIsBounded(tables[i]);
      StoredDateIsHeld(base, dates[i], tables[i], tables[i + 1], results[i]);
    }
  }

  /** The entry's events follow those returned before, one a store, and each
      count grows by the number of stores with that outcome. */
  ghost predicate AddsResults(b: Batch, after: Batch, results: seq<Result>) {
    && |after.ids| == |b.ids| + |results| && after.ids[..|b.ids|] == b.ids
    && (forall i :: 0 <= i < |results| ==> results[i].Stored? && after.ids[|b.ids| + i] == results[i].id)
    && after.counts.created == b.counts.created + Tally(results, New)
    && after.counts.updated == b.counts.updated + Tally(results, Updated)
    && after.counts.kept == b.counts.kept + Tally(results, Unchanged)
    && after.counts.failed == b.counts.failed
  }

  lemma EntryFollowsItsDates(b: Batch, e: Entry, results: seq<Result>)
    requires var made := Create(b.table, e.base, DatesOf(e), Created([], ZERO)).1;
      made.Some? ==> Reports(Created([], ZERO), results, made.value)
    ensures var (table, made) := Create(b.table, e.base, DatesOf(e), Created([], ZERO)); var after := ImportEntry(b, e);
      if made.Some? then after.table == table && AddsResults(b, after, results)
      else after == b.(counts := b.counts.(failed := b.counts.failed + 1))
  {
    hide Create, DatesOf;
  }

  /** One entry inside its savepoint. Every date it asks for is stored in order,
      each in the table the date before left, at its own times and under its own
      description; the entry returns one event a date and counts what each store
      reported. If any date goes wrong, the entry counts as failed and nothing
      else happens. */
  lemma EntryIsStoredDateByDate(b: Batch, e: Entry)
    returns (dates: seq<Date>, tables: seq<Table>, results: seq<Result>)
    requires Consistent(b.table)
    ensures |dates| == if e.dates == [] then 1 else |e.dates|
    ensures forall i :: 0 <= i < |dates| ==> AsksFor(e, i, dates[i])
    ensures IsTrace(b.table, e.base, dates, tables, results)
    ensures forall i :: 0 <= i < |results| ==> HoldsDate(tables[i + 1], results[i], dates[i])
    ensures var after := ImportEntry(b, e);
      if Complete(dates, results) then after.table == tables[|results|] && AddsResults(b, after, results)
      else after == b.(counts := b.counts.(failed := b.counts.failed + 1))
  {
    hide *;
    dates := DatesOf(e);
    DatesAreAskedFor(e);
    tables, results := DatesAreStoredInOrder(b.table, e.base, dates, Created([], ZERO));
    TraceHoldsDates(b.table, e.base, dates, tables, results);
    EntryFollowsItsDates(b, e, results);
  }
}
