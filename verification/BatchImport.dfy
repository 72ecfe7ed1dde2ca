/** Importing a whole feed: one transaction, one savepoint per entry, a bounded
    number of attempts when the database is locked. */
module BatchImport {
  import opened Options
  import opened EventTable
  import opened EventImport
  import opened ImportLaws

  /** One date of an entry. A time that does not parse is None. linksFail says
      that a statement on a linked table (musicians, tags, ...) fails afterwards. */
  datatype Date = Date(description: string, start: Option<int>, end: Option<int>, draws: Draws, linksFail: bool)

  /** One feed entry: the shared columns, its own date, and the list of dates that replaces it. */
  datatype Entry = Entry(base: EventInput, main: Date, dates: seq<Date>)

  datatype Counts = Counts(created: nat, updated: nat, kept: nat, failed: nat) {
    function Add(outcome: Outcome): Counts {
      match outcome
      case New => this.(created := created + 1)
      case Updated => this.(updated := updated + 1)
      case Unchanged => this.(kept := kept + 1)
    }

    function Merge(other: Counts): Counts {
      Counts(created + other.created, updated + other.updated, kept + other.kept, failed + other.failed)
    }

    function Processed(): nat {
      created + updated + kept
    }
  }

  const ZERO := Counts(0, 0, 0, 0)

  /** The events an entry produced and their tally. */
  datatype Created = Created(ids: seq<int>, counts: Counts)

  /** The dates to store; an empty description falls back to the entry's own. */
  function DatesOf(e: Entry): seq<Date> {
    if e.dates == [] then [e.main]
    else seq(|e.dates|, i requires 0 <= i < |e.dates| =>
               if e.dates[i].description == "" then e.dates[i].(description := e.main.description) else e.dates[i])
  }

  function InputFor(base: EventInput, date: Date): EventInput
    requires date.start.Some? && date.end.Some?
  {
    base.(description := date.description, start := date.start.value, end := date.end.value)
  }

  /** createEventFromRequest: store the dates in order and stop at the first
      error, leaving behind what was written so far. */
  function Create(t: Table, base: EventInput, dates: seq<Date>, done: Created): (Table, Option<Created>)
    decreases |dates|
  {
    if dates == [] then (t, Some(done))
    else if dates[0].start.None? || dates[0].end.None? then (t, None)
    else
      var (after, r) := Store(t, InputFor(base, dates[0]), dates[0].draws);
      if !r.Stored? || dates[0].linksFail then (after, None)
      else Create(after, base, dates[1..], Created(done.ids + [r.id], done.counts.Add(r.outcome)))
  }

  /** A transaction in progress: its view of the table and what it will return. */
  datatype Batch = Batch(table: Table, ids: seq<int>, counts: Counts)

  /** One entry inside its savepoint: all of its writes, or none. */
  function ImportEntry(b: Batch, e: Entry): Batch {
    var (after, made) := Create(b.table, e.base, DatesOf(e), Created([], ZERO));
    if made.None? then WithFailed(b, b.counts.failed + 1)
    else Batch(after, b.ids + made.value.ids, b.counts.Merge(made.value.counts))
  }

  predicate Succeeds(b: Batch, e: Entry) {
    Create(b.table, e.base, DatesOf(e), Created([], ZERO)).1.Some?
  }

  function ImportAll(b: Batch, entries: seq<Entry>): Batch
    decreases |entries|
  {
    if entries == [] then b else ImportAll(ImportEntry(b, entries[0]), entries[1..])
  }

  function Begin(t: Table): Batch {
    Batch(t, [], ZERO)
  }

  /** The entries that did not fail, in order. */
  function Successful(b: Batch, entries: seq<Entry>): seq<Entry>
    decreases |entries|
  {
    if entries == [] then []
    else (if Succeeds(b, entries[0]) then [entries[0]] else []) + Successful(ImportEntry(b, entries[0]), entries[1..])
  }

  // ------------------------------------------------------------------- properties

  lemma {:induction false} CreateTallies(t: Table, base: EventInput, dates: seq<Date>, done: Created)
    ensures var made := Create(t, base, dates, done).1;
            made.Some? ==> && |made.value.ids| == |done.ids| + |dates|
                           && made.value.counts.Processed() == done.counts.Processed() + |dates|
                           && made.value.counts.failed == done.counts.failed
    ensures Consistent(t) ==> Consistent(Create(t, base, dates, done).0)
    decreases |dates|
  {
    if dates != [] && dates[0].start.Some? && dates[0].end.Some? {
      var inp := InputFor(base, dates[0]);
      if Consistent(t) { StoreKeepsConsistent(t, inp, dates[0].draws); }
      hide Store;
      var (after, r) := Store(t, inp, dates[0].draws);
      if r.Stored? && !dates[0].linksFail {
        CreateTallies(after, base, dates[1..], Created(done.ids + [r.id], done.counts.Add(r.outcome)));
      }
    }
  }

  function WithFailed(b: Batch, failed: nat): Batch {
    b.(counts := b.counts.(failed := failed))
  }

  /** The number of failures so far does not influence an import. */
  lemma {:induction false} FailureCountIsInert(b: Batch, entries: seq<Entry>, failed: nat)
    requires failed >= b.counts.failed
    ensures var x := ImportAll(b, entries);
            ImportAll(WithFailed(b, failed), entries) == WithFailed(x, x.counts.failed + (failed - b.counts.failed))
    ensures ImportAll(b, entries).counts.failed >= b.counts.failed
    decreases |entries|
  {
    hide Create;
    if entries != [] {
      var next := ImportEntry(b, entries[0]);
      assert ImportEntry(WithFailed(b, failed), entries[0])
          == WithFailed(next, next.counts.failed + (failed - b.counts.failed));
      if Succeeds(b, entries[0]) { SuccessAddsNoFailure(b, entries[0]); }
      FailureCountIsInert(next, entries[1..], next.counts.failed + (failed - b.counts.failed));
      assert ImportAll(b, entries) == ImportAll(next, entries[1..]);
    }
  }

  /** A committed batch is the fold of its successful entries: importing only
      those, in order, gives the same table, events and counts, without failures. */
  lemma {:induction false} BatchIsFoldOfSuccesses(b: Batch, entries: seq<Entry>)
    ensures ImportAll(b, Successful(b, entries)) == WithFailed(ImportAll(b, entries), b.counts.failed)
    decreases |entries|
  {
    hide ImportEntry, Succeeds;
    if entries != [] {
      var e, next := entries[0], ImportEntry(b, entries[0]);
      var good := Successful(next, entries[1..]);
      BatchIsFoldOfSuccesses(next, entries[1..]);
      if Succeeds(b, e) {
        AfterSuccess(b, e, good);
      } else {
        AfterFailure(b, e, good);
      }
      assert Successful(b, entries) == if Succeeds(b, e) then [e] + good else good;
    }
  }

  lemma AfterSuccess(b: Batch, e: Entry, rest: seq<Entry>)
    requires Succeeds(b, e)
    ensures ImportEntry(b, e).counts.failed == b.counts.failed
    ensures ImportAll(b, [e] + rest) == ImportAll(ImportEntry(b, e), rest)
  {
    SuccessAddsNoFailure(b, e);
    assert ([e] + rest)[1..] == rest;
    hide ImportEntry;
  }

  lemma AfterFailure(b: Batch, e: Entry, rest: seq<Entry>)
    requires !Succeeds(b, e)
    ensures ImportEntry(b, e).counts.failed == b.counts.failed + 1
    ensures var x := ImportAll(b, rest); ImportAll(ImportEntry(b, e), rest) == WithFailed(x, x.counts.failed + 1)
  {
    FailureIsCounted(b, e);
    hide ImportEntry;
    FailureCountIsInert(b, rest, b.counts.failed + 1);
  }

  lemma FailureIsCounted(b: Batch, e: Entry)
    requires !Succeeds(b, e)
    ensures ImportEntry(b, e) == WithFailed(b, b.counts.failed + 1)
  {
  }

  lemma SuccessAddsNoFailure(b: Batch, e: Entry)
    requires Succeeds(b, e)
    ensures ImportEntry(b, e).counts.failed == b.counts.failed
  {
    CreateTallies(b.table, e.base, DatesOf(e), Created([], ZERO));
  }

  lemma EntryCountsAddUp(b: Batch, e: Entry)
    ensures var after := ImportEntry(b, e);
      && after.counts.Processed() - |after.ids| == b.counts.Processed() - |b.ids|
      && after.counts.failed == b.counts.failed + (if Succeeds(b, e) then 0 else 1)
      && (Consistent(b.table) ==> Consistent(after.table))
  {
    CreateTallies(b.table, e.base, DatesOf(e), Created([], ZERO));
    hide Create, Consistent;
  }

  /** Every returned event is counted once as created, updated or kept, every
      failed entry once as failed, and the table stays consistent throughout. */
  lemma {:induction false} BatchCountsAddUp(b: Batch, entries: seq<Entry>)
    ensures var after := ImportAll(b, entries);
      && after.counts.Processed() - |after.ids| == b.counts.Processed() - |b.ids|
      && after.counts.failed == b.counts.failed + |entries| - |Successful(b, entries)|
      && (Consistent(b.table) ==> Consistent(after.table))
    decreases |entries|
  {
    hide ImportEntry, Succeeds, Consistent;
    if entries != [] {
      EntryCountsAddUp(b, entries[0]);
      BatchCountsAddUp(ImportEntry(b, entries[0]), entries[1..]);
    }
  }

  // ---------------------------------------------------------------------- retries

  /** How one attempt ends: committed, lock contention, or another error of the
      transaction. Both errors roll everything back. */
  datatype Ending = Commits | Busy | Breaks

  const BUSY_RETRIES := 3

  /** What happens to each attempt, and whether the caller gives up while waiting for the next. */
  datatype Weather = Weather(ending: Ending, cancelled: bool)

  datatype Report = Imported(ids: seq<int>, counts: Counts) | ImportError

  /** Attempts are numbered from zero; `commits` counts how often the table was replaced. */
  datatype RetryRun = RetryRun(table: Table, report: Report, attempts: nat, commits: nat)

  function Retry(t: Table, entries: seq<Entry>, weather: seq<Weather>, attempt: nat): RetryRun
    requires |weather| == BUSY_RETRIES + 1 && attempt <= BUSY_RETRIES
    decreases BUSY_RETRIES - attempt
  {
    match weather[attempt].ending
    case Commits =>
      var b := ImportAll(Begin(t), entries);
      RetryRun(b.table, Imported(b.ids, b.counts), attempt + 1, 1)
    case Breaks => RetryRun(t, ImportError, attempt + 1, 0)
    case Busy =>
      if attempt >= BUSY_RETRIES || weather[attempt].cancelled then RetryRun(t, ImportError, attempt + 1, 0)
      else Retry(t, entries, weather, attempt + 1)
  }

  /** The attempt that commits, if any: all before it were busy and nobody gave up. */
  predicate CommitsAt(weather: seq<Weather>, from: nat, k: nat)
    requires from <= k < |weather|
  {
    weather[k].ending == Commits && forall j :: from <= j < k ==> weather[j].ending == Busy && !weather[j].cancelled
  }

  /** The loop commits at most once and makes at most four attempts, the next one
      only while the last was busy and nobody gave up. It imports
      the whole batch when some attempt commits after nothing but busy ones, and
      leaves the table untouched otherwise. */
  lemma {:induction false} RetryCommitsAtMostOnce(t: Table, entries: seq<Entry>, weather: seq<Weather>, attempt: nat)
    requires |weather| == 4 && attempt <= 3
    ensures var run := Retry(t, entries, weather, attempt);
      && attempt < run.attempts <= 4
      && (forall j :: attempt <= j < run.attempts - 1 ==> weather[j].ending == Busy && !weather[j].cancelled)
      && (run.attempts < 4 ==> weather[run.attempts - 1].ending != Busy || weather[run.attempts - 1].cancelled)
      && (run.commits == 1 <==> exists k :: attempt <= k <= 3 && CommitsAt(weather, attempt, k))
      && (run.commits == 1 ==> var b := ImportAll(Begin(t), entries);
                               run.table == b.table && run.report == Imported(b.ids, b.counts))
      && (run.commits != 1 ==> run.commits == 0 && run.table == t && run.report == ImportError)
    decreases BUSY_RETRIES - attempt
  {
    var w := weather[attempt];
    forall k | attempt <= k <= BUSY_RETRIES
      ensures CommitsAt(weather, attempt, k) <==>
              ((k == attempt && w.ending == Commits)
              || (k > attempt && w.ending == Busy && !w.cancelled && CommitsAt(weather, attempt + 1, k)))
    {
    }
    if w.ending == Commits {
      assert CommitsAt(weather, attempt, attempt);
    } else if w.ending == Busy && attempt < BUSY_RETRIES && !w.cancelled {
      RetryCommitsAtMostOnce(t, entries, weather, attempt + 1);
      if Retry(t, entries, weather, attempt + 1).commits == 1 {
        var k :| attempt + 1 <= k <= BUSY_RETRIES && CommitsAt(weather, attempt + 1, k);
        assert CommitsAt(weather, attempt, k);
      }
    }
  }
}
