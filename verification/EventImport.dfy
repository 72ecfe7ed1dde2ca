/** What insertEvent stores: the decision it takes and the row it writes. */
module EventImport {
  import opened Options
  import opened EventTable
  import opened Dedup
  import opened DuplicateFlags

  datatype Outcome = New | Updated | Unchanged

  datatype Result =
    | Stored(id: int, shortCode: string, outcome: Outcome)
    | Refused(existingId: int)   // a manual creation that matches by URL
    | Failed                     // a constraint or the short-code draws refused the write

  /** The short codes drawn for one insert: at most five, each eight hex digits. */
  type Codes = c: seq<string> | |c| == 5 && forall i :: 0 <= i < 5 ==> |c[i]| == 8
    witness seq(5, i => "00000000")

  datatype Draws = Draws(now: int, codes: Codes)

  // ------------------------------------------------------------------ decisions

  datatype Decision =
    | Refuse(existing: int)
    | Skip(id: int)
    | Merge(id: int)
    | Overwrite(id: int)
    | Insert(candidate: int)   // the row to flag the new one against, or 0

  /** A start_time change that counts as a reschedule. */
  predicate IsReschedule(oldStart: int, newStart: int, wasPublished: bool, wasCancelled: bool) {
    wasPublished && !wasCancelled && oldStart > 0 && Abs(newStart - oldStart) >= THREE_HOURS
  }

  /** The source says nothing changed since the last import. */
  predicate UpToDate(e: Event, inp: EventInput) {
    || (inp.icalSequence > 0 && inp.icalSequence == e.stamp.icalSequence
        && (inp.lastModified == 0 || inp.lastModified <= e.stamp.lastModified.Or(0)))
    || (inp.lastModified > 0 && inp.lastModified <= e.stamp.lastModified.Or(0))
  }

  /** The row was edited, and an import guards it. */
  predicate Guarded(e: Event, inp: EventInput) {
    inp.source != "" && e.stamp.changedAt.Or(0) > 0
  }

  function Decide(rows: Rows, inp: EventInput): Decision {
    FoundMeans(rows, QueryOf(inp));
    var f := FindExisting(rows, QueryOf(inp));
    if f.tier.TierURL? && inp.fetchSource == 0 then
      if inp.confirmNew then Insert(f.id) else Refuse(f.id)
    else if f.tier.TierNone? || f.tier.IsReview() then
      Insert(f.id)
    else if UpToDate(rows[f.id], inp) then
      Skip(f.id)
    else if Guarded(rows[f.id], inp) then
      if inp.lastModified == 0 || inp.lastModified <= rows[f.id].stamp.changedAt.Or(0) then Skip(f.id) else Merge(f.id)
    else
      Overwrite(f.id)
  }

  // ----------------------------------------------------------------- rows written

  function LocationOrNull(location: int): Option<int> {
    if location != 0 then Some(location) else None
  }

  function PreviousStart(e: Event, inp: EventInput): Option<int> {
    if IsReschedule(e.key.start, inp.start, e.curated.published, e.content.cancelled)
    then Some(e.key.start) else e.previousStart
  }

  /** The newer source wins over a manual edit, where it has content to offer. */
  function Merged(e: Event, inp: EventInput): Event {
    e.(key := MatchKey(
         e.key.uid.OrElse(NullIfEmpty(inp.uid)), inp.title, inp.start,
         LocationOrNull(inp.location).OrElse(e.key.location),
         NullIfEmpty(inp.url).OrElse(e.key.url),
         PositiveOrNull(inp.fetchSource).OrElse(e.key.fetchSource)),
       content := Content(
         if inp.description != "" then inp.description else e.content.description,
         inp.end, inp.cancelled,
         if inp.difficulty != "" then inp.difficulty else e.content.difficulty,
         inp.pricing.OrElse(e.content.pricing)),
       stamp := e.stamp.(lastModified := PositiveOrNull(inp.lastModified), emailVerified := true),
       organization := e.organization.OrElse(inp.organization),
       previousStart := PreviousStart(e, inp))
  }

  /** A row nobody edited takes the entry's content, except for its title. Only
      an import also claims the row: uid, feed and the change stamp. */
  function Overwritten(e: Event, inp: EventInput, now: int): Event {
    var imported := inp.source != "";
    e.(key := MatchKey(
         if imported then e.key.uid.OrElse(NullIfEmpty(inp.uid)) else e.key.uid,
         e.key.title, inp.start,
         LocationOrNull(inp.location).OrElse(e.key.location),
         NullIfEmpty(inp.url),
         if imported then PositiveOrNull(inp.fetchSource).OrElse(e.key.fetchSource) else e.key.fetchSource),
       content := Content(inp.description, inp.end, inp.cancelled, inp.difficulty, inp.pricing),
       curated := inp.curated,
       stamp := if imported
                then Stamp(PositiveOrNull(inp.lastModified), Some(now), "fetch", e.stamp.icalSequence, true)
                else e.stamp.(lastModified := PositiveOrNull(inp.lastModified), emailVerified := true),
       organization := e.organization.OrElse(inp.organization),
       previousStart := PreviousStart(e, inp))
  }

  function NewRow(inp: EventInput, code: string, now: int): Event {
    Event(MatchKey(NullIfEmpty(inp.uid), inp.title, inp.start, LocationOrNull(inp.location),
                   NullIfEmpty(inp.url), PositiveOrNull(inp.fetchSource)),
          Content(inp.description, inp.end, inp.cancelled, inp.difficulty, inp.pricing),
          inp.curated,
          Fixed(code, NullIfEmpty(inp.source), NullIfEmpty(inp.bookingUrl), inp.details),
          Stamp(PositiveOrNull(inp.lastModified), Some(now), if inp.fetchSource > 0 then "fetch" else "admin", 0, true),
          inp.organization, None, false, None)
  }

  /** The feed's SEQUENCE is recorded on every row that was written. */
  function WithSequence(e: Event, inp: EventInput): Event {
    if inp.icalSequence > 0 then e.(stamp := e.stamp.(icalSequence := inp.icalSequence)) else e
  }

  /** The CHECK constraint on workshop_difficulty. */
  predicate ValidDifficulty(difficulty: string) {
    difficulty == "" || difficulty == "beginner" || difficulty == "advanced" || difficulty == "profi"
  }

  predicate CodeTaken(rows: Rows, code: string) {
    exists id :: id in rows && rows[id].fixed.shortCode == code
  }

  /** The first drawn code no row uses. */
  function FreeCode(rows: Rows, codes: seq<string>): Option<string> {
    if codes == [] then None
    else if CodeTaken(rows, codes[0]) then FreeCode(rows, codes[1..])
    else Some(codes[0])
  }

  /** It is free, and every code drawn before it is taken; there is none exactly
      when all are taken. */
  lemma {:induction false} FreeCodeIsFree(rows: Rows, codes: seq<string>)
    ensures match FreeCode(rows, codes)
      case None => forall i :: 0 <= i < |codes| ==> CodeTaken(rows, codes[i])
      case Some(code) =>
        && !CodeTaken(rows, code)
        && exists i :: 0 <= i < |codes| && codes[i] == code && forall j :: 0 <= j < i ==> CodeTaken(rows, codes[j])
  {
    hide CodeTaken;
    if codes == [] {
    } else if CodeTaken(rows, codes[0]) {
      FreeCodeIsFree(rows, codes[1..]);
      if FreeCode(rows, codes).Some? {
        var i :| 0 <= i < |codes[1..]| && codes[1..][i] == FreeCode(rows, codes).value
                 && forall j :: 0 <= j < i ==> CodeTaken(rows, codes[1..][j]);
        assert codes[i + 1] == FreeCode(rows, codes).value;
        forall j | 0 <= j < i + 1 ensures CodeTaken(rows, codes[j]) {
          if j > 0 { assert codes[j] == codes[1..][j - 1]; }
        }
      } else {
        forall j | 0 <= j < |codes| ensures CodeTaken(rows, codes[j]) {
          if j > 0 { assert codes[j] == codes[1..][j - 1]; }
        }
      }
    } else {
      assert codes[0] == FreeCode(rows, codes).value;
    }
  }

  // --------------------------------------------------------------------- the upsert

  function Inserted(t: Table, inp: EventInput, d: Draws, candidate: int): (Table, Result) {
    var code := FreeCode(t.rows, d.codes);
    if !ValidDifficulty(inp.difficulty) || code.None? then (t, Failed)
    else
      var id := t.lastId + 1;
      var rows := t.rows[id := NewRow(inp, code.value, d.now)];
      var flagged := if candidate > 0 then FlagPair(rows, id, candidate) else rows;
      (Table(flagged[id := WithSequence(flagged[id], inp)], id), Stored(id, code.value, New))
  }

  /** The row an insert leaves behind. */
  function InsertedRow(inp: EventInput, code: string, now: int, candidate: int): Event {
    WithSequence(NewRow(inp, code, now).(
      flagged := candidate > 0, duplicateOf := if candidate > 0 then Some(candidate) else None), inp)
  }

  lemma FailedInsertChangesNothing(t: Table, inp: EventInput, d: Draws, candidate: int)
    requires !Inserted(t, inp, d, candidate).1.Stored?
    ensures Inserted(t, inp, d, candidate) == (t, Failed)
  {
  }

  /** An insert adds one row under a fresh id and a fresh code. It touches the
      review candidate's flag and nothing else. */
  lemma InsertedAddsOneRow(t: Table, inp: EventInput, d: Draws, candidate: int)
    requires IdsBounded(t) && (candidate == 0 || candidate in t.rows)
    requires Inserted(t, inp, d, candidate).1.Stored?
    ensures var (after, r) := Inserted(t, inp, d, candidate);
      && r.id == t.lastId + 1 == after.lastId && r.id !in t.rows && r.outcome == New
      && r.shortCode in d.codes && !CodeTaken(t.rows, r.shortCode)
      && after.rows.Keys == t.rows.Keys + {r.id}
      && after.rows[r.id] == InsertedRow(inp, r.shortCode, d.now, candidate)
      && forall id :: id in t.rows ==>
           after.rows[id] == if id == candidate
                             then t.rows[id].(flagged := true, duplicateOf := Some(r.id))
                             else t.rows[id]
  {
    FreeCodeIsFree(t.rows, d.codes);
    if candidate > 0 {
      var id := t.lastId + 1;
      var rows := t.rows[id := NewRow(inp, FreeCode(t.rows, d.codes).value, d.now)];
      FlagPairLinksBoth(rows, id, candidate);
    }
  }

  function Rewritten(t: Table, id: int, row: Event, inp: EventInput): (Table, Result)
    requires id in t.rows
  {
    if !ValidDifficulty(row.content.difficulty) then (t, Failed)
    else (t.(rows := t.rows[id := WithSequence(row, inp)]), Stored(id, t.rows[id].fixed.shortCode, Updated))
  }

  /** One insertEvent call. */
  function Store(t: Table, inp: EventInput, d: Draws): (Table, Result) {
    FoundMeans(t.rows, QueryOf(inp));
    match Decide(t.rows, inp)
    case Refuse(id) => (t, Refused(id))
    case Skip(id) => (t, Stored(id, t.rows[id].fixed.shortCode, Unchanged))
    case Merge(id) => Rewritten(t, id, Merged(t.rows[id], inp), inp)
    case Overwrite(id) => Rewritten(t, id, Overwritten(t.rows[id], inp, d.now), inp)
    case Insert(candidate) => Inserted(t, inp, d, candidate)
  }

  /** What one call does to a row that was there: it is rewritten when it is the
      row decided on and the write succeeds; otherwise at most its flag moves. */
  lemma StoreTouchesRow(t: Table, inp: EventInput, d: Draws, id: int)
    requires IdsBounded(t) && id in t.rows
    ensures var (after, r) := Store(t, inp, d); var dec := Decide(t.rows, inp);
      && id in after.rows
      && (r.Stored? && r.id == id && r.outcome == Updated <==> r.Stored? && (dec == Merge(id) || dec == Overwrite(id)))
      && after.rows[id] ==
           if r.Stored? && dec == Merge(id) then WithSequence(Merged(t.rows[id], inp), inp)
           else if r.Stored? && dec == Overwrite(id) then WithSequence(Overwritten(t.rows[id], inp, d.now), inp)
           else t.rows[id].(flagged := after.rows[id].flagged, duplicateOf := after.rows[id].duplicateOf)
  {
    FoundMeans(t.rows, QueryOf(inp));
    hide FindExisting, Merged, Overwritten, WithSequence, Inserted;
    match Decide(t.rows, inp)
    case Refuse(_) =>
    case Skip(_) =>
    case Merge(_) =>
    case Overwrite(_) =>
    case Insert(candidate) =>
      if Inserted(t, inp, d, candidate).1.Stored? { InsertedAddsOneRow(t, inp, d, candidate); }
      else { FailedInsertChangesNothing(t, inp, d, candidate); }
  }
}
