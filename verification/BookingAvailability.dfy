/** The ticket availability shown for an event, kept by whole booking handlers. */
module BookingAvailability {
  import opened Options
  import opened Bookings

  datatype Availability = Free | Limited | SoldOut

  /** Event id to the configured number of tickets (0 when there is none). */
  type Totals = map<int, int>

  /** The bookings, and the availability stored for each event. */
  datatype Board = Board(rows: Rows, lastId: int, availability: map<int, Availability>)

  /** Bookings that take a ticket. */
  predicate Counts(b: Booking, event: int) {
    b.event == event && (b.status.Approved? || b.status.CheckedIn?)
  }

  function Takers(rows: Rows, event: int): set<int> {
    set id | id in rows && Counts(rows[id], event)
  }

  function Classify(taken: int, total: int): Availability {
    if taken >= total then SoldOut else if taken * 2 >= total then Limited else Free
  }

  /** updateEventAvailability; skipped for events without a configured capacity. */
  function Refresh(b: Board, totals: Totals, event: int): Board {
    if event in totals && totals[event] > 0
    then b.(availability := b.availability[event := Classify(|Takers(b.rows, event)|, totals[event])])
    else b
  }

  // Each handler as one atomic step.
  datatype Request =
    | Create(event: int, verifyToken: string, expiresAt: int)
    | Verify(booking: int, qr: string, now: int, expiresAt: int)
    | Patch(booking: int, approve: bool)
    | Scan(booking: int)
    | Delete(booking: int)

  function Handle(b: Board, totals: Totals, r: Request): Board {
    match r
    case Create(event, token, expiresAt) =>
      b.(rows := b.rows[b.lastId + 1 := Booking(event, Pending, Some(token), None, expiresAt)], lastId := b.lastId + 1)
    case Verify(id, qr, now, expiresAt) =>
      if id !in b.rows || !b.rows[id].status.Pending? then b
      else if now > b.rows[id].expiresAt then b.(rows := b.rows - {id})
      else b.(rows := Confirm(b.rows, id, qr, expiresAt))
    case Patch(id, approve) =>
      if id !in b.rows then b
      else Refresh(b.(rows := SetStatus(b.rows, id, approve)), totals, b.rows[id].event)
    case Scan(id) =>
      if !CheckInApplies(b.rows, id) then b
      else Refresh(b.(rows := CheckIn(b.rows, id)), totals, b.rows[id].event)
    case Delete(id) =>
      if id !in b.rows then b
      else Refresh(b.(rows := b.rows - {id}), totals, b.rows[id].event)
  }

  function HandleAll(b: Board, totals: Totals, requests: seq<Request>): Board
    decreases |requests|
  {
    if requests == [] then b else HandleAll(Handle(b, totals, requests[0]), totals, requests[1..])
  }

  /** The stored availability is the classification of the tickets taken. */
  ghost predicate Correct(b: Board, totals: Totals) {
    && (forall id :: id in b.rows ==> id <= b.lastId)
    && forall e :: e in totals && totals[e] > 0 ==> IsCorrect(b, e, totals[e])
  }

  predicate IsCorrect(b: Board, event: int, total: int) {
    event in b.availability && b.availability[event] == Classify(|Takers(b.rows, event)|, total)
  }

  /** A handler that changes one booking can only change the count of that booking's event. */
  lemma OtherEventsKeepTakers(before: Rows, after: Rows, changed: int, event: int)
    requires forall id :: id != changed ==>
        (id in before <==> id in after) && (id in before ==> before[id] == after[id])
    requires changed in before && Counts(before[changed], event) <==> changed in after && Counts(after[changed], event)
    ensures Takers(before, event) == Takers(after, event)
  {
    forall id ensures id in Takers(before, event) <==> id in Takers(after, event) {
    }
  }

  lemma HandleKeepsCorrect(b: Board, totals: Totals, r: Request)
    requires Correct(b, totals)
    ensures Correct(Handle(b, totals, r), totals)
  {
    var after := Handle(b, totals, r);
    var changed := if r.Create? then b.lastId + 1 else r.booking;
    forall e | e in totals && totals[e] > 0 ensures IsCorrect(after, e, totals[e]) {
      assert IsCorrect(b, e, totals[e]);
      if r.Create? || r.Verify? || changed !in b.rows || b.rows[changed].event != e
         || (r.Scan? && !CheckInApplies(b.rows, changed)) {
        OtherEventsKeepTakers(b.rows, after.rows, changed, e);
      }
    }
  }

  /** With handlers that run one at a time, every run of booking requests that
      starts with a correct availability keeps it correct for every event. */
  lemma {:induction false} RunsKeepAvailabilityCorrect(b: Board, totals: Totals, requests: seq<Request>)
    requires Correct(b, totals)
    ensures Correct(HandleAll(b, totals, requests), totals)
    decreases |requests|
  {
    if requests != [] {
      HandleKeepsCorrect(b, totals, requests[0]);
      hide Correct, Handle;
      RunsKeepAvailabilityCorrect(Handle(b, totals, requests[0]), totals, requests[1..]);
    }
  }

  /** What the classification says about the tickets taken. */
  lemma ClassifyMeans(taken: nat, total: int)
    requires total > 0
    ensures Classify(taken, total).SoldOut? <==> taken >= total
    ensures Classify(taken, total).Limited? <==> taken < total <= 2 * taken
    ensures Classify(taken, total).Free? <==> 2 * taken < total
  {
  }

  /** The hourly retention sweep deletes bookings without refreshing the
      availability. An event stays correct exactly when losing its expired
      ticket holders does not move it to another class. */
  lemma SweepKeepsCorrectExactly(b: Board, event: int, total: int, now: int)
    requires IsCorrect(b, event, total)
    ensures var lost := set id | id in Takers(b.rows, event) && b.rows[id].expiresAt < now;
      IsCorrect(b.(rows := Swept(b.rows, now)), event, total)
      <==> Classify(|Takers(b.rows, event)| - |lost|, total) == Classify(|Takers(b.rows, event)|, total)
  {
    var lost := set id | id in Takers(b.rows, event) && b.rows[id].expiresAt < now;
    assert Takers(b.rows, event) == Takers(Swept(b.rows, now), event) + lost;
  }

  /** A sweep that does move it: the only ticket holder of a sold-out event expires. */
  lemma SweepCanGoStale(id: int, event: int, now: int)
    ensures var b := Board(map[id := Booking(event, Approved, None, None, now - 1)], id, map[event := SoldOut]);
      IsCorrect(b, event, 1) && !IsCorrect(b.(rows := Swept(b.rows, now)), event, 1)
  {
    var rows := map[id := Booking(event, Approved, None, None, now - 1)];
    assert Takers(rows, event) == {id} && Takers(Swept(rows, now), event) == {};
  }
}
