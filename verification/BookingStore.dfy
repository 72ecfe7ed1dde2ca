/** The bookings table and the handlers that change it, each run to its end. */
module BookingStoreModule {
  import opened Options
  import opened Bookings
  import opened BookingAvailability

  datatype Reply = Done | NotFound | Forbidden | Gone | Failed

  datatype Schedule = Schedule(start: Option<int>, end: Option<int>)

  class BookingStore {
    var rows: Rows
    var lastId: int
    var availability: map<int, Availability>
    const totals: Totals
    const bookable: map<int, bool>   // every event, and whether it takes bookings
    const schedules: map<int, Schedule>
    const margins: Margins

    constructor (totals: Totals, bookable: map<int, bool>, schedules: map<int, Schedule>, margins: Margins)
      ensures Current() == Board(map[], 0, map[])
      ensures this.totals == totals && this.bookable == bookable
      ensures this.schedules == schedules && this.margins == margins
    {
      rows, lastId, availability := map[], 0, map[];
      this.totals, this.bookable, this.schedules, this.margins := totals, bookable, schedules, margins;
    }

    function Current(): Board
      reads this
    {
      Board(rows, lastId, availability)
    }

    /** updateEventAvailability. */
    method UpdateEventAvailability(event: int)
      modifies `availability
      ensures Current() == Refresh(old(Current()), totals, event)
    {
      if event !in totals || totals[event] <= 0 { return; }
      var ticketsTotal := totals[event];
      var approvedCount := |Takers(rows, event)|;
      var shown := Free;
      if approvedCount >= ticketsTotal {
        shown := SoldOut;
      } else if approvedCount * 2 >= ticketsTotal {
        shown := Limited;
      }
      availability := availability[event := shown];
    }

    /** The event checks and the INSERT of createBooking. */
    method CreateBooking(event: int, verifyToken: string, expiresAt: int) returns (reply: Reply, id: int)
      modifies this
      ensures reply == if event !in bookable then NotFound else if !bookable[event] then Forbidden else Done
      ensures reply.Done? ==>
                && Current() == Handle(old(Current()), totals, Request.Create(event, verifyToken, expiresAt))
                && id == old(lastId) + 1 == lastId
      ensures !reply.Done? ==> Current() == old(Current())
    {
      if event !in bookable { return NotFound, 0; }
      if !bookable[event] { return Forbidden, 0; }
      lastId := lastId + 1;
      id := lastId;
      rows := rows[id := Booking(event, Pending, Some(verifyToken), None, expiresAt)];
      reply := Done;
    }

    /** verifyBooking; qr and expiresAt are the generated ticket token and the retention date. */
    method VerifyBooking(token: string, now: int, qr: string, expiresAt: int) returns (reply: Reply)
      modifies this
      ensures reply.NotFound? <==>
              forall id :: id in old(rows) && old(rows)[id].status.Pending? ==> old(rows)[id].verifyToken != Some(token)
      ensures reply.NotFound? ==> Current() == old(Current())
      ensures !reply.NotFound? ==>
                exists id :: (&& VerifyHit(old(rows), id, token)
                              && Current() == Handle(old(Current()), totals, Request.Verify(id, qr, now, expiresAt))
                              && (reply.Gone? <==> now > old(rows)[id].expiresAt)
                              && (reply.Done? <==> !reply.Gone? && !TokenInUse(old(rows), qr)))
    {
      if id :| id in rows && VerifyHit(rows, id, token) {
        if now > rows[id].expiresAt {
          rows := rows - {id};
          return Gone;
        }
        if TokenInUse(rows, qr) { return Failed; }
        rows := rows[id := rows[id].(
          status := Confirmed, verifyToken := None, qrToken := Some(qr), expiresAt := expiresAt)];
        return Done;
      }
      return NotFound;
    }

    /** updateBookingStatus. */
    method UpdateBookingStatus(id: int, approve: bool) returns (reply: Reply)
      modifies this
      ensures reply == if id in old(rows) then Done else NotFound
      ensures Current() == Handle(old(Current()), totals, Patch(id, approve))
    {
      if id !in rows { return NotFound; }
      var event := rows[id].event;
      rows := rows[id := rows[id].(status := if approve then Approved else Cancelled)];
      UpdateEventAvailability(event);
      return Done;
    }

    /** checkinBooking. */
    method CheckinBooking(qr: string, now: int) returns (reply: Reply)
      modifies this
      ensures reply.NotFound? <==> forall id :: id in old(rows) ==> old(rows)[id].qrToken != Some(qr)
      ensures !reply.NotFound? ==>
                exists id :: (&& id in old(rows) && old(rows)[id].qrToken == Some(qr)
                              && (reply.Done? <==>
                                    && !old(rows)[id].status.Cancelled? && !old(rows)[id].status.Pending?
                                    && var times := ScheduleOf(old(rows)[id].event);
                                       InWindow(times.start, times.end, margins, now))
                              && (reply.Done? ==> Current() == Handle(old(Current()), totals, Scan(id))))
      ensures !reply.Done? ==> Current() == old(Current())
    {
      if id :| id in rows && rows[id].qrToken == Some(qr) {
        var b := rows[id];
        if b.status.Cancelled? || b.status.Pending? { return Gone; }
        var schedule := ScheduleOf(b.event);
        if now > CheckinExpiry(schedule.start, schedule.end, margins, now) { return Gone; }
        var opens := CheckinOpens(schedule.start, margins);
        if opens.Some? && now < opens.value { return Gone; }
        if b.status.Approved? || b.status.Confirmed? {
          rows := rows[id := b.(status := CheckedIn, qrToken := None)];
          UpdateEventAvailability(b.event);
        }
        return Done;
      }
      return NotFound;
    }

    /** A vanished event has no times. */
    function ScheduleOf(event: int): Schedule {
      if event in schedules then schedules[event] else Schedule(None, None)
    }

    /** deleteBooking. */
    method DeleteBooking(id: int) returns (reply: Reply)
      modifies this
      ensures reply == if id in old(rows) then Done else NotFound
      ensures Current() == Handle(old(Current()), totals, Request.Delete(id))
      ensures rows == old(rows) - {id} && lastId == old(lastId)
    {
      if id !in rows { return NotFound; }
      var event := rows[id].event;
      rows := rows - {id};
      UpdateEventAvailability(event);
      return Done;
    }
  }

  // ---------------------------------------- handlers are uninterrupted statement pairs

  /** verifyBooking run to its end is its SELECT followed by its write. */
  lemma VerifyIsTwoStatements(w: World, b: Board, totals: Totals, request: int, id: int, token: string, qr: string,
      now: int, expiresAt: int)
    requires w.rows == b.rows && request !in w.inFlight
    requires id in w.rows && w.rows[id].status.Pending? && w.rows[id].verifyToken == Some(token)
    requires forall other :: other in w.rows && other != id && w.rows[other].status.Pending? ==>
        w.rows[other].verifyToken != Some(token)
    ensures Next(Next(w, VerifySelect(request, token, now)), VerifyWrite(request, qr, expiresAt)).rows
         == Handle(b, totals, Verify(id, qr, now, expiresAt)).rows
  {
    assert VerifyHit(w.rows, id, token);
  }

  /** checkinBooking run to its end is its SELECT followed by its write. */
  lemma ScanIsTwoStatements(w: World, b: Board, totals: Totals, request: int, id: int, qr: string)
    requires w.rows == b.rows && request !in w.inFlight
    requires id in w.rows && w.rows[id].qrToken == Some(qr)
    requires forall other :: other in w.rows && w.rows[other].qrToken == Some(qr) ==> other == id
    ensures Next(Next(w, ScanSelect(request, qr, true)), ScanWrite(request)).rows == Handle(b, totals, Scan(id)).rows
  {
    forall other ensures ScanHit(w.rows, other, qr) <==> other == id && CheckInApplies(w.rows, id) {
    }
    if CheckInApplies(w.rows, id) { assert ScanHit(w.rows, id, qr); }
  }
}
