/** What each booking request leaves behind, column by column, and how the
    handlers relate to the single statements of the interleaving model. */
module BookingEffects {
  import opened Options
  import B = Bookings
  import opened BookingAvailability

  /** No booking but one differs. */
  ghost predicate OnlyChanges(before: B.Rows, after: B.Rows, changed: int) {
    forall id :: id != changed ==> (id in before <==> id in after) && (id in before ==> after[id] == before[id])
  }

  /** What one handler does to the booking it is about, and that it does nothing
      to any other booking or to the availability of any other event. */
  lemma HandlerMeans(b: Board, totals: Totals, r: Request)
    ensures var after := Handle(b, totals, r);
      match r
      case Create(event, token, expiresAt) =>
        && after.lastId == b.lastId + 1 && after.lastId in after.rows
        && OnlyChanges(b.rows, after.rows, after.lastId)
        && var row := after.rows[after.lastId];
           && row.event == event && row.status == B.Pending && row.verifyToken == Some(token)
           && row.qrToken == None && row.expiresAt == expiresAt
      case Verify(id, qr, now, expiresAt) =>
        && after.lastId == b.lastId && OnlyChanges(b.rows, after.rows, id)
        && (if id !in b.rows || b.rows[id].status != B.Pending then after.rows == b.rows
            else if now > b.rows[id].expiresAt then id !in after.rows
            else if exists other :: other in b.rows && b.rows[other].qrToken == Some(qr) then after.rows == b.rows
            else
              && id in after.rows
              && var row := after.rows[id];
                 && row.event == b.rows[id].event && row.status == B.Confirmed && row.verifyToken == None
                 && row.qrToken == Some(qr) && row.expiresAt == expiresAt)
      case Patch(id, approve) =>
        && after.lastId == b.lastId && OnlyChanges(b.rows, after.rows, id)
        && (id in after.rows <==> id in b.rows)
        && (id in b.rows ==> after.rows[id] == b.rows[id].(status := if approve then B.Approved else B.Cancelled))
      case Scan(id) =>
        && after.lastId == b.lastId && OnlyChanges(b.rows, after.rows, id)
        && (id in after.rows <==> id in b.rows)
        && (id in b.rows ==>
              after.rows[id] == if b.rows[id].status in {B.Approved, B.Confirmed}
                                then b.rows[id].(status := B.CheckedIn, qrToken := None)
                                else b.rows[id])
      case Delete(id) =>
        && after.lastId == b.lastId && OnlyChanges(b.rows, after.rows, id) && id !in after.rows
    ensures var after := Handle(b, totals, r);
      forall event :: !r.Create? && r.booking in b.rows && event != b.rows[r.booking].event ==>
        (event in after.availability <==> event in b.availability)
        && (event in b.availability ==> after.availability[event] == b.availability[event])
  {
    hide Takers;
  }

  /** The handlers that read no booking first are one statement in the
      interleaving model, which leaves the same bookings. */
  lemma OneStatementHandlers(w: B.World, b: Board, totals: Totals, r: Request)
    requires w.rows == b.rows && w.lastId == b.lastId
    ensures match r
      case Create(event, token, expiresAt) =>
        var after := B.Next(w, B.Create(event, token, expiresAt));
        after.rows == Handle(b, totals, r).rows && after.lastId == Handle(b, totals, r).lastId
      case Patch(id, approve) => B.Next(w, B.WriteStatus(id, approve)).rows == Handle(b, totals, r).rows
      case Delete(id) => B.Next(w, B.Delete(id)).rows == Handle(b, totals, r).rows
      case _ => true
  {
    hide Takers;
    if r.Delete? { assert r.booking !in b.rows ==> b.rows - {r.booking} == b.rows; }
  }

  /** A SELECT changes no booking. It lets the request go on exactly when a pending
      booking has the verification token, as an expiry once its date has passed, or
      when a live ticket is scanned inside its window. */
  lemma SelectMeans(w: B.World, s: B.Step)
    requires s.VerifySelect? || s.ScanSelect?
    ensures var after := B.Next(w, s);
      var goesOn := s.request !in w.inFlight && match s
        case VerifySelect(_, token, _) =>
          exists id :: id in w.rows && w.rows[id].status.Pending? && w.rows[id].verifyToken == Some(token)
        case ScanSelect(_, qr, inWindow) =>
          inWindow && exists id :: id in w.rows && w.rows[id].status in {B.Approved, B.Confirmed}
                                   && w.rows[id].qrToken == Some(qr)
        case _ => false;
      && after.rows == w.rows && after.lastId == w.lastId
      && (!goesOn ==> after == w)
      && (goesOn ==>
            && s.request in after.inFlight && after.inFlight == w.inFlight[s.request := after.inFlight[s.request]]
            && var flight := after.inFlight[s.request];
               && flight.booking in w.rows
               && var row := w.rows[flight.booking];
                  if s.VerifySelect? then
                    && row.status.Pending? && row.verifyToken == Some(s.verifyToken) && !flight.Scanning?
                    && (flight.Expiring? <==> s.now > row.expiresAt)
                  else
                    && row.status in {B.Approved, B.Confirmed} && row.qrToken == Some(s.qr)
                    && flight == B.Scanning(flight.booking, |w.log|))
  {
    match s
    case VerifySelect(request, token, now) =>
      forall id ensures B.VerifyHit(w.rows, id, token) <==>
                        id in w.rows && w.rows[id].status.Pending? && w.rows[id].verifyToken == Some(token)
      {
      }
      hide B.VerifyHit;
    case ScanSelect(request, qr, _) =>
      forall id ensures B.ScanHit(w.rows, id, qr) <==>
                        id in w.rows && w.rows[id].status in {B.Approved, B.Confirmed} && w.rows[id].qrToken == Some(qr)
      {
      }
      hide B.ScanHit;
    case _ =>
  }

  /** A write ends its request and acts on the booking as it is now, whatever
      happened since the SELECT: an expiry deletes it, a verification confirms it
      while it is pending and the QR token unused, and a scan admits it while it is
      approved or confirmed. No other booking changes. */
  lemma WriteMeans(w: B.World, s: B.Step)
    requires s.VerifyWrite? || s.ScanWrite?
    requires s.request in w.inFlight && (s.ScanWrite? <==> w.inFlight[s.request].Scanning?)
    ensures var after := B.Next(w, s); var flight := w.inFlight[s.request]; var id := flight.booking;
      && after.inFlight == w.inFlight - {s.request} && after.lastId == w.lastId
      && OnlyChanges(w.rows, after.rows, id)
      && match flight
         case Expiring(_) => id !in after.rows
         case Verifying(_) =>
           if id in w.rows && w.rows[id].status.Pending?
              && forall other :: other in w.rows ==> w.rows[other].qrToken != Some(s.qr)
           then
             && id in after.rows
             && after.rows[id] == w.rows[id].(status := B.Confirmed, verifyToken := None, qrToken := Some(s.qr),
                                             expiresAt := s.expiresAt)
           else after.rows == w.rows
         case Scanning(_, _) =>
           if id in w.rows && w.rows[id].status in {B.Approved, B.Confirmed}
           then id in after.rows && after.rows[id] == w.rows[id].(status := B.CheckedIn, qrToken := None)
           else after.rows == w.rows
  {
  }

  /** The sweep removes the bookings that have expired, and nothing else. */
  lemma SweepMeans(w: B.World, now: int, id: int)
    ensures var after := B.Next(w, B.Sweep(now)).rows;
      && (id in after <==> id in w.rows && now <= w.rows[id].expiresAt)
      && (id in after ==> after[id] == w.rows[id])
  {
  }

  /** The history tells what happened: a step records an admission exactly when a
      booking becomes checked in, a token exactly when a booking gets it, and an
      approval or cancellation exactly when an organiser writes one. */
  lemma HistoryIsTrue(w: B.World, s: B.Step, id: int)
    requires B.Inv(w)
    ensures var after := B.Next(w, s);
      after == w || (|after.log| == |w.log| + 1 && after.log[..|w.log|] == w.log)
    ensures var after := B.Next(w, s); var last := if |after.log| > |w.log| then after.log[|w.log|] else B.Other;
      && (last.Admitted? && last.booking == id <==>
            id in w.rows && w.rows[id].status != B.CheckedIn && id in after.rows
            && after.rows[id].status == B.CheckedIn)
      && (last.Issued? && last.booking == id <==>
            id in w.rows && id in after.rows && w.rows[id].qrToken != after.rows[id].qrToken
            && after.rows[id].qrToken.Some?)
      && (last.Issued? && last.booking == id ==> after.rows[id].qrToken == Some(last.token))
      && (last == B.ApprovedBy(id) <==> id in w.rows && s == B.WriteStatus(id, true))
      && (last == B.CancelledBy(id) <==> id in w.rows && s == B.WriteStatus(id, false))
  {
    hide B.VerifyHit, B.ScanHit, B.TokenInUse;
    LastIdIsFree(w);
    hide B.Inv;
    if s.VerifyWrite? && s.request in w.inFlight && w.inFlight[s.request].Verifying? {
      var booking := w.inFlight[s.request].booking;
      if B.ConfirmApplies(w.rows, booking, s.qr) { IssuedTokenIsNew(w.rows, booking, s.qr); }
    }
  }

  lemma LastIdIsFree(w: B.World)
    requires B.Inv(w)
    ensures w.lastId + 1 !in w.rows
  {
  }

  lemma IssuedTokenIsNew(rows: B.Rows, id: int, qr: string)
    requires B.ConfirmApplies(rows, id, qr)
    ensures rows[id].qrToken != Some(qr)
  {
  }

  /** After any run of handlers, an event with a capacity is shown as sold out
      when its approved and checked-in bookings reach the capacity, as limited from
      half of it on, and as free below that. */
  lemma RunsShowTheClass(b: Board, totals: Totals, requests: seq<Request>, event: int) returns (taken: set<int>)
    requires Correct(b, totals) && event in totals && totals[event] > 0
    ensures var after := HandleAll(b, totals, requests);
      && (forall id :: id in taken <==> id in after.rows && after.rows[id].event == event
                                        && after.rows[id].status in {B.Approved, B.CheckedIn})
      && event in after.availability
      && match after.availability[event]
         case SoldOut => |taken| >= totals[event]
         case Limited => |taken| < totals[event] <= 2 * |taken|
         case Free => 2 * |taken| < totals[event]
  {
    RunsKeepAvailabilityCorrect(b, totals, requests);
    var after := HandleAll(b, totals, requests);
    assert IsCorrect(after, event, totals[event]);
    taken := Takers(after.rows, event);
  }
}
