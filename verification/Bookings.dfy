/** Bookings: the statements their handlers issue, and every interleaving of them. */
module Bookings {
  import opened Options

  datatype Status = Pending | Confirmed | Approved | CheckedIn | Cancelled

  datatype Booking = Booking(event: int, status: Status, verifyToken: Option<string>, qrToken: Option<string>,
      expiresAt: int)

  type Rows = map<int, Booking>

  // ------------------------------------------------------------- check-in window

  /** Configured margins in seconds; a negative one disables its side. */
  datatype Margins = Margins(opensBefore: int, closesAfter: int)

  const FALLBACK_SPAN := 6 * 3600

  /** The instant before which a ticket is refused, if any. A time that does not parse is None. */
  function CheckinOpens(start: Option<int>, m: Margins): Option<int> {
    if m.opensBefore < 0 || start.None? then None else Some(start.value - m.opensBefore)
  }

  /** The instant after which a ticket is refused. */
  function CheckinExpiry(start: Option<int>, end: Option<int>, m: Margins, now: int): int {
    if m.closesAfter < 0 then
      if end.Some? then end.value + FALLBACK_SPAN else now + FALLBACK_SPAN
    else if end.Some? then end.value + m.closesAfter
    else if start.Some? then start.value + FALLBACK_SPAN + m.closesAfter
    else now + FALLBACK_SPAN
  }

  /** A scan at `now` falls into the check-in window. */
  predicate InWindow(start: Option<int>, end: Option<int>, m: Margins, now: int) {
    now <= CheckinExpiry(start, end, m, now)
    && (CheckinOpens(start, m).Some? ==> now >= CheckinOpens(start, m).value)
  }

  ghost predicate ExpiresBy(start: Option<int>, end: Option<int>, m: Margins, deadline: int) {
    forall now :: InWindow(start, end, m, now) ==> now <= deadline
  }

  /** Both times of a stored event are integers, so every ticket expires: with the
      closing margin after the end, or six hours after it when that margin is disabled. */
  lemma StoredTicketsExpire(start: int, end: int, m: Margins)
    ensures var closes := end + if m.closesAfter < 0 then 21600 else m.closesAfter;
      && ExpiresBy(Some(start), Some(end), m, closes)
      && forall now :: InWindow(Some(start), Some(end), m, now) <==>
           now <= closes && (m.opensBefore >= 0 ==> now >= start - m.opensBefore)
  {
  }

  /** The calculation on text that does not parse, which no stored event has: it
      bounds a ticket exactly when there is an end, or a start and an enabled
      closing margin; otherwise the six hours count from the moment of the scan. */
  lemma TicketsExpireExactlyWhenScheduled(start: Option<int>, end: Option<int>, m: Margins)
    ensures (exists deadline :: ExpiresBy(start, end, m, deadline))
       <==> end.Some? || (start.Some? && m.closesAfter >= 0)
    ensures forall now :: InWindow(start, end, m, now) <==>
              && (start.Some? && m.opensBefore >= 0 ==> start.value - m.opensBefore <= now)
              && (end.Some? ==> now <= end.value + if m.closesAfter < 0 then 21600 else m.closesAfter)
              && (end.None? && start.Some? && m.closesAfter >= 0 ==> now <= start.value + 21600 + m.closesAfter)
  {
    if end.Some? || (start.Some? && m.closesAfter >= 0) {
      assert ExpiresBy(start, end, m, CheckinExpiry(start, end, m, 0));
    } else {
      forall deadline ensures !ExpiresBy(start, end, m, deadline) {
        var opens := CheckinOpens(start, m);
        var late := if opens.Some? && opens.value > deadline then opens.value else deadline + 1;
        assert InWindow(start, end, m, late);
      }
    }
  }

  // --------------------------------------------------------------------- statements

  predicate TokenInUse(rows: Rows, qr: string) {
    exists id :: id in rows && rows[id].qrToken == Some(qr)
  }

  /** UPDATE ... SET status='confirmed', verify_token=NULL, qr_token=? WHERE id=? AND status='pending';
      qr_token is UNIQUE. */
  predicate ConfirmApplies(rows: Rows, id: int, qr: string) {
    id in rows && rows[id].status.Pending? && !TokenInUse(rows, qr)
  }

  function Confirm(rows: Rows, id: int, qr: string, expiresAt: int): Rows {
    if ConfirmApplies(rows, id, qr)
    then rows[id := rows[id].(status := Confirmed, verifyToken := None, qrToken := Some(qr), expiresAt := expiresAt)]
    else rows
  }

  predicate CheckInApplies(rows: Rows, id: int) {
    id in rows && (rows[id].status.Approved? || rows[id].status.Confirmed?)
  }

  /** UPDATE ... SET status='checked_in', qr_token=NULL WHERE id=? AND status IN ('approved','confirmed'). */
  function CheckIn(rows: Rows, id: int): Rows {
    if CheckInApplies(rows, id) then rows[id := rows[id].(status := CheckedIn, qrToken := None)] else rows
  }

  /** UPDATE ... SET status=? WHERE id=?; the handler only passes approved or cancelled. */
  function SetStatus(rows: Rows, id: int, approve: bool): Rows {
    if id in rows then rows[id := rows[id].(status := if approve then Approved else Cancelled)] else rows
  }

  /** DELETE ... WHERE expires_at < ?, the hourly sweep. */
  function Swept(rows: Rows, now: int): Rows {
    map id | id in rows && rows[id].expiresAt >= now :: rows[id]
  }

  // ------------------------------------------------------------------ interleavings

  /** A request between its SELECT and its write: what it read, and how long the
      history was when it read it. */
  datatype InFlight =
    | Verifying(booking: int)
    | Expiring(booking: int)
    | Scanning(booking: int, readAt: nat)

  /** What has happened to bookings so far. */
  datatype Entry =
    | Issued(booking: int, token: string)         // a QR token was stored and handed out
    | Admitted(booking: int, readAt: nat)         // a scan succeeded
    | ApprovedBy(booking: int)                    // an organiser wrote "approved"
    | CancelledBy(booking: int)                   // an organiser wrote "cancelled"
    | Other

  datatype World = World(rows: Rows, lastId: int, inFlight: map<int, InFlight>, log: seq<Entry>)

  datatype Step =
    | Create(event: int, verifyToken: string, expiresAt: int)
    | VerifySelect(request: int, verifyToken: string, now: int)
    | VerifyWrite(request: int, qr: string, expiresAt: int)
    | WriteStatus(booking: int, approve: bool)
    | ScanSelect(request: int, qr: string, inWindow: bool)
    | ScanWrite(request: int)
    | Delete(booking: int)
    | Sweep(now: int)

  /** The pending booking a verification link names. verify_token is UNIQUE, so
      the choice never matters; the lowest id is taken. */
  predicate VerifyHit(rows: Rows, id: int, token: string) {
    id in rows && rows[id].status.Pending? && rows[id].verifyToken == Some(token)
  }

  /** One statement of some request, or one sweep. */
  ghost function Next(w: World, s: Step): World {
    match s
    case Create(event, token, expiresAt) =>
      w.(rows := w.rows[w.lastId + 1 := Booking(event, Pending, Some(token), None, expiresAt)],
         lastId := w.lastId + 1, log := w.log + [Other])
    case VerifySelect(request, token, now) =>
      if request !in w.inFlight && exists id :: VerifyHit(w.rows, id, token) then
        var id :| VerifyHit(w.rows, id, token);
        w.(inFlight := w.inFlight[request := if now > w.rows[id].expiresAt then Expiring(id) else Verifying(id)],
           log := w.log + [Other])
      else w
    case VerifyWrite(request, qr, expiresAt) =>
      if request !in w.inFlight then w
      else
        var rest := w.(inFlight := w.inFlight - {request});
        (match w.inFlight[request]
         case Verifying(id) =>
           rest.(rows := Confirm(w.rows, id, qr, expiresAt),
                 log := w.log + [if ConfirmApplies(w.rows, id, qr) then Issued(id, qr) else Other])
         case Expiring(id) => rest.(rows := w.rows - {id}, log := w.log + [Other])
         case Scanning(_, _) => w)
    case WriteStatus(id, approve) =>
      w.(rows := SetStatus(w.rows, id, approve),
         log := w.log + [if id !in w.rows then Other else if approve then ApprovedBy(id) else CancelledBy(id)])
    case ScanSelect(request, qr, inWindow) =>
      if request !in w.inFlight && inWindow && exists id :: ScanHit(w.rows, id, qr) then
        var id :| ScanHit(w.rows, id, qr);
        w.(inFlight := w.inFlight[request := Scanning(id, |w.log|)], log := w.log + [Other])
      else w
    case ScanWrite(request) =>
      if request in w.inFlight && w.inFlight[request].Scanning? then
        var scan := w.inFlight[request];
        w.(inFlight := w.inFlight - {request}, rows := CheckIn(w.rows, scan.booking),
           log := w.log + [if CheckInApplies(w.rows, scan.booking) then Admitted(scan.booking, scan.readAt) else Other])
      else w
    case Delete(id) => w.(rows := w.rows - {id}, log := w.log + [Other])
    case Sweep(now) => w.(rows := Swept(w.rows, now), log := w.log + [Other])
  }

  /** A scan goes on to its write only for a booking that is not cancelled,
      pending or already checked in. */
  predicate ScanHit(rows: Rows, id: int, qr: string) {
    id in rows && rows[id].qrToken == Some(qr) && (rows[id].status.Approved? || rows[id].status.Confirmed?)
  }

  ghost function Run(w: World, steps: seq<Step>): World
    decreases |steps|
  {
    if steps == [] then w else Run(Next(w, steps[0]), steps[1..])
  }

  const EMPTY := World(map[], 0, map[], [])

  // --------------------------------------------------------------------- invariants

  /** "approved" was written for the booking after entry i. */
  ghost predicate ApprovedSince(log: seq<Entry>, booking: int, i: int) {
    exists k :: 0 <= k < |log| && i < k && log[k] == ApprovedBy(booking)
  }

  /** What a booking's row may look like, given what happened to it. */
  ghost predicate RowFits(id: int, b: Booking, log: seq<Entry>) {
    && (b.qrToken.Some? ==> b.verifyToken.None? && (b.status.Confirmed? || b.status.Approved? || b.status.Cancelled?))
    && (forall i :: 0 <= i < |log| && (log[i].Issued? || log[i].Admitted?) && log[i].booking == id ==>
        !b.status.Pending?)
    && (forall i :: 0 <= i < |log| && log[i].Admitted? && log[i].booking == id ==>
          b.qrToken.None? && (ApprovedSince(log, id, i) || b.status.CheckedIn? || b.status.Cancelled?))
    && (b.qrToken.Some? ==> exists i :: 0 <= i < |log| && log[i] == Issued(id, b.qrToken.value))
  }

  ghost predicate LogFits(log: seq<Entry>, lastId: int) {
    && (forall i :: 0 <= i < |log| && (log[i].Issued? || log[i].Admitted?) ==> log[i].booking <= lastId)
    && (forall i, j :: 0 <= i < j < |log| && log[i].Issued? && log[j].Issued? ==> log[i].booking != log[j].booking)
    && (forall i, j :: (0 <= i < j < |log| && log[i].Admitted? && log[j].Admitted?
                        && log[i].booking == log[j].booking) ==>
          log[j].readAt <= i && ApprovedSince(log[..j], log[j].booking, i))
  }

  /** A scan in flight read its booking before any scan of it succeeded. */
  ghost predicate ScansFit(w: World) {
    forall r :: r in w.inFlight && w.inFlight[r].Scanning? ==>
      w.inFlight[r].readAt <= |w.log|
      && forall i :: 0 <= i < |w.log| && i < w.inFlight[r].readAt && w.log[i].Admitted? ==>
           w.log[i].booking != w.inFlight[r].booking
  }

  ghost predicate Inv(w: World) {
    && (forall id :: id in w.rows ==> 0 < id <= w.lastId) && w.lastId >= 0
    && (forall id :: id in w.rows ==> RowFits(id, w.rows[id], w.log))
    && LogFits(w.log, w.lastId)
    && ScansFit(w)
  }

  /** Entries that concern no booking keep every row as justified as before. */
  lemma RowStillFits(id: int, b: Booking, log: seq<Entry>, e: Entry)
    requires RowFits(id, b, log)
    requires e.Issued? || e.Admitted? ==> e.booking != id
    ensures RowFits(id, b, log + [e])
  {
    var longer := log + [e];
    forall i | 0 <= i < |longer| && longer[i].Admitted? && longer[i].booking == id
      ensures b.qrToken.None? && (ApprovedSince(longer, id, i) || b.status.CheckedIn? || b.status.Cancelled?)
    {
      assert longer[i] == log[i];
      if ApprovedSince(log, id, i) {
        var k :| 0 <= k < |log| && i < k && log[k] == ApprovedBy(id);
        assert longer[k] == ApprovedBy(id);
      }
    }
    if b.qrToken.Some? {
      var i :| 0 <= i < |log| && log[i] == Issued(id, b.qrToken.value);
      assert longer[i] == log[i];
    }
  }

  lemma ScansStillFit(w: World, after: World, e: Entry)
    requires ScansFit(w) && after.log == w.log + [e]
    requires forall r :: r in after.inFlight && after.inFlight[r].Scanning? ==>
               r in w.inFlight && w.inFlight[r] == after.inFlight[r]
    ensures ScansFit(after)
  {
  }

  lemma LogStillFits(log: seq<Entry>, lastId: int, e: Entry, newLastId: int)
    requires LogFits(log, lastId) && lastId <= newLastId
    requires e.Issued? || e.Admitted? ==> e.booking <= newLastId
    requires e.Issued? ==> forall i :: 0 <= i < |log| && log[i].Issued? ==> log[i].booking != e.booking
    requires e.Admitted? ==> forall i :: 0 <= i < |log| && log[i].Admitted? && log[i].booking == e.booking ==>
               e.readAt <= i && ApprovedSince(log, e.booking, i)
    ensures LogFits(log + [e], newLastId)
  {
    var longer := log + [e];
    forall i, j | 0 <= i < j < |longer| && longer[i].Admitted? && longer[j].Admitted?
        && longer[i].booking == longer[j].booking
      ensures longer[j].readAt <= i && ApprovedSince(longer[..j], longer[j].booking, i)
    {
      if j < |log| {
        assert longer[..j] == log[..j];
      } else {
        assert longer[..j] == log;
      }
    }
  }

  lemma CreateKeepsInv(w: World, s: Step)
    requires Inv(w) && s.Create?
    ensures Inv(Next(w, s))
  {
    var after := Next(w, s);
    LogStillFits(w.log, w.lastId, Other, after.lastId);
    ScansStillFit(w, after, Other);
    forall id | id in after.rows ensures RowFits(id, after.rows[id], after.log) {
      if id in w.rows && id != after.lastId { RowStillFits(id, w.rows[id], w.log, Other); }
    }
  }

  /** Deleting rows, and statements that only read, keep the invariant. */
  lemma ShrinkKeepsInv(w: World, after: World)
    requires Inv(w) && after.log == w.log + [Other] && after.lastId == w.lastId
    requires forall id :: id in after.rows ==> id in w.rows && after.rows[id] == w.rows[id]
    requires forall r :: r in after.inFlight && after.inFlight[r].Scanning? ==>
               (r in w.inFlight && w.inFlight[r] == after.inFlight[r])
               || (after.inFlight[r].readAt == |w.log| && after.inFlight[r].booking in w.rows
                   && w.rows[after.inFlight[r].booking].qrToken.Some?)
    ensures Inv(after)
  {
    LogStillFits(w.log, w.lastId, Other, w.lastId);
    forall id | id in after.rows ensures RowFits(id, after.rows[id], after.log) {
      RowStillFits(id, w.rows[id], w.log, Other);
    }
    forall r | r in after.inFlight && after.inFlight[r].Scanning?
      ensures after.inFlight[r].readAt <= |after.log|
      ensures forall i :: 0 <= i < |after.log| && i < after.inFlight[r].readAt && after.log[i].Admitted? ==>
                after.log[i].booking != after.inFlight[r].booking
    {
      var scan := after.inFlight[r];
      if !(r in w.inFlight && w.inFlight[r] == scan) {
        assert RowFits(scan.booking, w.rows[scan.booking], w.log);
      }
    }
  }

  lemma ConfirmKeepsInv(w: World, request: int, qr: string, expiresAt: int)
    requires Inv(w) && request in w.inFlight && w.inFlight[request].Verifying?
    ensures Inv(Next(w, VerifyWrite(request, qr, expiresAt)))
  {
    var id, after := w.inFlight[request].booking, Next(w, VerifyWrite(request, qr, expiresAt));
    if ConfirmApplies(w.rows, id, qr) {
      assert RowFits(id, w.rows[id], w.log);
      LogStillFits(w.log, w.lastId, Issued(id, qr), w.lastId);
      ScansStillFit(w, after, Issued(id, qr));
      forall other | other in after.rows ensures RowFits(other, after.rows[other], after.log) {
        if other != id {
          RowStillFits(other, w.rows[other], w.log, Issued(id, qr));
        } else {
          assert after.log[|w.log|] == Issued(id, qr);
        }
      }
    } else {
      ShrinkKeepsInv(w, after);
    }
  }

  lemma StatusKeepsInv(w: World, id: int, approve: bool)
    requires Inv(w) && id in w.rows
    ensures Inv(Next(w, WriteStatus(id, approve)))
  {
    var after := Next(w, WriteStatus(id, approve));
    var e := if approve then ApprovedBy(id) else CancelledBy(id);
    LogStillFits(w.log, w.lastId, e, w.lastId);
    ScansStillFit(w, after, e);
    forall other | other in after.rows ensures RowFits(other, after.rows[other], after.log) {
      RowStillFits(other, w.rows[other], w.log, e);
      if other == id && approve {
        forall i | 0 <= i < |w.log| ensures ApprovedSince(after.log, id, i) {
          assert after.log[|w.log|] == ApprovedBy(id);
        }
      }
    }
  }

  lemma ScanKeepsInv(w: World, request: int)
    requires Inv(w) && request in w.inFlight && w.inFlight[request].Scanning?
    ensures Inv(Next(w, ScanWrite(request)))
  {
    var scan, after := w.inFlight[request], Next(w, ScanWrite(request));
    var id := scan.booking;
    if CheckInApplies(w.rows, id) {
      assert RowFits(id, w.rows[id], w.log);
      var e := Admitted(id, scan.readAt);
      LogStillFits(w.log, w.lastId, e, w.lastId);
      forall other | other in after.rows ensures RowFits(other, after.rows[other], after.log) {
        if other != id { RowStillFits(other, w.rows[other], w.log, e); }
      }
      assert ScansFit(after);
    } else {
      ShrinkKeepsInv(w, after);
    }
  }

  lemma NextKeepsInv(w: World, s: Step)
    requires Inv(w)
    ensures Inv(Next(w, s))
  {
    match s
    case Create(_, _, _) => CreateKeepsInv(w, s);
    case VerifySelect(_, _, _) => if Next(w, s) != w { ShrinkKeepsInv(w, Next(w, s)); }
    case VerifyWrite(request, qr, expiresAt) =>
      if request in w.inFlight && w.inFlight[request].Verifying? {
        ConfirmKeepsInv(w, request, qr, expiresAt);
      } else if request in w.inFlight && w.inFlight[request].Expiring? {
        ShrinkKeepsInv(w, Next(w, s));
      }
    case WriteStatus(id, approve) =>
      if id in w.rows { StatusKeepsInv(w, id, approve); } else { ShrinkKeepsInv(w, Next(w, s)); }
    case ScanSelect(_, _, _) => if Next(w, s) != w { ShrinkKeepsInv(w, Next(w, s)); }
    case ScanWrite(request) =>
      if request in w.inFlight && w.inFlight[request].Scanning? { ScanKeepsInv(w, request); }
    case Delete(_) => ShrinkKeepsInv(w, Next(w, s));
    case Sweep(_) => ShrinkKeepsInv(w, Next(w, s));
  }

  lemma {:induction false} RunKeepsInv(w: World, steps: seq<Step>)
    requires Inv(w)
    ensures Inv(Run(w, steps))
    decreases |steps|
  {
    if steps != [] {
      NextKeepsInv(w, steps[0]);
      hide Next, Inv;
      RunKeepsInv(Next(w, steps[0]), steps[1..]);
    }
  }

  // --------------------------------------------------------------------- properties

  /** In every interleaving a booking is given at most one QR token in its life. */
  lemma OneTokenPerBooking(steps: seq<Step>, i: nat, j: nat)
    requires var log := Run(EMPTY, steps).log;
             i < j < |log| && log[i].Issued? && log[j].Issued?
    ensures Run(EMPTY, steps).log[i].booking != Run(EMPTY, steps).log[j].booking
  {
    RunKeepsInv(EMPTY, steps);
  }

  /** The token a verification hands out is the one its own write stored, and as
      long as the booking has a token at all, it is that one. */
  lemma HandedOutTokenIsStored(steps: seq<Step>, request: int, qr: string, expiresAt: int, more: seq<Step>, id: int)
    requires var before := Run(EMPTY, steps);
      var after := Next(before, VerifyWrite(request, qr, expiresAt));
      |after.log| == |before.log| + 1 && after.log[|before.log|] == Issued(id, qr)
    ensures var after := Next(Run(EMPTY, steps), VerifyWrite(request, qr, expiresAt));
      && id in after.rows && after.rows[id].qrToken == Some(qr)
      && (id in Run(after, more).rows && Run(after, more).rows[id].qrToken.Some? ==>
            Run(after, more).rows[id].qrToken == Some(qr))
  {
    var before := Run(EMPTY, steps);
    var after := Next(before, VerifyWrite(request, qr, expiresAt));
    RunKeepsInv(EMPTY, steps);
    NextKeepsInv(before, VerifyWrite(request, qr, expiresAt));
    RunKeepsInv(after, more);
    RunKeepsLog(after, more);
    var last := Run(after, more);
    if id in last.rows && last.rows[id].qrToken.Some? {
      assert RowFits(id, last.rows[id], last.log);
      var i :| 0 <= i < |last.log| && last.log[i] == Issued(id, last.rows[id].qrToken.value);
      assert last.log[|before.log|] == Issued(id, qr);
    }
  }

  lemma {:induction false} RunKeepsLog(w: World, steps: seq<Step>)
    ensures w.log <= Run(w, steps).log
    decreases |steps|
  {
    if steps != [] {
      assert w.log <= Next(w, steps[0]).log;
      RunKeepsLog(Next(w, steps[0]), steps[1..]);
    }
  }

  /** A booking with a QR token has used up its verification link and is
      confirmed, approved or cancelled. */
  lemma TokenMeansVerified(steps: seq<Step>, id: int)
    requires var rows := Run(EMPTY, steps).rows; id in rows && rows[id].qrToken.Some?
    ensures var b := Run(EMPTY, steps).rows[id];
            b.verifyToken.None? && (b.status.Confirmed? || b.status.Approved? || b.status.Cancelled?)
  {
    RunKeepsInv(EMPTY, steps);
    assert RowFits(id, Run(EMPTY, steps).rows[id], Run(EMPTY, steps).log);
  }

  /** Between two admissions of one booking an organiser wrote "approved", and
      the second scan had read the booking before the first one succeeded: a
      ticket scanned after an admission is never admitted again. */
  lemma SecondAdmission(steps: seq<Step>, i: nat, j: nat)
    requires var log := Run(EMPTY, steps).log;
      i < j < |log| && log[i].Admitted? && log[j].Admitted? && log[i].booking == log[j].booking
    ensures var log := Run(EMPTY, steps).log;
      && log[j].readAt <= i
      && exists k :: i < k < j && log[k] == ApprovedBy(log[i].booking)
  {
    RunKeepsInv(EMPTY, steps);
    var log := Run(EMPTY, steps).log;
    var k :| 0 <= k < |log[..j]| && i < k && log[..j][k] == ApprovedBy(log[j].booking);
    assert log[k] == ApprovedBy(log[i].booking);
  }

  // ------------------------------------------------- what decides a late admission

  predicate About(e: Entry, id: int) {
    !e.Other? && e.booking == id
  }

  /** The newest entry about a booking. */
  function LastEntry(log: seq<Entry>, id: int): Option<Entry> {
    if log == [] then None
    else if About(log[|log| - 1], id) then Some(log[|log| - 1])
    else LastEntry(log[..|log| - 1], id)
  }

  lemma {:induction false} LastEntryIsNewest(log: seq<Entry>, id: int)
    ensures match LastEntry(log, id)
      case None => forall i :: 0 <= i < |log| ==> !About(log[i], id)
      case Some(e) => exists k :: 0 <= k < |log| && log[k] == e && About(e, id) && NoneAfter(log, k, id)
  {
    if log != [] && !About(log[|log| - 1], id) {
      var shorter := log[..|log| - 1];
      LastEntryIsNewest(shorter, id);
      if LastEntry(log, id).Some? {
        var k :| 0 <= k < |shorter| && shorter[k] == LastEntry(log, id).value && NoneAfter(shorter, k, id);
        assert log[k] == shorter[k] && NoneAfter(log, k, id);
      }
    } else if log != [] {
      assert NoneAfter(log, |log| - 1, id);
    }
  }

  ghost predicate NoneAfter(log: seq<Entry>, k: int, id: int) {
    forall j :: 0 <= j < |log| && k < j ==> !About(log[j], id)
  }

  /** The status a booking's newest entry stands for. */
  function StatusAfter(e: Option<Entry>): Status {
    match e
    case None => Pending
    case Some(Issued(_, _)) => Confirmed
    case Some(Admitted(_, _)) => CheckedIn
    case Some(ApprovedBy(_)) => Approved
    case Some(CancelledBy(_)) => Cancelled
    case Some(Other) => Pending
  }

  /** The history explains every status, and a token is the first thing a booking gets. */
  ghost predicate Explained(w: World) {
    && (forall id :: id in w.rows ==> id <= w.lastId && w.rows[id].status == StatusAfter(LastEntry(w.log, id)))
    && (forall i :: 0 <= i < |w.log| && !w.log[i].Other? ==> w.log[i].booking <= w.lastId)
    && (forall i, j :: 0 <= i < j < |w.log| && w.log[j].Issued? ==> !About(w.log[i], w.log[j].booking))
  }

  lemma LastEntryOfLonger(log: seq<Entry>, e: Entry, id: int)
    ensures LastEntry(log + [e], id) == if About(e, id) then Some(e) else LastEntry(log, id)
  {
    assert (log + [e])[..|log|] == log;
  }

  /** One more entry explains the rows of the next world, if it explains the one it is about. */
  lemma EntryExplains(w: World, after: World, e: Entry)
    requires Explained(w) && after.log == w.log + [e] && after.lastId >= w.lastId
    requires !e.Other? ==> e.booking <= w.lastId
    requires e.Issued? ==> LastEntry(w.log, e.booking).None?
    requires forall id :: id in after.rows ==>
               if About(e, id) then after.rows[id].status == StatusAfter(Some(e))
               else if id in w.rows then after.rows[id].status == w.rows[id].status
               else w.lastId < id <= after.lastId && after.rows[id].status.Pending?
    ensures Explained(after)
  {
    forall id | id in after.rows ensures after.rows[id].status == StatusAfter(LastEntry(after.log, id)) {
      LastEntryOfLonger(w.log, e, id);
      if id !in w.rows { LastEntryIsNewest(w.log, id); }
    }
    if e.Issued? { LastEntryIsNewest(w.log, e.booking); }
  }

  lemma NextExplained(w: World, s: Step)
    requires Explained(w)
    ensures Explained(Next(w, s))
  {
    var after := Next(w, s);
    hide LastEntry;
    if after.log != w.log {
      var e := after.log[|w.log|];
      if e.Issued? { LastEntryIsNewest(w.log, e.booking); }
      EntryExplains(w, after, e);
    }
  }

  lemma {:induction false} RunExplained(w: World, steps: seq<Step>)
    requires Explained(w)
    ensures Explained(Run(w, steps))
    decreases |steps|
  {
    hide Explained, Next;
    if steps != [] {
      NextExplained(w, steps[0]);
      RunExplained(Next(w, steps[0]), steps[1..]);
    }
  }

  /** After an admission of a booking, a scan of it that is still in flight is
      admitted exactly when the row still exists and the newest thing written
      about the booking is an organiser's "approved". */
  lemma LateScanIsAdmittedExactly(steps: seq<Step>, request: int, i: nat)
    requires var w := Run(EMPTY, steps);
      && request in w.inFlight && w.inFlight[request].Scanning?
      && i < |w.log| && w.log[i].Admitted? && w.log[i].booking == w.inFlight[request].booking
    ensures var w := Run(EMPTY, steps);
      var scan, after := w.inFlight[request], Next(w, ScanWrite(request));
      && after.log == w.log + [after.log[|w.log|]]
      && (after.log[|w.log|] == Admitted(scan.booking, scan.readAt) <==>
            scan.booking in w.rows && LastEntry(w.log, scan.booking) == Some(ApprovedBy(scan.booking)))
  {
    var w := Run(EMPTY, steps);
    RunExplained(EMPTY, steps);
    LastEntryIsNewest(w.log, w.inFlight[request].booking);
    hide Run, LastEntry;
  }

  function Admissions(log: seq<Entry>, id: int): nat {
    if log == [] then 0
    else Admissions(log[..|log| - 1], id) + (if log[|log| - 1].Admitted? && log[|log| - 1].booking == id then 1 else 0)
  }

  lemma {:induction false} NoAdmissions(log: seq<Entry>, id: int)
    requires forall i :: 0 <= i < |log| && log[i].Admitted? ==> log[i].booking != id
    ensures Admissions(log, id) == 0
  {
    if log != [] { NoAdmissions(log[..|log| - 1], id); }
  }

  lemma {:induction false} AdmittedAtMostOnce(log: seq<Entry>, id: int)
    requires forall i, j :: 0 <= i < j < |log| && log[i].Admitted? && log[j].Admitted? ==>
               !(log[i].booking == log[j].booking == id)
    ensures Admissions(log, id) <= 1
  {
    if log != [] {
      var last := log[|log| - 1];
      if last.Admitted? && last.booking == id {
        NoAdmissions(log[..|log| - 1], id);
      } else {
        AdmittedAtMostOnce(log[..|log| - 1], id);
      }
    }
  }

  /** Without an organiser's "approved", any number of concurrent scans admits a booking at most once. */
  lemma WithoutApprovalAdmittedOnce(steps: seq<Step>, id: int)
    requires forall i :: 0 <= i < |Run(EMPTY, steps).log| ==> Run(EMPTY, steps).log[i] != ApprovedBy(id)
    ensures Admissions(Run(EMPTY, steps).log, id) <= 1
  {
    var log := Run(EMPTY, steps).log;
    RunKeepsInv(EMPTY, steps);
    forall i, j | 0 <= i < j < |log| && log[i].Admitted? && log[j].Admitted?
      ensures !(log[i].booking == log[j].booking == id)
    {
      if log[i].booking == log[j].booking { SecondAdmission(steps, i, j); }
    }
    AdmittedAtMostOnce(log, id);
  }

  /** The bound is met: two scans in flight and an approval between them admit a booking twice. */
  lemma ReapprovalCanAdmitTwice(event: int)
    ensures exists steps :: Admissions(Run(EMPTY, steps).log, 1) == 2
  {
    hide Run, Next, Admissions;
    var steps := TwoScansInFlight(event);
    var w := Run(EMPTY, steps);
    BothScansAreAdmitted(w, event);
    RunOneMore(EMPTY, steps, ScanWrite(2));
    RunOneMore(EMPTY, steps + [ScanWrite(2)], WriteStatus(1, true));
    RunOneMore(EMPTY, steps + [ScanWrite(2)] + [WriteStatus(1, true)], ScanWrite(3));
    assert Admissions(Run(EMPTY, steps + [ScanWrite(2)] + [WriteStatus(1, true)] + [ScanWrite(3)]).log, 1) == 2;
  }

  lemma BothScansAreAdmitted(w: World, event: int)
    requires w.rows == map[1 := Booking(event, Confirmed, None, Some("q"), 200)]
    requires w.inFlight == map[2 := Scanning(1, 3), 3 := Scanning(1, 4)] && Admissions(w.log, 1) == 0
    ensures Admissions(Next(Next(Next(w, ScanWrite(2)), WriteStatus(1, true)), ScanWrite(3)).log, 1) == 2
  {
    hide Admissions;
    var w1 := Next(w, ScanWrite(2));
    assert w1.log == w.log + [Admitted(1, 3)];
    var w2 := Next(w1, WriteStatus(1, true));
    assert w2.log == w1.log + [ApprovedBy(1)];
    var w3 := Next(w2, ScanWrite(3));
    assert w3.log == w2.log + [Admitted(1, 4)];
    AdmissionsStep(w.log, Admitted(1, 3), 1);
    AdmissionsStep(w1.log, ApprovedBy(1), 1);
    AdmissionsStep(w2.log, Admitted(1, 4), 1);
  }

  /** A confirmed booking that two scanners have read and neither has written. */
  lemma TwoScansInFlight(event: int) returns (steps: seq<Step>)
    ensures var w := Run(EMPTY, steps);
      && w.rows == map[1 := Booking(event, Confirmed, None, Some("q"), 200)]
      && w.inFlight == map[2 := Scanning(1, 3), 3 := Scanning(1, 4)]
      && Admissions(w.log, 1) == 0
  {
    var w1 := Next(EMPTY, Create(event, "v", 100));
    RunOneMore(EMPTY, [], Create(event, "v", 100));
    assert VerifyHit(w1.rows, 1, "v");
    var w2 := Next(w1, VerifySelect(1, "v", 50));
    RunOneMore(EMPTY, [Create(event, "v", 100)], VerifySelect(1, "v", 50));
    assert w2.inFlight == map[1 := Verifying(1)];
    var w3 := Next(w2, VerifyWrite(1, "q", 200));
    RunOneMore(EMPTY, [Create(event, "v", 100)] + [VerifySelect(1, "v", 50)], VerifyWrite(1, "q", 200));
    assert w3.inFlight == map[] && ScanHit(w3.rows, 1, "q");
    var three := [Create(event, "v", 100)] + [VerifySelect(1, "v", 50)] + [VerifyWrite(1, "q", 200)];
    var w4 := Next(w3, ScanSelect(2, "q", true));
    RunOneMore(EMPTY, three, ScanSelect(2, "q", true));
    var w5 := Next(w4, ScanSelect(3, "q", true));
    RunOneMore(EMPTY, three + [ScanSelect(2, "q", true)], ScanSelect(3, "q", true));
    steps := three + [ScanSelect(2, "q", true)] + [ScanSelect(3, "q", true)];
    NoAdmissions(w5.log, 1);
  }

  lemma AdmissionsStep(log: seq<Entry>, e: Entry, id: int)
    ensures Admissions(log + [e], id) == Admissions(log, id) + (if e.Admitted? && e.booking == id then 1 else 0)
  {
    assert (log + [e])[..|log|] == log;
  }

  lemma {:induction false} RunOneMore(w: World, steps: seq<Step>, s: Step)
    ensures Run(w, steps + [s]) == Next(Run(w, steps), s)
    decreases |steps|
  {
    hide Next;
    if steps != [] {
      assert (steps + [s])[1..] == steps[1..] + [s];
      RunOneMore(Next(w, steps[0]), steps[1..], s);
    }
  }
}
