/** The shown availability when handlers overlap: the refresh after a write is
    split into its count and its store, in every interleaving. */
module AvailabilityRuns {
  import opened Options
  import B = Bookings
  import opened BookingAvailability

  /** A refresh of an event: not counted yet, or counted at some step and not stored yet. */
  datatype Refresh = Due(event: int) | Counted(event: int, shown: Availability, at: nat)

  /** The last write of an event's availability: a refresh, with the steps of its
      count and its store, or an edit of the event itself. */
  datatype LastWrite = Refreshed(counted: nat, stored: nat) | Edited(shown: Availability, stored: nat)

  /** Refreshes carry the number of the step that started them. */
  datatype Floor = Floor(
    world: B.World, availability: map<int, Availability>, pending: map<nat, Refresh>,
    last: map<int, LastWrite>, time: nat)

  datatype Step =
    | Booking(step: B.Step)
    | Repeat(event: int)      // a handler whose booking another request has just deleted refreshes all the same
    | Count(refresh: nat)
    | Store(refresh: nat)
    | Edit(event: int, shown: Availability)   // PUT and PATCH of an event write the column, whatever the bookings are

  /** The event a statement's handler refreshes afterwards. */
  function Touched(w: B.World, s: B.Step): Option<int> {
    match s
    case WriteStatus(id, _) => if id in w.rows then Some(w.rows[id].event) else None
    case Delete(id) => if id in w.rows then Some(w.rows[id].event) else None
    case ScanWrite(request) =>
      if request in w.inFlight && w.inFlight[request].Scanning? && B.CheckInApplies(w.rows, w.inFlight[request].booking)
      then Some(w.rows[w.inFlight[request].booking].event) else None
    case _ => None
  }

  /** Statements that can remove a booking without a refresh: the sweep, and the
      delete behind an expired verification link. */
  predicate Silent(w: B.World, s: B.Step) {
    s.Sweep? || (s.VerifyWrite? && s.request in w.inFlight && w.inFlight[s.request].Expiring?)
  }

  function Class(f: Floor, event: int, total: int): Availability {
    Classify(|Takers(f.world.rows, event)|, total)
  }

  ghost function Next(f: Floor, totals: Totals, s: Step): Floor {
    var later := f.(time := f.time + 1);
    match s
    case Booking(step) =>
      var e := Touched(f.world, step);
      later.(world := B.Next(f.world, step),
             pending := if e.Some? then f.pending[f.time := Due(e.value)] else f.pending)
    case Repeat(event) => later.(pending := f.pending[f.time := Due(event)])
    case Count(refresh) =>
      if refresh !in f.pending || !f.pending[refresh].Due? then later
      else
        var e := f.pending[refresh].event;
        if e in totals && totals[e] > 0
        then later.(pending := f.pending[refresh := Counted(e, Class(f, e, totals[e]), f.time)])
        else later.(pending := f.pending - {refresh})
    case Store(refresh) =>
      if refresh !in f.pending || !f.pending[refresh].Counted? then later
      else
        var r := f.pending[refresh];
        later.(availability := f.availability[r.event := r.shown], pending := f.pending - {refresh},
               last := f.last[r.event := Refreshed(r.at, f.time)])
    case Edit(event, shown) =>
      later.(availability := f.availability[event := shown], last := f.last[event := Edited(shown, f.time)])
  }

  function Start(availability: map<int, Availability>): Floor {
    Floor(B.EMPTY, availability, map[], map[], 0)
  }

  ghost function Run(start: map<int, Availability>, totals: Totals, steps: seq<Step>): Floor {
    if steps == [] then Start(start)
    else Next(Run(start, totals, steps[..|steps| - 1]), totals, steps[|steps| - 1])
  }

  predicate IsShown(f: Floor, event: int, total: int) {
    IsCorrect(Board(f.world.rows, f.world.lastId, f.availability), event, total)
  }

  /** No handler of the event is between its write and its store. */
  predicate Quiet(f: Floor, event: int) {
    forall r :: r in f.pending ==> f.pending[r].event != event
  }

  /** From step `from` on, every removal of a booking is followed by a refresh. */
  ghost predicate NoneSilent(start: map<int, Availability>, totals: Totals, steps: seq<Step>, from: nat) {
    forall i :: from <= i < |steps| && steps[i].Booking? ==>
        !Silent(Run(start, totals, steps[..i]).world, steps[i].step)
  }

  /** The class before step i of a run. */
  ghost function ClassAt(start: map<int, Availability>, totals: Totals, steps: seq<Step>, event: int,
      i: nat): Availability
    requires i <= |steps| && event in totals
  {
    Class(Run(start, totals, steps[..i]), event, totals[event])
  }

  /** Those who take the event's tickets before step i of a run. */
  ghost function TakersAt(start: map<int, Availability>, totals: Totals, steps: seq<Step>, event: int, i: nat): set<int>
    requires i <= |steps|
  {
    Takers(Run(start, totals, steps[..i]).world.rows, event)
  }

  function StoredAt(f: Floor, event: int): nat {
    if event in f.last then f.last[event].stored else 0
  }

  // -------------------------------------------------------------------- invariants

  /** The classes of an event before each step of a run, and after the last. */
  ghost function Classes(start: map<int, Availability>, totals: Totals, steps: seq<Step>, event: int, total: int)
    : (classes: seq<Availability>)
    ensures |classes| == |steps| + 1
  {
    (if steps == [] then [] else Classes(start, totals, steps[..|steps| - 1], event, total))
    + [Class(Run(start, totals, steps), event, total)]
  }

  lemma {:induction false} ClassesAt(start: map<int, Availability>, totals: Totals, steps: seq<Step>, event: int,
      total: int, i: nat)
    requires i <= |steps|
    ensures Classes(start, totals, steps, event, total)[i] == Class(Run(start, totals, steps[..i]), event, total)
    decreases |steps|
  {
    hide Class, Run;
    if i < |steps| {
      ClassesAt(start, totals, steps[..|steps| - 1], event, total, i);
      assert steps[..|steps| - 1][..i] == steps[..i];
    } else {
      assert steps[..i] == steps;
    }
  }

  /** Counts in progress and the stored value are the classes at their counts. */
  ghost predicate CountsFit(f: Floor, start: map<int, Availability>, classes: seq<Availability>, event: int) {
    && f.time == |classes| - 1
    && (forall r :: r in f.pending ==> r < f.time)
    && (forall r :: r in f.pending && f.pending[r].Counted? && f.pending[r].event == event ==>
          f.pending[r].at < f.time && f.pending[r].shown == classes[f.pending[r].at])
    && (if event in f.last then
          && f.last[event].stored < f.time && event in f.availability
          && (match f.last[event]
              case Refreshed(counted, stored) => counted < stored && f.availability[event] == classes[counted]
              case Edited(shown, _) => f.availability[event] == shown)
        else
          && (event in f.availability <==> event in start)
          && (event in start ==> f.availability[event] == start[event]))
  }

  lemma NextCountsFit(
    f: Floor, start: map<int, Availability>, classes: seq<Availability>, totals: Totals, s: Step, event: int,
    newest: Availability)
    requires event in totals && totals[event] > 0
    requires CountsFit(f, start, classes, event) && classes[f.time] == Class(f, event, totals[event])
    ensures CountsFit(Next(f, totals, s), start, classes + [newest], event)
  {
    hide Class, B.Next, Touched;
    var after := Next(f, totals, s);
    forall r | r in after.pending && after.pending[r].Counted? && after.pending[r].event == event
      ensures after.pending[r].at < after.time && after.pending[r].shown == (classes + [newest])[after.pending[r].at]
    {
      if r in f.pending && f.pending[r].Counted? { assert after.pending[r] == f.pending[r]; }
    }
  }

  lemma {:induction false} RunCountsFit(start: map<int, Availability>, totals: Totals, steps: seq<Step>, event: int)
    requires event in totals && totals[event] > 0
    ensures CountsFit(Run(start, totals, steps), start, Classes(start, totals, steps, event, totals[event]), event)
  {
    hide Class, Next;
    if steps != [] {
      var older := steps[..|steps| - 1];
      RunCountsFit(start, totals, older, event);
      ClassesAt(start, totals, older, event, totals[event], |older|);
      assert older[..|older|] == older;
      NextCountsFit(Run(start, totals, older), start, Classes(start, totals, older, event, totals[event]), totals,
                    steps[|steps| - 1], event, Class(Run(start, totals, steps), event, totals[event]));
    }
  }

  lemma BookingStep(f: Floor, totals: Totals, s: Step)
    ensures Next(f, totals, s).world == if s.Booking? then B.Next(f.world, s.step) else f.world
  {
    hide B.Next;
  }

  lemma BookingsFit(start: map<int, Availability>, totals: Totals, steps: seq<Step>)
    ensures B.Inv(Run(start, totals, steps).world)
  {
    hide B.Next, Next;
    if steps == [] {
      NothingBookedFits();
    } else {
      hide B.Inv;
      var older, s := steps[..|steps| - 1], steps[|steps| - 1];
      BookingsFit(start, totals, older);
      BookingStep(Run(start, totals, older), totals, s);
      if s.Booking? { B.NextKeepsInv(Run(start, totals, older).world, s.step); }
    }
  }

  lemma NothingBookedFits()
    ensures B.Inv(B.EMPTY)
  {
  }

  /** Only a statement that refreshes an event, or a silent removal, changes who takes its tickets. */
  lemma OthersKeepTakers(w: B.World, s: B.Step, event: int)
    requires B.Inv(w) && Touched(w, s) != Some(event) && !Silent(w, s)
    ensures Takers(B.Next(w, s).rows, event) == Takers(w.rows, event)
  {
    var after := B.Next(w, s);
    forall id ensures id in Takers(after.rows, event) <==> id in Takers(w.rows, event) {
    }
  }

  /** The step writes the event's availability. */
  predicate Stores(f: Floor, s: Step, event: int) {
    || (s.Store? && s.refresh in f.pending && f.pending[s.refresh].Counted? && f.pending[s.refresh].event == event)
    || (s.Edit? && s.event == event)
  }

  /** After a step that leaves the event quiet, either it was the event's store, or the event was quiet before. */
  lemma QuietBefore(f: Floor, totals: Totals, s: Step, event: int)
    requires event in totals && totals[event] > 0 && Quiet(Next(f, totals, s), event)
    requires forall r :: r in f.pending ==> r < f.time
    ensures var after := Next(f, totals, s);
      if Stores(f, s, event) then
        after.world == f.world && StoredAt(after, event) == f.time
      else
        && StoredAt(after, event) == StoredAt(f, event) && Quiet(f, event)
        && (if s.Booking? then Touched(f.world, s.step) != Some(event) else after.world == f.world)
  {
    hide B.Next, Class, Touched;
    var after := Next(f, totals, s);
    if !Stores(f, s, event) {
      forall r | r in f.pending ensures f.pending[r].event != event {
        assert r in after.pending ==> after.pending[r].event != event;
      }
      if s.Booking? && Touched(f.world, s.step).Some? {
        assert f.time in after.pending;
      }
    }
  }

  /** A run without its last step. */
  lemma OlderRun(start: map<int, Availability>, totals: Totals, steps: seq<Step>, event: int, from: nat)
    requires steps != []
    ensures var older := steps[..|steps| - 1];
      && (forall i :: 0 <= i <= |older| ==>
          TakersAt(start, totals, older, event, i) == TakersAt(start, totals, steps, event, i))
      && (NoneSilent(start, totals, steps, from) ==> NoneSilent(start, totals, older, from))
      && TakersAt(start, totals, steps, event, |older|) == Takers(Run(start, totals, older).world.rows, event)
      && TakersAt(start, totals, steps, event, |steps|) == Takers(Run(start, totals, steps).world.rows, event)
  {
    hide Run, Takers, Silent;
    var older := steps[..|steps| - 1];
    forall i | 0 <= i <= |older| ensures older[..i] == steps[..i] {
    }
    assert steps[..|steps|] == steps;
  }

  lemma LastStepKeepsTakers(start: map<int, Availability>, totals: Totals, steps: seq<Step>, event: int, from: nat)
    requires steps != [] && NoneSilent(start, totals, steps, from) && from < |steps|
    requires var older, s := steps[..|steps| - 1], steps[|steps| - 1];
      s.Booking? ==> Touched(Run(start, totals, older).world, s.step) != Some(event)
    ensures TakersAt(start, totals, steps, event, |steps|) == TakersAt(start, totals, steps, event, |steps| - 1)
  {
    hide B.Next, B.Inv, Silent, Touched, Takers, Next;
    var older, s := steps[..|steps| - 1], steps[|steps| - 1];
    OlderRun(start, totals, steps, event, from);
    BookingStep(Run(start, totals, older), totals, s);
    if s.Booking? {
      BookingsFit(start, totals, older);
      OthersKeepTakers(Run(start, totals, older).world, s.step, event);
    }
  }

  /** While no handler of the event is under way, its takers are those at its last store. */
  lemma {:induction false} QuietKeepsTakers(start: map<int, Availability>, totals: Totals, steps: seq<Step>, event: int)
    requires var f := Run(start, totals, steps);
      Quiet(f, event) && NoneSilent(start, totals, steps, StoredAt(f, event))
    requires event in totals && totals[event] > 0
    ensures var f := Run(start, totals, steps);
      && StoredAt(f, event) <= |steps|
      && Takers(f.world.rows, event) == TakersAt(start, totals, steps, event, StoredAt(f, event))
    decreases |steps|
  {
    hide Next, Silent, Touched, Takers, TakersAt, Quiet, NoneSilent, Stores, Classes;
    RunCountsFit(start, totals, steps, event);
    if steps == [] {
      NoSteps(start, totals, event);
    } else {
      var older, s, f := steps[..|steps| - 1], steps[|steps| - 1], Run(start, totals, steps);
      var before := Run(start, totals, older);
      RunCountsFit(start, totals, older, event);
      QuietBefore(before, totals, s, event);
      OlderRun(start, totals, steps, event, StoredAt(f, event));
      if !Stores(before, s, event) {
        QuietKeepsTakers(start, totals, older, event);
        LastStepKeepsTakers(start, totals, steps, event, StoredAt(f, event));
      }
    }
  }

  lemma NoSteps(start: map<int, Availability>, totals: Totals, event: int)
    ensures TakersAt(start, totals, [], event, 0) == Takers(Run(start, totals, []).world.rows, event)
  {
  }

  // --------------------------------------------------------------------- theorems

  /** What the last write of the availability wrote: the class at its count, or the edited value. */
  ghost function LastWritten(
    start: map<int, Availability>, totals: Totals, steps: seq<Step>, event: int, last: LastWrite): Availability
    requires event in totals && (last.Refreshed? ==> last.counted <= |steps|)
  {
    match last
    case Refreshed(counted, _) => ClassAt(start, totals, steps, event, counted)
    case Edited(shown, _) => shown
  }

  /** At every moment of every run, sweeps and edits of the event included, the
      availability is shown correctly exactly when what was written last, the
      class at the count of that refresh or the edited value, is the class now. */
  lemma ShownExactlyAsLastWritten(start: map<int, Availability>, totals: Totals, steps: seq<Step>, event: int)
    requires event in totals && totals[event] > 0
    ensures var f, total := Run(start, totals, steps), totals[event];
      if event in f.last then
        && f.last[event].stored < |steps| && (f.last[event].Refreshed? ==> f.last[event].counted < f.last[event].stored)
        && (IsShown(f, event, total) <==>
              LastWritten(start, totals, steps, event, f.last[event]) == Class(f, event, total))
      else
        IsShown(f, event, total) <==> event in start && start[event] == Class(f, event, total)
  {
    hide Run, Takers;
    var f, total := Run(start, totals, steps), totals[event];
    RunCountsFit(start, totals, steps, event);
    ClassesAt(start, totals, steps, event, total, |steps|);
    assert steps[..|steps|] == steps;
    if event in f.last && f.last[event].Refreshed? {
      ClassesAt(start, totals, steps, event, total, f.last[event].counted);
    }
  }

  /** Once no handler of the event is between its write and its store, the
      availability is correct exactly when what was written last is the class at
      the moment it was written: for a refresh, when the writes that fell between
      its count and its store have left the class where it was. An event whose
      availability was never written has no takers. */
  lemma QuietIsCorrectExactly(start: map<int, Availability>, totals: Totals, steps: seq<Step>, event: int)
    requires event in totals && totals[event] > 0
    requires var f := Run(start, totals, steps);
      Quiet(f, event) && NoneSilent(start, totals, steps, StoredAt(f, event))
    ensures var f, total := Run(start, totals, steps), totals[event];
      if event in f.last then
        && f.last[event].stored < |steps| && (f.last[event].Refreshed? ==> f.last[event].counted < f.last[event].stored)
        && (IsShown(f, event, total) <==>
              LastWritten(start, totals, steps, event, f.last[event])
              == ClassAt(start, totals, steps, event, f.last[event].stored))
      else
        IsShown(f, event, total) <==> event in start && start[event] == Free
  {
    ShownExactlyAsLastWritten(start, totals, steps, event);
    QuietKeepsTakers(start, totals, steps, event);
    NobodyAtStart(start, totals, steps, event, totals[event]);
    var f := Run(start, totals, steps);
    assert Class(f, event, totals[event]) == ClassAt(start, totals, steps, event, StoredAt(f, event));
    hide Class, ClassAt, LastWritten, Run, Takers, Quiet, NoneSilent, IsShown;
  }

  lemma NobodyAtStart(start: map<int, Availability>, totals: Totals, steps: seq<Step>, event: int, total: int)
    requires event in totals && total == totals[event] > 0
    ensures ClassAt(start, totals, steps, event, 0) == Free
  {
    assert steps[..0] == [];
    assert Takers(B.EMPTY.rows, event) == {};
  }

  /** In particular, it is correct when no write moved the class in between. */
  lemma UnmovedClassIsCorrect(start: map<int, Availability>, totals: Totals, steps: seq<Step>, event: int)
    requires event in totals && totals[event] > 0
    requires var f := Run(start, totals, steps);
      && Quiet(f, event) && NoneSilent(start, totals, steps, StoredAt(f, event))
      && event in f.last && f.last[event].Refreshed?
      && forall i :: f.last[event].counted <= i < f.last[event].stored && i < |steps| ==>
           ClassAt(start, totals, steps, event, i) == ClassAt(start, totals, steps, event, i + 1)
    ensures IsShown(Run(start, totals, steps), event, totals[event])
  {
    hide Class, ClassAt, Quiet, NoneSilent, IsShown, Run;
    QuietIsCorrectExactly(start, totals, steps, event);
    var span := Run(start, totals, steps).last[event];
    ClassStays(start, totals, steps, event, span.counted, span.stored);
  }

  lemma {:induction false} ClassStays(start: map<int, Availability>, totals: Totals, steps: seq<Step>, event: int,
      i: nat, j: nat)
    requires event in totals && i <= j <= |steps|
    requires forall k :: i <= k < j ==>
        ClassAt(start, totals, steps, event, k) == ClassAt(start, totals, steps, event, k + 1)
    ensures ClassAt(start, totals, steps, event, i) == ClassAt(start, totals, steps, event, j)
    decreases j
  {
    hide ClassAt;
    if i < j { ClassStays(start, totals, steps, event, i, j - 1); }
  }

  // ------------------------------------------------------------------ single steps

  /** A statement on a booking changes no availability. It is followed by a refresh
      of the booking's event exactly when an organiser writes or deletes an
      existing booking or a scan admits one. */
  lemma WriteIsFollowedByRefresh(f: Floor, totals: Totals, step: B.Step)
    ensures var after := Next(f, totals, Booking(step));
      && after.world == B.Next(f.world, step) && after.availability == f.availability && after.last == f.last
      && match step
         case WriteStatus(id, _) =>
           after.pending == if id in f.world.rows then f.pending[f.time := Due(f.world.rows[id].event)] else f.pending
         case Delete(id) =>
           after.pending == if id in f.world.rows then f.pending[f.time := Due(f.world.rows[id].event)] else f.pending
         case ScanWrite(request) =>
           after.pending ==
           if request in f.world.inFlight && f.world.inFlight[request].Scanning?
              && f.world.inFlight[request].booking in f.world.rows
              && f.world.rows[f.world.inFlight[request].booking].status in {B.Approved, B.Confirmed}
           then f.pending[f.time := Due(f.world.rows[f.world.inFlight[request].booking].event)] else f.pending
         case _ => after.pending == f.pending
  {
    hide B.Next;
  }

  /** A refresh counts the tickets taken at that moment and later stores the class
      of that count, whatever the bookings are by then; without a capacity it ends
      at the count. A repeated one starts the same way. */
  lemma RefreshMeans(f: Floor, totals: Totals, refresh: nat, event: int, taken: set<int>)
    requires forall id :: id in taken <==> id in f.world.rows && f.world.rows[id].event == event
                                           && f.world.rows[id].status in {B.Approved, B.CheckedIn}
    ensures Next(f, totals, Repeat(event)) == f.(pending := f.pending[f.time := Due(event)], time := f.time + 1)
    ensures refresh in f.pending && f.pending[refresh] == Due(event) ==>
              var after := Next(f, totals, Count(refresh));
              && after.world == f.world && after.availability == f.availability && after.last == f.last
              && (if event in totals && totals[event] > 0 then
                    var shown := if |taken| >= totals[event] then SoldOut
                                 else if 2 * |taken| >= totals[event] then Limited else Free;
                    after.pending == f.pending[refresh := Counted(event, shown, f.time)]
                  else after.pending == f.pending - {refresh})
    ensures refresh in f.pending && f.pending[refresh].Counted? && f.pending[refresh].event == event ==>
              var after := Next(f, totals, Store(refresh));
              && after.world == f.world && after.pending == f.pending - {refresh}
              && after.availability == f.availability[event := f.pending[refresh].shown]
              && after.last == f.last[event := Refreshed(f.pending[refresh].at, f.time)]
  {
    forall id ensures id in taken <==> id in Takers(f.world.rows, event) {
      assert id in f.world.rows ==> (Counts(f.world.rows[id], event) <==>
               f.world.rows[id].event == event && f.world.rows[id].status in {B.Approved, B.CheckedIn});
    }
    assert taken == Takers(f.world.rows, event);
  }

  // --------------------------------------------------------------------- witnesses

  lemma GoOn(start: map<int, Availability>, totals: Totals, steps: seq<Step>, s: Step)
    ensures Run(start, totals, steps + [s]) == Next(Run(start, totals, steps), totals, s)
  {
    hide Next;
    assert (steps + [s])[..|steps|] == steps;
  }

  /** One booking of an event, with the given status and pending refreshes. */
  ghost predicate Looks(f: Floor, event: int, status: B.Status, pending: map<nat, Refresh>, shown: Availability,
      time: nat) {
    && f.world.rows.Keys == {1} && f.world.rows[1].event == event && f.world.rows[1].status == status
    && f.pending == pending && event in f.availability && f.availability[event] == shown && f.time == time
  }

  lemma WriteLooks(f: Floor, event: int, status: B.Status, pending: map<nat, Refresh>, shown: Availability, time: nat,
      approve: bool)
    requires Looks(f, event, status, pending, shown, time)
    ensures Looks(Next(f, map[event := 1], Booking(B.WriteStatus(1, approve))), event,
                  if approve then B.Approved else B.Cancelled, pending[time := Due(event)], shown, time + 1)
  {
  }

  lemma CountLooks(f: Floor, event: int, status: B.Status, pending: map<nat, Refresh>, shown: Availability, time: nat,
      r: nat)
    requires Looks(f, event, status, pending, shown, time) && r in pending && pending[r] == Due(event)
    requires status.Approved? || status.Cancelled?
    ensures Looks(Next(f, map[event := 1], Count(r)), event, status,
                  pending[r := Counted(event, if status.Approved? then SoldOut else Free, time)], shown, time + 1)
  {
    assert Takers(f.world.rows, event) == if status.Approved? then {1} else {};
  }

  lemma StoreLooks(f: Floor, event: int, status: B.Status, pending: map<nat, Refresh>, shown: Availability, time: nat,
      r: nat)
    requires Looks(f, event, status, pending, shown, time) && r in pending && pending[r].Counted?
        && pending[r].event == event
    ensures var after := Next(f, map[event := 1], Store(r));
      && Looks(after, event, status, pending - {r}, pending[r].shown, time + 1)
      && event in after.last && after.last[event] == Refreshed(pending[r].at, time)
  {
  }

  lemma LooksCorrect(f: Floor, event: int, status: B.Status, shown: Availability, time: nat)
    requires Looks(f, event, status, map[], shown, time) && (status.Approved? || status.Cancelled?)
    ensures Quiet(f, event) && (IsShown(f, event, 1) <==> shown == if status.Approved? then SoldOut else Free)
  {
    assert Takers(f.world.rows, event) == if status.Approved? then {1} else {};
  }

  lemma OneBooking(event: int) returns (steps: seq<Step>)
    ensures Looks(Run(map[event := Free], map[event := 1], steps), event, B.Pending, map[], Free, 1) && |steps| == 1
  {
    steps := [Booking(B.Create(event, "v", 0))];
    assert steps[..0] == [];
  }

  /** The failing run: approve and count; cancel, count and store; then store the
      first count. All handlers are done, and an event without takers is sold out. */
  lemma OverlappingHandlersGoStale(event: int) returns (steps: seq<Step>)
    ensures var f := Run(map[event := Free], map[event := 1], steps);
      && Quiet(f, event) && !IsShown(f, event, 1)
      && f.world.rows.Keys == {1} && f.world.rows[1].status.Cancelled?
      && event in f.availability && f.availability[event] == SoldOut
  {
    hide Run, Next, Looks, Quiet, IsShown;
    var start, totals := map[event := Free], map[event := 1];
    steps := OneBooking(event);
    var todo := [Booking(B.WriteStatus(1, true)), Count(1), Booking(B.WriteStatus(1, false)), Count(3), Store(3),
        Store(1)];
    var f := Run(start, totals, steps);
    WriteLooks(f, event, B.Pending, map[], Free, 1, true);
    GoOn(start, totals, steps, todo[0]);
    steps, f := steps + [todo[0]], Next(f, totals, todo[0]);
    CountLooks(f, event, B.Approved, map[1 := Due(event)], Free, 2, 1);
    GoOn(start, totals, steps, todo[1]);
    steps, f := steps + [todo[1]], Next(f, totals, todo[1]);
    var first := Counted(event, SoldOut, 2);
    WriteLooks(f, event, B.Approved, map[1 := first], Free, 3, false);
    GoOn(start, totals, steps, todo[2]);
    steps, f := steps + [todo[2]], Next(f, totals, todo[2]);
    CountLooks(f, event, B.Cancelled, map[1 := first, 3 := Due(event)], Free, 4, 3);
    GoOn(start, totals, steps, todo[3]);
    steps, f := steps + [todo[3]], Next(f, totals, todo[3]);
    StoreLooks(f, event, B.Cancelled, map[1 := first, 3 := Counted(event, Free, 4)], Free, 5, 3);
    GoOn(start, totals, steps, todo[4]);
    steps, f := steps + [todo[4]], Next(f, totals, todo[4]);
    StoreLooks(f, event, B.Cancelled, map[1 := first], Free, 6, 1);
    GoOn(start, totals, steps, todo[5]);
    steps, f := steps + [todo[5]], Next(f, totals, todo[5]);
    LooksCorrect(f, event, B.Cancelled, SoldOut, 7);
    LooksMeans(f, event, B.Cancelled, map[], SoldOut, 7);
  }

  lemma LooksMeans(f: Floor, event: int, status: B.Status, pending: map<nat, Refresh>, shown: Availability, time: nat)
    requires Looks(f, event, status, pending, shown, time)
    ensures status.Approved? ==> Class(f, event, 1) == SoldOut
    ensures status.Cancelled? ==> Class(f, event, 1) == Free
    ensures f.world.rows.Keys == {1} && f.world.rows[1].status == status
    ensures event in f.availability && f.availability[event] == shown
  {
    if status.Approved? { assert Takers(f.world.rows, event) == {1}; }
    if status.Cancelled? { assert Takers(f.world.rows, event) == {}; }
  }

  /** Moves that cancel out do no harm: count a cancelled booking, let others
      approve it and cancel it again, each with its own refresh, and store last. */
  lemma CancellingMovesStayCorrect(event: int) returns (steps: seq<Step>)
    ensures var start, totals := map[event := Free], map[event := 1];
      var f := Run(start, totals, steps);
      && Quiet(f, event) && IsShown(f, event, 1)
      && event in f.last && f.last[event] == Refreshed(2, 9) && |steps| == 10
      && ClassAt(start, totals, steps, event, 3) != ClassAt(start, totals, steps, event, 4)
  {
    hide Run, Next, Looks, Quiet, IsShown, Class, ClassAt;
    var start, totals := map[event := Free], map[event := 1];
    var one := CountedCancelled(event);
    var f := Run(start, totals, one);
    LooksMeans(f, event, B.Cancelled, map[1 := Counted(event, Free, 2)], Free, 3);
    WriteLooks(f, event, B.Cancelled, map[1 := Counted(event, Free, 2)], Free, 3, true);
    var two := one + [Booking(B.WriteStatus(1, true))];
    GoOn(start, totals, one, Booking(B.WriteStatus(1, true)));
    LooksMeans(Run(start, totals, two), event, B.Approved, map[1 := Counted(event, Free, 2), 3 := Due(event)], Free, 4);
    steps := ApprovedAndCancelledAgain(event, two);
    MovedInBetween(start, totals, steps, event, one, two);
  }

  lemma CountedCancelled(event: int) returns (steps: seq<Step>)
    ensures Looks(Run(map[event := Free], map[event := 1], steps), event, B.Cancelled,
        map[1 := Counted(event, Free, 2)], Free, 3)
    ensures |steps| == 3
  {
    hide Run, Next, Looks;
    var start, totals := map[event := Free], map[event := 1];
    steps := OneBooking(event);
    var cancel, count := Booking(B.WriteStatus(1, false)), Count(1);
    var f := Run(start, totals, steps);
    WriteLooks(f, event, B.Pending, map[], Free, 1, false);
    GoOn(start, totals, steps, cancel);
    CountLooks(Next(f, totals, cancel), event, B.Cancelled, map[1 := Due(event)], Free, 2, 1);
    GoOn(start, totals, steps + [cancel], count);
    var due: map<nat, Refresh> := map[1 := Due(event)];
    assert due[1 := Counted(event, Free, 2)] == map[1 := Counted(event, Free, 2)];
    steps := steps + [cancel] + [count];
  }

  lemma ApprovedAndCancelledAgain(event: int, steps: seq<Step>) returns (all: seq<Step>)
    requires Looks(Run(map[event := Free], map[event := 1], steps), event, B.Approved,
                   map[1 := Counted(event, Free, 2), 3 := Due(event)], Free, 4)
    ensures var f := Run(map[event := Free], map[event := 1], all);
      && steps <= all && |all| == |steps| + 6
      && Quiet(f, event) && IsShown(f, event, 1) && event in f.last && f.last[event] == Refreshed(2, 9)
  {
    hide Run, Next, Looks, Quiet, IsShown;
    var start, totals := map[event := Free], map[event := 1];
    var todo := [Count(3), Store(3), Booking(B.WriteStatus(1, false)), Count(6), Store(6), Store(1)];
    var first := Counted(event, Free, 2);
    var f := Run(start, totals, steps);
    all := steps;
    CountLooks(f, event, B.Approved, map[1 := first, 3 := Due(event)], Free, 4, 3);
    GoOn(start, totals, all, todo[0]);
    all, f := all + [todo[0]], Next(f, totals, todo[0]);
    StoreLooks(f, event, B.Approved, map[1 := first, 3 := Counted(event, SoldOut, 4)], Free, 5, 3);
    GoOn(start, totals, all, todo[1]);
    all, f := all + [todo[1]], Next(f, totals, todo[1]);
    WriteLooks(f, event, B.Approved, map[1 := first], SoldOut, 6, false);
    GoOn(start, totals, all, todo[2]);
    all, f := all + [todo[2]], Next(f, totals, todo[2]);
    CountLooks(f, event, B.Cancelled, map[1 := first, 6 := Due(event)], SoldOut, 7, 6);
    GoOn(start, totals, all, todo[3]);
    all, f := all + [todo[3]], Next(f, totals, todo[3]);
    StoreLooks(f, event, B.Cancelled, map[1 := first, 6 := Counted(event, Free, 7)], SoldOut, 8, 6);
    GoOn(start, totals, all, todo[4]);
    all, f := all + [todo[4]], Next(f, totals, todo[4]);
    StoreLooks(f, event, B.Cancelled, map[1 := first], Free, 9, 1);
    GoOn(start, totals, all, todo[5]);
    all, f := all + [todo[5]], Next(f, totals, todo[5]);
    LooksCorrect(f, event, B.Cancelled, Free, 10);
  }

  lemma MovedInBetween(start: map<int, Availability>, totals: Totals, steps: seq<Step>, event: int, one: seq<Step>,
      two: seq<Step>)
    requires event in totals && |two| == |one| + 1 && one <= steps && two <= steps
    requires Class(Run(start, totals, one), event, totals[event])
          != Class(Run(start, totals, two), event, totals[event])
    ensures ClassAt(start, totals, steps, event, |one|) != ClassAt(start, totals, steps, event, |one| + 1)
  {
    hide Class, Run;
    assert steps[..|one|] == one && steps[..|two|] == two;
  }

  lemma ScansElsewhere(f: Floor, totals: Totals, s: Step)
    requires s.Booking? ==> s.step.WriteStatus?
    ensures Next(f, totals, s).world.inFlight == f.world.inFlight
  {
  }

  lemma ExpiredLinkIsRead(event: int) returns (steps: seq<Step>)
    ensures var f := Run(map[event := Free], map[event := 1], steps);
      && Looks(f, event, B.Pending, map[], Free, 2) && f.world.inFlight == map[7 := B.Expiring(1)]
  {
    var create, read := Booking(B.Create(event, "v", 0)), Booking(B.VerifySelect(7, "v", 1));
    var start, totals := map[event := Free], map[event := 1];
    assert [create][..0] == [];
    var f := Run(start, totals, [create]);
    GoOn(start, totals, [create], read);
    assert B.VerifyHit(f.world.rows, 1, "v");
    steps := [create] + [read];
  }

  lemma ExpiredLinkDeletes(f: Floor, event: int, time: nat)
    requires Looks(f, event, B.Approved, map[], SoldOut, time) && f.world.inFlight == map[7 := B.Expiring(1)]
    ensures var after := Next(f, map[event := 1], Booking(B.VerifyWrite(7, "q", 0)));
      Quiet(after, event) && !IsShown(after, event, 1) && after.world.rows == map[]
  {
    var after := Next(f, map[event := 1], Booking(B.VerifyWrite(7, "q", 0)));
    assert after.world.rows == map[] && Takers(after.world.rows, event) == {};
  }

  /** A verification that found its link expired deletes the booking even when an
      organiser has approved it in the meantime, and refreshes nothing. */
  lemma ExpiredLinkGoesStale(event: int) returns (steps: seq<Step>)
    ensures var f := Run(map[event := Free], map[event := 1], steps);
      Quiet(f, event) && !IsShown(f, event, 1) && f.world.rows == map[]
  {
    hide Run, Next, Looks, Quiet, IsShown;
    var start, totals := map[event := Free], map[event := 1];
    steps := ExpiredLinkIsRead(event);
    var todo := [Booking(B.WriteStatus(1, true)), Count(2), Store(2), Booking(B.VerifyWrite(7, "q", 0))];
    var f := Run(start, totals, steps);
    WriteLooks(f, event, B.Pending, map[], Free, 2, true);
    ScansElsewhere(f, totals, todo[0]);
    GoOn(start, totals, steps, todo[0]);
    steps, f := steps + [todo[0]], Next(f, totals, todo[0]);
    CountLooks(f, event, B.Approved, map[2 := Due(event)], Free, 3, 2);
    ScansElsewhere(f, totals, todo[1]);
    GoOn(start, totals, steps, todo[1]);
    steps, f := steps + [todo[1]], Next(f, totals, todo[1]);
    StoreLooks(f, event, B.Approved, map[2 := Counted(event, SoldOut, 3)], Free, 4, 2);
    ScansElsewhere(f, totals, todo[2]);
    GoOn(start, totals, steps, todo[2]);
    steps, f := steps + [todo[2]], Next(f, totals, todo[2]);
    ExpiredLinkDeletes(f, event, 5);
    GoOn(start, totals, steps, todo[3]);
    steps, f := steps + [todo[3]], Next(f, totals, todo[3]);
  }

  lemma EditLooks(f: Floor, event: int, status: B.Status, shown: Availability, time: nat, edited: Availability)
    requires Looks(f, event, status, map[], shown, time)
    ensures Looks(Next(f, map[event := 1], Edit(event, edited)), event, status, map[], edited, time + 1)
  {
  }

  /** An edit that read the event before the approval writes its availability back. */
  lemma EditGoesStale(event: int) returns (steps: seq<Step>)
    ensures var f := Run(map[event := Free], map[event := 1], steps);
      Quiet(f, event) && !IsShown(f, event, 1)
  {
    hide Run, Next, Looks, Quiet, IsShown;
    var start, totals := map[event := Free], map[event := 1];
    steps := OneBooking(event);
    var todo := [Booking(B.WriteStatus(1, true)), Count(1), Store(1), Edit(event, Free)];
    var f := Run(start, totals, steps);
    WriteLooks(f, event, B.Pending, map[], Free, 1, true);
    GoOn(start, totals, steps, todo[0]);
    steps, f := steps + [todo[0]], Next(f, totals, todo[0]);
    CountLooks(f, event, B.Approved, map[1 := Due(event)], Free, 2, 1);
    GoOn(start, totals, steps, todo[1]);
    steps, f := steps + [todo[1]], Next(f, totals, todo[1]);
    StoreLooks(f, event, B.Approved, map[1 := Counted(event, SoldOut, 2)], Free, 3, 1);
    GoOn(start, totals, steps, todo[2]);
    steps, f := steps + [todo[2]], Next(f, totals, todo[2]);
    EditLooks(f, event, B.Approved, SoldOut, 4, Free);
    GoOn(start, totals, steps, todo[3]);
    steps, f := steps + [todo[3]], Next(f, totals, todo[3]);
    LooksCorrect(f, event, B.Approved, Free, 5);
  }
}
