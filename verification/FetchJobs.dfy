/** Feed runs as background jobs: every interleaving of requests and goroutines. */
module FetchJobs {
  import opened Options

  datatype State = Running | Succeeded | Failed

  datatype ImportResult = ImportResult(events: seq<int>, created: int, updated: int, same: int, failed: int)

  /** How one import ended. */
  datatype Outcome =
    | Imported(result: ImportResult)
    | Refused(reason: string)      // robots.txt is not acknowledged
    | Broken(reason: string)

  datatype Job = Job(
    source: int, caller: int, state: State, startedAt: int, finishedAt: Option<int>,
    result: Option<ImportResult>, error: string, errorCode: string)

  type Jobs = map<int, Job>

  datatype Registry = Registry(nextId: int, jobs: Jobs, running: map<int, int>)

  const RETENTION := 600

  predicate Expired(j: Job, now: int) {
    j.finishedAt.Some? && now - j.finishedAt.value > RETENTION
  }

  function Pruned(jobs: Jobs, now: int): Jobs {
    map id | id in jobs && !Expired(jobs[id], now) :: jobs[id]
  }

  function NewJob(source: int, caller: int, now: int): Job {
    Job(source, caller, Running, now, None, None, "", "")
  }

  function Finished(j: Job, o: Outcome, now: int): Job {
    match o
    case Imported(result) =>
      j.(state := Succeeded, finishedAt := Some(now), result := Some(result), error := "", errorCode := "")
    case Refused(reason) =>
      j.(state := State.Failed, finishedAt := Some(now), error := reason, errorCode := "robots_not_acknowledged")
    case Broken(reason) =>
      j.(state := State.Failed, finishedAt := Some(now), error := reason, errorCode := "")
  }

  /** start: the source's running job, or a new one. */
  function Started(r: Registry, source: int, caller: int, now: int): Registry {
    var kept := Pruned(r.jobs, now);
    if source in r.running then r.(jobs := kept)
    else
      var id := r.nextId + 1;
      Registry(id, kept[id := NewJob(source, caller, now)], r.running[source := id])
  }

  /** The last critical section of execute. */
  function Ended(r: Registry, id: int, source: int, o: Outcome, now: int): Registry
    requires id in r.jobs
  {
    r.(jobs := r.jobs[id := Finished(r.jobs[id], o, now)], running := r.running - {source})
  }

  // ------------------------------------------------------------------ the machine

  datatype Entry = Begun(id: int, source: int) | Done(id: int)

  /** `executing` holds the goroutines that are alive: job id to the source they import. */
  datatype World = World(reg: Registry, executing: map<int, int>, log: seq<Entry>)

  datatype Step =
    | Start(source: int, caller: int, now: int)
    | Get(id: int, now: int)
    | Finish(id: int, outcome: Outcome, now: int)

  const IDLE := World(Registry(0, map[], map[]), map[], [])

  /** A goroutine can only finish while it is alive, and only once. The guard on
      jobs stands for a crash of the process; JobsAreFound shows it never fires. */
  function Next(w: World, s: Step): World {
    match s
    case Start(source, caller, now) =>
      var reg := Started(w.reg, source, caller, now);
      if source in w.reg.running then w.(reg := reg)
      else World(reg, w.executing[reg.nextId := source], w.log + [Begun(reg.nextId, source)])
    case Get(id, now) => w.(reg := w.reg.(jobs := Pruned(w.reg.jobs, now)))
    case Finish(id, o, now) =>
      if id in w.executing && id in w.reg.jobs
      then World(Ended(w.reg, id, w.executing[id], o, now), w.executing - {id}, w.log + [Done(id)])
      else w
  }

  function Run(w: World, steps: seq<Step>): World
    decreases |steps|
  {
    if steps == [] then w else Run(Next(w, steps[0]), steps[1..])
  }

  // -------------------------------------------------------------------- invariant

  /** running maps a source to exactly its one job in state Running. */
  ghost predicate RunningFits(r: Registry) {
    && r.nextId >= 0
    && (forall id :: id in r.jobs ==>
        0 < id <= r.nextId && (r.jobs[id].state.Running? <==> r.jobs[id].finishedAt.None?))
    && (forall s :: s in r.running ==>
          r.running[s] in r.jobs && r.jobs[r.running[s]].source == s && r.jobs[r.running[s]].state.Running?)
    && (forall id :: id in r.jobs && r.jobs[id].state.Running? ==>
          r.jobs[id].source in r.running && r.running[r.jobs[id].source] == id)
  }

  /** The live goroutines are those of the running jobs. */
  ghost predicate ExecutingFits(w: World) {
    && (forall id :: id in w.executing ==>
        id in w.reg.jobs && w.reg.jobs[id].state.Running? && w.reg.jobs[id].source == w.executing[id])
    && (forall id :: id in w.reg.jobs && w.reg.jobs[id].state.Running? ==> id in w.executing)
  }

  ghost predicate DoneAfter(log: seq<Entry>, i: int, id: int) {
    exists k :: 0 <= k < |log| && i < k && log[k] == Done(id)
  }

  /** A log entry is done with, or its goroutine is alive. */
  ghost predicate BegunFits(log: seq<Entry>, i: int, executing: map<int, int>)
    requires 0 <= i < |log| && log[i].Begun?
  {
    DoneAfter(log, i, log[i].id) || (log[i].id in executing && executing[log[i].id] == log[i].source)
  }

  ghost predicate LogFits(log: seq<Entry>, nextId: int, executing: map<int, int>) {
    && (forall i :: 0 <= i < |log| ==> 0 < log[i].id <= nextId)
    && (forall i :: 0 <= i < |log| && log[i].Done? ==> log[i].id !in executing)
    && (forall i, j :: 0 <= i < j < |log| && log[i].id == log[j].id ==> log[i].Begun? && log[j].Done?)
    && (forall i :: 0 <= i < |log| && log[i].Begun? ==> BegunFits(log, i, executing))
    && (forall i, j :: 0 <= i < j < |log| && log[i].Begun? && log[j].Begun? && log[i].source == log[j].source ==>
          DoneAfter(log[..j], i, log[i].id))
  }

  ghost predicate Inv(w: World) {
    RunningFits(w.reg) && ExecutingFits(w) && LogFits(w.log, w.reg.nextId, w.executing)
  }

  /** Appending an entry keeps what is known about earlier pairs. */
  lemma DoneStays(log: seq<Entry>, e: Entry, i: int, id: int)
    requires 0 <= i < |log|
    ensures DoneAfter(log, i, id) ==> DoneAfter(log + [e], i, id)
    ensures forall j :: i < j <= |log| ==> (log + [e])[..j] == log[..j]
  {
    if DoneAfter(log, i, id) {
      var k :| 0 <= k < |log| && i < k && log[k] == Done(id);
      assert (log + [e])[k] == Done(id);
    }
  }

  lemma LogFitsAfterStart(log: seq<Entry>, nextId: int, executing: map<int, int>, source: int)
    requires LogFits(log, nextId, executing) && nextId >= 0 && forall id :: id in executing ==> executing[id] != source
    ensures LogFits(log + [Begun(nextId + 1, source)], nextId + 1, executing[nextId + 1 := source])
  {
    var e := Begun(nextId + 1, source);
    var longer := log + [e];
    forall i | 0 <= i < |longer| && longer[i].Begun? ensures BegunFits(longer, i, executing[nextId + 1 := source]) {
      if i < |log| {
        assert BegunFits(log, i, executing);
        DoneStays(log, e, i, log[i].id);
      }
    }
    forall i, j | 0 <= i < j < |longer| && longer[i].Begun? && longer[j].Begun? && longer[i].source == longer[j].source
      ensures DoneAfter(longer[..j], i, longer[i].id)
    {
      DoneStays(log, e, i, log[i].id);
      if j == |log| {
        assert BegunFits(log, i, executing);
        assert longer[..j] == log;
      }
    }
  }

  lemma LogFitsAfterFinish(log: seq<Entry>, nextId: int, executing: map<int, int>, id: int)
    requires LogFits(log, nextId, executing) && id in executing && 0 < id <= nextId
    ensures LogFits(log + [Done(id)], nextId, executing - {id})
  {
    var longer := log + [Done(id)];
    forall i | 0 <= i < |longer| && longer[i].Begun? ensures BegunFits(longer, i, executing - {id}) {
      assert BegunFits(log, i, executing);
      DoneStays(log, Done(id), i, log[i].id);
      assert longer[|log|] == Done(id);
    }
    forall i, j | 0 <= i < j < |longer| && longer[i].Begun? && longer[j].Begun? && longer[i].source == longer[j].source
      ensures DoneAfter(longer[..j], i, longer[i].id)
    {
      DoneStays(log, Done(id), i, log[i].id);
      assert log[j].Begun?;
    }
  }

  /** Pruning never drops a running job. */
  lemma PruningFits(r: Registry, now: int)
    requires RunningFits(r)
    ensures RunningFits(r.(jobs := Pruned(r.jobs, now)))
    ensures forall id :: id in r.jobs && r.jobs[id].state.Running? ==> id in Pruned(r.jobs, now)
  {
    var kept := Pruned(r.jobs, now);
    forall id | id in r.jobs && r.jobs[id].state.Running? ensures id in kept && kept[id] == r.jobs[id] {
    }
  }

  lemma StartedFits(r: Registry, source: int, caller: int, now: int)
    requires RunningFits(r) && source !in r.running
    ensures RunningFits(Started(r, source, caller, now))
  {
    PruningFits(r, now);
  }

  /** Every step keeps the two maps and the live goroutines in agreement. */
  lemma NextKeepsInv(w: World, s: Step)
    requires Inv(w)
    ensures Inv(Next(w, s))
  {
    hide LogFits;
    match s
    case Start(source, caller, now) =>
      PruningFits(w.reg, now);
      if source !in w.reg.running {
        StartedFits(w.reg, source, caller, now);
        LogFitsAfterStart(w.log, w.reg.nextId, w.executing, source);
      }
    case Get(id, now) =>
      PruningFits(w.reg, now);
    case Finish(id, o, now) =>
      if id in w.executing { LogFitsAfterFinish(w.log, w.reg.nextId, w.executing, id); }
  }

  lemma {:induction false} RunKeepsInv(w: World, steps: seq<Step>)
    requires Inv(w)
    ensures Inv(Run(w, steps))
    decreases |steps|
  {
    hide Inv, Next;
    if steps != [] {
      NextKeepsInv(w, steps[0]);
      RunKeepsInv(Next(w, steps[0]), steps[1..]);
    }
  }

  lemma IdleFits()
    ensures Inv(IDLE)
  {
  }

  // --------------------------------------------------------------------- theorems

  /** How a job ends: as the import did, with a code for clients only when
      robots.txt is not acknowledged, and with the result only on success. */
  ghost predicate EndsAs(before: Job, after: Job, o: Outcome, now: int) {
    && after.source == before.source && after.caller == before.caller && after.startedAt == before.startedAt
    && after.finishedAt == Some(now)
    && match o
       case Imported(result) =>
         after.state == Succeeded && after.result == Some(result) && after.error == "" && after.errorCode == ""
       case Refused(reason) =>
         && after.state == State.Failed && after.result == before.result
         && after.error == reason && after.errorCode == "robots_not_acknowledged"
       case Broken(reason) =>
         && after.state == State.Failed && after.result == before.result
         && after.error == reason && after.errorCode == ""
  }

  /** What one step does to the jobs: a start adds a running job under the next
      id exactly when the source has none, a finish ends the job as its import
      ended, and every other job stays as it is or, more than ten minutes after
      its end, disappears with the next request. */
  lemma StepMeans(w: World, s: Step, id: int)
    requires Inv(w)
    ensures var before, after := w.reg.jobs, Next(w, s).reg.jobs;
      var begins := s.Start? && (forall j :: j in before && before[j].state.Running? ==> before[j].source != s.source);
      var late := !s.Finish? && id in before && before[id].finishedAt.Some?
                  && s.now - before[id].finishedAt.value > 600;
      if begins && id == w.reg.nextId + 1 then
        && id !in before && id in after && id == Next(w, s).reg.nextId
        && after[id] == Job(s.source, s.caller, Running, s.now, None, None, "", "")
      else if s.Finish? && s.id == id && id in before && before[id].state.Running? then
        id in after && EndsAs(before[id], after[id], s.outcome, s.now)
      else
        && (id in after <==> id in before && !late)
        && (id in after ==> after[id] == before[id])
  {
    hide LogFits;
    match s
    case Start(source, caller, now) =>
      if source in w.reg.running {
        var j := w.reg.running[source];
        assert j in w.reg.jobs && w.reg.jobs[j].state.Running? && w.reg.jobs[j].source == source;
      }
    case Get(_, now) =>
    case Finish(ended, o, now) =>
      if ended in w.reg.jobs { assert w.reg.jobs[ended].state.Running? <==> ended in w.executing; }
  }

  /** The unchecked lookups succeed: a running entry and a live goroutine always
      find their job, in state Running. */
  lemma JobsAreFound(steps: seq<Step>, key: int)
    ensures var r := Run(IDLE, steps).reg;
      key in r.running ==>
        && r.running[key] in r.jobs
        && r.jobs[r.running[key]].state.Running? && r.jobs[r.running[key]].source == key
    ensures var w := Run(IDLE, steps);
      key in w.executing <==> key in w.reg.jobs && w.reg.jobs[key].state.Running?
  {
    RunKeepsInv(IDLE, steps);
  }

  /** Two runs of one source never overlap: the earlier one is done before the
      later one begins. */
  lemma RunsNeverOverlap(steps: seq<Step>, i: nat, j: nat)
    requires var log := Run(IDLE, steps).log;
      i < j < |log| && log[i].Begun? && log[j].Begun? && log[i].source == log[j].source
    ensures var log := Run(IDLE, steps).log;
      exists k :: i < k < j && log[k] == Done(log[i].id)
  {
    RunKeepsInv(IDLE, steps);
    var log := Run(IDLE, steps).log;
    var k :| 0 <= k < |log[..j]| && i < k && log[..j][k] == Done(log[i].id);
    assert log[k] == Done(log[i].id);
  }

  /** Job ids are never used twice and no job leaves Running twice. */
  lemma JobsEndOnce(steps: seq<Step>, i: nat, j: nat)
    requires i < j < |Run(IDLE, steps).log|
    ensures var log := Run(IDLE, steps).log;
      log[i].id == log[j].id ==> log[i].Begun? && log[j].Done?
  {
    IdleFits();
    RunKeepsInv(IDLE, steps);
  }

  /** The clock a step reads while it prunes. */
  predicate PrunesLate(s: Step, finishedAt: int) {
    !s.Finish? && s.now - finishedAt > 600
  }

  /** A finished job stays as it is until the first request more than ten
      minutes after its end, and is gone for good from then on. */
  lemma {:induction false} FinishedJobIsKeptForRetention(w: World, steps: seq<Step>, id: int)
    requires Inv(w) && id in w.reg.jobs && w.reg.jobs[id].finishedAt.Some?
    ensures var f := w.reg.jobs[id].finishedAt.value;
      var jobs := Run(w, steps).reg.jobs;
      if exists i :: 0 <= i < |steps| && PrunesLate(steps[i], f) then id !in jobs
      else id in jobs && jobs[id] == w.reg.jobs[id]
    decreases |steps|
  {
    var f := w.reg.jobs[id].finishedAt.value;
    if steps != [] {
      var next := Next(w, steps[0]);
      NextKeepsInv(w, steps[0]);
      if PrunesLate(steps[0], f) {
        assert id !in next.reg.jobs && id <= next.reg.nextId;
        GoneForGood(next, steps[1..], id);
      } else {
        assert next.reg.jobs[id] == w.reg.jobs[id];
        FinishedJobIsKeptForRetention(next, steps[1..], id);
        assert forall i :: 0 < i < |steps| ==> steps[i] == steps[1..][i - 1];
      }
    }
  }

  lemma {:induction false} GoneForGood(w: World, steps: seq<Step>, id: int)
    requires Inv(w) && id !in w.reg.jobs && id <= w.reg.nextId
    ensures id !in Run(w, steps).reg.jobs
    decreases |steps|
  {
    if steps != [] {
      NextKeepsInv(w, steps[0]);
      assert id !in Next(w, steps[0]).reg.jobs && id <= Next(w, steps[0]).reg.nextId;
      GoneForGood(Next(w, steps[0]), steps[1..], id);
    }
  }
}
