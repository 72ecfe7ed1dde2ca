/** The registry of feed runs: jobs are objects shared between the map and the goroutine. */
module FetchJobRegistryModule {
  import opened Options
  import opened FetchJobs
  import Sets

  class FetchJob {
    const source: int
    const caller: int
    const startedAt: int
    var state: State
    var finishedAt: Option<int>
    var result: Option<ImportResult>
    var error: string
    var errorCode: string

    constructor (source: int, caller: int, now: int)
      ensures Copy() == NewJob(source, caller, now)
    {
      this.source, this.caller, this.startedAt := source, caller, now;
      state, finishedAt, result, error, errorCode := Running, None, None, "", "";
    }

    /** *j, the copy handed to callers. */
    function Copy(): Job
      reads this
    {
      Job(source, caller, state, startedAt, finishedAt, result, error, errorCode)
    }

    /** What execute writes into its job when the import is over. */
    method Finish(outcome: Outcome, now: int)
      modifies this
      ensures Copy() == Finished(old(Copy()), outcome, now)
    {
      finishedAt := Some(now);
      match outcome
      case Imported(imported) =>
        state, error, errorCode := Succeeded, "", "";
        result := Some(imported);
      case Refused(reason) =>
        state, error, errorCode := State.Failed, reason, "robots_not_acknowledged";
      case Broken(reason) =>
        state, error, errorCode := State.Failed, reason, "";
    }
  }

  type JobObjects = map<int, FetchJob>

  /** The contents of the jobs. */
  ghost function Copies(jobs: JobObjects): Jobs
    reads jobs.Values
  {
    map id | id in jobs :: jobs[id].Copy()
  }

  /** kept holds exactly the entries of jobs that survive a pruning. */
  ghost predicate IsPruned(jobs: JobObjects, kept: JobObjects, now: int)
    reads jobs.Values
  {
    && (forall id :: id in kept ==> id in jobs && kept[id] == jobs[id])
    && (forall id :: id in jobs ==> (id in kept <==> !Expired(jobs[id].Copy(), now)))
  }

  lemma CopiesOfPruned(jobs: JobObjects, kept: JobObjects, now: int)
    requires IsPruned(jobs, kept, now)
    ensures Copies(kept) == Pruned(Copies(jobs), now)
  {
    var left, right := Copies(kept), Pruned(Copies(jobs), now);
    forall id: int ensures id in left <==> id in right {
    }
    assert left.Keys == right.Keys;
    forall id: int | id in left ensures left[id] == right[id] {
    }
  }

  lemma CopyAt(jobs: JobObjects, id: int)
    ensures id in Copies(jobs) <==> id in jobs
    ensures id in jobs ==> Copies(jobs)[id] == jobs[id].Copy()
  {
  }

  lemma CopiesOfAdded(jobs: JobObjects, id: int, j: FetchJob)
    ensures Copies(jobs[id := j]) == Copies(jobs)[id := j.Copy()]
  {
  }

  ghost predicate Distinct(jobs: JobObjects) {
    forall i, j :: i in jobs && j in jobs && i != j ==> jobs[i] != jobs[j]
  }

  lemma DistinctAdded(jobs: JobObjects, id: int, j: FetchJob)
    requires Distinct(jobs) && forall i :: i in jobs ==> jobs[i] != j
    ensures Distinct(jobs[id := j])
  {
  }

  class FetchJobRegistry {
    var nextId: int
    var jobs: JobObjects
    var running: map<int, int>

    /** No two ids share a job object, and the two maps agree. */
    ghost predicate Valid()
      reads this, jobs.Values
    {
      Distinct(jobs) && RunningFits(Current())
    }

    ghost function Current(): Registry
      reads this, jobs.Values
    {
      Registry(nextId, Copies(jobs), running)
    }

    constructor ()
      ensures Valid() && Current() == Registry(0, map[], map[]) && jobs == map[]
    {
      nextId, jobs, running := 0, map[], map[];
    }

    /** pruneLocked. */
    method PruneLocked(now: int)
      requires Valid()
      modifies `jobs
      ensures Valid() && IsPruned(old(jobs), jobs, now)
      ensures Current() == old(Current()).(jobs := Pruned(old(Current()).jobs, now))
    {
      hide RunningFits, Copies, Pruned;
      var all := jobs;
      var pending := all.Keys;
      while pending != {}
        invariant pending <= all.Keys && jobs.Keys <= all.Keys
        invariant forall id :: id in jobs ==> jobs[id] == all[id]
        invariant forall id :: id in all ==> (id in jobs <==> id in pending || !Expired(all[id].Copy(), now))
        decreases |pending|
      {
        Sets.HasInt(pending);
        var id :| id in pending;
        var j := all[id];
        if j.finishedAt.Some? && now - j.finishedAt.value > RETENTION {
          jobs := jobs - {id};
        }
        pending := pending - {id};
      }
      CopiesOfPruned(all, jobs, now);
      PruningFits(old(Current()), now);
    }

    /** start; the new job's import then runs concurrently. */
    method Start(source: int, caller: int, now: int) returns (job: Job, started: bool)
      requires Valid()
      modifies this
      ensures Valid() && Current() == Started(old(Current()), source, caller, now)
      ensures forall id :: id in jobs ==>
          (id in old(jobs) && jobs[id] == old(jobs)[id]) || (id == nextId && fresh(jobs[id]))
      ensures started <==> source !in old(running)
      ensures source in running && running[source] in Current().jobs && job == Current().jobs[running[source]]
      ensures job.source == source && job.state.Running?
    {
      hide Pruned, Copies, RunningFits, Expired, Distinct;
      PruneLocked(now);
      if source in running {
        RunningIsFound(Current(), source);
        CopyAt(jobs, running[source]);
        return jobs[running[source]].Copy(), false;
      }
      StartedFits(old(Current()), source, caller, now);
      ghost var kept := jobs;
      var id := nextId + 1;
      FreshId(Current(), id);
      CopyAt(jobs, id);
      var j := new FetchJob(source, caller, now);
      nextId := id;
      jobs := jobs[id := j];
      running := running[source := id];
      DistinctAdded(kept, id, j);
      CopiesOfAdded(kept, id, j);
      return j.Copy(), true;
    }

    /** get. */
    method Get(id: int, now: int) returns (job: Option<Job>)
      requires Valid()
      modifies `jobs
      ensures Valid() && IsPruned(old(jobs), jobs, now)
      ensures Current() == old(Current()).(jobs := Pruned(old(Current()).jobs, now))
      ensures job == if id in Current().jobs then Some(Current().jobs[id]) else None
    {
      hide RunningFits, Pruned, Expired;
      PruneLocked(now);
      if id !in jobs { return None; }
      return Some(jobs[id].Copy());
    }

    /** execute, first critical section: the unchecked lookup of the goroutine's own job. */
    method CallerOf(id: int) returns (caller: int)
      requires Valid() && id in jobs
      ensures caller == Current().jobs[id].caller
    {
      return jobs[id].caller;
    }

    /** execute, last critical section. */
    method Finish(id: int, outcome: Outcome, now: int)
      requires Valid() && id in jobs && jobs[id].state.Running?
      modifies this`running, jobs[id]
      ensures Valid()
      ensures Current() == Ended(old(Current()), id, old(jobs[id].source), outcome, now)
    {
      EndedFits(Current(), id, outcome, now);
      hide RunningFits, Finished;
      var j := jobs[id];
      j.Finish(outcome, now);
      running := running - {j.source};
      forall k | k in jobs && k != id ensures jobs[k].Copy() == old(jobs[k].Copy()) {
        assert jobs[k] != j;
      }
      assert Copies(jobs) == old(Copies(jobs))[id := j.Copy()];
    }
  }

  lemma RunningIsFound(r: Registry, source: int)
    requires RunningFits(r) && source in r.running
    ensures r.running[source] in r.jobs
    ensures r.jobs[r.running[source]].source == source && r.jobs[r.running[source]].state.Running?
  {
  }

  lemma FreshId(r: Registry, id: int)
    requires RunningFits(r) && id > r.nextId
    ensures id !in r.jobs
  {
  }

  lemma EndedFits(r: Registry, id: int, o: Outcome, now: int)
    requires RunningFits(r) && id in r.jobs && r.jobs[id].state.Running?
    ensures RunningFits(Ended(r, id, r.jobs[id].source, o, now))
  {
  }
}
