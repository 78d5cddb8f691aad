/** Sync jobs and the registry that holds them. Jobs end in the background, even while the registry is being scanned. */
module Jobs {
  import opened Wrappers

  datatype Status = Running | Done | Error

  /** What a job goes through, in order. */
  datatype Event = Progress(step: nat, total: nat) | Linked(account: nat) | Ended(ok: bool)

  class Job {
    const clientKey: string
    const createdAt: int
    var status: Status
    var step: nat
    var total: nat
    var matched: nat
    var finishedAt: Option<int>
    ghost var log: seq<Event>

    /** A job is stamped exactly when it has ended. */
    ghost predicate Stamped()
      reads this
    {
      status != Running <==> finishedAt.Some?
    }

    constructor (clientKey: string, createdAt: int)
      ensures this.clientKey == clientKey && this.createdAt == createdAt
      ensures status == Running && step == 0 && total == 0 && matched == 0 && finishedAt == None && log == []
    {
      this.clientKey, this.createdAt := clientKey, createdAt;
      status, step, total, matched, finishedAt, log := Running, 0, 0, 0, None, [];
    }

    method SetProgress(step: nat, total: nat)
      modifies this`step, this`total, this`log
      ensures this.step == step && this.total == total && log == old(log) + [Progress(step, total)]
    {
      this.step, this.total := step, total;
      log := log + [Progress(step, total)];
    }

    method Finish(now: int)
      modifies this`status, this`step, this`finishedAt, this`log
      ensures status == Done && step == total && finishedAt == Some(now) && log == old(log) + [Ended(true)]
    {
      status, step, finishedAt := Done, total, Some(now);
      log := log + [Ended(true)];
    }

    method Fail(now: int)
      modifies this`status, this`finishedAt, this`log
      ensures status == Error && finishedAt == Some(now) && log == old(log) + [Ended(false)]
    {
      status, finishedAt := Error, Some(now);
      log := log + [Ended(false)];
    }

    method LinkAccount(id: nat)
      modifies this`matched, this`log
      ensures matched == id && log == old(log) + [Linked(id)]
    {
      matched := id;
      log := log + [Linked(id)];
    }
  }

  /** From then to now these jobs only moved on: an ended job is as it was, and none came back to life. */
  twostate predicate MovedOn(jobs: map<string, Job>)
    reads jobs.Values
  {
    forall id | id in jobs ::
      && (old(jobs[id].status) != Running ==> jobs[id].status == old(jobs[id].status) && jobs[id].finishedAt == old(jobs[id].finishedAt))
      && (old(jobs[id].Stamped()) ==> jobs[id].Stamped())
  }

  /** Registered jobs are stamped, and at most one of each known client is running. */
  ghost predicate Good(jobs: map<string, Job>)
    reads jobs.Values
  {
    && (forall a | a in jobs :: jobs[a].Stamped())
    && (forall a, b | a in jobs && b in jobs && a != b && jobs[a].clientKey != "" && jobs[a].clientKey == jobs[b].clientKey ::
          jobs[a].status != Running || jobs[b].status != Running)
  }

  /** Other goroutines get their turn: any number of running jobs end, one way or the other. */
  method OthersRun(jobs: map<string, Job>)
    modifies jobs.Values
    ensures MovedOn(jobs) && (old(Good(jobs)) ==> Good(jobs))
  {
    var ending: set<string> :| ending <= jobs.Keys;
    while ending != {}
      invariant ending <= jobs.Keys
      invariant MovedOn(jobs) && (old(Good(jobs)) ==> Good(jobs))
      decreases ending
    {
      var id :| id in ending;
      ending := ending - {id};
      var j := jobs[id];
      if j.status == Running {
        var now, ok := *, *;
        if ok {
          j.Finish(now);
        } else {
          j.Fail(now);
        }
      }
    }
  }

  lemma GoodSubset(all: map<string, Job>, some: map<string, Job>)
    requires Good(all) && some.Keys <= all.Keys && forall id | id in some :: some[id] == all[id]
    ensures Good(some) && |some| <= |all|
  {
    assert all.Keys == some.Keys + (all.Keys - some.Keys);
  }

  lemma GoodWithout(jobs: map<string, Job>, id: string)
    requires Good(jobs) && id in jobs
    ensures Good(jobs - {id}) && |jobs - {id}| == |jobs| - 1
  {
    GoodSubset(jobs, jobs - {id});
    assert jobs.Keys == (jobs - {id}).Keys + {id};
  }

  lemma GoodPlus(jobs: map<string, Job>, id: string, j: Job)
    requires Good(jobs) && id !in jobs && j.Stamped()
    requires j.clientKey != "" ==> forall x | x in jobs && jobs[x].clientKey == j.clientKey :: jobs[x].status != Running
    ensures Good(jobs[id := j])
  {
  }

  class JobRegistry {
    var jobs: map<string, Job>
    const maxJobs: nat
    const ttl: nat

    constructor (maxJobs: nat, ttl: nat)
      requires maxJobs > 0
      ensures Valid() && jobs == map[] && this.maxJobs == maxJobs && this.ttl == ttl
    {
      this.maxJobs, this.ttl := maxJobs, ttl;
      jobs := map[];
    }

    ghost predicate Valid()
      reads this, jobs.Values
    {
      0 < maxJobs && |jobs| <= maxJobs && Good(jobs)
    }

    /** What every operation keeps: the size cap, one running job per known client, and a stamp on exactly the ended jobs. */
    lemma ValidMeans(a: string, b: string)
      requires Valid() && a in jobs && b in jobs
      ensures |jobs| <= maxJobs
      ensures a != b && jobs[a].clientKey == jobs[b].clientKey != "" ==> !(jobs[a].status == Running && jobs[b].status == Running)
      ensures jobs[a].status == Running <==> jobs[a].finishedAt.None?
    {
    }

    /** Scans the jobs in any order; others end meanwhile. A job seen running was running when the scan began. */
    method HasRunningFor(clientKey: string) returns (found: bool)
      requires Valid()
      modifies jobs.Values
      ensures Valid() && MovedOn(jobs)
      ensures found ==> exists id | id in jobs :: old(jobs[id].status) == Running && jobs[id].clientKey == clientKey
      ensures !found ==> forall id | id in jobs && jobs[id].clientKey == clientKey :: jobs[id].status != Running
    {
      var todo := jobs.Keys;
      while todo != {}
        invariant todo <= jobs.Keys
        invariant MovedOn(jobs) && Good(jobs)
        invariant forall id | id in jobs && id !in todo && jobs[id].clientKey == clientKey :: jobs[id].status != Running
        decreases todo
      {
        OthersRun(jobs);
        var id :| id in todo;
        todo := todo - {id};
        if jobs[id].status == Running && jobs[id].clientKey == clientKey {
          return true;
        }
      }
      found := false;
    }

    /**
     Scans for the oldest job that is not running. seen holds the ids the scan found
     ended: all that were ended when it began, and none that are still running now.
     */
    method OldestFinished() returns (oldest: Option<string>, ghost seen: set<string>)
      requires Valid()
      modifies jobs.Values
      ensures Valid() && MovedOn(jobs)
      ensures seen <= jobs.Keys
      ensures forall id | id in jobs :: old(jobs[id].status) != Running ==> id in seen
      ensures forall id | id in seen :: jobs[id].status != Running
      ensures oldest.None? ==> seen == {}
      ensures oldest.Some? ==> oldest.value in seen
      ensures oldest.Some? ==> forall id | id in seen :: jobs[oldest.value].createdAt <= jobs[id].createdAt
    {
      oldest, seen := None, {};
      var todo := jobs.Keys;
      while todo != {}
        invariant todo <= jobs.Keys
        invariant MovedOn(jobs) && Good(jobs)
        invariant seen <= jobs.Keys - todo
        invariant forall id | id in jobs && id !in todo :: old(jobs[id].status) != Running ==> id in seen
        invariant forall id | id in seen :: jobs[id].status != Running
        invariant oldest.None? ==> seen == {}
        invariant oldest.Some? ==> oldest.value in seen
        invariant oldest.Some? ==> forall id | id in seen :: jobs[oldest.value].createdAt <= jobs[id].createdAt
        decreases todo
      {
        OthersRun(jobs);
        var id :| id in todo;
        todo := todo - {id};
        if jobs[id].status != Running {
          seen := seen + {id};
          if oldest.None? || jobs[id].createdAt < jobs[oldest.value].createdAt {
            oldest := Some(id);
          }
        }
      }
    }

    /** Takes jobs out of the registry; the jobs themselves are left alone. */
    method Drop(ids: set<string>)
      requires Valid() && ids <= jobs.Keys
      modifies this`jobs
      ensures Valid() && jobs == old(jobs) - ids && |jobs| == |old(jobs)| - |ids|
    {
      GoodSubset(jobs, jobs - ids);
      assert jobs.Keys == (jobs - ids).Keys + ids;
      jobs := jobs - ids;
    }

    /** Evicts exactly one job, seen ended and oldest among those seen ended; false when all were seen running. */
    method EvictOldestFinished() returns (evicted: Option<string>, ghost seen: set<string>)
      requires Valid()
      modifies this`jobs, jobs.Values
      ensures Valid() && MovedOn(old(jobs))
      ensures seen <= old(jobs).Keys
      ensures forall id | id in old(jobs) :: old(jobs[id].status) != Running ==> id in seen
      ensures forall id | id in seen :: old(jobs)[id].status != Running
      ensures evicted.None? ==> seen == {} && jobs == old(jobs)
      ensures evicted.Some? ==> evicted.value in seen && jobs == old(jobs) - {evicted.value} && |jobs| < |old(jobs)|
      ensures evicted.Some? ==> forall id | id in seen :: old(jobs)[evicted.value].createdAt <= old(jobs)[id].createdAt
    {
      evicted, seen := OldestFinished();
      if evicted.Some? {
        Drop({evicted.value});
      }
    }

    /** No job of this client is running; a blank key stands for nobody. */
    ghost predicate Idle(clientKey: string)
      reads this, jobs.Values
    {
      clientKey != "" ==> forall x | x in jobs && jobs[x].clientKey == clientKey :: jobs[x].status != Running
    }

    /** Makes sure there is room for one more job, evicting when full; refuses when every job was running. */
    method MakeRoom(ghost clientKey: string) returns (ok: bool, ghost victim: Option<string>)
      requires Valid() && Idle(clientKey)
      modifies this`jobs, jobs.Values
      ensures Valid() && MovedOn(old(jobs)) && Idle(clientKey)
      ensures !ok ==> |old(jobs)| == maxJobs && forall x | x in old(jobs) :: old(jobs[x].status) == Running
      ensures ok ==> |jobs| < maxJobs
      ensures !ok ==> victim.None?
      ensures jobs == if victim.Some? then old(jobs) - {victim.value} else old(jobs)
      ensures victim.Some? ==> |old(jobs)| == maxJobs && victim.value in old(jobs) && old(jobs)[victim.value].status != Running
      ensures victim.Some? ==> forall x | x in old(jobs) ::
        old(jobs[x].status) != Running ==> old(jobs)[victim.value].createdAt <= old(jobs)[x].createdAt
    {
      ok, victim := true, None;
      if |jobs| >= maxJobs {
        var evicted;
        ghost var seen;
        evicted, seen := EvictOldestFinished();
        ok, victim := evicted.Some?, evicted;
      }
    }

    /**
     Registers a running job. It refuses only when a job of the same client, or every
     job of a full registry, was running when it was called; what it evicts had ended
     and is no younger than any job that had ended by then.
     */
    method Create(clientKey: string, id: string, now: int) returns (j: Job?, ghost victim: Option<string>)
      requires Valid() && id !in jobs
      modifies this`jobs, jobs.Values
      ensures Valid() && MovedOn(old(jobs))
      ensures j == null ==> jobs == old(jobs)
      ensures j == null ==>
        || (clientKey != "" && exists x | x in old(jobs) :: old(jobs[x].status) == Running && old(jobs)[x].clientKey == clientKey)
        || (|old(jobs)| == maxJobs && forall x | x in old(jobs) :: old(jobs[x].status) == Running)
      ensures j != null ==> fresh(j) && j.status == Running && j.clientKey == clientKey && j.createdAt == now && j.log == []
      ensures j != null ==> jobs == (if victim.Some? then old(jobs) - {victim.value} else old(jobs))[id := j]
      ensures victim.Some? ==> |old(jobs)| == maxJobs && victim.value in old(jobs) && old(jobs)[victim.value].status != Running
      ensures victim.Some? ==> forall x | x in old(jobs) ::
        old(jobs[x].status) != Running ==> old(jobs)[victim.value].createdAt <= old(jobs)[x].createdAt
    {
      j, victim := null, None;
      if clientKey != "" {
        var busy := HasRunningFor(clientKey);
        if busy {
          return;
        }
      }
      var ok;
      ok, victim := MakeRoom(clientKey);
      if ok {
        j := Register(clientKey, id, now);
      }
    }

    method Register(clientKey: string, id: string, now: int) returns (j: Job)
      requires Valid() && Idle(clientKey) && |jobs| < maxJobs && id !in jobs
      modifies this`jobs
      ensures Valid() && fresh(j) && jobs == old(jobs)[id := j]
      ensures j.status == Running && j.clientKey == clientKey && j.createdAt == now && j.log == []
    {
      j := new Job(clientKey, now);
      GoodPlus(jobs, id, j);
      jobs := jobs[id := j];
    }

    method Delete(id: string)
      requires Valid()
      modifies this`jobs
      ensures Valid() && jobs == old(jobs) - {id}
    {
      if id in jobs {
        GoodWithout(jobs, id);
      }
      jobs := jobs - {id};
    }

    /** Ended more than ttl ago, or alive for over twice that. */
    predicate Stale(finishedAt: Option<int>, createdAt: int, now: int) {
      (finishedAt.Some? && now - finishedAt.value > ttl) || now - createdAt > 2 * ttl
    }

    /** Scans for stale jobs while others keep ending. */
    method FindStale(now: int) returns (gone: set<string>)
      requires Valid()
      modifies jobs.Values
      ensures Valid() && MovedOn(jobs) && gone <= jobs.Keys
      ensures forall id | id in jobs && id !in gone :: !Stale(old(jobs[id].finishedAt), jobs[id].createdAt, now)
      ensures forall id | id in gone :: Stale(jobs[id].finishedAt, jobs[id].createdAt, now)
      ensures forall id | id in jobs && now - jobs[id].createdAt > 2 * ttl :: id in gone
      ensures forall id | id in jobs && old(jobs[id].finishedAt).Some? && now - old(jobs[id].finishedAt).value > ttl :: id in gone
      ensures forall id | id in gone && now - jobs[id].createdAt <= 2 * ttl ::
        jobs[id].status != Running && jobs[id].finishedAt.Some? && now - jobs[id].finishedAt.value > ttl
    {
      var todo := jobs.Keys;
      gone := {};
      while todo != {}
        invariant todo <= jobs.Keys && gone <= jobs.Keys - todo
        invariant MovedOn(jobs) && Good(jobs)
        invariant forall id | id in jobs && id !in todo && id !in gone :: !Stale(old(jobs[id].finishedAt), jobs[id].createdAt, now)
        invariant forall id | id in gone :: Stale(jobs[id].finishedAt, jobs[id].createdAt, now)
        decreases todo
      {
        OthersRun(jobs);
        var id :| id in todo;
        todo := todo - {id};
        if Stale(jobs[id].finishedAt, jobs[id].createdAt, now) {
          gone := gone + {id};
        }
      }
    }

    /**
     Sweeps while jobs keep ending; the registry's lock is held, so the deletions show
     together. What goes is stale, what was stale at the start goes, and what is left is
     at most 2*ttl old.
     */
    method Sweep(now: int)
      requires Valid()
      modifies this`jobs, jobs.Values
      ensures Valid() && MovedOn(old(jobs))
      ensures forall id | id in jobs :: id in old(jobs) && jobs[id] == old(jobs)[id]
      ensures forall id | id in jobs :: now - jobs[id].createdAt <= 2 * ttl
      ensures forall id | id in jobs :: !Stale(old(jobs[id].finishedAt), jobs[id].createdAt, now)
      ensures forall id | id in old(jobs) && id !in jobs :: Stale(old(jobs)[id].finishedAt, old(jobs)[id].createdAt, now)
      ensures forall id | id in jobs && old(jobs[id].finishedAt).Some? :: now - old(jobs[id].finishedAt).value <= ttl
      ensures forall id | id in old(jobs) && now - old(jobs)[id].createdAt <= 2 * ttl && old(jobs)[id].status == Running :: id in jobs
      ensures forall id | id in old(jobs) && now - old(jobs)[id].createdAt <= 2 * ttl && old(jobs)[id].finishedAt.Some?
        && now - old(jobs)[id].finishedAt.value <= ttl :: id in jobs
    {
      var gone := FindStale(now);
      Drop(gone);
    }
  }
}
