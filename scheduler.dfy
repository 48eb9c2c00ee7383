/**
 * The job scheduler: a table from job class to job state. `Schedule`
 * registers a job after, recursively, registering its prerequisites;
 * `SetState` overwrites the state of a registered job; the queries read the
 * table.
 */
module Scheduling {
  import opened Wrappers

  /** A job is named by its implementing class. */
  type JobClass = string

  datatype JobState = Waiting | Ready | Running | Finished | Failed

  /** `rank` strictly decreases from a job to each of its prerequisites, so the prerequisite graph has no cycle. */
  ghost predicate Acyclic(prerequisites: JobClass -> set<JobClass>, rank: JobClass -> nat)
  {
    forall j, p :: p in prerequisites(j) ==> rank(p) < rank(j)
  }

  /** The state a newly registered job starts in. */
  function InitialState(prereqs: set<JobClass>): JobState
  {
    if |prereqs| == 0 then Ready else Waiting
  }

  predicate Pending(s: JobState)
  {
    s == Ready || s == Waiting || s == Running
  }

  class Scheduler {
    var jobs: map<JobClass, JobState>
    /** `jobClass.newInstance().getPrerequisites()`. */
    const prerequisites: JobClass -> set<JobClass>
    ghost const rank: JobClass -> nat

    /** The prerequisite graph is acyclic, and every registered job's prerequisites are registered. */
    ghost predicate Valid()
      reads this
    {
      && Acyclic(prerequisites, rank)
      && forall j, p {:trigger p in prerequisites(j), j in jobs} :: j in jobs && p in prerequisites(j) ==> p in jobs
    }

    /** `j` and every job reachable from it through prerequisites. */
    ghost function Reach(j: JobClass): set<JobClass>
      requires Acyclic(prerequisites, rank)
      decreases rank(j), 1
    {
      {j} + ReachFrom(prerequisites(j), rank(j))
    }

    /** Everything reachable from the jobs in `ps`, all of which rank below `bound`. */
    ghost function ReachFrom(ps: set<JobClass>, bound: nat): set<JobClass>
      requires Acyclic(prerequisites, rank)
      requires forall p :: p in ps ==> rank(p) < bound
      decreases bound, 0, ps
    {
      if ps == {} then {}
      else
        var p :| p in ps;
        Reach(p) + ReachFrom(ps - {p}, bound)
    }

    lemma ReachUnfold(j: JobClass)
      requires Acyclic(prerequisites, rank)
      ensures Reach(j) == {j} + ReachFrom(prerequisites(j), rank(j))
    {
    }

    /** A job is reachable from `ps` exactly when it is reachable from one of them. */
    lemma {:induction false} ReachFromMembers(ps: set<JobClass>, bound: nat, k: JobClass)
      requires Acyclic(prerequisites, rank)
      requires forall p :: p in ps ==> rank(p) < bound
      ensures k in ReachFrom(ps, bound) <==> exists p :: p in ps && k in Reach(p)
      decreases ps
    {
      if ps != {} {
        var p :| p in ps && ReachFrom(ps, bound) == Reach(p) + ReachFrom(ps - {p}, bound);
        ReachFromMembers(ps - {p}, bound, k);
      }
    }

    lemma ReachFromAdd(ps: set<JobClass>, c: JobClass, bound: nat)
      requires Acyclic(prerequisites, rank)
      requires forall p :: p in ps + {c} ==> rank(p) < bound
      ensures ReachFrom(ps + {c}, bound) == ReachFrom(ps, bound) + Reach(c)
    {
      forall k
        ensures k in ReachFrom(ps + {c}, bound) <==> k in ReachFrom(ps, bound) + Reach(c)
      {
        ReachFromMembers(ps + {c}, bound, k);
        ReachFromMembers(ps, bound, k);
      }
    }

    lemma ReachFromContains(ps: set<JobClass>, bound: nat)
      requires Acyclic(prerequisites, rank)
      requires forall p :: p in ps ==> rank(p) < bound
      ensures ps <= ReachFrom(ps, bound)
    {
      forall p | p in ps
        ensures p in ReachFrom(ps, bound)
      {
        ReachUnfold(p);
        ReachFromMembers(ps, bound, p);
      }
    }

    lemma {:induction false} ReachBelow(j: JobClass, k: JobClass)
      requires Acyclic(prerequisites, rank)
      requires k in Reach(j)
      ensures rank(k) <= rank(j)
      decreases rank(j)
    {
      if k != j {
        ReachUnfold(j);
        ReachFromMembers(prerequisites(j), rank(j), k);
        var p :| p in prerequisites(j) && k in Reach(p);
        ReachBelow(p, k);
      }
    }

    /** The reach of `j` is closed under prerequisites: it holds every prerequisite of every job in it. */
    lemma {:induction false} ReachClosed(j: JobClass, k: JobClass, p: JobClass)
      requires Acyclic(prerequisites, rank)
      requires k in Reach(j) && p in prerequisites(k)
      ensures p in Reach(j)
      decreases rank(j)
    {
      ReachUnfold(j);
      if k == j {
        ReachUnfold(p);
        ReachFromMembers(prerequisites(j), rank(j), p);
      } else {
        ReachFromMembers(prerequisites(j), rank(j), k);
        var q :| q in prerequisites(j) && k in Reach(q);
        ReachClosed(q, k, p);
        ReachFromMembers(prerequisites(j), rank(j), p);
      }
    }

    /** The registered jobs are closed under prerequisites, so whatever a registered job reaches is registered. */
    lemma {:induction false} ReachRegistered(j: JobClass)
      requires Valid()
      requires j in jobs
      ensures Reach(j) <= jobs.Keys
      decreases rank(j)
    {
      ReachUnfold(j);
      forall k | k in ReachFrom(prerequisites(j), rank(j))
        ensures k in jobs
      {
        ReachFromMembers(prerequisites(j), rank(j), k);
        var p :| p in prerequisites(j) && k in Reach(p);
        ReachRegistered(p);
      }
    }

    /** Once the prerequisites' reach has been registered, registering `j` completes the reach of `j`. */
    lemma RegisteredAfterPrerequisites(before: set<JobClass>, now: set<JobClass>, j: JobClass)
      requires Acyclic(prerequisites, rank)
      requires now == before + ReachFrom(prerequisites(j), rank(j))
      ensures prerequisites(j) <= now
      ensures now + {j} == before + Reach(j)
    {
      ReachFromContains(prerequisites(j), rank(j));
      ReachUnfold(j);
    }

    /** Registering `j` once the reach of its prerequisites is registered completes the reach of `j` and keeps the registered jobs closed under prerequisites. */
    lemma RegisteredLast(orig: map<JobClass, JobState>, registered: map<JobClass, JobState>, after: map<JobClass, JobState>, j: JobClass)
      requires Acyclic(prerequisites, rank)
      requires registered.Keys == orig.Keys + ReachFrom(prerequisites(j), rank(j))
      requires forall k, p {:trigger p in prerequisites(k), k in registered} :: k in registered && p in prerequisites(k) ==> p in registered
      requires after == registered[j := InitialState(prerequisites(j))]
      ensures after.Keys == orig.Keys + Reach(j)
      ensures forall k, p {:trigger p in prerequisites(k), k in after} :: k in after && p in prerequisites(k) ==> p in after
    {
      RegisteredAfterPrerequisites(orig.Keys, registered.Keys, j);
      assert after.Keys == registered.Keys + {j};
    }

    /** One turn of the loop in `Register`: scheduling prerequisite `c` extends the registered reach by that of `c`, and never registers `j`. */
    lemma PrerequisiteRegistered(orig: set<JobClass>, before: set<JobClass>, after: set<JobClass>,
                                 done: set<JobClass>, c: JobClass, j: JobClass)
      requires Acyclic(prerequisites, rank)
      requires c in prerequisites(j) && done <= prerequisites(j)
      requires j !in before
      requires before == orig + ReachFrom(done, rank(j))
      requires after == before + Reach(c)
      ensures j !in after
      ensures after == orig + ReachFrom(done + {c}, rank(j))
    {
      if j in Reach(c) {
        ReachBelow(c, j);
      }
      ReachFromAdd(done, c, rank(j));
    }

    constructor (prerequisites: JobClass -> set<JobClass>, ghost rank: JobClass -> nat)
      requires Acyclic(prerequisites, rank)
      ensures Valid()
      ensures this.prerequisites == prerequisites && this.rank == rank
      ensures jobs == map[]
    {
      this.prerequisites := prerequisites;
      this.rank := rank;
      jobs := map[];
    }

    /**
     * Registers `j` and whatever it reaches that is not yet registered, each
     * new job starting `Ready` without prerequisites and `Waiting` with some.
     * Returns whether `j` itself was new; jobs already registered keep their state.
     */
    method Schedule(j: JobClass) returns (added: bool)
      requires Valid()
      modifies this
      ensures Valid()
      ensures added <==> j !in old(jobs)
      ensures !added ==> jobs == old(jobs)
      ensures jobs.Keys == old(jobs).Keys + Reach(j)
      ensures forall k :: k in old(jobs) ==> jobs[k] == old(jobs)[k]
      ensures forall k :: k in jobs && k !in old(jobs) ==> jobs[k] == InitialState(prerequisites(k))
      decreases rank(j), 1
    {
      if j in jobs {
        ReachRegistered(j);
        assert jobs.Keys + Reach(j) == jobs.Keys;
        return false;
      }
      RegisterPrerequisites(j);
      ghost var registered := jobs;
      jobs := jobs[j := InitialState(prerequisites(j))];
      RegisteredLast(old(jobs), registered, jobs, j);
      return true;
    }

    /** The recursion of `Schedule`: schedule every prerequisite of the job `j`, which stays unregistered. */
    method RegisterPrerequisites(j: JobClass)
      requires Valid()
      requires j !in jobs
      modifies this
      ensures Valid()
      ensures j !in jobs
      ensures jobs.Keys == old(jobs).Keys + ReachFrom(prerequisites(j), rank(j))
      ensures forall k :: k in old(jobs) ==> jobs[k] == old(jobs)[k]
      ensures forall k :: k in jobs && k !in old(jobs) ==> jobs[k] == InitialState(prerequisites(k))
      decreases rank(j), 0
    {
      var todo := prerequisites(j);
      ghost var done: set<JobClass> := {};
      while todo != {}
        invariant Valid()
        invariant done + todo == prerequisites(j) && done !! todo
        invariant j !in jobs
        invariant jobs.Keys == old(jobs).Keys + ReachFrom(done, rank(j))
        invariant forall k :: k in old(jobs) ==> jobs[k] == old(jobs)[k]
        invariant forall k :: k in jobs && k !in old(jobs) ==> jobs[k] == InitialState(prerequisites(k))
        decreases todo
      {
        var c :| c in todo;
        ghost var before := jobs;
        var _ := Schedule(c);
        PrerequisiteRegistered(old(jobs).Keys, before.Keys, jobs.Keys, done, c, j);
        done := done + {c};
        todo := todo - {c};
      }
      assert done == prerequisites(j);
    }

    /** Overwrites the state of a registered job; an unregistered job is refused and nothing changes. */
    method SetState(j: JobClass, state: JobState) returns (ok: bool)
      requires Valid()
      modifies this
      ensures Valid()
      ensures ok <==> j in old(jobs)
      ensures jobs == if ok then old(jobs)[j := state] else old(jobs)
    {
      if j in jobs {
        jobs := jobs[j := state];
        return true;
      }
      return false;
    }

    /** The stored state, or `None` (Java's `null`) for an unregistered job. */
    function GetState(j: JobClass): (r: Option<JobState>)
      reads this
      ensures r.Some? <==> j in jobs
      ensures r.Some? ==> r.value == jobs[j]
    {
      if j in jobs then Some(jobs[j]) else None
    }

    function IsScheduled(j: JobClass): (r: bool)
      reads this
      ensures r <==> j in jobs
      ensures r <==> GetState(j).Some?
    {
      j in jobs
    }

    /** Exactly the registered jobs whose state is `state`. */
    method GetClassesByState(state: JobState) returns (result: set<JobClass>)
      ensures result == set c | c in jobs && jobs[c] == state
    {
      result := {};
      var rest := jobs.Keys;
      while rest != {}
        invariant rest <= jobs.Keys
        invariant result == set c | c in jobs.Keys - rest && jobs[c] == state
        decreases rest
      {
        var c :| c in rest;
        if jobs[c] == state {
          result := result + {c};
        }
        rest := rest - {c};
      }
    }

    /** Some registered job is still `Ready`, `Waiting` or `Running`. */
    method NotFinished() returns (r: bool)
      ensures r <==> exists c :: c in jobs && Pending(jobs[c])
    {
      var rest := jobs.Keys;
      while rest != {}
        invariant rest <= jobs.Keys
        invariant forall c :: c in jobs.Keys - rest ==> !Pending(jobs[c])
        decreases rest
      {
        var c :| c in rest;
        if Pending(jobs[c]) {
          return true;
        }
        rest := rest - {c};
      }
      return false;
    }
  }

  /** Scheduling a job with prerequisites A and B registers all three; scheduling it again is refused. */
  method ScheduleTwice()
  {
    var prereqs := (j: JobClass) => if j == "Count" then {"A", "B"} else {};
    var s := new Scheduler(prereqs, (j: JobClass) => if j == "Count" then 1 else 0);
    var first := s.Schedule("Count");
    assert "A" in s.prerequisites("Count") && "A" in s.Reach("A");
    assert "B" in s.prerequisites("Count") && "B" in s.Reach("B");
    assert s.IsScheduled("A") && s.IsScheduled("B") && s.IsScheduled("Count");
    assert s.GetState("A") == Some(Ready) && s.GetState("Count") == Some(Waiting);
    ghost var after := s.jobs;
    var second := s.Schedule("Count");
    assert first && !second && s.jobs == after;
    var pending := s.NotFinished();
    assert pending;
  }
}
