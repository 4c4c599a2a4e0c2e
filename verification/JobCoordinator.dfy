/** The job coordinator object; its sweeps are sweeps in the sense of `Distribution.Sweeps`. */
module JobCoordination {
  import opened Common
  import opened Distribution
  import opened SweepProofs
  import opened LoadLimits

  /** Every turn of one pass over `jobs`, each job once. */
  ghost predicate Pass(turns: seq<Turn>, fromActive: bool, jobs: set<JobId>) {
    && (forall i :: 0 <= i < |turns| ==> turns[i].fromActive == fromActive && turns[i].job in jobs)
    && Distinct(turns)
    && (forall j :: j in jobs ==> Visited(turns, j))
  }

  lemma ChainSnoc(d: Dist, turns: seq<Turn>, t: Turn, now: nat)
    requires Chain(d, turns, now, t.before) && t.Ok()
    ensures Chain(d, turns + [t], now, t.After(now))
    ensures HandedOver(turns + [t]) == HandedOver(turns) + if t.choice.Some? then [t.job] else []
  {
    assert (turns + [t])[..|turns|] == turns;
  }

  lemma {:induction false} ChainConcat(d: Dist, a: seq<Turn>, b: seq<Turn>, now: nat, e: Dist, d': Dist)
    requires Chain(d, a, now, e) && Chain(e, b, now, d')
    ensures Chain(d, a + b, now, d')
    ensures HandedOver(a + b) == HandedOver(a) + HandedOver(b)
  {
    if b == [] {
      assert a + b == a;
    } else {
      var n := |b| - 1;
      ChainConcat(d, a, b[..n], now, e, b[n].before);
      assert (a + b)[..|a + b| - 1] == a + b[..n];
    }
  }

  lemma PassesVisit(a: seq<Turn>, b: seq<Turn>, d: Dist, sel: Selector)
    requires Pass(a, false, Selected(d.pending, sel)) && Pass(b, true, Selected(d.active, sel))
    ensures Visits(a + b, d, sel)
  {
    var all := a + b;
    forall j | j in Selected(d.pending, sel) ensures exists i :: 0 <= i < |all| && !all[i].fromActive && all[i].job == j {
      var i :| 0 <= i < |a| && a[i].job == j;
      assert all[i] == a[i];
    }
    forall j | j in Selected(d.active, sel) ensures exists i :: 0 <= i < |all| && all[i].fromActive && all[i].job == j {
      var i :| 0 <= i < |b| && b[i].job == j;
      assert all[|a| + i] == b[i];
    }
  }

  lemma PassSnoc(turns: seq<Turn>, fromActive: bool, jobs: set<JobId>, t: Turn)
    requires Pass(turns, fromActive, jobs) && t.fromActive == fromActive && t.job !in jobs
    ensures Pass(turns + [t], fromActive, jobs + {t.job})
  {
    var ext := turns + [t];
    forall j | j in jobs + {t.job} ensures Visited(ext, j) {
      if j == t.job {
        assert ext[|turns|].job == j;
      } else {
        var i :| 0 <= i < |turns| && turns[i].job == j;
        assert ext[i].job == j;
      }
    }
  }

  class JobCoordinator {
    var validators: map<ValidatorId, Capacity>
    var pendingAssignments: Assignments
    var activeAssignments: Assignments

    ghost function Value(): Dist
      reads this
    {
      Dist(validators, pendingAssignments, activeAssignments)
    }

    constructor ()
      ensures Value() == Dist(map[], map[], map[])
    {
      validators, pendingAssignments, activeAssignments := map[], map[], map[];
    }

    method UpdateValidatorCapacity(announcement: Capacity)
      modifies this
      ensures Value() == old(Value()).(validators := old(validators)[announcement.validatorId := announcement])
      ensures forall now :: Outcome(old(Value()), Announce(announcement), now, Value())
    {
      validators := validators[announcement.validatorId := announcement];
    }

    method RemoveValidator(v: ValidatorId)
      modifies this
      ensures Value() == old(Value()).(validators := old(validators) - {v})
      ensures forall now :: Outcome(old(Value()), Withdraw(v), now, Value())
    {
      validators := validators - {v};
    }

    /**
     Gives a new job to a validator that announced spare capacity, with the least announced load
     factor, or to nobody when nobody did.
     */
    method AssignJob(job: JobId, now: nat) returns (r: Option<Assignment>)
      modifies this
      ensures r.None? ==> Value() == old(Value()) && forall v :: v in validators ==> !validators[v].HasCapacity()
      ensures r.Some? ==>
                && Assignable(validators, r.value.validatorId)
                && Value() == Assigned(old(Value()), job, r.value.validatorId, now)
                && r.value == pendingAssignments[job]
      ensures r.Some? ==> Outcome(old(Value()), Assign(job, r.value.validatorId), now, Value())
      ensures r.None? ==> forall v :: Outcome(old(Value()), Assign(job, v), now, Value())
    {
      hide Capacity.LoadFactor;
      var todo := validators.Keys;
      var best: Option<ValidatorId> := None;
      while todo != {}
        invariant todo <= validators.Keys
        invariant best.None? ==> forall v :: v in validators && v !in todo ==> !validators[v].HasCapacity()
        invariant best.Some? ==>
                    && best.value in validators && validators[best.value].HasCapacity()
                    && forall v :: v in validators && v !in todo && validators[v].HasCapacity() ==>
                         validators[best.value].LoadFactor() <= validators[v].LoadFactor()
        decreases |todo|
      {
        var v :| v in todo;
        if validators[v].HasCapacity() {
          if best.None? || validators[v].LoadFactor() < validators[best.value].LoadFactor() {
            best := Some(v);
          }
        }
        todo := todo - {v};
      }
      if best.None? {
        return None;
      }
      var assignment := Assignment(job, validators[best.value].validatorId, now, now + DEFAULT_JOB_TIMEOUT_SECS, 0);
      pendingAssignments := pendingAssignments[job := assignment];
      assert LeastLoaded(validators, best.value) && validators[best.value].validatorId == assignment.validatorId;
      return Some(assignment);
    }

    method MarkJobFetched(job: JobId)
      modifies this
      ensures Value() == Fetched(old(Value()), job)
      ensures forall now :: Outcome(old(Value()), Fetch(job), now, Value())
    {
      if job in pendingAssignments {
        var assignment := pendingAssignments[job];
        pendingAssignments := pendingAssignments - {job};
        activeAssignments := activeAssignments[job := assignment];
      }
    }

    method RemoveAssignment(job: JobId)
      modifies this
      ensures Value() == old(Value()).(pending := old(pendingAssignments) - {job}, active := old(activeAssignments) - {job})
      ensures forall now :: Outcome(old(Value()), Complete(job), now, Value())
    {
      pendingAssignments := pendingAssignments - {job};
      activeAssignments := activeAssignments - {job};
    }

    /** Looks at every validator, in any order, keeping the least loaded one with room. */
    method FindBest(withActive: bool) returns (best: Option<ValidatorId>)
      ensures Best(Value(), withActive, best)
    {
      hide AssignedTo;
      var todo := validators.Keys;
      best := None;
      var bestLoad: nat := U64_MAX;
      ghost var d := Value();
      while todo != {}
        invariant todo <= validators.Keys
        invariant best.None? ==> bestLoad == U64_MAX && forall v :: v in validators && v !in todo ==> !HasRoom(d, v, withActive)
        invariant best.Some? ==> HasRoom(d, best.value, withActive) && bestLoad == Load(d, best.value, withActive)
        invariant best.Some? ==> forall v :: HasRoom(d, v, withActive) && v !in todo ==> bestLoad <= Load(d, v, withActive)
        decreases |todo|
      {
        var v :| v in todo;
        var currentLoad := |AssignedTo(pendingAssignments, v)| + if withActive then |AssignedTo(activeAssignments, v)| else 0;
        if currentLoad < validators[v].maxConcurrentJobs && currentLoad < bestLoad {
          best, bestLoad := Some(v), currentLoad;
        }
        todo := todo - {v};
      }
    }

    /** One turn of a sweep. */
    method Reassign(fromActive: bool, job: JobId, now: nat) returns (reassigned: bool, ghost turn: Turn)
      requires if fromActive then job in activeAssignments else job in pendingAssignments
      modifies this`pendingAssignments, this`activeAssignments
      ensures turn.before == old(Value()) && turn.fromActive == fromActive && turn.job == job
      ensures turn.Ok() && Value() == turn.After(now)
      ensures reassigned == turn.choice.Some?
    {
      hide Best;
      ghost var before := Value();
      var assignment: Assignment;
      if fromActive {
        assignment := activeAssignments[job];
        activeAssignments := activeAssignments - {job};
      } else {
        assignment := pendingAssignments[job];
        pendingAssignments := pendingAssignments - {job};
      }
      turn := Turn(before, fromActive, job, None);
      assert Value() == turn.Removed();
      reassigned := false;
      if assignment.retryCount < MAX_JOB_RETRIES {
        var best := FindBest(fromActive);
        turn := turn.(choice := best);
        if best.Some? {
          pendingAssignments := pendingAssignments[job := assignment.Retry(best.value, now)];
          reassigned := true;
        }
      }
    }

    /** One pass of a sweep, over the given jobs in any order. */
    method ReassignAll(fromActive: bool, jobs: set<JobId>, now: nat) returns (reassigned: seq<JobId>, ghost turns: seq<Turn>)
      requires jobs <= (if fromActive then activeAssignments else pendingAssignments).Keys
      modifies this`pendingAssignments, this`activeAssignments
      ensures Pass(turns, fromActive, jobs) && Chain(old(Value()), turns, now, Value())
      ensures reassigned == HandedOver(turns)
      ensures !fromActive ==> activeAssignments == old(activeAssignments)
    {
      hide Chain, HandedOver, Best;
      var todo := jobs;
      reassigned, turns := [], [];
      NoTurns(old(Value()), now);
      while todo != {}
        invariant todo <= jobs && todo <= (if fromActive then activeAssignments else pendingAssignments).Keys
        invariant Pass(turns, fromActive, jobs - todo) && Chain(old(Value()), turns, now, Value())
        invariant reassigned == HandedOver(turns)
        invariant !fromActive ==> activeAssignments == old(activeAssignments)
        decreases |todo|
      {
        var job :| job in todo;
        var again;
        ghost var turn;
        again, turn := Reassign(fromActive, job, now);
        PassSnoc(turns, fromActive, jobs - todo, turn);
        ChainSnoc(old(Value()), turns, turn, now);
        if again {
          reassigned := reassigned + [job];
        }
        turns := turns + [turn];
        assert (jobs - todo) + {job} == jobs - (todo - {job});
        todo := todo - {job};
      }
      assert jobs - todo == jobs;
    }

    /** Both passes of a sweep over the assignments that `sel` selects. */
    method SweepSelected(sel: Selector, now: nat) returns (reassigned: seq<JobId>, ghost turns: seq<Turn>)
      modifies this`pendingAssignments, this`activeAssignments
      ensures Sweeps(old(Value()), sel, now, turns, Value())
      ensures reassigned == HandedOver(turns)
    {
      hide Chain, HandedOver, Best, Visits, Pass;
      ghost var before := Value();
      var first, second;
      ghost var turns1, turns2;
      first, turns1 := ReassignAll(false, Selected(pendingAssignments, sel), now);
      ghost var middle := Value();
      second, turns2 := ReassignAll(true, Selected(activeAssignments, sel), now);
      PassesVisit(turns1, turns2, before, sel);
      ChainConcat(before, turns1, turns2, now, middle, Value());
      reassigned, turns := first + second, turns1 + turns2;
    }

    /** Reassigns what has timed out at the clock `now`; nothing timed out is left. */
    method HandleTimeouts(now: nat) returns (reassigned: seq<JobId>, ghost turns: seq<Turn>)
      modifies this`pendingAssignments, this`activeAssignments
      ensures Sweeps(old(Value()), TimedOutAt(now), now, turns, Value())
      ensures Outcome(old(Value()), Timeouts, now, Value())
      ensures reassigned == HandedOver(turns)
      ensures old(Disjoint(Value())) ==>
                && Disjoint(Value()) && NoDuplicates(reassigned)
                && (forall j :: j in pendingAssignments ==> !pendingAssignments[j].IsTimedOut(now))
                && (forall j :: j in activeAssignments ==> !activeAssignments[j].IsTimedOut(now))
      ensures old(WithinLimits(Value()) && NoneRunning(validators, activeAssignments)) ==> WithinLimits(Value())
    {
      hide Sweeps, HandedOver, WithinLimits, NoneRunning;
      reassigned, turns := SweepSelected(TimedOutAt(now), now);
      if old(Disjoint(Value())) {
        TimeoutsHandled(old(Value()), now, turns, Value());
      }
      if old(WithinLimits(Value()) && NoneRunning(validators, activeAssignments)) {
        SweepKeepsLimits(old(Value()), TimedOutAt(now), now, turns, Value());
      }
    }

    /** Forgets a failed validator and reassigns its jobs; the count is the number of jobs handed over. */
    method HandleValidatorFailure(v: ValidatorId, now: nat) returns (count: nat, ghost turns: seq<Turn>)
      modifies this
      ensures Sweeps(old(Value()).(validators := old(validators) - {v}), HeldBy(v), now, turns, Value())
      ensures Outcome(old(Value()), Fail(v), now, Value())
      ensures count == |HandedOver(turns)|
      ensures old(Disjoint(Value())) ==>
                && Disjoint(Value()) && NoDuplicates(HandedOver(turns))
                && (forall j :: j in pendingAssignments ==> pendingAssignments[j].validatorId != v)
                && (forall j :: j in activeAssignments ==> activeAssignments[j].validatorId != v)
      ensures old(WithinLimits(Value()) && NoneRunning(validators, activeAssignments)) ==> WithinLimits(Value())
    {
      hide Sweeps, HandedOver, WithinLimits, NoneRunning;
      RemoveValidator(v);
      ghost var before := Value();
      var reassigned;
      reassigned, turns := SweepSelected(HeldBy(v), now);
      count := |reassigned|;
      if old(Disjoint(Value())) {
        FailureHandled(old(Value()), v, now, turns, Value());
        SweepHandsOverOnce(before, HeldBy(v), now, turns, Value());
      }
      if old(WithinLimits(Value()) && NoneRunning(validators, activeAssignments)) {
        ForgettingKeepsLimits(old(Value()), v);
        SweepKeepsLimits(before, HeldBy(v), now, turns, Value());
      }
    }
  }

  lemma NoTurns(d: Dist, now: nat)
    ensures Chain(d, [], now, d) && HandedOver([]) == []
  {}

  lemma SweepHandsOverOnce(d: Dist, sel: Selector, now: nat, turns: seq<Turn>, d': Dist)
    requires Disjoint(d) && Sweeps(d, sel, now, turns, d')
    ensures NoDuplicates(HandedOver(turns))
  {
    VisitsAreDistinct(turns, d, sel);
    HandedOverOnce(turns);
  }
}
