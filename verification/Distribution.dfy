/**
 The compute layer's job distribution: assignments that wait to be fetched (pending) or have been
 (active), and the two sweeps that hand assignments over, after a timeout or a validator failure.
 */
module Distribution {
  import opened Common

  const DEFAULT_JOB_TIMEOUT_SECS: nat := 300
  const MAX_JOB_RETRIES: nat := 3

  type JobId = string

  type ValidatorId = string

  datatype Capacity = Capacity(validatorId: ValidatorId, cpuCores: nat, memoryMb: nat, maxConcurrentJobs: u64, currentLoad: nat)
  {
    predicate HasCapacity() { currentLoad < maxConcurrentJobs }

    function LoadFactor(): real {
      if maxConcurrentJobs == 0 then 1.0 else currentLoad as real / maxConcurrentJobs as real
    }
  }

  datatype Assignment = Assignment(jobId: JobId, validatorId: ValidatorId, assignedAt: nat, timeoutAt: nat, retryCount: nat)
  {
    predicate IsTimedOut(now: nat) { now >= timeoutAt }

    function Retry(v: ValidatorId, now: nat): Assignment {
      Assignment(jobId, v, now, now + DEFAULT_JOB_TIMEOUT_SECS, retryCount + 1)
    }
  }

  type Assignments = map<JobId, Assignment>

  datatype Dist = Dist(validators: map<ValidatorId, Capacity>, pending: Assignments, active: Assignments)

  // ---- the choice of a validator ----

  function AssignedTo(m: Assignments, v: ValidatorId): set<JobId> {
    set j | j in m && m[j].validatorId == v
  }

  /** The load a sweep looks at: the pending sweep sees pending jobs only, the active one sees both. */
  function Load(d: Dist, v: ValidatorId, withActive: bool): nat {
    |AssignedTo(d.pending, v)| + if withActive then |AssignedTo(d.active, v)| else 0
  }

  predicate HasRoom(d: Dist, v: ValidatorId, withActive: bool) {
    v in d.validators && Load(d, v, withActive) < d.validators[v].maxConcurrentJobs
  }

  /** A least-loaded validator with room, or none when nobody has room. */
  ghost predicate Best(d: Dist, withActive: bool, choice: Option<ValidatorId>) {
    match choice
    case None => forall v :: v in d.validators ==> !HasRoom(d, v, withActive)
    case Some(v) =>
      && HasRoom(d, v, withActive)
      && forall u :: HasRoom(d, u, withActive) ==> Load(d, v, withActive) <= Load(d, u, withActive)
  }

  /** Entry `k` has announced spare capacity, and no entry that has announces a smaller load factor. */
  ghost predicate LeastLoaded(validators: map<ValidatorId, Capacity>, k: ValidatorId) {
    && k in validators && validators[k].HasCapacity()
    && forall u :: u in validators && validators[u].HasCapacity() ==> validators[k].LoadFactor() <= validators[u].LoadFactor()
  }

  /** A new job can be assigned to `v`. */
  ghost predicate Assignable(validators: map<ValidatorId, Capacity>, v: ValidatorId) {
    exists k :: LeastLoaded(validators, k) && validators[k].validatorId == v
  }

  // ---- one turn of a sweep ----

  /** One assignment's turn in a sweep: which map it is taken from, and who gets it. */
  datatype Turn = Turn(before: Dist, fromActive: bool, job: JobId, choice: Option<ValidatorId>)
  {
    function Source(): Assignments { if fromActive then before.active else before.pending }

    function Removed(): Dist {
      if fromActive then before.(active := before.active - {job}) else before.(pending := before.pending - {job})
    }

    /** The job is there; it is given up when out of retries or nobody has room, and else goes to a best validator. */
    ghost predicate Ok() {
      && job in Source()
      && if Source()[job].retryCount < MAX_JOB_RETRIES then Best(Removed(), fromActive, choice) else choice == None
    }

    function After(now: nat): Dist
      requires job in Source()
    {
      var d := Removed();
      if choice.Some? then d.(pending := d.pending[job := Source()[job].Retry(choice.value, now)]) else d
    }
  }

  /** The turns, one after the other, lead from `d` to `d'`. */
  ghost predicate Chain(d: Dist, turns: seq<Turn>, now: nat, d': Dist) {
    if turns == [] then d' == d
    else
      var n := |turns| - 1;
      turns[n].Ok() && Chain(d, turns[..n], now, turns[n].before) && d' == turns[n].After(now)
  }

  type Selector = Assignment -> bool

  function Selected(m: Assignments, sel: Selector): set<JobId> {
    set j | j in m && sel(m[j])
  }

  /** The turns take the selected pending jobs, each once, and then the selected active ones, each once. */
  ghost predicate Visits(turns: seq<Turn>, d: Dist, sel: Selector) {
    && (forall i, j :: 0 <= i < j < |turns| ==> turns[i].job != turns[j].job || turns[i].fromActive != turns[j].fromActive)
    && (forall i, j :: 0 <= i < j < |turns| && turns[i].fromActive ==> turns[j].fromActive)
    && (forall i :: 0 <= i < |turns| ==> turns[i].job in Selected(if turns[i].fromActive then d.active else d.pending, sel))
    && (forall j :: j in Selected(d.pending, sel) ==> exists i :: 0 <= i < |turns| && !turns[i].fromActive && turns[i].job == j)
    && (forall j :: j in Selected(d.active, sel) ==> exists i :: 0 <= i < |turns| && turns[i].fromActive && turns[i].job == j)
  }

  /** A whole sweep over the selected assignments, for some order of the maps and some choice among equals. */
  ghost predicate Sweeps(d: Dist, sel: Selector, now: nat, turns: seq<Turn>, d': Dist) {
    Visits(turns, d, sel) && Chain(d, turns, now, d')
  }

  /** The jobs that were handed over, in the order of their turns. */
  function HandedOver(turns: seq<Turn>): seq<JobId> {
    if turns == [] then []
    else
      var n := |turns| - 1;
      HandedOver(turns[..n]) + if turns[n].choice.Some? then [turns[n].job] else []
  }
}
