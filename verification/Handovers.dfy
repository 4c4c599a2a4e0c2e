/** What becomes of one job, and of the balance between validators, as assignments are handed over. */
module Handovers {
  import opened Distribution
  import opened SweepProofs

  // ---- one job ----

  ghost predicate HeldAs(d: Dist, j: JobId, a: Assignment) {
    (j in d.pending && d.pending[j] == a) || (j in d.active && d.active[j] == a)
  }

  /** An assignment lasts five minutes from when it was given, whoever gives it and however often. */
  lemma AssignmentLasts(d: Dist, job: JobId, v: ValidatorId, now: nat, a: Assignment, t: nat)
    ensures Assigned(d, job, v, now).pending[job].IsTimedOut(t) <==> t >= now + 300
    ensures a.Retry(v, now).IsTimedOut(t) <==> t >= now + 300
    ensures Assigned(d, job, v, now).pending[job].retryCount == 0 && a.Retry(v, now).retryCount == a.retryCount + 1
    ensures Assigned(d, job, v, now).pending[job].validatorId == a.Retry(v, now).validatorId == v
  {}

  /** Fetching moves the assignment as it is, deadline and retries included, and touches no other. */
  lemma FetchMovesOne(d: Dist, job: JobId, j: JobId, a: Assignment)
    requires Disjoint(d)
    ensures HeldAs(Fetched(d, job), j, a) <==> HeldAs(d, j, a)
    ensures Disjoint(Fetched(d, job)) && job !in Fetched(d, job).pending
  {}

  /** Somebody has room for the job at its turn. */
  ghost predicate RoomFor(t: Turn) {
    exists v :: HasRoom(t.Removed(), v, t.fromActive)
  }

  /** A timeout sweep in which `j` has its turn, and there is room for it then. */
  ghost predicate SweptWithRoom(d: Dist, now: nat, d': Dist, j: JobId) {
    Disjoint(d) && exists turns, i :: TurnWithRoom(d, now, turns, d', i, j)
  }

  ghost predicate TurnWithRoom(d: Dist, now: nat, turns: seq<Turn>, d': Dist, i: nat, j: JobId) {
    Sweeps(d, TimedOutAt(now), now, turns, d') && i < |turns| && turns[i].job == j && RoomFor(turns[i])
  }

  lemma RoomMeansChoice(t: Turn)
    requires t.Ok() && RoomFor(t)
    ensures t.choice.Some? <==> t.Source()[t.job].retryCount < 3
  {
    hide Load;
  }

  /** With room for it, a job outlives a timeout exactly if it has been handed over less than three times. */
  lemma OneTimeout(d: Dist, now: nat, d': Dist, j: JobId, a: Assignment)
    requires SweptWithRoom(d, now, d', j) && HeldAs(d, j, a)
    ensures j !in d'.active && (j in d'.pending <==> a.retryCount < 3)
    ensures j in d'.pending ==> d'.pending[j].retryCount == a.retryCount + 1
  {
    hide Sweeps, RoomFor, Best;
    var turns, i :| TurnWithRoom(d, now, turns, d', i, j);
    TurnOfJob(d, now, turns, d', i);
    assert Original(d, turns[i]) == a;
  }

  lemma TurnOfJob(d: Dist, now: nat, turns: seq<Turn>, d': Dist, i: nat)
    requires Disjoint(d) && Sweeps(d, TimedOutAt(now), now, turns, d') && i < |turns| && RoomFor(turns[i])
    ensures Starts(d, turns[i]) && Settled(d, d', turns[i], now)
    ensures turns[i].choice.Some? <==> Original(d, turns[i]).retryCount < 3
  {
    hide Visits, Best, Chain, RoomFor;
    VisitsAreDistinct(turns, d, TimedOutAt(now));
    ChainProgress(d, turns, now, d');
    ChainTurnsOk(d, turns, now, d', i);
    assert Settled(d, d', turns[i], now);
    RoomMeansChoice(turns[i]);
    TurnSeesOriginal(d, turns, now, d', i);
  }

  /** A job is at its turn as it was before the sweep. */
  lemma {:induction false} TurnSeesOriginal(d: Dist, turns: seq<Turn>, now: nat, d': Dist, i: nat)
    requires Disjoint(d) && Distinct(turns) && Chain(d, turns, now, d') && i < |turns|
    requires forall k :: 0 <= k < |turns| ==> Starts(d, turns[k])
    ensures Starts(d, turns[i]) && turns[i].job in turns[i].Source()
    ensures turns[i].Source()[turns[i].job] == Original(d, turns[i])
  {
    hide Best;
    var n := |turns| - 1;
    if i < n {
      TurnSeesOriginal(d, turns[..n], now, turns[n].before, i);
    } else {
      ChainProgress(d, turns[..n], now, turns[n].before);
      assert !Visited(turns[..n], turns[n].job);
      assert Untouched(d, turns[n].before, turns[n].job);
    }
  }

  /**
   The job times out again and again, each time with room for it; in between anything may happen to
   the other jobs, and to this one only that it is fetched.
   */
  ghost predicate TimesOutWithRoom(befores: seq<Dist>, clocks: seq<nat>, afters: seq<Dist>, j: JobId) {
    && |befores| == |clocks| == |afters|
    && (forall i :: 0 <= i < |befores| ==> SweptWithRoom(befores[i], clocks[i], afters[i], j))
    && (forall i :: 0 <= i < |befores| - 1 ==> j in afters[i].pending && HeldAs(befores[i + 1], j, afters[i].pending[j]))
  }

  lemma {:induction false} RetriesCountTimeouts(befores: seq<Dist>, clocks: seq<nat>, afters: seq<Dist>, j: JobId, a: Assignment, i: nat)
    requires TimesOutWithRoom(befores, clocks, afters, j) && i < |befores| && HeldAs(befores[0], j, a) && a.retryCount == 0
    ensures i < 4 && (j in afters[i].pending <==> i < 3)
    ensures j in afters[i].pending ==> afters[i].pending[j].retryCount == i + 1
  {
    hide SweptWithRoom;
    assert SweptWithRoom(befores[i], clocks[i], afters[i], j);
    if i == 0 {
      OneTimeout(befores[0], clocks[0], afters[0], j, a);
    } else {
      RetriesCountTimeouts(befores, clocks, afters, j, a, i - 1);
      OneTimeout(befores[i], clocks[i], afters[i], j, afters[i - 1].pending[j]);
    }
  }

  /** A newly assigned job that always finds room survives exactly three timeouts: the fourth is its last. */
  lemma SurvivesThreeTimeouts(befores: seq<Dist>, clocks: seq<nat>, afters: seq<Dist>, j: JobId, a: Assignment)
    requires TimesOutWithRoom(befores, clocks, afters, j) && befores != [] && HeldAs(befores[0], j, a) && a.retryCount == 0
    ensures |befores| <= 4
    ensures forall i :: 0 <= i < |befores| ==> (j in afters[i].pending <==> i < 3)
  {
    hide TimesOutWithRoom;
    TimesMatch(befores, clocks, afters, j);
    forall i | 0 <= i < |befores| ensures i < 4 && (j in afters[i].pending <==> i < 3) {
      RetriesCountTimeouts(befores, clocks, afters, j, a, i);
    }
    RetriesCountTimeouts(befores, clocks, afters, j, a, |befores| - 1);
  }

  lemma TimesMatch(befores: seq<Dist>, clocks: seq<nat>, afters: seq<Dist>, j: JobId)
    requires TimesOutWithRoom(befores, clocks, afters, j)
    ensures |befores| == |clocks| == |afters|
  {}

  // ---- balance ----

  /** The loads of any two known validators differ by at most one. */
  ghost predicate Balanced(d: Dist, withActive: bool) {
    forall u, v :: u in d.validators && v in d.validators ==> Load(d, u, withActive) <= Load(d, v, withActive) + 1
  }

  function HeldBefore(t: Turn, u: ValidatorId): nat
    requires t.job in t.Source()
  {
    if t.Source()[t.job].validatorId == u then 1 else 0
  }

  lemma AssignedToLess(m: Assignments, job: JobId, u: ValidatorId)
    requires job in m
    ensures |AssignedTo(m - {job}, u)| + (if m[job].validatorId == u then 1 else 0) == |AssignedTo(m, u)|
  {
    assert AssignedTo(m - {job}, u) == AssignedTo(m, u) - {job};
  }

  lemma AssignedToMore(m: Assignments, job: JobId, a: Assignment, u: ValidatorId)
    requires job !in m
    ensures |AssignedTo(m[job := a], u)| == |AssignedTo(m, u)| + if a.validatorId == u then 1 else 0
  {
    assert AssignedTo(m[job := a], u) == AssignedTo(m, u) + if a.validatorId == u then {job} else {};
  }

  lemma TurnLoadsExactly(t: Turn, now: nat, u: ValidatorId)
    requires t.job in t.Source() && t.choice.Some? && Disjoint(t.before)
    ensures Load(t.Removed(), u, t.fromActive) + HeldBefore(t, u) == Load(t.before, u, t.fromActive)
    ensures Load(t.After(now), u, t.fromActive) == Load(t.Removed(), u, t.fromActive) + if t.choice.value == u then 1 else 0
  {
    hide AssignedTo;
    AssignedToLess(t.Source(), t.job, u);
    AssignedToMore(t.Removed().pending, t.job, t.Source()[t.job].Retry(t.choice.value, now), u);
  }

  /** As long as everybody has room, handing a job over to a least-loaded validator keeps the loads balanced. */
  lemma HandoverKeepsBalance(t: Turn, now: nat)
    requires t.Ok() && t.choice.Some? && Disjoint(t.before) && Balanced(t.before, t.fromActive)
    requires forall v :: v in t.before.validators ==> HasRoom(t.Removed(), v, t.fromActive)
    ensures Balanced(t.After(now), t.fromActive)
  {
    var w := t.fromActive;
    forall u, v | u in t.before.validators && v in t.before.validators
      ensures Load(t.After(now), u, w) <= Load(t.After(now), v, w) + 1
    {
      TurnLoadsExactly(t, now, u);
      TurnLoadsExactly(t, now, v);
      assert HasRoom(t.Removed(), u, w) && HasRoom(t.Removed(), v, w);
      TurnLoadsExactly(t, now, t.choice.value);
      hide Load;
    }
  }

  lemma FractionsInProducts(a: real, b: real, c: real, d: real)
    requires b > 0.0 && d > 0.0 && a / b <= c / d
    ensures a * d <= c * b
  {
    var x, y := a / b, c / d;
    assert a == x * b && c == y * d;
    assert x * b * d <= y * d * b by { assert b * d > 0.0; assert x * (b * d) <= y * (b * d); }
  }

  /** A new job goes to a validator with the least share of its announced capacity in use, compared without division. */
  lemma LeastLoadedInProducts(vs: map<ValidatorId, Capacity>, k: ValidatorId, u: ValidatorId)
    requires LeastLoaded(vs, k) && u in vs && vs[u].currentLoad < vs[u].maxConcurrentJobs
    ensures vs[k].currentLoad < vs[k].maxConcurrentJobs
    ensures vs[k].currentLoad * vs[u].maxConcurrentJobs <= vs[u].currentLoad * vs[k].maxConcurrentJobs
  {
    var a, b, c, d := vs[k].currentLoad, vs[k].maxConcurrentJobs, vs[u].currentLoad, vs[u].maxConcurrentJobs;
    assert vs[k].LoadFactor() <= vs[u].LoadFactor();
    FractionsInProducts(a as real, b as real, c as real, d as real);
    ProductsInReals(a, d, c, b);
  }

  lemma ProductsInReals(a: nat, d: nat, c: nat, b: nat)
    requires a as real * d as real <= c as real * b as real
    ensures a * d <= c * b
  {
    assert (a * d) as real == a as real * d as real && (c * b) as real == c as real * b as real;
  }
}
