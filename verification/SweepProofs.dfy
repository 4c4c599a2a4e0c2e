/** What a sweep of the job distribution does, for every order of its turns and every choice among equals. */
module SweepProofs {
  import opened Distribution

  ghost predicate Disjoint(d: Dist) {
    forall j :: !(j in d.pending && j in d.active)
  }

  /** The assignment a turn is about, as it stood before the sweep. */
  ghost predicate Starts(d: Dist, t: Turn) {
    if t.fromActive then t.job in d.active else t.job in d.pending
  }

  function Original(d: Dist, t: Turn): Assignment
    requires if t.fromActive then t.job in d.active else t.job in d.pending
  {
    if t.fromActive then d.active[t.job] else d.pending[t.job]
  }

  ghost predicate Distinct(turns: seq<Turn>) {
    forall i, j :: 0 <= i < j < |turns| ==> turns[i].job != turns[j].job
  }

  ghost predicate Visited(turns: seq<Turn>, j: JobId) {
    exists i :: 0 <= i < |turns| && turns[i].job == j
  }

  /** A job without a turn so far stands where it stood. */
  ghost predicate Untouched(d: Dist, s: Dist, j: JobId) {
    && (j in s.pending <==> j in d.pending) && (j in d.pending ==> s.pending[j] == d.pending[j])
    && (j in s.active <==> j in d.active) && (j in d.active ==> s.active[j] == d.active[j])
  }

  /** A job that has had its turn is not active, and is pending iff someone got it, one retry later. */
  ghost predicate Settled(d: Dist, s: Dist, t: Turn, now: nat)
    requires Starts(d, t)
  {
    && t.job !in s.active
    && (t.job in s.pending <==> t.choice.Some?)
    && (t.choice.Some? ==>
          && s.pending[t.job] == Original(d, t).Retry(t.choice.value, now)
          && t.choice.value in d.validators
          && Original(d, t).retryCount < MAX_JOB_RETRIES)
  }

  ghost predicate Progress(d: Dist, turns: seq<Turn>, now: nat, s: Dist) {
    && s.validators == d.validators
    && (forall i :: 0 <= i < |turns| ==> Starts(d, turns[i]) && Settled(d, s, turns[i], now))
    && (forall j :: !Visited(turns, j) ==> Untouched(d, s, j))
  }

  lemma TurnSettles(d: Dist, s: Dist, t: Turn, now: nat)
    requires Disjoint(d) && Starts(d, t) && t.Ok() && t.before == s && s.validators == d.validators && Untouched(d, s, t.job)
    ensures Settled(d, t.After(now), t, now)
    ensures t.After(now).validators == d.validators
  {
    hide Load;
  }

  lemma TurnLeavesOthers(d: Dist, t: Turn, now: nat, j: JobId)
    requires t.Ok() && j != t.job
    ensures Untouched(t.before, t.After(now), j)
  {
    hide Best;
  }

  lemma {:induction false} ChainProgress(d: Dist, turns: seq<Turn>, now: nat, s: Dist)
    requires Disjoint(d) && Distinct(turns) && Chain(d, turns, now, s)
    requires forall i :: 0 <= i < |turns| ==> Starts(d, turns[i])
    ensures Progress(d, turns, now, s)
  {
    hide Best, Disjoint;
    if turns != [] {
      var n := |turns| - 1;
      var t, before := turns[n], turns[..n];
      ChainProgress(d, before, now, t.before);
      assert !Visited(before, t.job);
      TurnSettles(d, t.before, t, now);
      forall i | 0 <= i < n ensures Settled(d, s, turns[i], now) {
        assert Settled(d, t.before, before[i], now);
        TurnLeavesOthers(d, t, now, turns[i].job);
      }
      forall j | !Visited(turns, j) ensures Untouched(d, s, j) {
        assert turns[n].job != j;
        assert !Visited(before, j) by {
          assert forall i :: 0 <= i < n ==> before[i] == turns[i];
        }
        TurnLeavesOthers(d, t, now, j);
      }
    } else {
      assert forall j :: Untouched(d, s, j);
    }
  }

  lemma VisitsAreDistinct(turns: seq<Turn>, d: Dist, sel: Selector)
    requires Disjoint(d) && Visits(turns, d, sel)
    ensures Distinct(turns)
    ensures forall i :: 0 <= i < |turns| ==> Starts(d, turns[i]) && sel(Original(d, turns[i]))
    ensures forall j :: Visited(turns, j) <==> j in Selected(d.pending, sel) + Selected(d.active, sel)
  {
    forall i, j | 0 <= i < j < |turns| ensures turns[i].job != turns[j].job {
      assert turns[i].job in Selected(if turns[i].fromActive then d.active else d.pending, sel);
      assert turns[j].job in Selected(if turns[j].fromActive then d.active else d.pending, sel);
    }
  }

  /** A handed-over assignment: the old one, retried by a known validator. */
  ghost predicate RetryOf(d: Dist, was: Assignment, a: Assignment, now: nat) {
    a.validatorId in d.validators && was.retryCount < MAX_JOB_RETRIES && a == was.Retry(a.validatorId, now)
  }

  function OriginalOf(d: Dist, j: JobId): Assignment
    requires j in d.pending || j in d.active
  {
    if j in d.pending then d.pending[j] else d.active[j]
  }

  /**
   A sweep leaves pending and active disjoint, keeps every assignment it did not select, takes
   every selected one out of active, and leaves a selected job pending exactly with one retry
   more, given to a validator that is still known.
   */
  lemma SweepOutcome(d: Dist, sel: Selector, now: nat, turns: seq<Turn>, d': Dist)
    requires Disjoint(d) && Sweeps(d, sel, now, turns, d')
    ensures Disjoint(d') && d'.validators == d.validators
    ensures forall j :: j in d'.active <==> j in d.active && !sel(d.active[j])
    ensures forall j :: j in d'.active ==> d'.active[j] == d.active[j]
    ensures forall j :: j in d.pending && !sel(d.pending[j]) ==> j in d'.pending && d'.pending[j] == d.pending[j]
    ensures forall j :: j in d'.pending ==>
              && (j in d.pending || j in d.active)
              && (if sel(OriginalOf(d, j)) then RetryOf(d, OriginalOf(d, j), d'.pending[j], now)
                  else j in d.pending && d'.pending[j] == d.pending[j])
  {
    hide Chain, Visits, Best;
    VisitsAreDistinct(turns, d, sel);
    ChainProgress(d, turns, now, d');
    forall j
      ensures Visited(turns, j) ==>
                && j !in d'.active && (j in d.pending || j in d.active) && sel(OriginalOf(d, j))
                && (j in d'.pending ==> RetryOf(d, OriginalOf(d, j), d'.pending[j], now))
    {
      if Visited(turns, j) {
        var i :| 0 <= i < |turns| && turns[i].job == j;
        assert Starts(d, turns[i]) && Settled(d, d', turns[i], now);
        assert Original(d, turns[i]) == OriginalOf(d, j);
      }
    }
    forall j | !Visited(turns, j) ensures Untouched(d, d', j) {}
  }

  /** Why a job's turn ended without a new assignment. */
  ghost predicate GivenUp(t: Turn) {
    && t.job in t.Source()
    && (t.Source()[t.job].retryCount >= MAX_JOB_RETRIES
        || forall v :: v in t.before.validators ==> !HasRoom(t.Removed(), v, t.fromActive))
  }

  /**
   The selected jobs that are lost are exactly those that, at their turn, were out of retries or
   found nobody with room; the handed-over list names the others, once each.
   */
  lemma LostExactly(d: Dist, sel: Selector, now: nat, turns: seq<Turn>, d': Dist, i: nat)
    requires Disjoint(d) && Sweeps(d, sel, now, turns, d') && i < |turns|
    ensures turns[i].job !in d'.pending <==> GivenUp(turns[i])
    ensures turns[i].job in HandedOver(turns) <==> turns[i].job in d'.pending
  {
    hide Chain, Visits, HandedOver, Load;
    VisitsAreDistinct(turns, d, sel);
    ChainProgress(d, turns, now, d');
    ChainTurnsOk(d, turns, now, d', i);
    HandedOverMembers(turns, turns[i].job);
    assert Settled(d, d', turns[i], now);
    if turns[i].job in d'.pending {
      assert turns[i].choice.Some?;
    } else {
      forall k | 0 <= k < |turns| && turns[k].job == turns[i].job ensures k == i {}
    }
  }

  lemma {:induction false} ChainTurnsOk(d: Dist, turns: seq<Turn>, now: nat, d': Dist, i: nat)
    requires Chain(d, turns, now, d') && i < |turns|
    ensures turns[i].Ok()
  {
    var n := |turns| - 1;
    if i < n {
      ChainTurnsOk(d, turns[..n], now, turns[n].before, i);
    }
  }

  lemma {:induction false} HandedOverMembers(turns: seq<Turn>, j: JobId)
    ensures j in HandedOver(turns) <==> exists i :: 0 <= i < |turns| && turns[i].job == j && turns[i].choice.Some?
  {
    if turns != [] {
      var n := |turns| - 1;
      HandedOverMembers(turns[..n], j);
      if j in HandedOver(turns[..n]) {
        var i :| 0 <= i < n && turns[..n][i].job == j && turns[..n][i].choice.Some?;
        assert turns[i].job == j && turns[i].choice.Some?;
      }
      if exists i :: 0 <= i < |turns| && turns[i].job == j && turns[i].choice.Some? {
        var i :| 0 <= i < |turns| && turns[i].job == j && turns[i].choice.Some?;
        if i < n {
          assert turns[..n][i].job == j;
        }
      }
    }
  }

  ghost predicate NoDuplicates(s: seq<JobId>) {
    forall i, j :: 0 <= i < j < |s| ==> s[i] != s[j]
  }

  lemma {:induction false} HandedOverOnce(turns: seq<Turn>)
    requires Distinct(turns)
    ensures NoDuplicates(HandedOver(turns))
  {
    if turns != [] {
      var n := |turns| - 1;
      HandedOverOnce(turns[..n]);
      HandedOverMembers(turns[..n], turns[n].job);
    }
  }

  // ---- timeouts and failures ----

  function TimedOutAt(now: nat): Selector { (a: Assignment) => a.IsTimedOut(now) }

  function HeldBy(v: ValidatorId): Selector { (a: Assignment) => a.validatorId == v }

  /** After the timeout sweep nothing that is left is timed out, and the returned ids are distinct. */
  lemma TimeoutsHandled(d: Dist, now: nat, turns: seq<Turn>, d': Dist)
    requires Disjoint(d) && Sweeps(d, TimedOutAt(now), now, turns, d')
    ensures Disjoint(d')
    ensures forall j :: j in d'.pending ==> !d'.pending[j].IsTimedOut(now)
    ensures forall j :: j in d'.active ==> !d'.active[j].IsTimedOut(now)
    ensures NoDuplicates(HandedOver(turns))
  {
    SweepOutcome(d, TimedOutAt(now), now, turns, d');
    VisitsAreDistinct(turns, d, TimedOutAt(now));
    HandedOverOnce(turns);
    hide Sweeps, HandedOver;
  }

  /** After a validator failed, no assignment names it, and every other assignment is as it was. */
  lemma FailureHandled(d: Dist, v: ValidatorId, now: nat, turns: seq<Turn>, d': Dist)
    requires Disjoint(d) && Sweeps(d.(validators := d.validators - {v}), HeldBy(v), now, turns, d')
    ensures Disjoint(d') && d'.validators == d.validators - {v}
    ensures forall j :: j in d'.pending ==> d'.pending[j].validatorId != v
    ensures forall j :: j in d'.active ==> d'.active[j].validatorId != v
    ensures forall j :: j in d.pending && d.pending[j].validatorId != v ==> j in d'.pending && d'.pending[j] == d.pending[j]
    ensures forall j :: j in d.active && d.active[j].validatorId != v ==> j in d'.active && d'.active[j] == d.active[j]
    ensures forall j :: j in d'.pending && j in d.pending && d.pending[j].validatorId == v ==>
              d'.pending[j].retryCount == d.pending[j].retryCount + 1
    ensures forall j :: j in d'.pending && j in d.active ==> d'.pending[j].retryCount == d.active[j].retryCount + 1
  {
    var e := d.(validators := d.validators - {v});
    SweepOutcome(e, HeldBy(v), now, turns, d');
    hide Sweeps;
  }

  // ---- the retry bound and the drain ----

  ghost predicate RetriesWithin(d: Dist, lo: nat, hi: nat) {
    && (forall j :: j in d.pending ==> lo <= d.pending[j].retryCount <= hi)
    && (forall j :: j in d.active ==> lo <= d.active[j].retryCount <= hi)
  }

  ghost predicate AllTimedOut(d: Dist, now: nat) {
    && (forall j :: j in d.pending ==> d.pending[j].IsTimedOut(now))
    && (forall j :: j in d.active ==> d.active[j].IsTimedOut(now))
  }

  /** `k` timeout rounds, in each of which everything has timed out, with no job added in between. */
  ghost predicate Rounds(ds: seq<Dist>, clocks: seq<nat>, k: nat) {
    && |ds| == k + 1 && |clocks| == k
    && forall i :: 0 <= i < k ==> Round(ds[i], clocks[i], ds[i + 1])
  }

  ghost predicate Round(d: Dist, now: nat, d': Dist) {
    AllTimedOut(d, now) && exists turns :: Sweeps(d, TimedOutAt(now), now, turns, d')
  }

  lemma RoundRaisesRetries(d: Dist, now: nat, d': Dist, lo: nat)
    requires Round(d, now, d') && Disjoint(d) && RetriesWithin(d, lo, MAX_JOB_RETRIES)
    ensures Disjoint(d') && RetriesWithin(d', lo + 1, MAX_JOB_RETRIES)
  {
    hide Sweeps;
    var turns :| Sweeps(d, TimedOutAt(now), now, turns, d');
    SweepOutcome(d, TimedOutAt(now), now, turns, d');
  }

  lemma {:induction false} RoundsRaiseRetries(ds: seq<Dist>, clocks: seq<nat>, k: nat, i: nat)
    requires Rounds(ds, clocks, k) && i <= k && Disjoint(ds[0]) && RetriesWithin(ds[0], 0, MAX_JOB_RETRIES)
    ensures Disjoint(ds[i]) && RetriesWithin(ds[i], i, MAX_JOB_RETRIES)
  {
    hide Round;
    if i > 0 {
      RoundsRaiseRetries(ds, clocks, k, i - 1);
      assert Round(ds[i - 1], clocks[i - 1], ds[i]);
      RoundRaisesRetries(ds[i - 1], clocks[i - 1], ds[i], i - 1);
    }
  }

  /** Four rounds in which everything times out empty the coordinator. */
  lemma FourRoundsDrain(ds: seq<Dist>, clocks: seq<nat>)
    requires Rounds(ds, clocks, 4) && Disjoint(ds[0]) && RetriesWithin(ds[0], 0, MAX_JOB_RETRIES)
    ensures ds[4].pending == map[] && ds[4].active == map[]
  {
    RoundsRaiseRetries(ds, clocks, 4, 4);
    assert forall j :: j !in ds[4].pending && j !in ds[4].active;
  }

  // ---- every operation ----

  function Fetched(d: Dist, job: JobId): Dist {
    if job in d.pending then d.(pending := d.pending - {job}, active := d.active[job := d.pending[job]]) else d
  }

  function Assigned(d: Dist, job: JobId, v: ValidatorId, now: nat): Dist {
    d.(pending := d.pending[job := Assignment(job, v, now, now + DEFAULT_JOB_TIMEOUT_SECS, 0)])
  }

  /** Assigning does not look at the active jobs: it keeps the two maps disjoint exactly for ids that are not active. */
  lemma AssignKeepsDisjoint(d: Dist, job: JobId, v: ValidatorId, now: nat)
    requires Disjoint(d)
    ensures Disjoint(Assigned(d, job, v, now)) <==> job !in d.active
  {
    assert job in Assigned(d, job, v, now).pending;
  }

  datatype Op =
    | Announce(capacity: Capacity)
    | Withdraw(v: ValidatorId)
    | Assign(job: JobId, to: ValidatorId)
    | Fetch(job: JobId)
    | Complete(job: JobId)
    | Timeouts
    | Fail(v: ValidatorId)

  /** `d'` is a possible outcome of the operation at the clock `now`. */
  ghost predicate Outcome(d: Dist, op: Op, now: nat, d': Dist) {
    match op
    case Announce(c) => d' == d.(validators := d.validators[c.validatorId := c])
    case Withdraw(v) => d' == d.(validators := d.validators - {v})
    case Assign(job, v) =>
      if Assignable(d.validators, v) then d' == Assigned(d, job, v, now)
      else d' == d && forall u :: u in d.validators ==> !d.validators[u].HasCapacity()
    case Fetch(job) => d' == Fetched(d, job)
    case Complete(job) => d' == d.(pending := d.pending - {job}, active := d.active - {job})
    case Timeouts => exists turns :: Sweeps(d, TimedOutAt(now), now, turns, d')
    case Fail(v) => exists turns :: Sweeps(d.(validators := d.validators - {v}), HeldBy(v), now, turns, d')
  }

  ghost predicate History(ds: seq<Dist>, ops: seq<Op>, clocks: seq<nat>) {
    && |ds| == |ops| + 1 && |clocks| == |ops|
    && ds[0] == Dist(map[], map[], map[])
    && forall i :: 0 <= i < |ops| ==> Outcome(ds[i], ops[i], clocks[i], ds[i + 1])
  }

  lemma {:induction false} ChainKeepsRetryBound(d: Dist, turns: seq<Turn>, now: nat, d': Dist)
    requires Chain(d, turns, now, d') && RetriesWithin(d, 0, MAX_JOB_RETRIES)
    ensures RetriesWithin(d', 0, MAX_JOB_RETRIES)
  {
    hide Best;
    if turns != [] {
      var n := |turns| - 1;
      ChainKeepsRetryBound(d, turns[..n], now, turns[n].before);
    }
  }

  lemma OutcomeKeepsRetryBound(d: Dist, op: Op, now: nat, d': Dist)
    requires RetriesWithin(d, 0, MAX_JOB_RETRIES) && Outcome(d, op, now, d')
    ensures RetriesWithin(d', 0, MAX_JOB_RETRIES)
  {
    hide Chain, Visits;
    match op
    case Timeouts =>
      var turns :| Sweeps(d, TimedOutAt(now), now, turns, d');
      ChainKeepsRetryBound(d, turns, now, d');
    case Fail(v) =>
      var e := d.(validators := d.validators - {v});
      var turns :| Sweeps(e, HeldBy(v), now, turns, d');
      ChainKeepsRetryBound(e, turns, now, d');
    case _ =>
  }

  lemma OutcomeKeepsDisjoint(d: Dist, op: Op, now: nat, d': Dist)
    requires Disjoint(d) && Outcome(d, op, now, d') && !(op.Assign? && op.job in d.active && d' != d)
    ensures Disjoint(d')
  {
    hide Sweeps;
    match op
    case Timeouts =>
      var turns :| Sweeps(d, TimedOutAt(now), now, turns, d');
      SweepOutcome(d, TimedOutAt(now), now, turns, d');
    case Fail(v) =>
      var e := d.(validators := d.validators - {v});
      var turns :| Sweeps(e, HeldBy(v), now, turns, d');
      SweepOutcome(e, HeldBy(v), now, turns, d');
    case _ =>
  }

  /** No job was assigned while it was active, up to state `n`. */
  ghost predicate NoActiveAssigned(ds: seq<Dist>, ops: seq<Op>, n: nat)
    requires n < |ds| == |ops| + 1
  {
    forall i :: 0 <= i < n && ops[i].Assign? ==> ops[i].job !in ds[i].active || ds[i + 1] == ds[i]
  }

  /**
   In every reachable state no retry count exceeds three; and no job is both pending and active,
   unless a job was assigned while it was active, which by itself breaks this at once.
   */
  lemma {:induction false} ReachableStatesAreBounded(ds: seq<Dist>, ops: seq<Op>, clocks: seq<nat>, n: nat)
    requires History(ds, ops, clocks) && n < |ds|
    ensures RetriesWithin(ds[n], 0, MAX_JOB_RETRIES)
    ensures NoActiveAssigned(ds, ops, n) ==> Disjoint(ds[n])
  {
    hide Outcome;
    if n > 0 {
      ReachableStatesAreBounded(ds, ops, clocks, n - 1);
      assert Outcome(ds[n - 1], ops[n - 1], clocks[n - 1], ds[n]);
      OutcomeKeepsRetryBound(ds[n - 1], ops[n - 1], clocks[n - 1], ds[n]);
      if NoActiveAssigned(ds, ops, n) {
        OutcomeKeepsDisjoint(ds[n - 1], ops[n - 1], clocks[n - 1], ds[n]);
      }
    }
  }
}
