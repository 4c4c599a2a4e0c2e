/**
 Assignments that land inside a turn of the active pass: between its load count and its write the
 turn holds no lock on the pending jobs, so new jobs can be assigned in between.
 */
module LandingJobs {
  import opened Common
  import opened Distribution
  import opened SweepProofs
  import opened LoadLimits

  /** The pending jobs after these assignments, each of a job to a validator. */
  function Land(p: Assignments, landed: seq<(JobId, ValidatorId)>, now: nat): Assignments {
    if landed == [] then p
    else
      var n := |landed| - 1;
      Land(p, landed[..n], now)[landed[n].0 := Assignment(landed[n].0, landed[n].1, now, now + DEFAULT_JOB_TIMEOUT_SECS, 0)]
  }

  ghost predicate CanLand(vs: map<ValidatorId, Capacity>, landed: seq<(JobId, ValidatorId)>) {
    forall i :: 0 <= i < |landed| ==> Assignable(vs, landed[i].1)
  }

  /** The state in which the write of the turn finds the coordinator, after assignments landed since its load count. */
  function AtWrite(t: Turn, landed: seq<(JobId, ValidatorId)>, now: nat): Dist {
    t.Removed().(pending := Land(t.Removed().pending, landed, now))
  }

  function AfterWrite(t: Turn, landed: seq<(JobId, ValidatorId)>, now: nat): Dist
    requires t.job in t.Source() && t.choice.Some?
  {
    var d := AtWrite(t, landed, now);
    d.(pending := d.pending[t.job := t.Source()[t.job].Retry(t.choice.value, now)])
  }

  /** A turn of the active pass, from disjoint maps within the limits, that hands its job over. */
  ghost predicate HandingTurn(t: Turn) {
    t.fromActive && t.Ok() && t.choice.Some? && Disjoint(t.before) && WithinLimits(t.before)
  }

  /** Whatever assignments land in between, if they keep the limits then so does the write. */
  ghost predicate SafeAgainstLanding(t: Turn, now: nat) {
    HandingTurn(t) && forall landed :: LandsWithin(t, landed, now) ==> WithinLimits(AfterWrite(t, landed, now))
  }

  ghost predicate LandsWithin(t: Turn, landed: seq<(JobId, ValidatorId)>, now: nat) {
    CanLand(t.before.validators, landed) && WithinLimits(AtWrite(t, landed, now))
  }

  /** Landing adds nothing to a validator that no job can be assigned to. */
  lemma {:induction false} LandingElsewhere(vs: map<ValidatorId, Capacity>, p: Assignments, landed: seq<(JobId, ValidatorId)>, now: nat, v: ValidatorId)
    requires CanLand(vs, landed) && !Assignable(vs, v)
    ensures AssignedTo(Land(p, landed, now), v) <= AssignedTo(p, v)
  {
    hide Assignable;
    if landed != [] {
      var n := |landed| - 1;
      assert Assignable(vs, landed[n].1);
      assert CanLand(vs, landed[..n]);
      LandingElsewhere(vs, p, landed[..n], now, v);
    }
  }

  lemma WriteLoads(t: Turn, landed: seq<(JobId, ValidatorId)>, now: nat, u: ValidatorId)
    requires t.job in t.Source() && t.choice.Some?
    ensures Load(AfterWrite(t, landed, now), u, true) <= Load(AtWrite(t, landed, now), u, true) + if t.choice == Some(u) then 1 else 0
  {
    var d, d' := AtWrite(t, landed, now), AfterWrite(t, landed, now);
    hide Land;
    FewerElements(AssignedTo(d'.pending, u), AssignedTo(d.pending, u) + if t.choice == Some(u) then {t.job} else {});
  }

  lemma UnassignableIsSafe(t: Turn, landed: seq<(JobId, ValidatorId)>, now: nat)
    requires HandingTurn(t) && LandsWithin(t, landed, now) && !Assignable(t.before.validators, t.choice.value)
    ensures WithinLimits(AfterWrite(t, landed, now))
  {
    var v, vs, d := t.choice.value, t.before.validators, AtWrite(t, landed, now);
    LandingElsewhere(vs, t.Removed().pending, landed, now, v);
    FewerElements(AssignedTo(d.pending, v), AssignedTo(t.Removed().pending, v));
    hide AssignedTo, Land, Assignable;
    assert Load(d, v, true) <= Load(t.Removed(), v, true) < vs[v].maxConcurrentJobs;
    forall u | u in vs ensures Load(AfterWrite(t, landed, now), u, true) <= vs[u].maxConcurrentJobs {
      WriteLoads(t, landed, now, u);
    }
  }

  /** `k` assignments of new jobs to `v`. */
  lemma {:induction false} LandOn(p: Assignments, v: ValidatorId, k: nat, avoid: JobId, now: nat) returns (landed: seq<(JobId, ValidatorId)>)
    requires avoid !in p
    ensures (forall i :: 0 <= i < |landed| ==> landed[i].1 == v) && avoid !in Land(p, landed, now)
    ensures |AssignedTo(Land(p, landed, now), v)| == |AssignedTo(p, v)| + k
    ensures forall u :: u != v ==> AssignedTo(Land(p, landed, now), u) == AssignedTo(p, u)
    decreases k
  {
    hide AssignedTo;
    if k == 0 {
      landed := [];
    } else {
      var before := LandOn(p, v, k - 1, avoid, now);
      var q := Land(p, before, now);
      var job := FreshName(q.Keys + {avoid});
      landed := before + [(job, v)];
      assert landed[..|before|] == before;
      forall u ensures AssignedTo(Land(p, landed, now), u) == AssignedTo(q, u) + if u == v then {job} else {} {
        NewJobOf(q, job, Assignment(job, v, now, now + DEFAULT_JOB_TIMEOUT_SECS, 0), u);
      }
      NewJobOf(q, job, Assignment(job, v, now, now + DEFAULT_JOB_TIMEOUT_SECS, 0), v);
    }
  }

  /** Assignments that fill up the chosen validator make the write exceed its limit. */
  lemma LandingOverloads(t: Turn, now: nat) returns (landed: seq<(JobId, ValidatorId)>)
    requires HandingTurn(t) && Assignable(t.before.validators, t.choice.value)
    ensures LandsWithin(t, landed, now) && !WithinLimits(AfterWrite(t, landed, now))
  {
    var v, vs, d := t.choice.value, t.before.validators, t.Removed();
    assert t.job !in d.pending;
    assert HasRoom(d, v, true);
    landed := LandOn(d.pending, v, vs[v].maxConcurrentJobs - Load(d, v, true), t.job, now);
    var full := AtWrite(t, landed, now);
    NewJobOf(full.pending, t.job, t.Source()[t.job].Retry(v, now), v);
    forall u | u in vs ensures Load(full, u, true) <= vs[u].maxConcurrentJobs {
      TurnLoads(t, now, u, true);
    }
    hide AssignedTo, Assignable, Land;
    assert Load(AfterWrite(t, landed, now), v, true) == vs[v].maxConcurrentJobs + 1;
  }

  /** Exactly: a turn is safe against landing assignments if and only if none can go to the validator it chose. */
  lemma SafeAgainstLandingExactly(t: Turn, now: nat)
    requires HandingTurn(t)
    ensures SafeAgainstLanding(t, now) <==> !Assignable(t.before.validators, t.choice.value)
  {
    hide WithinLimits, Assignable;
    if Assignable(t.before.validators, t.choice.value) {
      var landed := LandingOverloads(t, now);
    } else {
      forall landed | LandsWithin(t, landed, now) ensures WithinLimits(AfterWrite(t, landed, now)) {
        UnassignableIsSafe(t, landed, now);
      }
    }
  }

  ghost predicate Keyed(vs: map<ValidatorId, Capacity>) {
    forall v :: v in vs ==> vs[v].validatorId == v
  }

  /** Over these validators, every handing turn of every active pass is safe against landing assignments. */
  ghost predicate ActivePassIsSafe(vs: map<ValidatorId, Capacity>, now: nat) {
    forall t :: HandingTurn(t) && t.before.validators == vs ==> SafeAgainstLanding(t, now)
  }

  lemma {:induction false} LeastFactor(vs: map<ValidatorId, Capacity>, s: set<ValidatorId>) returns (v: ValidatorId)
    requires s != {} && s <= vs.Keys
    ensures v in s && forall u :: u in s ==> vs[v].LoadFactor() <= vs[u].LoadFactor()
  {
    hide Capacity.LoadFactor;
    v :| v in s;
    if s != {v} {
      var u := LeastFactor(vs, s - {v});
      v := if vs[u].LoadFactor() < vs[v].LoadFactor() then u else v;
    }
  }

  lemma SomeAssignable(vs: map<ValidatorId, Capacity>, w: ValidatorId) returns (v: ValidatorId)
    requires Keyed(vs) && w in vs && vs[w].HasCapacity()
    ensures v in vs && vs[v].HasCapacity() && Assignable(vs, v)
  {
    var free := set u | u in vs && vs[u].HasCapacity();
    assert w in free;
    v := LeastFactor(vs, free);
    assert LeastLoaded(vs, v);
  }

  /** A turn that chooses `v`: everybody else is full, and the job's holder is not known any more. */
  lemma TurnThatChooses(vs: map<ValidatorId, Capacity>, v: ValidatorId) returns (t: Turn)
    requires v in vs && vs[v].maxConcurrentJobs > 0
    ensures HandingTurn(t) && t.before.validators == vs && t.choice == Some(v)
  {
    assert forall u :: AssignedTo(map[], u) == {};
    var p := FillUp(vs, map[], vs.Keys - {v});
    var job := FreshName(p.Keys);
    var nobody := FreshName(vs.Keys);
    var active := map[job := Assignment(job, nobody, 0, 0, 0)];
    t := Turn(Dist(vs, p, active), true, job, Some(v));
    assert t.Removed().active == map[];
    forall u | u in vs ensures AssignedTo(active, u) == {} {}
    hide AssignedTo;
    assert Best(t.Removed(), true, Some(v));
  }

  /**
   The exact condition for whole passes: over given validators no handing turn of an active pass can
   be overloaded by assignments landing inside it if and only if nobody announces spare capacity.
   */
  lemma ActivePassSafeExactly(vs: map<ValidatorId, Capacity>, now: nat)
    requires Keyed(vs)
    ensures ActivePassIsSafe(vs, now) <==> forall v :: v in vs ==> !vs[v].HasCapacity()
  {
    if w :| w in vs && vs[w].HasCapacity() {
      var v := SomeAssignable(vs, w);
      var t := TurnThatChooses(vs, v);
      SafeAgainstLandingExactly(t, now);
    } else {
      forall t | HandingTurn(t) && t.before.validators == vs ensures SafeAgainstLanding(t, now) {
        SafeAgainstLandingExactly(t, now);
      }
    }
  }

  lemma {:induction false} ChainKeepsValidators(d: Dist, turns: seq<Turn>, now: nat, d': Dist)
    requires Chain(d, turns, now, d')
    ensures d'.validators == d.validators
  {
    hide Best;
    if turns != [] {
      var n := |turns| - 1;
      ChainKeepsValidators(d, turns[..n], now, turns[n].before);
    }
  }

  lemma OutcomeKeepsKeyed(d: Dist, op: Op, now: nat, d': Dist)
    requires Keyed(d.validators) && Outcome(d, op, now, d')
    ensures Keyed(d'.validators)
  {
    hide Chain, Visits, Assignable;
    match op
    case Timeouts =>
      var turns :| Sweeps(d, TimedOutAt(now), now, turns, d');
      ChainKeepsValidators(d, turns, now, d');
    case Fail(v) =>
      var e := d.(validators := d.validators - {v});
      var turns :| Sweeps(e, HeldBy(v), now, turns, d');
      ChainKeepsValidators(e, turns, now, d');
    case _ =>
  }

  /** In every reachable state validators are known under the ids they announced. */
  lemma {:induction false} ReachableValidatorsAreKeyed(ds: seq<Dist>, ops: seq<Op>, clocks: seq<nat>, n: nat)
    requires History(ds, ops, clocks) && n < |ds|
    ensures Keyed(ds[n].validators)
  {
    hide Outcome;
    if n > 0 {
      ReachableValidatorsAreKeyed(ds, ops, clocks, n - 1);
      assert Outcome(ds[n - 1], ops[n - 1], clocks[n - 1], ds[n]);
      OutcomeKeepsKeyed(ds[n - 1], ops[n - 1], clocks[n - 1], ds[n]);
    }
  }
}
