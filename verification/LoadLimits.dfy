/**
 Whether reassignment keeps validators within the number of jobs they announced.  The active pass
 of a sweep looks at all jobs of a validator, the pending pass only at its pending ones.
 */
module LoadLimits {
  import opened Common
  import opened Distribution
  import opened SweepProofs

  /** No known validator holds more jobs, pending and active together, than it announced. */
  ghost predicate WithinLimits(d: Dist) {
    forall v :: v in d.validators ==> Load(d, v, true) <= d.validators[v].maxConcurrentJobs
  }

  /** No known validator has fetched a job. */
  ghost predicate NoneRunning(vs: map<ValidatorId, Capacity>, active: Assignments) {
    forall v :: v in vs ==> AssignedTo(active, v) == {}
  }

  // ---- what one turn does to the loads ----

  /** Handing over adds a job to the new holder at most, and to nobody else. */
  lemma TurnLoads(t: Turn, now: nat, u: ValidatorId, withActive: bool)
    requires t.Ok()
    ensures Load(t.After(now), u, withActive) <= Load(t.Removed(), u, withActive) + if t.choice == Some(u) then 1 else 0
    ensures Load(t.Removed(), u, withActive) <= Load(t.before, u, withActive)
  {
    hide Best;
    var before, d, d' := t.before, t.Removed(), t.After(now);
    FewerElements(AssignedTo(d.pending, u), AssignedTo(before.pending, u));
    FewerElements(AssignedTo(d.active, u), AssignedTo(before.active, u));
    if t.choice == Some(u) {
      FewerElements(AssignedTo(d'.pending, u), AssignedTo(d.pending, u) + {t.job});
    } else {
      FewerElements(AssignedTo(d'.pending, u), AssignedTo(d.pending, u));
    }
  }

  lemma ActiveTurnKeepsLimits(t: Turn, now: nat)
    requires t.Ok() && t.fromActive && WithinLimits(t.before)
    ensures t.After(now).validators == t.before.validators && WithinLimits(t.After(now))
  {
    hide Load;
    forall v | v in t.before.validators ensures Load(t.After(now), v, true) <= t.before.validators[v].maxConcurrentJobs {
      TurnLoads(t, now, v, true);
    }
  }

  lemma PendingLoadIsAll(d: Dist, v: ValidatorId)
    requires AssignedTo(d.active, v) == {}
    ensures Load(d, v, true) == Load(d, v, false)
  {}

  lemma PendingTurnKeepsLimits(t: Turn, now: nat)
    requires t.Ok() && !t.fromActive && WithinLimits(t.before) && NoneRunning(t.before.validators, t.before.active)
    ensures var d := t.After(now); d.validators == t.before.validators && d.active == t.before.active && WithinLimits(d)
  {
    hide Load, AssignedTo;
    forall v | v in t.before.validators ensures Load(t.After(now), v, true) <= t.before.validators[v].maxConcurrentJobs {
      TurnLoads(t, now, v, true);
      PendingLoadIsAll(t.Removed(), v);
    }
  }

  // ---- whole sweeps ----

  ghost predicate ActiveAfterPending(turns: seq<Turn>) {
    forall i, j :: 0 <= i < j < |turns| && turns[i].fromActive ==> turns[j].fromActive
  }

  ghost predicate AllActive(turns: seq<Turn>) {
    forall i :: 0 <= i < |turns| ==> turns[i].fromActive
  }

  lemma {:induction false} TurnsKeepLimits(d: Dist, turns: seq<Turn>, now: nat, d': Dist)
    requires Chain(d, turns, now, d') && ActiveAfterPending(turns) && WithinLimits(d)
    requires NoneRunning(d.validators, d.active) || AllActive(turns)
    ensures d'.validators == d.validators && WithinLimits(d')
    ensures turns != [] && !turns[|turns| - 1].fromActive ==> d'.active == d.active
  {
    hide Load, AssignedTo, Best, WithinLimits;
    if turns != [] {
      var n := |turns| - 1;
      var t := turns[n];
      TurnsKeepLimits(d, turns[..n], now, t.before);
      if t.fromActive {
        ActiveTurnKeepsLimits(t, now);
      } else {
        if n > 0 {
          assert turns[..n][n - 1] == turns[n - 1];
        }
        PendingTurnKeepsLimits(t, now);
      }
    }
  }

  /** The active pass alone keeps every known validator within its limit. */
  lemma ActivePassKeepsLimits(d: Dist, turns: seq<Turn>, now: nat, d': Dist)
    requires Chain(d, turns, now, d') && AllActive(turns) && WithinLimits(d)
    ensures WithinLimits(d')
  {
    TurnsKeepLimits(d, turns, now, d');
  }

  /**
   A sweep that starts within the limits ends within them if no known validator has fetched a job,
   or if nothing pending is selected.
   */
  lemma SweepKeepsLimits(d: Dist, sel: Selector, now: nat, turns: seq<Turn>, d': Dist)
    requires Sweeps(d, sel, now, turns, d') && WithinLimits(d)
    requires NoneRunning(d.validators, d.active) || Selected(d.pending, sel) == {}
    ensures WithinLimits(d')
  {
    hide Chain, WithinLimits, NoneRunning;
    if !NoneRunning(d.validators, d.active) {
      forall i | 0 <= i < |turns| ensures turns[i].fromActive {
        assert turns[i].job in Selected(if turns[i].fromActive then d.active else d.pending, sel);
      }
    }
    TurnsKeepLimits(d, turns, now, d');
  }

  /** Forgetting a validator takes nobody beyond a limit. */
  lemma ForgettingKeepsLimits(d: Dist, v: ValidatorId)
    requires WithinLimits(d)
    ensures WithinLimits(d.(validators := d.validators - {v}))
    ensures NoneRunning(d.validators, d.active) ==> NoneRunning(d.validators - {v}, d.active)
  {}

  // ---- the exact condition for the pending pass ----

  /** `t` is a turn of the pending pass, from a state within the limits, over these validators and active jobs. */
  ghost predicate PendingTurn(t: Turn, vs: map<ValidatorId, Capacity>, active: Assignments) {
    !t.fromActive && t.Ok() && WithinLimits(t.before) && t.before.validators == vs && t.before.active == active
  }

  ghost predicate EndsWithinLimits(t: Turn, now: nat) {
    t.Ok() && WithinLimits(t.After(now))
  }

  ghost predicate PendingPassIsSafe(vs: map<ValidatorId, Capacity>, active: Assignments, now: nat) {
    forall t :: PendingTurn(t, vs, active) ==> EndsWithinLimits(t, now)
  }

  /** The active jobs alone exceed nobody's limit, so that there are states within the limits at all. */
  ghost predicate ActiveFits(vs: map<ValidatorId, Capacity>, active: Assignments) {
    forall v :: v in vs ==> |AssignedTo(active, v)| <= vs[v].maxConcurrentJobs
  }

  lemma {:induction false} LongerThanAll(s: set<string>) returns (n: nat)
    ensures forall x :: x in s ==> |x| < n
  {
    if s == {} {
      n := 0;
    } else {
      var x :| x in s;
      var m := LongerThanAll(s - {x});
      n := if m > |x| then m else |x| + 1;
    }
  }

  lemma FreshName(s: set<string>) returns (x: string)
    ensures x !in s
  {
    var n := LongerThanAll(s);
    x := seq(n, _ => 'a');
  }

  lemma NewJobOf(p: Assignments, job: JobId, a: Assignment, v: ValidatorId)
    requires job !in p
    ensures AssignedTo(p[job := a], v) == AssignedTo(p, v) + if v == a.validatorId then {job} else {}
    ensures |AssignedTo(p[job := a], v)| == |AssignedTo(p, v)| + if v == a.validatorId then 1 else 0
  {}

  /** `k` more pending jobs for `u`, under ids that are not in `avoid`. */
  lemma {:induction false} GiveJobs(p: Assignments, u: ValidatorId, k: nat, avoid: set<JobId>) returns (q: Assignments)
    requires p.Keys !! avoid
    ensures q.Keys !! avoid && |AssignedTo(q, u)| == |AssignedTo(p, u)| + k
    ensures forall v :: v != u ==> AssignedTo(q, v) == AssignedTo(p, v)
    decreases k
  {
    hide AssignedTo;
    if k == 0 {
      q := p;
    } else {
      q := GiveJobs(p, u, k - 1, avoid);
      var job := FreshName(q.Keys + avoid);
      forall v ensures AssignedTo(q[job := Assignment(job, u, 0, 0, 0)], v) == AssignedTo(q, v) + if v == u then {job} else {} {
        NewJobOf(q, job, Assignment(job, u, 0, 0, 0), v);
      }
      NewJobOf(q, job, Assignment(job, u, 0, 0, 0), u);
      q := q[job := Assignment(job, u, 0, 0, 0)];
    }
  }

  /** Pending jobs that fill the validators in `todo` up to their limits, next to their active jobs. */
  lemma {:induction false} FillUp(vs: map<ValidatorId, Capacity>, active: Assignments, todo: set<ValidatorId>) returns (p: Assignments)
    requires todo <= vs.Keys && ActiveFits(vs, active)
    ensures p.Keys !! active.Keys
    ensures forall v :: v in todo ==> |AssignedTo(p, v)| + |AssignedTo(active, v)| == vs[v].maxConcurrentJobs
    ensures forall v :: v !in todo ==> AssignedTo(p, v) == {}
  {
    if todo == {} {
      p := map[];
    } else {
      var u :| u in todo;
      var q := FillUp(vs, active, todo - {u});
      hide AssignedTo;
      p := GiveJobs(q, u, vs[u].maxConcurrentJobs - |AssignedTo(active, u)|, active.Keys);
    }
  }

  lemma {:induction false} FindLeast(d: Dist, withActive: bool, s: set<ValidatorId>) returns (v: ValidatorId)
    requires s != {}
    ensures v in s && forall u :: u in s ==> Load(d, v, withActive) <= Load(d, u, withActive)
  {
    hide Load;
    v :| v in s;
    if s != {v} {
      var u := FindLeast(d, withActive, s - {v});
      v := if Load(d, u, withActive) < Load(d, v, withActive) then u else v;
    }
  }

  lemma SomeBest(d: Dist, withActive: bool, w: ValidatorId) returns (v: ValidatorId)
    requires HasRoom(d, w, withActive)
    ensures Best(d, withActive, Some(v))
  {
    hide Load;
    var free := set u | u in d.validators && HasRoom(d, u, withActive);
    assert w in free;
    v := FindLeast(d, withActive, free);
  }

  /** One job more, held by nobody known, on top of validators that are exactly full. */
  lemma FullState(vs: map<ValidatorId, Capacity>, active: Assignments) returns (p: Assignments, job: JobId, d: Dist)
    requires ActiveFits(vs, active)
    ensures job !in p && job !in active && p.Keys !! active.Keys
    ensures job in d.pending && d.pending[job].retryCount == 0 && d.pending - {job} == p
    ensures d.validators == vs && d.active == active
    ensures forall v :: v in vs ==> Load(d, v, true) == Load(d.(pending := p), v, true) == vs[v].maxConcurrentJobs
  {
    p := FillUp(vs, active, vs.Keys);
    job := FreshName(p.Keys + active.Keys);
    var nobody := FreshName(vs.Keys);
    d := Dist(vs, p[job := Assignment(job, nobody, 0, 0, 0)], active);
    forall v | v in vs ensures AssignedTo(d.pending, v) == AssignedTo(p, v) {
      NewJobOf(p, job, Assignment(job, nobody, 0, 0, 0), v);
    }
    assert d.pending - {job} == p;
  }

  /** If some known validator has fetched a job, a pending turn can overload, from disjoint maps within the limits. */
  lemma OverloadingTurn(vs: map<ValidatorId, Capacity>, active: Assignments, w: ValidatorId, now: nat) returns (t: Turn)
    requires ActiveFits(vs, active) && w in vs && AssignedTo(active, w) != {}
    ensures PendingTurn(t, vs, active) && Disjoint(t.before) && !WithinLimits(t.After(now))
  {
    var p, job, d := FullState(vs, active);
    var free := d.(pending := p);
    assert Load(free, w, false) < Load(free, w, true);
    var v := SomeBest(free, false, w);
    t := Turn(d, false, job, Some(v));
    assert t.Removed() == free;
    hide Best, AssignedTo, Load;
    OneMore(t, now, v);
  }

  lemma OneMore(t: Turn, now: nat, v: ValidatorId)
    requires t.job in t.Source() && t.choice == Some(v) && t.job !in t.Removed().pending
    ensures Load(t.After(now), v, true) == Load(t.Removed(), v, true) + 1
  {
    hide AssignedTo;
    NewJobOf(t.Removed().pending, t.job, t.Source()[t.job].Retry(v, now), v);
  }

  /**
   The exact condition: over given validators and active jobs, every turn of the pending pass from
   every state within the limits stays within them if and only if no known validator has fetched a
   job (or the active jobs alone are beyond a limit already).
   */
  lemma PendingPassSafeExactly(vs: map<ValidatorId, Capacity>, active: Assignments, now: nat)
    ensures PendingPassIsSafe(vs, active, now) <==> NoneRunning(vs, active) || !ActiveFits(vs, active)
  {
    if NoneRunning(vs, active) || !ActiveFits(vs, active) {
      forall t | PendingTurn(t, vs, active) ensures EndsWithinLimits(t, now) {
        if NoneRunning(vs, active) {
          PendingTurnKeepsLimits(t, now);
        } else {
          LimitsNeedFit(t.before);
          assert false;
        }
      }
    } else {
      var w :| w in vs && AssignedTo(active, w) != {};
      var t := OverloadingTurn(vs, active, w, now);
      assert PendingTurn(t, vs, active) && !EndsWithinLimits(t, now);
    }
  }

  lemma LimitsNeedFit(d: Dist)
    requires WithinLimits(d)
    ensures ActiveFits(d.validators, d.active)
  {
    hide AssignedTo;
    forall v | v in d.validators ensures |AssignedTo(d.active, v)| <= d.validators[v].maxConcurrentJobs {
      assert Load(d, v, true) <= d.validators[v].maxConcurrentJobs;
    }
  }

  /** The overload is reachable from the empty coordinator: one timeout sweep takes it beyond a limit. */
  lemma OverloadIsReachable() returns (ds: seq<Dist>, ops: seq<Op>, clocks: seq<nat>)
    ensures History(ds, ops, clocks) && |ds| == 8 && ops[6].Timeouts?
    ensures WithinLimits(ds[6]) && Disjoint(ds[6]) && !WithinLimits(ds[7])
  {
    var u, v := Capacity("u", 1, 1, 1, 0), Capacity("v", 1, 1, 1, 0);
    var b, a := Assignment("b", "u", 0, 300, 0), Assignment("a", "v", 1, 301, 0);
    var vs := map["v" := v];
    var full := Dist(vs, map["b" := b], map["a" := a]);
    var over := Dist(vs, map["b" := b.Retry("v", 300)], map["a" := a]);
    var d1, d2 := Dist(map["u" := u], map[], map[]), Dist(map["u" := u], map["b" := b], map[]);
    var d4, d5 := Dist(vs, map["b" := b], map[]), Dist(vs, map["b" := b, "a" := a], map[]);
    FirstJob(u, b, d1, d2);
    SecondJob(v, b, a, d4, d5, full);
    LastStepOverloads(full, over, b, a, v);
    hide Outcome, History, WithinLimits, Disjoint;
    ds, ops, clocks := NoHistory();
    ds, ops, clocks := Happens(ds, ops, clocks, Announce(u), 0, d1);
    ds, ops, clocks := Happens(ds, ops, clocks, Assign("b", "u"), 0, d2);
    ds, ops, clocks := Happens(ds, ops, clocks, Withdraw("u"), 0, Dist(map[], map["b" := b], map[]));
    ds, ops, clocks := Happens(ds, ops, clocks, Announce(v), 0, d4);
    ds, ops, clocks := Happens(ds, ops, clocks, Assign("a", "v"), 1, d5);
    ds, ops, clocks := Happens(ds, ops, clocks, Fetch("a"), 1, full);
    ds, ops, clocks := Happens(ds, ops, clocks, Timeouts, 300, over);
  }

  lemma NoHistory() returns (ds: seq<Dist>, ops: seq<Op>, clocks: seq<nat>)
    ensures History(ds, ops, clocks) && ops == [] && ds == [Dist(map[], map[], map[])]
  {
    ds, ops, clocks := [Dist(map[], map[], map[])], [], [];
  }

  lemma Happens(ds: seq<Dist>, ops: seq<Op>, clocks: seq<nat>, op: Op, now: nat, d: Dist)
    returns (ds': seq<Dist>, ops': seq<Op>, clocks': seq<nat>)
    requires History(ds, ops, clocks) && |ds| == |ops| + 1 && Outcome(ds[|ops|], op, now, d)
    ensures History(ds', ops', clocks') && ds' == ds + [d] && ops' == ops + [op]
  {
    hide Outcome;
    ds', ops', clocks' := ds + [d], ops + [op], clocks + [now];
    forall i | 0 <= i < |ops'| ensures Outcome(ds'[i], ops'[i], clocks'[i], ds'[i + 1]) {
      if i < |ops| {
        assert Outcome(ds[i], ops[i], clocks[i], ds[i + 1]);
      }
    }
  }

  lemma FirstJob(u: Capacity, b: Assignment, d1: Dist, d2: Dist)
    requires u == Capacity("u", 1, 1, 1, 0) && b == Assignment("b", "u", 0, 300, 0)
    requires d1 == Dist(map["u" := u], map[], map[]) && d2 == Dist(map["u" := u], map["b" := b], map[])
    ensures Outcome(Dist(map[], map[], map[]), Announce(u), 0, d1) && Outcome(d1, Assign("b", "u"), 0, d2)
    ensures Outcome(d2, Withdraw("u"), 0, Dist(map[], map["b" := b], map[]))
  {
    OnlyOneIsAssignable(u);
    assert map["u" := u] - {"u"} == map[];
    hide Assignable;
  }

  lemma SecondJob(v: Capacity, b: Assignment, a: Assignment, d4: Dist, d5: Dist, full: Dist)
    requires v == Capacity("v", 1, 1, 1, 0) && a == Assignment("a", "v", 1, 301, 0)
    requires d4 == Dist(map["v" := v], map["b" := b], map[]) && d5 == d4.(pending := map["b" := b, "a" := a])
    requires full == d4.(active := map["a" := a])
    ensures Outcome(Dist(map[], map["b" := b], map[]), Announce(v), 0, d4)
    ensures Outcome(d4, Assign("a", "v"), 1, d5) && Outcome(d5, Fetch("a"), 1, full)
  {
    OnlyOneIsAssignable(v);
    assert map["b" := b, "a" := a] - {"a"} == map["b" := b];
    hide Assignable;
  }

  lemma OnlyOneIsAssignable(c: Capacity)
    requires c.HasCapacity()
    ensures Assignable(map[c.validatorId := c], c.validatorId)
  {
    assert LeastLoaded(map[c.validatorId := c], c.validatorId);
  }

  lemma LastStepOverloads(full: Dist, over: Dist, b: Assignment, a: Assignment, v: Capacity)
    requires v == Capacity("v", 1, 1, 1, 0) && b == Assignment("b", "u", 0, 300, 0) && a == Assignment("a", "v", 1, 301, 0)
    requires full == Dist(map["v" := v], map["b" := b], map["a" := a])
    requires over == full.(pending := map["b" := b.Retry("v", 300)])
    ensures Outcome(full, Timeouts, 300, over) && WithinLimits(full) && Disjoint(full) && !WithinLimits(over)
  {
    var t := Turn(full, false, "b", Some("v"));
    assert t.Removed().pending == map[];
    assert AssignedTo(map[], "v") == {} && AssignedTo(full.pending, "v") == {} && AssignedTo(full.active, "v") == {"a"};
    assert Best(t.Removed(), false, Some("v"));
    assert t.After(300) == over;
    assert [t][..0] == [];
    assert Chain(full, [t], 300, over);
    assert Selected(full.pending, TimedOutAt(300)) == {"b"} && Selected(full.active, TimedOutAt(300)) == {};
    assert [t][0].job == "b";
    assert Visits([t], full, TimedOutAt(300));
    assert Sweeps(full, TimedOutAt(300), 300, [t], over);
    assert AssignedTo(over.pending, "v") == {"b"};
    assert Load(over, "v", true) == 2;
  }
}
