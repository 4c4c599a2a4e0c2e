/**
 How many tasks execute at once.  The loop looks at the entries of the active map, and a map has
 one entry for any number of tasks under one id; so the limit of four holds exactly as far as
 clients do not repeat ids.
 */
module TaskLimit {
  import opened Common
  import opened Executor

  /** All ids but the last. */
  function AllButLast(ids: seq<JobId>): seq<JobId> {
    if ids == [] then [] else ids[..|ids| - 1]
  }

  // ---- when four is enough ----

  lemma {:induction false} SetOfDistinct(ids: seq<JobId>, s: set<JobId>)
    requires NoRepeats(ids) && forall x :: x in s <==> x in ids
    ensures |s| == |ids|
  {
    if ids == [] {
      assert s == {};
    } else {
      var n := |ids| - 1;
      assert ids == ids[..n] + [ids[n]];
      SetOfDistinct(ids[..n], s - {ids[n]});
    }
  }

  lemma TrackedTasks(s: Exec)
    requires MapTracksTasks(s)
    ensures |s.running| == |s.active.Keys|
  {
    SetOfDistinct(JobIds(s.running), s.active.Keys);
  }

  /** As long as only the last start may have repeated an id, at most four tasks execute. */
  ghost predicate FourRule(s: Exec) {
    NoRepeats(AllButLast(s.started)) ==> |s.running| <= MAX_CONCURRENT_JOBS
  }

  lemma FourRuleStep(s: Exec, e: Step)
    requires Inv(s) && FourRule(s) && Enabled(s, e)
    ensures FourRule(Take(s, e))
  {
    hide Accounted, Ordered, QueuesBounded, JobIds, NoRepeats;
    if e.LoopStart? {
      assert AllButLast(Take(s, e).started) == s.started;
      if NoRepeats(s.started) {
        TrackedTasks(s);
      }
    }
  }

  lemma {:induction false} FourRuleAlways(states: seq<Exec>, steps: seq<Step>, n: nat)
    requires Run(states, steps) && n <= |steps|
    ensures FourRule(states[n])
  {
    hide Take, FourRule;
    if n > 0 {
      FourRuleAlways(states, steps, n - 1);
      InvAlways(states, steps, n - 1);
      FourRuleStep(states[n - 1], steps[n - 1]);
    } else {
      EmptyFourRule();
    }
  }

  lemma EmptyFourRule()
    ensures FourRule(Empty())
  {}

  /** Every running task was started, so there are no more of them than starts. */
  lemma {:induction false} NoMoreThanStarted(states: seq<Exec>, steps: seq<Step>, n: nat)
    requires Run(states, steps) && n <= |steps|
    ensures |states[n].running| <= |states[n].started|
  {
    if n > 0 {
      NoMoreThanStarted(states, steps, n - 1);
      RunningStep(states[n - 1], steps[n - 1]);
    }
  }

  lemma RunningStep(s: Exec, e: Step)
    requires Enabled(s, e) && |s.running| <= |s.started|
    ensures |Take(s, e).running| <= |Take(s, e).started|
  {}

  /** Clients submit the ids of `w`, in this order: whatever the interleaving, at most four tasks execute. */
  ghost predicate AtMostFour(w: seq<JobId>) {
    forall states: seq<Exec>, steps: seq<Step>, n :: RunOver(states, steps, w) && 0 <= n <= |steps| ==> |states[n].running| <= 4
  }

  ghost predicate RunOver(states: seq<Exec>, steps: seq<Step>, w: seq<JobId>) {
    |states| == |steps| + 1 && Run(states, steps) && forall n :: 0 <= n <= |steps| ==> states[n].accepted <= w
  }

  lemma PrefixDistinct(a: seq<JobId>, b: seq<JobId>)
    requires a <= b && NoRepeats(b)
    ensures NoRepeats(a)
  {
    assert forall i :: 0 <= i < |a| ==> a[i] == b[i];
  }

  lemma FourSuffice(states: seq<Exec>, steps: seq<Step>, w: seq<JobId>, n: nat)
    requires RunOver(states, steps, w) && n <= |steps| && (|w| <= MAX_CONCURRENT_JOBS || NoRepeats(AllButLast(w)))
    ensures |states[n].running| <= MAX_CONCURRENT_JOBS
  {
    ExactlyOnePlace(states, steps, n);
    var started := states[n].started;
    assert started <= w;
    if |w| <= MAX_CONCURRENT_JOBS {
      NoMoreThanStarted(states, steps, n);
    } else {
      FourRuleAlways(states, steps, n);
      assert AllButLast(started) <= AllButLast(w);
      PrefixDistinct(AllButLast(started), AllButLast(w));
    }
  }

  // ---- building runs ----

  /** The loop is at its beginning, and no job waits and no result is under way to it. */
  predicate Quiet(s: Exec) { s.pc.Checking? && s.pending == [] && s.channel == [] && s.storing.None? }

  lemma Then(states: seq<Exec>, steps: seq<Step>, w: seq<JobId>, e: Step, t: Exec) returns (states': seq<Exec>, steps': seq<Step>)
    requires RunOver(states, steps, w) && Enabled(states[|steps|], e) && t == Take(states[|steps|], e) && t.accepted <= w
    ensures RunOver(states', steps', w) && states'[|steps'|] == t
  {
    hide Take;
    states', steps' := states + [t], steps + [e];
    forall i | 0 <= i < |steps'| ensures Enabled(states'[i], steps'[i]) && states'[i + 1] == Take(states'[i], steps'[i]) {
      if i < |steps| {
        assert Enabled(states[i], steps[i]) && states[i + 1] == Take(states[i], steps[i]);
      }
    }
  }

  /** One more job is submitted and started. */
  function Started(s: Exec, id: JobId): Exec {
    s.(active := s.active[id := Job(id, [])], running := s.running + [Job(id, [])],
       accepted := s.accepted + [id], started := s.started + [id])
  }

  lemma StartJob(states: seq<Exec>, steps: seq<Step>, w: seq<JobId>, id: JobId) returns (states': seq<Exec>, steps': seq<Step>)
    requires RunOver(states, steps, w) && Quiet(states[|steps|]) && |states[|steps|].active| < MAX_CONCURRENT_JOBS
    requires states[|steps|].accepted + [id] <= w
    ensures RunOver(states', steps', w) && states'[|steps'|] == Started(states[|steps|], id) && Quiet(states'[|steps'|])
  {
    hide Run;
    var s, job := states[|steps|], Job(id, []);
    var s1 := s.(pending := [job], accepted := s.accepted + [id]);
    assert s.pending + [job] == [job];
    states', steps' := Then(states, steps, w, Submit(job), s1);
    states', steps' := Then(states', steps', w, LoopCheck, s1.(pc := Popping));
    states', steps' := Then(states', steps', w, LoopPop, s1.(pc := Holding(job), pending := []));
    states', steps' := Then(states', steps', w, LoopStart, Started(s, id).(pc := Draining));
    states', steps' := Then(states', steps', w, LoopReceive, Started(s, id));
  }

  /** The newest task ends, and its result is not sent yet. */
  function Ended(s: Exec, id: JobId): Exec
    requires s.running != []
  {
    s.(active := s.active - {id}, running := s.running[..|s.running| - 1], finishing := s.finishing + [JobResult(id, None)])
  }

  lemma EndJob(states: seq<Exec>, steps: seq<Step>, w: seq<JobId>, id: JobId) returns (states': seq<Exec>, steps': seq<Step>)
    requires RunOver(states, steps, w) && Quiet(states[|steps|])
    requires var running := states[|steps|].running; running != [] && running[|running| - 1].id == id
    requires states[|steps|].accepted <= w
    ensures RunOver(states', steps', w) && states'[|steps'|] == Ended(states[|steps|], id) && Quiet(states'[|steps'|])
  {
    hide Run;
    var s := states[|steps|];
    var n := |s.running| - 1;
    assert RemoveAt(s.running, n) == s.running[..n];
    states', steps' := Then(states, steps, w, TaskDone(n, JobResult(id, None)), Ended(s, id));
  }

  lemma NewRun(w: seq<JobId>) returns (states: seq<Exec>, steps: seq<Step>)
    ensures RunOver(states, steps, w) && states[|steps|] == Empty()
  {
    states, steps := [Empty()], [];
  }

  // ---- a run with five tasks ----

  /** The ids at the kept positions below `k`. */
  function Kept(w: seq<JobId>, keep: set<nat>, k: nat): seq<JobId>
    requires k <= |w|
  {
    if k == 0 then [] else Kept(w, keep, k - 1) + if k - 1 in keep then [w[k - 1]] else []
  }

  function Below(keep: set<nat>, k: nat): set<nat> {
    set q | q in keep && q < k
  }

  lemma {:induction false} KeptSize(w: seq<JobId>, keep: set<nat>, k: nat)
    requires k <= |w|
    ensures |Kept(w, keep, k)| == |Below(keep, k)|
  {
    if k == 0 {
      assert Below(keep, k) == {};
    } else {
      KeptSize(w, keep, k - 1);
      assert Below(keep, k) == if k - 1 in keep then Below(keep, k - 1) + {k - 1} else Below(keep, k - 1);
    }
  }

  lemma {:induction false} KeptIds(w: seq<JobId>, keep: set<nat>, k: nat, s: set<JobId>)
    requires k <= |w| && forall q :: q in keep && q < |w| ==> w[q] in s
    ensures forall x :: x in Kept(w, keep, k) ==> x in s
  {
    if k > 0 {
      KeptIds(w, keep, k - 1, s);
    }
  }

  /** Jobs are started in order, and those that are not kept end at once. */
  lemma {:induction false} KeepRunning(w: seq<JobId>, keep: set<nat>, k: nat, s: set<JobId>) returns (states: seq<Exec>, steps: seq<Step>)
    requires k <= |w| && |s| < MAX_CONCURRENT_JOBS && forall q :: q in keep && q < |w| ==> w[q] in s
    ensures RunOver(states, steps, w) && Quiet(states[|steps|])
    ensures states[|steps|].accepted == w[..k] && JobIds(states[|steps|].running) == Kept(w, keep, k)
    ensures |states[|steps|].active| < MAX_CONCURRENT_JOBS
  {
    if k == 0 {
      states, steps := NewRun(w);
    } else {
      states, steps := KeepRunning(w, keep, k - 1, s);
      var before := states[|steps|];
      var id := w[k - 1];
      assert before.accepted + [id] == w[..k];
      states, steps := StartJob(states, steps, w, id);
      JobIdsPush(before.running, Job(id, []));
      if k - 1 !in keep {
        var now := states[|steps|];
        states, steps := EndJob(states, steps, w, id);
        assert states[|steps|].running == before.running;
      }
      FewEntries(states, steps, w, keep, k, s);
    }
  }

  lemma FewEntries(states: seq<Exec>, steps: seq<Step>, w: seq<JobId>, keep: set<nat>, k: nat, s: set<JobId>)
    requires k <= |w| && |s| < MAX_CONCURRENT_JOBS && forall q :: q in keep && q < |w| ==> w[q] in s
    requires Run(states, steps) && JobIds(states[|steps|].running) == Kept(w, keep, k)
    ensures |states[|steps|].active| < MAX_CONCURRENT_JOBS
  {
    InvAlways(states, steps, |steps|);
    KeptIds(w, keep, k, s);
    assert states[|steps|].active.Keys <= s;
    FewerElements(states[|steps|].active.Keys, s);
  }

  lemma TwoOthers(i: nat, j: nat) returns (x: nat, y: nat)
    ensures x < 4 && y < 4 && x != y && x != i && x != j && y != i && y != j
  {
    x := if i != 0 && j != 0 then 0 else if i != 1 && j != 1 then 1 else 2;
    y := if i != 3 && j != 3 then 3 else if i != 2 && j != 2 then 2 else 1;
  }

  lemma FourPositions(i: nat, j: nat, x: nat, y: nat, p: nat)
    requires i < p && j < p && x < p && y < p && i != j && x != y && x != i && x != j && y != i && y != j
    ensures |Below({i, j, x, y}, p)| == 4
  {
    assert Below({i, j, x, y}, p) == {i, j, x, y};
  }

  /** Enough jobs, and an id repeated before the last of them: some interleaving has five tasks at work. */
  lemma FiveTasks(w: seq<JobId>, i: nat, j: nat) returns (states: seq<Exec>, steps: seq<Step>)
    requires |w| > MAX_CONCURRENT_JOBS && i < j < |w| - 1 && w[i] == w[j]
    ensures RunOver(states, steps, w) && |states[|steps|].running| == 5
  {
    var p := |w| - 1;
    var x, y := TwoOthers(i, j);
    var keep, s := {i, j, x, y}, {w[i], w[x], w[y]};
    states, steps := KeepRunning(w, keep, p, s);
    FourPositions(i, j, x, y, p);
    KeptSize(w, keep, p);
    assert states[|steps|].accepted + [w[p]] == w;
    assert |JobIds(states[|steps|].running)| == 4;
    states, steps := StartJob(states, steps, w, w[p]);
  }

  /**
   The exact condition: clients that submit the ids of `w` never have more than four tasks at work
   if and only if there are at most four of them, or no id is repeated before the last.
   */
  lemma AtMostFourExactly(w: seq<JobId>)
    ensures AtMostFour(w) <==> |w| <= 4 || NoRepeats(AllButLast(w))
  {
    hide Run;
    if |w| <= MAX_CONCURRENT_JOBS || NoRepeats(AllButLast(w)) {
      forall states: seq<Exec>, steps: seq<Step>, n | RunOver(states, steps, w) && 0 <= n <= |steps|
        ensures |states[n].running| <= MAX_CONCURRENT_JOBS
      {
        FourSuffice(states, steps, w, n);
      }
    } else {
      var i, j :| 0 <= i < j < |w| - 1 && AllButLast(w)[i] == AllButLast(w)[j];
      var states, steps := FiveTasks(w, i, j);
      assert |states[|steps|].running| == 5;
    }
  }

  /** Five jobs under one id all run at once, and the active map shows one entry. */
  lemma FiveUnderOneId(id: JobId) returns (states: seq<Exec>, steps: seq<Step>)
    ensures RunOver(states, steps, [id, id, id, id, id])
    ensures |states[|steps|].running| == 5 && states[|steps|].active.Keys == {id}
  {
    hide Run;
    var w := [id, id, id, id, id];
    states, steps := NewRun(w);
    for k := 0 to 5
      invariant RunOver(states, steps, w) && Quiet(states[|steps|])
      invariant states[|steps|].accepted == w[..k] && |states[|steps|].running| == k
      invariant states[|steps|].active.Keys == if k == 0 then {} else {id}
    {
      assert w[..k] + [id] == w[..k + 1];
      states, steps := StartJob(states, steps, w, id);
    }
  }
}
