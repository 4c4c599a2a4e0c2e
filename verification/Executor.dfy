/**
 The job executor: a loop that moves jobs from the waiting queue to execution, the tasks it
 spawns, and the channel that brings results back, as a state machine over their atomic steps.
 */
module Executor {
  import opened Common

  const MAX_CONCURRENT_JOBS: nat := 4
  const MAX_PENDING_JOBS: nat := 64
  const MAX_COMPLETED_RESULTS: nat := 1024

  type JobId = string

  datatype Job = Job(id: JobId, payload: Bytes)

  datatype JobResult = JobResult(jobId: JobId, output: Option<Bytes>)

  /** Where the loop stands: about to look at the active count, to take a job, to start the job in hand, or draining results. */
  datatype LoopPc = Checking | Popping | Holding(job: Job) | Draining

  /**
   `running` are the spawned tasks at work and `active` the map that the loop looks at; a task's end
   takes its id out of the map, whoever else runs under that id.  `finishing` are results whose task
   has left the map but not yet sent, and `storing` is the result the loop has received but not yet
   put away.  The rest are logs: ids in submission and in start order, results discarded by eviction
   or clearing, and results replaced by a later one of the same id.
   */
  datatype Exec = Exec(
    pending: seq<Job>,
    pc: LoopPc,
    active: map<JobId, Job>,
    running: seq<Job>,
    finishing: seq<JobResult>,
    channel: seq<JobResult>,
    storing: Option<JobResult>,
    completed: map<JobId, JobResult>,
    accepted: seq<JobId>,
    started: seq<JobId>,
    dropped: multiset<JobId>,
    overwritten: multiset<JobId>)

  function Empty(): Exec {
    Exec([], Checking, map[], [], [], [], None, map[], [], [], multiset{}, multiset{})
  }

  datatype Step =
    | Submit(job: Job)
    | LoopCheck
    | LoopPop
    | LoopStart
    | TaskDone(index: nat, result: JobResult)
    | TaskSend(index: nat)
    | LoopReceive
    | LoopStore(victim: JobId)
    | ClearCompleted

  function RemoveAt<T>(s: seq<T>, i: nat): seq<T>
    requires i < |s|
  {
    s[..i] + s[i + 1..]
  }

  predicate Full(s: Exec) { |s.pending| >= MAX_PENDING_JOBS }

  predicate MustEvict(s: Exec, r: JobResult) {
    r.jobId !in s.completed && |s.completed| >= MAX_COMPLETED_RESULTS
  }

  /** When a step can be taken. */
  predicate Enabled(s: Exec, e: Step) {
    match e
    case Submit(_) => true
    case LoopCheck => s.pc.Checking?
    case LoopPop => s.pc.Popping?
    case LoopStart => s.pc.Holding?
    case TaskDone(i, r) => i < |s.running| && s.running[i].id == r.jobId
    case TaskSend(i) => i < |s.finishing|
    case LoopReceive => s.pc.Draining? && s.storing.None?
    case LoopStore(victim) => s.pc.Draining? && s.storing.Some? && (MustEvict(s, s.storing.value) ==> victim in s.completed)
    case ClearCompleted => true
  }

  function Put(s: Exec, r: JobResult, victim: JobId): Exec {
    if r.jobId in s.completed then
      s.(completed := s.completed[r.jobId := r], overwritten := s.overwritten + multiset{r.jobId})
    else if MustEvict(s, r) then
      s.(completed := (s.completed - {victim})[r.jobId := r], dropped := s.dropped + multiset{victim})
    else s.(completed := s.completed[r.jobId := r])
  }

  function Take(s: Exec, e: Step): Exec
    requires Enabled(s, e)
  {
    match e
    case Submit(job) =>
      if Full(s) then s else s.(pending := s.pending + [job], accepted := s.accepted + [job.id])
    case LoopCheck => s.(pc := if |s.active| < MAX_CONCURRENT_JOBS then Popping else Draining)
    case LoopPop =>
      if s.pending == [] then s.(pc := Draining)
      else s.(pc := Holding(s.pending[0]), pending := s.pending[1..])
    case LoopStart =>
      var job := s.pc.job;
      s.(pc := Draining, active := s.active[job.id := job], running := s.running + [job], started := s.started + [job.id])
    case TaskDone(i, r) =>
      s.(active := s.active - {r.jobId}, running := RemoveAt(s.running, i), finishing := s.finishing + [r])
    case TaskSend(i) => s.(finishing := RemoveAt(s.finishing, i), channel := s.channel + [s.finishing[i]])
    case LoopReceive =>
      if s.channel == [] then s.(pc := Checking)
      else s.(storing := Some(s.channel[0]), channel := s.channel[1..])
    case LoopStore(victim) => Put(s, s.storing.value, victim).(storing := None)
    case ClearCompleted => s.(completed := map[], dropped := s.dropped + multiset(s.completed.Keys))
  }

  // ---- counting ids ----

  function One(b: bool): nat { if b then 1 else 0 }

  function Count(ids: seq<JobId>, id: JobId): nat {
    if ids == [] then 0 else Count(ids[..|ids| - 1], id) + One(ids[|ids| - 1] == id)
  }

  function JobIds(js: seq<Job>): (ids: seq<JobId>)
    ensures |ids| == |js|
  {
    seq(|js|, i requires 0 <= i < |js| => js[i].id)
  }

  function ResultIds(rs: seq<JobResult>): (ids: seq<JobId>)
    ensures |ids| == |rs|
  {
    seq(|rs|, i requires 0 <= i < |rs| => rs[i].jobId)
  }

  ghost predicate NoRepeats(ids: seq<JobId>) {
    forall i, j :: 0 <= i < j < |ids| ==> ids[i] != ids[j]
  }

  lemma {:induction false} CountConcat(a: seq<JobId>, b: seq<JobId>, id: JobId)
    ensures Count(a + b, id) == Count(a, id) + Count(b, id)
  {
    if b == [] {
      assert a + b == a;
    } else {
      var n := |b| - 1;
      CountConcat(a, b[..n], id);
      assert (a + b)[..|a + b| - 1] == a + b[..n];
    }
  }

  lemma CountPush(ids: seq<JobId>, x: JobId, id: JobId)
    ensures Count(ids + [x], id) == Count(ids, id) + One(x == id)
  {
    assert (ids + [x])[..|ids|] == ids;
  }

  lemma CountRemove(ids: seq<JobId>, i: nat, id: JobId)
    requires i < |ids|
    ensures Count(RemoveAt(ids, i), id) == Count(ids, id) - One(ids[i] == id)
  {
    assert ids == (ids[..i] + [ids[i]]) + ids[i + 1..];
    CountConcat(ids[..i] + [ids[i]], ids[i + 1..], id);
    CountPush(ids[..i], ids[i], id);
    CountConcat(ids[..i], ids[i + 1..], id);
  }

  lemma {:induction false} CountMember(ids: seq<JobId>, id: JobId)
    ensures Count(ids, id) > 0 <==> id in ids
  {
    if ids != [] {
      CountMember(ids[..|ids| - 1], id);
      assert ids == ids[..|ids| - 1] + [ids[|ids| - 1]];
    }
  }

  lemma {:induction false} CountOnce(ids: seq<JobId>, id: JobId)
    requires NoRepeats(ids)
    ensures Count(ids, id) == One(id in ids)
  {
    if ids != [] {
      CountOnce(ids[..|ids| - 1], id);
      assert ids == ids[..|ids| - 1] + [ids[|ids| - 1]];
    }
  }

  lemma {:induction false} CountIsMultiplicity(ids: seq<JobId>, id: JobId)
    ensures Count(ids, id) == multiset(ids)[id]
  {
    if ids != [] {
      CountIsMultiplicity(ids[..|ids| - 1], id);
      assert ids == ids[..|ids| - 1] + [ids[|ids| - 1]];
    }
  }

  // ---- where the jobs are ----

  predicate IsInHand(s: Exec, id: JobId) { s.pc.Holding? && s.pc.job.id == id }

  predicate IsReceived(s: Exec, id: JobId) { s.storing.Some? && s.storing.value.jobId == id }

  /** How often an id occurs over all the places a job or its result can be in. */
  ghost function Occurrences(s: Exec, id: JobId): nat {
    Count(JobIds(s.pending), id) + One(IsInHand(s, id)) + Count(JobIds(s.running), id) + Count(ResultIds(s.finishing), id)
    + Count(ResultIds(s.channel), id) + One(IsReceived(s, id)) + One(id in s.completed) + s.dropped[id]
  }

  /** Every acceptance of an id is accounted for: by a place, or by a result that a later one replaced. */
  ghost predicate Accounted(s: Exec, id: JobId) {
    Occurrences(s, id) + s.overwritten[id] == Count(s.accepted, id)
  }

  function InHand(s: Exec): seq<JobId> { if s.pc.Holding? then [s.pc.job.id] else [] }

  /** What has been started, the job in hand and the queue together are what was accepted, in order. */
  ghost predicate Ordered(s: Exec) {
    s.started + InHand(s) + JobIds(s.pending) == s.accepted
  }

  /** The loop takes a job only with an entry free in the map, and nobody else adds entries. */
  predicate ActiveBounded(s: Exec) {
    && |s.active.Keys| <= MAX_CONCURRENT_JOBS
    && (s.pc.Popping? || s.pc.Holding? ==> |s.active.Keys| < MAX_CONCURRENT_JOBS)
  }

  predicate QueuesBounded(s: Exec) {
    |s.pending| <= MAX_PENDING_JOBS && |s.completed.Keys| <= MAX_COMPLETED_RESULTS
  }

  /** The map has an entry for each running task and no other, and the tasks have different ids. */
  ghost predicate MapTracksTasks(s: Exec) {
    && NoRepeats(JobIds(s.running))
    && forall id :: id in s.active <==> id in JobIds(s.running)
  }

  /** Entries belong to running tasks, and running tasks were started; while no id has been started twice the map is exact. */
  ghost predicate Tracking(s: Exec) {
    && (forall id :: id in s.active ==> id in JobIds(s.running))
    && (forall id :: id in JobIds(s.running) ==> id in s.started)
    && (NoRepeats(s.started) ==> MapTracksTasks(s))
  }

  ghost predicate Inv(s: Exec) {
    && (forall id :: Accounted(s, id))
    && Ordered(s) && ActiveBounded(s) && QueuesBounded(s) && Tracking(s)
  }

  // ---- every step keeps every acceptance accounted for ----

  lemma JobIdsPush(js: seq<Job>, j: Job)
    ensures JobIds(js + [j]) == JobIds(js) + [j.id]
  {}

  lemma JobIdsPop(js: seq<Job>)
    requires js != []
    ensures JobIds(js) == [js[0].id] + JobIds(js[1..])
  {}

  lemma JobIdsRemove(js: seq<Job>, i: nat)
    requires i < |js|
    ensures JobIds(RemoveAt(js, i)) == RemoveAt(JobIds(js), i)
  {}

  lemma ResultIdsPush(rs: seq<JobResult>, r: JobResult)
    ensures ResultIds(rs + [r]) == ResultIds(rs) + [r.jobId]
  {}

  lemma ResultIdsPop(rs: seq<JobResult>)
    requires rs != []
    ensures ResultIds(rs) == [rs[0].jobId] + ResultIds(rs[1..])
  {}

  lemma ResultIdsRemove(rs: seq<JobResult>, i: nat)
    requires i < |rs|
    ensures ResultIds(RemoveAt(rs, i)) == RemoveAt(ResultIds(rs), i)
  {}

  lemma CountOne(x: JobId, id: JobId)
    ensures Count([x], id) == One(x == id)
  {
    assert [x] == [] + [x];
    CountPush([], x, id);
  }

  lemma SubmitAccounts(s: Exec, job: Job, id: JobId)
    requires Accounted(s, id)
    ensures Accounted(Take(s, Submit(job)), id)
  {
    hide Count, JobIds, ResultIds;
    JobIdsPush(s.pending, job);
    CountPush(JobIds(s.pending), job.id, id);
    CountPush(s.accepted, job.id, id);
  }

  lemma TakeUpAccounts(s: Exec, e: Step, id: JobId)
    requires Enabled(s, e) && (e.LoopCheck? || e.LoopPop?) && Accounted(s, id)
    ensures Accounted(Take(s, e), id)
  {
    hide Count, JobIds, ResultIds;
    if e.LoopPop? && s.pending != [] {
      JobIdsPop(s.pending);
      CountConcat([s.pending[0].id], JobIds(s.pending[1..]), id);
      CountOne(s.pending[0].id, id);
    }
  }

  lemma StartAccounts(s: Exec, id: JobId)
    requires Enabled(s, LoopStart) && Accounted(s, id)
    ensures Accounted(Take(s, LoopStart), id)
  {
    hide Count, JobIds, ResultIds;
    JobIdsPush(s.running, s.pc.job);
    CountPush(JobIds(s.running), s.pc.job.id, id);
  }

  lemma DoneAccounts(s: Exec, i: nat, r: JobResult, id: JobId)
    requires Enabled(s, TaskDone(i, r)) && Accounted(s, id)
    ensures Accounted(Take(s, TaskDone(i, r)), id)
  {
    JobIdsRemove(s.running, i);
    CountRemove(JobIds(s.running), i, id);
    ResultIdsPush(s.finishing, r);
    CountPush(ResultIds(s.finishing), r.jobId, id);
    assert JobIds(s.running)[i] == r.jobId;
    hide Count, JobIds, ResultIds, RemoveAt;
  }

  lemma SendAccounts(s: Exec, i: nat, id: JobId)
    requires Enabled(s, TaskSend(i)) && Accounted(s, id)
    ensures Accounted(Take(s, TaskSend(i)), id)
  {
    ResultIdsRemove(s.finishing, i);
    CountRemove(ResultIds(s.finishing), i, id);
    ResultIdsPush(s.channel, s.finishing[i]);
    CountPush(ResultIds(s.channel), s.finishing[i].jobId, id);
    assert ResultIds(s.finishing)[i] == s.finishing[i].jobId;
    hide Count, JobIds, ResultIds, RemoveAt;
  }

  lemma ResultAccounts(s: Exec, e: Step, id: JobId)
    requires Enabled(s, e) && (e.LoopReceive? || e.LoopStore? || e.ClearCompleted?) && Accounted(s, id)
    ensures Accounted(Take(s, e), id)
  {
    hide Count, JobIds, ResultIds;
    if e.LoopReceive? && s.channel != [] {
      ResultIdsPop(s.channel);
      CountConcat([s.channel[0].jobId], ResultIds(s.channel[1..]), id);
      CountOne(s.channel[0].jobId, id);
    }
  }

  lemma StepAccounts(s: Exec, e: Step, id: JobId)
    requires Enabled(s, e) && Accounted(s, id)
    ensures Accounted(Take(s, e), id)
  {
    hide Accounted, Take;
    match e
    case Submit(job) => SubmitAccounts(s, job, id);
    case LoopStart => StartAccounts(s, id);
    case TaskDone(i, r) => DoneAccounts(s, i, r, id);
    case TaskSend(i) => SendAccounts(s, i, id);
    case LoopCheck => TakeUpAccounts(s, e, id);
    case LoopPop => TakeUpAccounts(s, e, id);
    case _ => ResultAccounts(s, e, id);
  }

  // ---- order and limits ----

  lemma OrderedStep(s: Exec, e: Step)
    requires Ordered(s) && Enabled(s, e)
    ensures Ordered(Take(s, e))
  {
    hide JobIds;
    if e.Submit? { JobIdsPush(s.pending, e.job); }
    if e.LoopPop? && s.pending != [] { JobIdsPop(s.pending); }
  }

  lemma ActiveStep(s: Exec, e: Step)
    requires ActiveBounded(s) && Enabled(s, e)
    ensures ActiveBounded(Take(s, e))
  {
    match e
    case LoopStart => StartKeepsActive(s);
    case TaskDone(i, r) => DoneKeepsActive(s, i, r);
    case _ =>
  }

  lemma StartKeepsActive(s: Exec)
    requires ActiveBounded(s) && Enabled(s, LoopStart)
    ensures ActiveBounded(Take(s, LoopStart))
  {
    KeysWith(s.active, s.pc.job.id, s.pc.job);
  }

  lemma DoneKeepsActive(s: Exec, i: nat, r: JobResult)
    requires ActiveBounded(s) && Enabled(s, TaskDone(i, r))
    ensures ActiveBounded(Take(s, TaskDone(i, r)))
  {
    KeysWithout(s.active, r.jobId);
  }

  lemma QueuesStep(s: Exec, e: Step)
    requires QueuesBounded(s) && Enabled(s, e)
    ensures QueuesBounded(Take(s, e))
  {
    if e.LoopStore? {
      StoreBound(s, e.victim);
    }
  }

  lemma KeysWith<V>(m: map<JobId, V>, id: JobId, v: V)
    ensures |m[id := v].Keys| <= |m.Keys| + 1
  {
    assert m[id := v].Keys == m.Keys + {id};
  }

  lemma KeysWithout<V>(m: map<JobId, V>, id: JobId)
    ensures (m - {id}).Keys == m.Keys - {id}
    ensures |(m - {id}).Keys| == |m.Keys| - One(id in m)
  {
    assert (m - {id}).Keys == m.Keys - {id};
  }

  lemma StoreBound(s: Exec, victim: JobId)
    requires Enabled(s, LoopStore(victim)) && |s.completed.Keys| <= MAX_COMPLETED_RESULTS
    ensures |Take(s, LoopStore(victim)).completed.Keys| <= MAX_COMPLETED_RESULTS
  {
    var r := s.storing.value;
    if MustEvict(s, r) {
      KeysWithout(s.completed, victim);
      KeysWith(s.completed - {victim}, r.jobId, r);
    } else if r.jobId in s.completed {
      assert s.completed[r.jobId := r].Keys == s.completed.Keys;
    } else {
      KeysWith(s.completed, r.jobId, r);
    }
  }

  // ---- the active map and the running tasks ----

  lemma NoRepeatsPush(ids: seq<JobId>, x: JobId)
    ensures NoRepeats(ids + [x]) <==> NoRepeats(ids) && x !in ids
  {
    var ext := ids + [x];
    if NoRepeats(ext) {
      assert forall i :: 0 <= i < |ids| ==> ext[i] == ids[i];
      assert ext[|ids|] == x;
    }
  }

  lemma StartTracks(s: Exec)
    requires Tracking(s) && Enabled(s, LoopStart)
    ensures Tracking(Take(s, LoopStart))
  {
    var id := s.pc.job.id;
    JobIdsPush(s.running, s.pc.job);
    NoRepeatsPush(s.started, id);
    NoRepeatsPush(JobIds(s.running), id);
    hide JobIds, NoRepeats;
  }

  lemma RemoveMembers(ids: seq<JobId>, i: nat, x: JobId)
    requires i < |ids| && x in RemoveAt(ids, i)
    ensures x in ids && (NoRepeats(ids) ==> x != ids[i])
  {
    var k :| 0 <= k < |RemoveAt(ids, i)| && RemoveAt(ids, i)[k] == x;
    assert RemoveAt(ids, i)[k] == ids[if k < i then k else k + 1];
  }

  lemma RemoveKeepsOthers(ids: seq<JobId>, i: nat, x: JobId)
    requires i < |ids| && x in ids && x != ids[i]
    ensures x in RemoveAt(ids, i)
  {
    var k :| 0 <= k < |ids| && ids[k] == x;
    assert RemoveAt(ids, i)[if k < i then k else k - 1] == x;
  }

  lemma RemoveKeepsDistinct(ids: seq<JobId>, i: nat)
    requires i < |ids| && NoRepeats(ids)
    ensures NoRepeats(RemoveAt(ids, i))
  {
    var r := RemoveAt(ids, i);
    forall a, b | 0 <= a < b < |r| ensures r[a] != r[b] {
      assert r[a] == ids[if a < i then a else a + 1] && r[b] == ids[if b < i then b else b + 1];
    }
  }

  lemma DoneTracks(s: Exec, i: nat, r: JobResult)
    requires Tracking(s) && Enabled(s, TaskDone(i, r))
    ensures Tracking(Take(s, TaskDone(i, r)))
  {
    var s' := Take(s, TaskDone(i, r));
    var ids, ids' := JobIds(s.running), JobIds(s'.running);
    JobIdsRemove(s.running, i);
    assert ids[i] == r.jobId;
    hide JobIds, RemoveAt;
    forall x | x in ids' ensures x in ids && (NoRepeats(ids) ==> x != r.jobId) { RemoveMembers(ids, i, x); }
    forall x | x in ids && x != r.jobId ensures x in ids' { RemoveKeepsOthers(ids, i, x); }
    if NoRepeats(ids) { RemoveKeepsDistinct(ids, i); }
  }

  lemma TrackingStep(s: Exec, e: Step)
    requires Tracking(s) && Enabled(s, e)
    ensures Tracking(Take(s, e))
  {
    match e
    case LoopStart => StartTracks(s);
    case TaskDone(i, r) => DoneTracks(s, i, r);
    case _ =>
  }

  lemma InvStep(s: Exec, e: Step)
    requires Inv(s) && Enabled(s, e)
    ensures Inv(Take(s, e))
  {
    hide Accounted, Ordered, ActiveBounded, QueuesBounded, Tracking, Take;
    forall id ensures Accounted(Take(s, e), id) {
      StepAccounts(s, e, id);
    }
    OrderedStep(s, e);
    ActiveStep(s, e);
    QueuesStep(s, e);
    TrackingStep(s, e);
  }

  // ---- runs ----

  ghost predicate Run(states: seq<Exec>, steps: seq<Step>) {
    && |states| == |steps| + 1 && states[0] == Empty()
    && forall i :: 0 <= i < |steps| ==> Enabled(states[i], steps[i]) && states[i + 1] == Take(states[i], steps[i])
  }

  lemma {:induction false} InvAlways(states: seq<Exec>, steps: seq<Step>, n: nat)
    requires Run(states, steps) && n <= |steps|
    ensures Inv(states[n])
  {
    hide Take;
    if n > 0 {
      InvAlways(states, steps, n - 1);
      InvStep(states[n - 1], steps[n - 1]);
    } else {
      EmptyInv();
    }
  }

  lemma EmptyInv()
    ensures Inv(Empty())
  {}

  /**
   Nothing is lost track of, whatever ids clients choose: in every interleaving, at every moment,
   an id occurs as often as it was accepted, counting the results that later ones replaced.
   */
  lemma EveryAcceptanceAccounted(states: seq<Exec>, steps: seq<Step>, n: nat, id: JobId)
    requires Run(states, steps) && n <= |steps|
    ensures Occurrences(states[n], id) + states[n].overwritten[id] == multiset(states[n].accepted)[id]
  {
    hide Occurrences;
    InvAlways(states, steps, n);
    assert Accounted(states[n], id);
    CountIsMultiplicity(states[n].accepted, id);
  }

  /** In how many of the eight places an id is. */
  ghost function PlacesOf(s: Exec, id: JobId): nat {
    One(id in JobIds(s.pending)) + One(IsInHand(s, id)) + One(id in JobIds(s.running)) + One(id in ResultIds(s.finishing))
    + One(id in ResultIds(s.channel)) + One(IsReceived(s, id)) + One(id in s.completed) + One(id in s.dropped)
  }

  lemma PlacesAreOccurrences(s: Exec, id: JobId)
    requires Occurrences(s, id) <= 1
    ensures PlacesOf(s, id) == Occurrences(s, id)
  {
    CountMember(JobIds(s.pending), id);
    CountMember(JobIds(s.running), id);
    CountMember(ResultIds(s.finishing), id);
    CountMember(ResultIds(s.channel), id);
    hide Count, JobIds, ResultIds;
  }

  /** A result is replaced only by another one of its id. */
  lemma OverwritingNeedsTwo(s: Exec, e: Step, id: JobId)
    requires Enabled(s, e) && Take(s, e).overwritten[id] > s.overwritten[id]
    ensures Occurrences(s, id) >= 2
  {
    hide Count, JobIds, ResultIds;
  }

  lemma {:induction false} NothingOverwritten(states: seq<Exec>, steps: seq<Step>, n: nat, id: JobId)
    requires Run(states, steps) && n <= |steps| && Count(states[n].accepted, id) <= 1
    ensures states[n].overwritten[id] == 0
  {
    hide Take, Count;
    if n > 0 {
      AcceptedCountGrows(states[n - 1], steps[n - 1], id);
      NothingOverwritten(states, steps, n - 1, id);
      InvAlways(states, steps, n - 1);
      assert Accounted(states[n - 1], id);
      if states[n].overwritten[id] > 0 {
        OverwritingNeedsTwo(states[n - 1], steps[n - 1], id);
        assert false;
      }
    }
  }

  lemma AcceptedCountGrows(s: Exec, e: Step, id: JobId)
    requires Enabled(s, e)
    ensures Count(s.accepted, id) <= Count(Take(s, e).accepted, id)
  {
    hide Count;
    if e.Submit? {
      CountPush(s.accepted, e.job.id, id);
    }
  }

  /**
   In every interleaving, at every moment: jobs have started in submission order; the active map has
   at most 4 entries, at most 64 jobs wait and at most 1024 results are kept; and a job whose id was
   accepted once is in exactly one place, and an id never accepted in none.
   */
  lemma ExactlyOnePlace(states: seq<Exec>, steps: seq<Step>, n: nat)
    requires Run(states, steps) && n <= |steps|
    ensures var s := states[n];
            && (forall id :: Count(s.accepted, id) <= 1 ==> PlacesOf(s, id) == Count(s.accepted, id))
            && s.started <= s.accepted
            && |s.active.Keys| <= 4 && |s.pending| <= 64 && |s.completed.Keys| <= 1024
  {
    InvAlways(states, steps, n);
    var s := states[n];
    hide Run, Count, Occurrences, PlacesOf;
    forall id | Count(s.accepted, id) <= 1 ensures PlacesOf(s, id) == Count(s.accepted, id) {
      NothingOverwritten(states, steps, n, id);
      assert Accounted(s, id);
      PlacesAreOccurrences(s, id);
    }
  }
}
