/** The executor's own queues as an object: submission, and putting received results away. */
module JobExecution {
  import opened Common
  import opened Executor

  datatype SubmitError = PendingQueueFull

  ghost function ResultKeys(rs: seq<JobResult>): set<JobId> {
    set i | 0 <= i < |rs| :: rs[i].jobId
  }

  /** The result that a job's entry should show: its last one received, or else what was there. */
  ghost predicate ShowsLatest(before: map<JobId, JobResult>, rs: seq<JobResult>, after: map<JobId, JobResult>, id: JobId)
    requires id in after
  {
    if id in ResultKeys(rs)
    then exists i :: 0 <= i < |rs| && rs[i] == after[id] && rs[i].jobId == id && forall j :: i < j < |rs| ==> rs[j].jobId != id
    else id in before && after[id] == before[id]
  }

  /** `after` is what putting the results `rs` away into `before` may leave. */
  ghost predicate PutAway(before: map<JobId, JobResult>, rs: seq<JobResult>, after: map<JobId, JobResult>) {
    && (|before.Keys| <= 1024 ==> |after.Keys| <= 1024)
    && (forall id :: id in after ==> ShowsLatest(before, rs, after, id))
    && (rs != [] ==> rs[|rs| - 1].jobId in after)
    && after.Keys <= before.Keys + ResultKeys(rs)
    && (|before.Keys + ResultKeys(rs)| <= 1024 ==> after.Keys == before.Keys + ResultKeys(rs))
  }

  lemma ResultKeysSnoc(rs: seq<JobResult>, r: JobResult)
    ensures ResultKeys(rs + [r]) == ResultKeys(rs) + {r.jobId}
  {
    var ext := rs + [r];
    assert forall i :: 0 <= i < |rs| ==> ext[i] == rs[i];
    forall id | id in ResultKeys(rs) ensures id in ResultKeys(ext) {
      var i :| 0 <= i < |rs| && rs[i].jobId == id;
      assert ext[i].jobId == id;
    }
    assert ext[|rs|].jobId == r.jobId;
  }

  lemma ShowsLatestStep(before: map<JobId, JobResult>, rs: seq<JobResult>, mid: map<JobId, JobResult>, r: JobResult, id: JobId)
    requires id in mid && id != r.jobId && ShowsLatest(before, rs, mid, id)
    ensures ShowsLatest(before, rs + [r], mid[r.jobId := r], id)
  {
    ResultKeysSnoc(rs, r);
    var ext := rs + [r];
    if id in ResultKeys(rs) {
      var i :| 0 <= i < |rs| && rs[i] == mid[id] && rs[i].jobId == id && forall j :: i < j < |rs| ==> rs[j].jobId != id;
      assert ext[i] == rs[i];
    }
  }

  /** `kept` is `m` after making room for `r`: one entry less, only if `r` is new and the map is full. */
  ghost predicate RoomMade(m: map<JobId, JobResult>, kept: map<JobId, JobResult>, r: JobResult) {
    if r.jobId in m || |m.Keys| < MAX_COMPLETED_RESULTS then kept == m
    else exists victim :: victim in m && kept == m - {victim}
  }

  lemma RoomKeepsEntries(m: map<JobId, JobResult>, kept: map<JobId, JobResult>, r: JobResult)
    requires RoomMade(m, kept, r)
    ensures forall id :: id in kept ==> id in m && kept[id] == m[id]
  {}

  lemma RoomKeepsCeiling(m: map<JobId, JobResult>, kept: map<JobId, JobResult>, r: JobResult)
    requires RoomMade(m, kept, r) && |m.Keys| <= MAX_COMPLETED_RESULTS
    ensures |kept[r.jobId := r].Keys| <= MAX_COMPLETED_RESULTS
  {
    KeysWith(kept, r.jobId, r);
    if r.jobId in m {
      assert kept[r.jobId := r].Keys == m.Keys;
    } else if |m.Keys| >= MAX_COMPLETED_RESULTS {
      var victim :| victim in m && kept == m - {victim};
      KeysWithout(m, victim);
    }
  }

  lemma EntriesStep(before: map<JobId, JobResult>, rs: seq<JobResult>, m: map<JobId, JobResult>, kept: map<JobId, JobResult>, r: JobResult, id: JobId)
    requires id in m ==> ShowsLatest(before, rs, m, id)
    requires RoomMade(m, kept, r) && (id in kept || id == r.jobId)
    ensures ShowsLatest(before, rs + [r], kept[r.jobId := r], id)
  {
    RoomKeepsEntries(m, kept, r);
    var ext := rs + [r];
    if id == r.jobId {
      ResultKeysSnoc(rs, r);
      assert ext[|rs|] == r;
    } else {
      assert ShowsLatest(before, rs, kept, id);
      ShowsLatestStep(before, rs, kept, r, id);
    }
  }

  lemma NoEviction(a: set<JobId>, b: set<JobId>, id: JobId)
    requires |a + (b + {id})| <= MAX_COMPLETED_RESULTS
    ensures |a + b| <= MAX_COMPLETED_RESULTS
    ensures id !in a + b ==> |a + b| < MAX_COMPLETED_RESULTS
  {
    var u := a + b;
    assert a + (b + {id}) == if id in u then u else u + {id};
  }

  lemma StoredKeys(kept: map<JobId, JobResult>, r: JobResult)
    ensures kept[r.jobId := r].Keys == kept.Keys + {r.jobId}
  {}

  lemma KeysStep(b: set<JobId>, n: set<JobId>, m: map<JobId, JobResult>, kept: map<JobId, JobResult>, r: JobResult)
    requires m.Keys <= b + n && (|b + n| <= MAX_COMPLETED_RESULTS ==> m.Keys == b + n) && RoomMade(m, kept, r)
    ensures kept.Keys + {r.jobId} <= b + (n + {r.jobId})
    ensures |b + (n + {r.jobId})| <= MAX_COMPLETED_RESULTS ==> kept.Keys + {r.jobId} == b + (n + {r.jobId})
  {
    RoomKeepsEntries(m, kept, r);
    if |b + (n + {r.jobId})| <= MAX_COMPLETED_RESULTS {
      NoEviction(b, n, r.jobId);
      assert kept == m;
    }
  }

  lemma PutAwayStep(before: map<JobId, JobResult>, rs: seq<JobResult>, m: map<JobId, JobResult>, kept: map<JobId, JobResult>, r: JobResult)
    requires PutAway(before, rs, m) && RoomMade(m, kept, r)
    ensures PutAway(before, rs + [r], kept[r.jobId := r])
  {
    hide ShowsLatest, ResultKeys, RoomMade;
    var after, ext := kept[r.jobId := r], rs + [r];
    if |before.Keys| <= MAX_COMPLETED_RESULTS {
      RoomKeepsCeiling(m, kept, r);
    }
    KeysStep(before.Keys, ResultKeys(rs), m, kept, r);
    StoredKeys(kept, r);
    ResultKeysSnoc(rs, r);
    forall id | id in after ensures ShowsLatest(before, ext, after, id) {
      EntriesStep(before, rs, m, kept, r, id);
    }
    assert ext[|ext| - 1] == r;
  }

  lemma NothingPutAway(m: map<JobId, JobResult>)
    ensures PutAway(m, [], m)
  {
    assert ResultKeys([]) == {};
  }

  /** Evicts an arbitrary entry when a new job's result would exceed the ceiling. */
  method MakeRoom(m: map<JobId, JobResult>, r: JobResult) returns (kept: map<JobId, JobResult>, ghost victim: Option<JobId>)
    ensures RoomMade(m, kept, r)
    ensures victim.Some? <==> r.jobId !in m && |m| >= MAX_COMPLETED_RESULTS
    ensures if victim.Some? then victim.value in m && kept == m - {victim.value} else kept == m
  {
    if r.jobId !in m && |m| >= MAX_COMPLETED_RESULTS {
      assert m.Keys != {};
      var v :| v in m;
      return m - {v}, Some(v);
    }
    return m, None;
  }

  // ---- undisturbed stretches of the state machine ----

  /** Taking the steps one after the other leads from `s` to `t`. */
  ghost predicate Path(s: Exec, steps: seq<Step>, t: Exec) {
    if steps == [] then t == s
    else
      var n := |steps| - 1;
      exists mid :: Path(s, steps[..n], mid) && Enabled(mid, steps[n]) && t == Take(mid, steps[n])
  }

  lemma PathNone(s: Exec)
    ensures Path(s, [], s)
  {}

  lemma PathSnoc(s: Exec, steps: seq<Step>, mid: Exec, e: Step)
    requires Path(s, steps, mid) && Enabled(mid, e)
    ensures Path(s, steps + [e], Take(mid, e))
  {
    assert (steps + [e])[..|steps|] == steps;
  }

  lemma {:induction false} PathKeepsInv(s: Exec, steps: seq<Step>, t: Exec)
    requires Inv(s) && Path(s, steps, t)
    ensures Inv(t)
  {
    if steps != [] {
      var n := |steps| - 1;
      var mid :| Path(s, steps[..n], mid) && Enabled(mid, steps[n]) && t == Take(mid, steps[n]);
      PathKeepsInv(s, steps[..n], mid);
      InvStep(mid, steps[n]);
    }
  }

  /** An undisturbed task leaves the map and sends. */
  lemma TaskEnds(s: Exec, i: nat, r: JobResult)
    requires s.finishing == [] && Enabled(s, TaskDone(i, r))
    ensures Path(s, [] + [TaskDone(i, r)] + [TaskSend(0)],
                 s.(active := s.active - {r.jobId}, running := RemoveAt(s.running, i), channel := s.channel + [r]))
  {
    hide Path;
    var mid := Take(s, TaskDone(i, r));
    PathNone(s);
    PathSnoc(s, [], s, TaskDone(i, r));
    assert mid.finishing == [r] && RemoveAt(mid.finishing, 0) == [];
    PathSnoc(s, [] + [TaskDone(i, r)], mid, TaskSend(0));
  }

  /** The state after `r`, received first, has been put away in place of `victim`. */
  function Stored(s: Exec, kept: map<JobId, JobResult>, victim: Option<JobId>): Exec
    requires s.channel != []
  {
    var id := s.channel[0].jobId;
    s.(channel := s.channel[1..], completed := kept[id := s.channel[0]],
       dropped := if victim.Some? then s.dropped + multiset{victim.value} else s.dropped,
       overwritten := if id in s.completed then s.overwritten + multiset{id} else s.overwritten)
  }

  lemma StoreNext(first: Exec, steps: seq<Step>, s: Exec, kept: map<JobId, JobResult>, victim: Option<JobId>)
    requires Path(first, steps, s) && s.pc.Draining? && s.storing.None? && s.channel != []
    requires victim.Some? <==> MustEvict(s, s.channel[0])
    requires if victim.Some? then victim.value in s.completed && kept == s.completed - {victim.value} else kept == s.completed
    ensures Path(first, steps + [LoopReceive] + [LoopStore(if victim.Some? then victim.value else "")], Stored(s, kept, victim))
  {
    hide Path;
    var store := LoopStore(if victim.Some? then victim.value else "");
    var mid := Take(s, LoopReceive);
    PathSnoc(first, steps, s, LoopReceive);
    PathSnoc(first, steps + [LoopReceive], mid, store);
    assert Take(mid, store) == Stored(s, kept, victim);
  }

  /** From `first` on, the results `received` have been put away by the given steps, leading to `s`. */
  ghost predicate Processed(first: Exec, received: seq<JobResult>, steps: seq<Step>, s: Exec) {
    && s.pc.Draining? && s.storing.None?
    && received + s.channel == first.channel
    && PutAway(first.completed, received, s.completed)
    && Path(first, steps, s)
  }

  lemma ProcessedNothing(s: Exec)
    requires s.pc.Draining? && s.storing.None?
    ensures Processed(s, [], [], s)
  {
    NothingPutAway(s.completed);
  }

  lemma ProcessedOne(first: Exec, received: seq<JobResult>, steps: seq<Step>, s: Exec, kept: map<JobId, JobResult>, victim: Option<JobId>)
    requires Processed(first, received, steps, s) && s.channel != [] && RoomMade(s.completed, kept, s.channel[0])
    requires victim.Some? <==> MustEvict(s, s.channel[0])
    requires if victim.Some? then victim.value in s.completed && kept == s.completed - {victim.value} else kept == s.completed
    ensures Processed(first, received + [s.channel[0]],
                      steps + [LoopReceive] + [LoopStore(if victim.Some? then victim.value else "")], Stored(s, kept, victim))
  {
    hide PutAway, RoomMade, Path, MustEvict;
    PutAwayStep(first.completed, received, s.completed, kept, s.channel[0]);
    StoreNext(first, steps, s, kept, victim);
  }

  lemma ProcessedAll(first: Exec, received: seq<JobResult>, steps: seq<Step>, s: Exec)
    requires Processed(first, received, steps, s) && s.channel == []
    ensures PutAway(first.completed, first.channel, s.completed)
    ensures Path(first, steps + [LoopReceive], s.(pc := Checking))
  {
    hide PutAway, Path;
    assert received + s.channel == received;
    PathSnoc(first, steps, s, LoopReceive);
  }

  class JobExecutor {
    var pendingJobs: seq<Job>
    var activeJobs: map<JobId, Job>
    var completedResults: map<JobId, JobResult>
    var channel: seq<JobResult>
    ghost var accepted: seq<JobId>
    ghost var started: seq<JobId>
    ghost var dropped: multiset<JobId>
    ghost var overwritten: multiset<JobId>
    /** The spawned tasks at work. */
    ghost var running: seq<Job>

    /** The executor as a state of the machine, its loop at `pc` and no task about to send. */
    ghost function Value(pc: LoopPc): Exec
      reads this
    {
      Exec(pendingJobs, pc, activeJobs, running, [], channel, None, completedResults, accepted, started, dropped, overwritten)
    }

    constructor ()
      ensures Value(Checking) == Empty()
    {
      pendingJobs, activeJobs, completedResults, channel := [], map[], map[], [];
      accepted, started, dropped, overwritten, running := [], [], multiset{}, multiset{}, [];
    }

    method SubmitJob(job: Job) returns (r: Result<JobId, SubmitError>)
      modifies this`pendingJobs, this`accepted
      ensures r.Ok? <==> |old(pendingJobs)| < 64
      ensures r.Ok? ==> r.value == job.id && pendingJobs == old(pendingJobs) + [job]
      ensures r.Err? ==> pendingJobs == old(pendingJobs)
      ensures forall pc :: Value(pc) == Take(old(Value(pc)), Submit(job))
    {
      if |pendingJobs| >= MAX_PENDING_JOBS {
        return Err(PendingQueueFull);
      }
      pendingJobs := pendingJobs + [job];
      accepted := accepted + [job.id];
      return Ok(job.id);
    }

    /** Starts the next waiting job if a slot is free: the first part of a loop iteration, undisturbed. */
    method StartNext() returns (ghost steps: seq<Step>)
      modifies this`pendingJobs, this`activeJobs, this`started, this`running
      ensures Path(old(Value(Checking)), steps, Value(Draining))
      ensures old(|activeJobs| < 4 && pendingJobs != []) ==>
                && pendingJobs == old(pendingJobs[1..]) && activeJobs == old(activeJobs[pendingJobs[0].id := pendingJobs[0]])
      ensures old(|activeJobs| >= 4 || pendingJobs == []) ==>
                pendingJobs == old(pendingJobs) && activeJobs == old(activeJobs)
    {
      hide Path;
      ghost var s := Value(Checking);
      PathNone(s);
      PathSnoc(s, [], s, LoopCheck);
      steps := [] + [LoopCheck];
      var activeCount := |activeJobs|;
      if activeCount < MAX_CONCURRENT_JOBS {
        PathSnoc(s, steps, Value(Popping), LoopPop);
        steps := steps + [LoopPop];
        if pendingJobs != [] {
          var job := pendingJobs[0];
          pendingJobs := pendingJobs[1..];
          PathSnoc(s, steps, Value(Holding(job)), LoopStart);
          steps := steps + [LoopStart];
          activeJobs := activeJobs[job.id := job];
          started, running := started + [job.id], running + [job];
        }
      }
    }

    /** The end of a spawned task: its id leaves the active map, and then its result is sent. */
    method FinishTask(ghost i: nat, r: JobResult) returns (ghost steps: seq<Step>)
      requires i < |running| && running[i].id == r.jobId
      modifies this`activeJobs, this`channel, this`running
      ensures forall pc :: Path(old(Value(pc)), steps, Value(pc))
      ensures activeJobs == old(activeJobs) - {r.jobId} && channel == old(channel) + [r]
    {
      hide Path;
      activeJobs := activeJobs - {r.jobId};
      channel := channel + [r];
      running := RemoveAt(running, i);
      steps := [] + [TaskDone(i, r)] + [TaskSend(0)];
      forall pc ensures Path(old(Value(pc)), steps, Value(pc)) {
        TaskEnds(old(Value(pc)), i, r);
      }
    }

    /** Receives one result and puts it away. */
    method StoreResult() returns (ghost kept: map<JobId, JobResult>, ghost victim: Option<JobId>)
      requires channel != []
      modifies this`channel, this`completedResults, this`dropped, this`overwritten
      ensures RoomMade(old(completedResults), kept, old(channel[0]))
      ensures victim.Some? <==> MustEvict(old(Value(Draining)), old(channel[0]))
      ensures if victim.Some? then victim.value in old(completedResults) && kept == old(completedResults) - {victim.value}
              else kept == old(completedResults)
      ensures Value(Draining) == Stored(old(Value(Draining)), kept, victim)
    {
      var r := channel[0];
      channel := channel[1..];
      var room;
      room, victim := MakeRoom(completedResults, r);
      kept := room;
      overwritten := if r.jobId in completedResults then overwritten + multiset{r.jobId} else overwritten;
      completedResults := room[r.jobId := r];
      dropped := if victim.Some? then dropped + multiset{victim.value} else dropped;
    }

    /**
     Drains the channel into the completed map: the second part of a loop iteration.  The ceiling
     holds, each kept entry is the latest result of its job, the last result received is kept, and
     nothing is lost below the ceiling.
     */
    method ProcessResults() returns (ghost steps: seq<Step>)
      modifies this`channel, this`completedResults, this`dropped, this`overwritten
      ensures channel == [] && PutAway(old(completedResults), old(channel), completedResults)
      ensures Path(old(Value(Draining)), steps, Value(Checking))
    {
      hide Processed, PutAway, RoomMade, Path, MustEvict;
      ghost var first, received := Value(Draining), [];
      steps := [];
      ProcessedNothing(first);
      while channel != []
        invariant Processed(first, received, steps, Value(Draining))
        decreases |channel|
      {
        ghost var s := Value(Draining);
        ghost var kept, victim := StoreResult();
        ProcessedOne(first, received, steps, s, kept, victim);
        received, steps := received + [s.channel[0]],
          steps + [LoopReceive] + [LoopStore(if victim.Some? then victim.value else "")];
      }
      ProcessedAll(first, received, steps, Value(Draining));
      steps := steps + [LoopReceive];
    }

    method ClearCompleted()
      modifies this`completedResults, this`dropped
      ensures completedResults == map[]
      ensures forall pc :: Value(pc) == Take(old(Value(pc)), Step.ClearCompleted)
    {
      dropped := dropped + multiset(completedResults.Keys);
      completedResults := map[];
    }

    /**
     One iteration of the loop, undisturbed: it is a path of the machine, so every acceptance stays
     accounted for, the starting order is kept, and the limits on the queues and the map hold.
     */
    method LoopIteration() returns (ghost first: seq<Step>, ghost second: seq<Step>)
      modifies this
      ensures channel == [] && PutAway(old(completedResults), old(channel), completedResults)
      ensures old(Inv(Value(Checking))) ==> Inv(Value(Checking))
    {
      hide Path, PutAway, Inv;
      ghost var start := Value(Checking);
      first := StartNext();
      ghost var middle := Value(Draining);
      second := ProcessResults();
      if old(Inv(Value(Checking))) {
        PathKeepsInv(start, first, middle);
        PathKeepsInv(middle, second, Value(Checking));
      }
    }
  }
}
