/** Result agreement for compute jobs: the same job on several validators, two equal outputs agree. */
module Agreement {
  import opened Common

  const VERIFICATION_VALIDATOR_COUNT: nat := 3
  const CONSENSUS_THRESHOLD: nat := 2

  type JobId = string

  type ValidatorId = string

  datatype JobStatus = Pending | Assigned | Running | Completed | Failed(error: string) | TimedOut

  datatype JobResult = JobResult(
    jobId: JobId,
    status: JobStatus,
    outputData: Option<Bytes>,
    error: Option<string>,
    executionTimeMs: nat,
    memoryUsedBytes: nat,
    instructionsExecuted: nat)

  datatype ValidatorResult = ValidatorResult(validatorId: ValidatorId, result: JobResult, submittedAt: nat)

  datatype VerificationRequest = VerificationRequest(jobId: JobId, validators: seq<ValidatorId>, createdAt: nat)

  datatype ConsensusResult =
    | Agreed(result: JobResult)
    | Disagreed(results: seq<ValidatorResult>)
    | Insufficient(received: nat, required: nat)

  datatype VerificationError = InsufficientValidators(need: nat, got: nat) | NoRequest | NotAssigned

  /** Results are compared by their output; failed ones count as the empty output. */
  function Key(r: ValidatorResult): Bytes {
    if r.result.outputData.Some? then r.result.outputData.value else []
  }

  /** The results with a given output, in submission order. */
  function Group(rs: seq<ValidatorResult>, key: Bytes): seq<ValidatorResult> {
    if rs == [] then []
    else
      var before, last := Group(rs[..|rs| - 1], key), rs[|rs| - 1];
      if Key(last) == key then before + [last] else before
  }

  /** `key` has a largest group, one of those the map's iteration order may pick. */
  ghost predicate Largest(rs: seq<ValidatorResult>, key: Bytes) {
    Group(rs, key) != [] && forall k :: |Group(rs, k)| <= |Group(rs, key)|
  }

  /** A possible answer of the consensus check on the collected results. */
  ghost predicate Answer(rs: seq<ValidatorResult>, answer: ConsensusResult) {
    if |rs| < CONSENSUS_THRESHOLD then answer == Insufficient(|rs|, CONSENSUS_THRESHOLD)
    else exists key :: Largest(rs, key) && AnswerFor(rs, key, answer)
  }

  ghost predicate AnswerFor(rs: seq<ValidatorResult>, key: Bytes, answer: ConsensusResult) {
    && Group(rs, key) != []
    && answer == if |Group(rs, key)| >= CONSENSUS_THRESHOLD then Agreed(Group(rs, key)[0].result) else Disagreed(rs)
  }

  predicate HasSubmitted(rs: seq<ValidatorResult>, v: ValidatorId) {
    exists i :: 0 <= i < |rs| && rs[i].validatorId == v
  }

  /** One result from each of some of the assigned validators. */
  ghost predicate Collected(validators: seq<ValidatorId>, rs: seq<ValidatorResult>) {
    && (forall i :: 0 <= i < |rs| ==> rs[i].validatorId in validators)
    && (forall i, j :: 0 <= i < j < |rs| ==> rs[i].validatorId != rs[j].validatorId)
  }

  /** What a submission does to the results collected for a job. */
  function AfterSubmission(validators: seq<ValidatorId>, rs: seq<ValidatorResult>, r: ValidatorResult): seq<ValidatorResult> {
    if r.validatorId !in validators || HasSubmitted(rs, r.validatorId) then rs else rs + [r]
  }

  function AfterAll(validators: seq<ValidatorId>, rs: seq<ValidatorResult>, later: seq<ValidatorResult>): seq<ValidatorResult> {
    if later == [] then rs
    else AfterSubmission(validators, AfterAll(validators, rs, later[..|later| - 1]), later[|later| - 1])
  }

  // ---- groups ----

  /** Groups of different outputs share nothing, so two of them together are no larger than all results. */
  lemma {:induction false} TwoGroups(rs: seq<ValidatorResult>, a: Bytes, b: Bytes)
    requires a != b
    ensures |Group(rs, a)| + |Group(rs, b)| <= |rs|
  {
    if rs != [] {
      TwoGroups(rs[..|rs| - 1], a, b);
    }
  }

  lemma {:induction false} GroupGrows(rs: seq<ValidatorResult>, more: seq<ValidatorResult>, key: Bytes)
    requires rs <= more
    ensures Group(rs, key) <= Group(more, key)
    decreases |more|
  {
    if |rs| < |more| {
      GroupGrows(rs, more[..|more| - 1], key);
    } else {
      assert rs == more;
    }
  }

  lemma {:induction false} DistinctFit(ids: seq<ValidatorId>, s: set<ValidatorId>)
    requires forall i :: 0 <= i < |ids| ==> ids[i] in s
    requires forall i, j :: 0 <= i < j < |ids| ==> ids[i] != ids[j]
    ensures |ids| <= |s|
  {
    if ids != [] {
      var n := |ids| - 1;
      DistinctFit(ids[..n], s - {ids[n]});
    }
  }

  function AssignedSet(validators: seq<ValidatorId>): set<ValidatorId> {
    set v | v in validators
  }

  lemma CollectedFit(validators: seq<ValidatorId>, rs: seq<ValidatorResult>)
    requires Collected(validators, rs)
    ensures |rs| <= |AssignedSet(validators)|
  {
    var ids := seq(|rs|, i requires 0 <= i < |rs| => rs[i].validatorId);
    DistinctFit(ids, AssignedSet(validators));
  }

  // ---- what agreement means ----

  /** An agreement stands on at least two results, of different validators, with one and the same output. */
  lemma AgreementHasTwo(validators: seq<ValidatorId>, rs: seq<ValidatorResult>, r: JobResult)
    requires Collected(validators, rs) && Answer(rs, Agreed(r))
    ensures exists i, j :: 0 <= i < |rs| && 0 <= j < |rs| && rs[i].validatorId != rs[j].validatorId
                           && rs[i].validatorId in validators && rs[j].validatorId in validators
                           && Key(rs[i]) == Key(rs[j]) && rs[i].result == r
  {
    var key :| Largest(rs, key) && AnswerFor(rs, key, Agreed(r));
    var i, j := FirstTwo(rs, key);
  }

  /** No output, or an empty one. */
  predicate Outputless(r: JobResult) {
    r.outputData.None? || r.outputData.value == []
  }

  /** What equal keys mean: the same output, or no output on either side. */
  lemma SameKeyExactly(a: ValidatorResult, b: ValidatorResult)
    ensures Key(a) == Key(b) <==> a.result.outputData == b.result.outputData || (Outputless(a.result) && Outputless(b.result))
  {}

  /** `i` is the first result with its key, some later one has that key too, and no key occurs more often. */
  ghost predicate FirstOfMajority(rs: seq<ValidatorResult>, i: nat) {
    && i < |rs| && (forall k :: 0 <= k < i ==> Key(rs[k]) != Key(rs[i]))
    && (exists j :: i < j < |rs| && Key(rs[j]) == Key(rs[i]))
    && forall key :: |Group(rs, key)| <= |Group(rs, Key(rs[i]))|
  }

  /**
   Exactly what an agreement on `r` says: `r` is the first submitted result of a most frequent key
   that occurs at least twice.  The others need share its output only up to absent and empty.
   */
  lemma AgreementExactly(rs: seq<ValidatorResult>, r: JobResult)
    ensures Answer(rs, Agreed(r)) <==> exists i: nat :: FirstOfMajority(rs, i) && rs[i].result == r
  {
    if Answer(rs, Agreed(r)) {
      var key :| Largest(rs, key) && AnswerFor(rs, key, Agreed(r));
      var i, j := FirstTwo(rs, key);
      assert FirstOfMajority(rs, i);
    }
    if i: nat :| FirstOfMajority(rs, i) && rs[i].result == r {
      var key := Key(rs[i]);
      var j :| i < j < |rs| && Key(rs[j]) == key;
      GroupHasBoth(rs, key, i, j);
      var first, second := FirstTwo(rs, key);
      assert first == i;
      assert Largest(rs, key) && AnswerFor(rs, key, Agreed(r));
    }
  }

  /** The other two answers: too few results, exactly below two of them, and disagreement, exactly if no key repeats. */
  lemma NoAgreementExactly(rs: seq<ValidatorResult>, answer: ConsensusResult)
    ensures Answer(rs, answer) && answer.Insufficient? <==> |rs| < 2 && answer == Insufficient(|rs|, 2)
    ensures Answer(rs, answer) && answer.Disagreed? <==>
            && |rs| >= 2 && answer == Disagreed(rs)
            && forall i, j :: 0 <= i < j < |rs| ==> Key(rs[i]) != Key(rs[j])
  {
    if i, j :| 0 <= i < j < |rs| && Key(rs[i]) == Key(rs[j]) {
      GroupHasBoth(rs, Key(rs[i]), i, j);
    } else if |rs| >= 2 {
      forall k ensures |Group(rs, k)| <= 1 {
        if |Group(rs, k)| >= 2 { var i, j := FirstTwo(rs, k); }
      }
      GroupHasOne(rs, Key(rs[0]), 0);
      assert Largest(rs, Key(rs[0])) && AnswerFor(rs, Key(rs[0]), Disagreed(rs));
    }
    hide Group;
  }

  lemma {:induction false} GroupHasBoth(rs: seq<ValidatorResult>, key: Bytes, i: nat, j: nat)
    requires i < j < |rs| && Key(rs[i]) == Key(rs[j]) == key
    ensures |Group(rs, key)| >= 2
  {
    var n := |rs| - 1;
    if j < n {
      GroupHasBoth(rs[..n], key, i, j);
    } else {
      GroupHasOne(rs[..n], key, i);
    }
  }

  lemma {:induction false} GroupHasOne(rs: seq<ValidatorResult>, key: Bytes, i: nat)
    requires i < |rs| && Key(rs[i]) == key
    ensures Group(rs, key) != []
  {
    if i < |rs| - 1 {
      GroupHasOne(rs[..|rs| - 1], key, i);
    }
  }

  /** A failed job without output agrees with a completed one whose output is empty, and the failure is returned. */
  lemma FailureAgreesWithEmptyOutput(v: ValidatorId, w: ValidatorId, error: string)
    ensures var failed := JobResult("job", Failed(error), None, Some(error), 0, 0, 0);
            var completed := JobResult("job", Completed, Some([]), None, 0, 0, 0);
            Answer([ValidatorResult(v, failed, 0), ValidatorResult(w, completed, 1)], Agreed(failed))
  {
    var failed := JobResult("job", Failed(error), None, Some(error), 0, 0, 0);
    var completed := JobResult("job", Completed, Some([]), None, 0, 0, 0);
    var rs := [ValidatorResult(v, failed, 0), ValidatorResult(w, completed, 1)];
    GroupsOfPair(rs[0], rs[1], [], [0]);
    forall k ensures |Group(rs, k)| <= 2 { GroupSize(rs, k); }
    assert Largest(rs, []) && AnswerFor(rs, [], Agreed(failed));
  }

  lemma {:induction false} FirstTwo(rs: seq<ValidatorResult>, key: Bytes) returns (i: nat, j: nat)
    requires |Group(rs, key)| >= 2
    ensures i < j < |rs| && rs[i] == Group(rs, key)[0] && rs[j] == Group(rs, key)[1] && Key(rs[i]) == Key(rs[j]) == key
    ensures forall k :: 0 <= k < i ==> Key(rs[k]) != key
  {
    var n := |rs| - 1;
    if |Group(rs[..n], key)| >= 2 {
      i, j := FirstTwo(rs[..n], key);
      assert forall k :: 0 <= k < i ==> rs[k] == rs[..n][k];
    } else {
      i := FirstOne(rs[..n], key);
      assert forall k :: 0 <= k < i ==> rs[k] == rs[..n][k];
      j := n;
    }
  }

  lemma {:induction false} FirstOne(rs: seq<ValidatorResult>, key: Bytes) returns (i: nat)
    requires Group(rs, key) != []
    ensures i < |rs| && rs[i] == Group(rs, key)[0] && Key(rs[i]) == key
    ensures forall k :: 0 <= k < i ==> Key(rs[k]) != key
  {
    var n := |rs| - 1;
    if Group(rs[..n], key) != [] {
      i := FirstOne(rs[..n], key);
      assert forall k :: 0 <= k < i ==> rs[k] == rs[..n][k];
    } else {
      i := n;
      forall k | 0 <= k < n ensures Key(rs[k]) != key {
        if Key(rs[k]) == key { GroupHasOne(rs[..n], key, k); }
      }
    }
  }

  /**
   With at most three validators assigned, an agreement is final: whatever else is submitted, the
   check can only give the same answer, down to the whole result.
   */
  lemma AgreementStable(validators: seq<ValidatorId>, rs: seq<ValidatorResult>, more: seq<ValidatorResult>, r: JobResult, answer: ConsensusResult)
    requires |AssignedSet(validators)| <= VERIFICATION_VALIDATOR_COUNT
    requires Collected(validators, rs) && Collected(validators, more) && rs <= more
    requires Answer(rs, Agreed(r)) && Answer(more, answer)
    ensures answer == Agreed(r)
  {
    CollectedFit(validators, more);
    var key :| Largest(rs, key) && AnswerFor(rs, key, Agreed(r));
    GroupGrows(rs, more, key);
    var key' :| Largest(more, key') && AnswerFor(more, key', answer);
    if key' != key {
      TwoGroups(more, key, key');
    }
    hide Group;
  }

  lemma SubmissionKeeps(validators: seq<ValidatorId>, rs: seq<ValidatorResult>, r: ValidatorResult)
    requires Collected(validators, rs)
    ensures Collected(validators, AfterSubmission(validators, rs, r)) && rs <= AfterSubmission(validators, rs, r)
  {}

  lemma {:induction false} SubmissionsKeep(validators: seq<ValidatorId>, rs: seq<ValidatorResult>, later: seq<ValidatorResult>)
    requires Collected(validators, rs)
    ensures Collected(validators, AfterAll(validators, rs, later)) && rs <= AfterAll(validators, rs, later)
  {
    if later != [] {
      SubmissionsKeep(validators, rs, later[..|later| - 1]);
      SubmissionKeeps(validators, AfterAll(validators, rs, later[..|later| - 1]), later[|later| - 1]);
    }
  }

  /** No sequence of later submissions changes an agreement once it is reached. */
  ghost predicate AgreementIsFinal(validators: seq<ValidatorId>) {
    forall rs, later, r, answer ::
      Collected(validators, rs) && Answer(rs, Agreed(r)) && Answer(AfterAll(validators, rs, later), answer) ==> answer == Agreed(r)
  }

  /** Agreements are final exactly when at most three different validators are assigned. */
  lemma FinalExactlyUpToThree(validators: seq<ValidatorId>)
    ensures AgreementIsFinal(validators) <==> |AssignedSet(validators)| <= VERIFICATION_VALIDATOR_COUNT
  {
    if |AssignedSet(validators)| <= VERIFICATION_VALIDATOR_COUNT {
      forall rs, later, r, answer
        | Collected(validators, rs) && Answer(rs, Agreed(r)) && Answer(AfterAll(validators, rs, later), answer)
        ensures answer == Agreed(r)
      {
        SubmissionsKeep(validators, rs, later);
        AgreementStable(validators, rs, AfterAll(validators, rs, later), r, answer);
      }
    } else {
      var a, b, c, d := FourOf(AssignedSet(validators));
      FourCanFlip(validators, a, b, c, d);
    }
  }

  lemma FourOf(s: set<ValidatorId>) returns (a: ValidatorId, b: ValidatorId, c: ValidatorId, d: ValidatorId)
    requires |s| >= 4
    ensures {a, b, c, d} <= s && a != b && a != c && a != d && b != c && b != d && c != d
  {
    a :| a in s;
    var s1 := s - {a};
    assert |s1| >= 3;
    b :| b in s1;
    var s2 := s1 - {b};
    assert |s2| >= 2;
    c :| c in s2;
    var s3 := s2 - {c};
    assert |s3| >= 1;
    d :| d in s3;
  }

  function Sample(v: ValidatorId, output: byte): ValidatorResult {
    ValidatorResult(v, JobResult("job", Completed, Some([output]), None, 0, 0, 0), 0)
  }

  /**
   With four validators an agreement can be overturned by later submissions, because a tie between
   two groups is broken by the map's iteration order.
   */
  lemma FourCanFlip(validators: seq<ValidatorId>, a: ValidatorId, b: ValidatorId, c: ValidatorId, d: ValidatorId)
    requires {a, b, c, d} <= AssignedSet(validators)
    requires a != b && a != c && a != d && b != c && b != d && c != d
    ensures var rs, later := [Sample(a, 0), Sample(b, 0)], [Sample(c, 1), Sample(d, 1)];
            && Collected(validators, rs)
            && Answer(rs, Agreed(Sample(a, 0).result))
            && Answer(AfterAll(validators, rs, later), Agreed(Sample(c, 1).result))
            && Sample(a, 0).result != Sample(c, 1).result
  {
    var ra, rb, rc, rd := Sample(a, 0), Sample(b, 0), Sample(c, 1), Sample(d, 1);
    var rs, later := [ra, rb], [rc, rd];
    GroupsOfPair(ra, rb, [0], [1]);
    forall k ensures |Group(rs, k)| <= 2 { GroupSize(rs, k); }
    assert Largest(rs, [0]) && AnswerFor(rs, [0], Agreed(ra.result));
    TwoSubmitted(validators, rs, rc, rd);
    var all := rs + [rc] + [rd];
    GroupExtended(rs, rc, [1]);
    GroupExtended(rs + [rc], rd, [1]);
    assert Group(all, [1]) == [rc, rd];
    forall k ensures |Group(all, k)| <= 2 {
      if k != [1] { TwoGroups(all, k, [1]); }
    }
    assert Largest(all, [1]) && AnswerFor(all, [1], Agreed(rc.result));
  }

  lemma TwoSubmitted(validators: seq<ValidatorId>, rs: seq<ValidatorResult>, x: ValidatorResult, y: ValidatorResult)
    requires x.validatorId in validators && y.validatorId in validators && x.validatorId != y.validatorId
    requires !HasSubmitted(rs, x.validatorId) && !HasSubmitted(rs, y.validatorId)
    ensures AfterAll(validators, rs, [x, y]) == rs + [x] + [y]
  {
    assert [x, y][..1] == [x] && [x][..0] == [];
    assert AfterAll(validators, rs, [x]) == rs + [x];
  }

  lemma GroupExtended(rs: seq<ValidatorResult>, x: ValidatorResult, k: Bytes)
    ensures Group(rs + [x], k) == if Key(x) == k then Group(rs, k) + [x] else Group(rs, k)
  {
    assert (rs + [x])[..|rs|] == rs;
  }

  lemma GroupsOfPair(x: ValidatorResult, y: ValidatorResult, k: Bytes, other: Bytes)
    requires Key(x) == k && Key(y) == k && other != k
    ensures Group([x, y], k) == [x, y] && Group([x, y], other) == []
  {
    assert [x] == [] + [x] && [x, y] == [x] + [y];
    GroupExtended([], x, k);
    GroupExtended([x], y, k);
    GroupExtended([], x, other);
    GroupExtended([x], y, other);
  }

  lemma {:induction false} GroupSize(rs: seq<ValidatorResult>, k: Bytes)
    ensures |Group(rs, k)| <= |rs|
  {
    if rs != [] { GroupSize(rs[..|rs| - 1], k); }
  }

  // ---- the coordinator ----

  class VerificationCoordinator {
    var requests: map<JobId, VerificationRequest>
    var results: map<JobId, seq<ValidatorResult>>

    constructor ()
      ensures requests == map[] && results == map[]
    {
      requests, results := map[], map[];
    }

    function ResultsFor(job: JobId): seq<ValidatorResult>
      reads this
    {
      if job in results then results[job] else []
    }

    method CreateVerificationRequest(job: JobId, validators: seq<ValidatorId>, now: nat) returns (r: Result<VerificationRequest, VerificationError>)
      modifies this`requests
      ensures r.Ok? <==> |validators| >= VERIFICATION_VALIDATOR_COUNT
      ensures r.Ok? ==> r.value == VerificationRequest(job, validators, now) && requests == old(requests)[job := r.value]
      ensures r.Err? ==> requests == old(requests)
    {
      if |validators| < VERIFICATION_VALIDATOR_COUNT {
        return Err(InsufficientValidators(VERIFICATION_VALIDATOR_COUNT, |validators|));
      }
      var request := VerificationRequest(job, validators, now);
      requests := requests[job := request];
      return Ok(request);
    }

    method SubmitResult(job: JobId, v: ValidatorId, result: JobResult, now: nat) returns (r: Result<(), VerificationError>)
      modifies this`results
      ensures r.Ok? <==> job in requests && v in requests[job].validators
      ensures job in requests ==>
                ResultsFor(job) == AfterSubmission(requests[job].validators, old(ResultsFor(job)), ValidatorResult(v, result, now))
      ensures job !in requests ==> results == old(results)
      ensures forall j :: j != job ==> ResultsFor(j) == old(ResultsFor(j))
    {
      if job !in requests {
        return Err(NoRequest);
      }
      if v !in requests[job].validators {
        return Err(NotAssigned);
      }
      var jobResults := ResultsFor(job);
      if HasSubmitted(jobResults, v) {
        return Ok(());
      }
      results := results[job := jobResults + [ValidatorResult(v, result, now)]];
      return Ok(());
    }

    /** Groups the results by output and answers by a largest group. */
    method CheckConsensus(job: JobId) returns (answer: ConsensusResult)
      ensures Answer(ResultsFor(job), answer)
    {
      if job !in results {
        return Insufficient(0, CONSENSUS_THRESHOLD);
      }
      var rs := results[job];
      if |rs| < CONSENSUS_THRESHOLD {
        return Insufficient(|rs|, CONSENSUS_THRESHOLD);
      }
      var groups := GroupResults(rs);
      var key := LargestGroup(groups);
      LargestOf(rs, groups, key);
      if |groups[key]| >= CONSENSUS_THRESHOLD {
        answer := Agreed(groups[key][0].result);
      } else {
        answer := Disagreed(rs);
      }
      assert AnswerFor(rs, key, answer);
    }

    method Cleanup(job: JobId)
      modifies this
      ensures requests == old(requests) - {job} && results == old(results) - {job}
    {
      requests, results := requests - {job}, results - {job};
    }
  }

  /** The map from each output to its group. */
  ghost predicate GroupsOf(rs: seq<ValidatorResult>, groups: map<Bytes, seq<ValidatorResult>>) {
    && (forall k :: k in groups ==> groups[k] == Group(rs, k) && groups[k] != [])
    && (forall k :: k !in groups ==> Group(rs, k) == [])
  }

  method GroupResults(rs: seq<ValidatorResult>) returns (groups: map<Bytes, seq<ValidatorResult>>)
    requires rs != []
    ensures GroupsOf(rs, groups) && groups.Keys != {}
  {
    groups := map[];
    for i := 0 to |rs|
      invariant GroupsOf(rs[..i], groups)
      invariant i > 0 ==> Key(rs[i - 1]) in groups
    {
      var key := Key(rs[i]);
      assert rs[..i + 1][..i] == rs[..i];
      groups := groups[key := (if key in groups then groups[key] else []) + [rs[i]]];
    }
    assert rs[..|rs|] == rs;
  }

  /** Some key with a longest list, whichever the visiting order finds. */
  method LargestGroup(groups: map<Bytes, seq<ValidatorResult>>) returns (key: Bytes)
    requires groups.Keys != {}
    ensures key in groups && forall k :: k in groups ==> |groups[k]| <= |groups[key]|
  {
    var todo := groups.Keys;
    key :| key in todo;
    todo := todo - {key};
    while todo != {}
      invariant todo <= groups.Keys && key in groups && key !in todo
      invariant forall k :: k in groups && k !in todo ==> |groups[k]| <= |groups[key]|
      decreases |todo|
    {
      var k :| k in todo;
      if |groups[k]| >= |groups[key]| {
        key := k;
      }
      todo := todo - {k};
    }
  }

  lemma LargestOf(rs: seq<ValidatorResult>, groups: map<Bytes, seq<ValidatorResult>>, key: Bytes)
    requires GroupsOf(rs, groups) && key in groups && forall k :: k in groups ==> |groups[k]| <= |groups[key]|
    ensures Largest(rs, key)
  {
    hide Group;
    forall k ensures |Group(rs, k)| <= |Group(rs, key)| {
      if k in groups { assert groups[k] == Group(rs, k); }
    }
  }
}
