/** The fail-closed gate that decides whether a verified ceremony may be promoted at all. */
module Policy {
  import opened Common
  import opened ScalarField
  import opened Bgm17
  import opened Transcript
  import opened CeremonyVerifier
  import opened Ceremony

  datatype FinalizePolicy = FinalizePolicy(
    minContributions: nat,
    initialSrsHash: Digest,
    finalContributionHash: Option<Digest>)

  datatype PolicyError =
    | EmptyTranscript
    | TooFewContributions(got: nat, min: nat)
    | TranscriptSrsHashMismatch
    | InitialKeyHashMismatch
    | FinalKeyUnchanged
    | FinalContributionMismatch

  function EnforceFinalizePolicy(
    hash: HashFn, policy: FinalizePolicy, fileHash: Digest, initial: Key, final: Key, srs: Digest, cs: seq<Contribution>)
    : Result<(), PolicyError>
  {
    if cs == [] then Err(EmptyTranscript)
    else
      var min := if policy.minContributions >= 1 then policy.minContributions else 1;
      if |cs| < min then Err(TooFewContributions(|cs|, min))
      else if srs != policy.initialSrsHash then Err(TranscriptSrsHashMismatch)
      else if fileHash != policy.initialSrsHash then Err(InitialKeyHashMismatch)
      else if final.deltaG1 == initial.deltaG1 && final.deltaG2 == initial.deltaG2 then Err(FinalKeyUnchanged)
      else if policy.finalContributionHash.Some? && hash(cs[|cs| - 1]) != policy.finalContributionHash.value then
        Err(FinalContributionMismatch)
      else Ok(())
  }

  /** Every refusal says what was missing, and the first thing missing is what it says. */
  lemma RefusalsAreTrue(
    hash: HashFn, policy: FinalizePolicy, fileHash: Digest, initial: Key, final: Key, srs: Digest, cs: seq<Contribution>, e: PolicyError)
    requires EnforceFinalizePolicy(hash, policy, fileHash, initial, final, srs, cs) == Err(e)
    ensures match e
            case EmptyTranscript => |cs| == 0
            case TooFewContributions(got, min) => got == |cs| < min == policy.minContributions && got > 0
            case TranscriptSrsHashMismatch => srs != policy.initialSrsHash
            case InitialKeyHashMismatch => fileHash != policy.initialSrsHash == srs
            case FinalKeyUnchanged => final.deltaG1 == initial.deltaG1 && final.deltaG2 == initial.deltaG2
            case FinalContributionMismatch => |cs| > 0 && policy.finalContributionHash.Some? && policy.finalContributionHash.value != hash(cs[|cs| - 1])
  {}

  /**
   A promoted key is the initial key after one contribution by a scalar that is neither zero nor
   one, unless some challenge took a bad value; the policy makes the exception for empty
   transcripts impossible.
   */
  lemma PromotedKeyIsContributed(
    o: Oracles, policy: FinalizePolicy, fileHash: Digest, initial: Key, final: Key, srs: Digest, cs: seq<Contribution>)
    requires EnforceFinalizePolicy(o.hash, policy, fileHash, initial, final, srs, cs).Ok?
    requires TranscriptAccepted(o, initial, srs, cs) && VerifyFinalPk(o, initial, cs, final).Ok? && KeyConsistent(o, initial, final)
    ensures || (exists d: Fr :: d != 0 && d != 1 && final == Contributed(initial, d))
            || SomeBadStep(o, initial, cs)
            || !RhosAreGood(o, initial, final)
    ensures |cs| >= policy.minContributions && srs == fileHash == policy.initialSrsHash
  {
    hide TranscriptAccepted, KeyConsistent, SomeBadStep, RhosAreGood;
    LengthsAgree(o, initial, final);
    AcceptedKeyIsOneContribution(o, initial, srs, cs, final);
    ContributeOne(initial);
    if IsContribution(initial, final) {
      var d: Fr :| d != 0 && final == Contributed(initial, d);
      assert d != 1;
    }
  }

  /**
   The policy's converse for honest ceremonies from the pinned key: they are promoted exactly when
   there are enough turns, the turns do not cancel out, and the tip is the pinned one if any.
   */
  lemma HonestCeremonyPromoted(o: Oracles, policy: FinalizePolicy, srs: Digest, key: Key, turns: seq<Turn>)
    requires AllNonZero(turns) && key.deltaG1 != 0 && policy.initialSrsHash == srs
    ensures var cs := ChainAfter(o, srs, key, turns);
            EnforceFinalizePolicy(o.hash, policy, srs, key, KeyAfter(key, turns), srs, cs).Ok?
            <==> && turns != [] && |turns| >= policy.minContributions && Product(Scalars(turns)) != 1
                 && (policy.finalContributionHash.Some? ==> policy.finalContributionHash.value == o.hash(cs[|cs| - 1]))
  {
    var d := Product(Scalars(turns));
    TurnsAreOneContribution(key, turns);
    ContributeOne(key);
    MulOne(key.deltaG1);
    if Mul(key.deltaG1, d) == key.deltaG1 {
      Cancel(key.deltaG1, d, 1);
    }
  }

  /**
   With a pinned tip, the policy admits one history only: two intact transcripts that both pass
   it hold the same contributions, or exhibit a hash collision.
   */
  lemma PinnedPolicyAdmitsOneHistory(
    hash: HashFn, policy: FinalizePolicy,
    fileA: Digest, initialA: Key, finalA: Key, srsA: Digest, a: seq<Contribution>,
    fileB: Digest, initialB: Key, finalB: Key, srsB: Digest, b: seq<Contribution>)
    requires policy.finalContributionHash.Some?
    requires EnforceFinalizePolicy(hash, policy, fileA, initialA, finalA, srsA, a).Ok? && ChainOk(hash, srsA, a)
    requires EnforceFinalizePolicy(hash, policy, fileB, initialB, finalB, srsB, b).Ok? && ChainOk(hash, srsB, b)
    ensures fileA == fileB == srsA == srsB
    ensures a == b || Collision(hash, a, b) || HitsInitial(hash, srsA, a) || HitsInitial(hash, srsA, b)
  {
    PinnedTipFixesHistory(hash, srsA, a, b);
  }
}
