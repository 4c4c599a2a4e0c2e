/**
 Whole ceremonies: honest contributions of any number and in any order of nonces are accepted,
 and any key that passes the checks is the initial key after one contribution.
 */
module Ceremony {
  import opened Common
  import opened ScalarField
  import opened Bgm17
  import opened Transcript
  import opened CeremonyVerifier
  import opened BatchSoundness

  /** One contributor's turn, with the randomness it draws: the scalar and the proof nonce. */
  datatype Turn = Turn(delta: Fr, nonce: Fr, contributor: Bytes, attestation: string)

  datatype ContributeError = Bgm(bgm: BgmError) | Broken(chain: ChainBroken)

  function NewContribution(o: Oracles, key: Key, prior: Digest, turn: Turn): Contribution {
    Contribution(prior, turn.contributor,
                 o.encodeG1(Mul(key.deltaG1, turn.delta)), o.encodeG2(Mul(key.deltaG2, turn.delta)),
                 o.encodeProof(Prove(o.challenge, key, turn.delta, turn.nonce)), [], [], turn.attestation)
  }

  /** The contribution names its contributor and publishes the deltas the key has now. */
  predicate Records(o: Oracles, c: Contribution, after: Key, turn: Turn) {
    && c.contributor == turn.contributor && c.attestation == turn.attestation
    && c.deltaAfterG1 == o.encodeG1(after.deltaG1) && c.deltaAfterG2 == o.encodeG2(after.deltaG2)
  }

  /**
   Applies one turn to the key and extends the transcript (a fresh one if there is none yet).
   The only way to fail is a zero scalar: the chain check never rejects what was just stamped.
   */
  method Contribute(o: Oracles, pk: ProvingKey, prior: Phase2Transcript?, circuit: CircuitId, initialSrsHash: Digest, turn: Turn)
    returns (r: Result<Phase2Transcript, ContributeError>)
    requires pk.Valid()
    modifies pk, pk.hQuery, pk.lQuery, prior
    ensures turn.delta == 0 ==> r == Err(Bgm(ZeroContribution)) && pk.Value() == old(pk.Value())
    ensures turn.delta == 0 && prior != null ==> prior.contributions == old(prior.contributions)
    ensures turn.delta != 0 ==> r.Ok? && pk.Value() == Contributed(old(pk.Value()), turn.delta)
    ensures turn.delta != 0 && prior != null ==>
              && r.value == prior
              && prior.contributions == old(prior.contributions) +
                   [NewContribution(o, old(pk.Value()),
                      ExpectedPrior(o.hash, prior.initialSrsHash, old(prior.contributions), |old(prior.contributions)|), turn)]
    ensures turn.delta != 0 && prior == null ==>
              && r.value.initialSrsHash == initialSrsHash && r.value.circuit == circuit
              && r.value.contributions == [NewContribution(o, old(pk.Value()), initialSrsHash, turn)]
    ensures r.Ok? && prior != null && old(prior.Intact(o.hash)) ==> r.value.Intact(o.hash)
    ensures r.Ok? ==> |r.value.contributions| > 0 && Records(o, r.value.contributions[|r.value.contributions| - 1], pk.Value(), turn)
  {
    var applied := ApplyContribution(o.challenge, pk, turn.delta, turn.nonce);
    if applied.Err? {
      return Err(Bgm(applied.error));
    }
    var g1, g2 := o.encodeG1(pk.deltaG1), o.encodeG2(pk.deltaG2);
    var transcript: Phase2Transcript;
    if prior == null {
      transcript := new Phase2Transcript(circuit, initialSrsHash);
    } else {
      transcript := prior;
    }
    var cs := transcript.contributions;
    var priorHash := if |cs| > 0 then o.hash(cs[|cs| - 1]) else transcript.initialSrsHash;
    var c := Contribution(priorHash, turn.contributor, g1, g2, o.encodeProof(applied.value), [], [], turn.attestation);
    var appended := transcript.Append(o.hash, c);
    if appended.Err? {
      assert false;
    }
    return Ok(transcript);
  }

  // ---- runs of a ceremony ----

  ghost predicate AllNonZero(turns: seq<Turn>) {
    forall i :: 0 <= i < |turns| ==> turns[i].delta != 0
  }

  /** The key after the turns have been taken one after the other. */
  ghost function KeyAfter(key: Key, turns: seq<Turn>): Key
    requires AllNonZero(turns)
  {
    if turns == [] then key
    else
      var n := |turns| - 1;
      Contributed(KeyAfter(key, turns[..n]), turns[n].delta)
  }

  /** The contributions on the transcript after the turns. */
  ghost function ChainAfter(o: Oracles, srs: Digest, key: Key, turns: seq<Turn>): (cs: seq<Contribution>)
    requires AllNonZero(turns)
    ensures |cs| == |turns|
  {
    if turns == [] then []
    else
      var n := |turns| - 1;
      var cs := ChainAfter(o, srs, key, turns[..n]);
      cs + [NewContribution(o, KeyAfter(key, turns[..n]), ExpectedPrior(o.hash, srs, cs, n), turns[n])]
  }

  ghost function Product(ws: seq<Fr>): Fr {
    if ws == [] then 1 else Mul(Product(ws[..|ws| - 1]), ws[|ws| - 1])
  }

  ghost function Scalars(turns: seq<Turn>): seq<Fr> {
    seq(|turns|, i requires 0 <= i < |turns| => turns[i].delta)
  }

  ghost predicate CodecRoundTrips(o: Oracles) {
    && (forall x: Fr :: o.decodeG1(o.encodeG1(x)) == Some(x))
    && (forall x: Fr :: o.decodeG2(o.encodeG2(x)) == Some(x))
    && (forall p: DleqProof :: o.decodeProof(o.encodeProof(p)) == Some(p))
  }

  // ---- completeness ----

  /** The key after any turns is the key after one contribution by the product of their scalars. */
  lemma {:induction false} TurnsAreOneContribution(key: Key, turns: seq<Turn>)
    requires AllNonZero(turns)
    ensures Product(Scalars(turns)) != 0
    ensures KeyAfter(key, turns) == Contributed(key, Product(Scalars(turns)))
  {
    if turns == [] {
      ContributeOne(key);
    } else {
      var n := |turns| - 1;
      TurnsAreOneContribution(key, turns[..n]);
      assert Scalars(turns)[..n] == Scalars(turns[..n]);
      ContributionsCompose(key, Product(Scalars(turns[..n])), turns[n].delta);
    }
  }

  lemma ContributeOne(key: Key)
    ensures Contributed(key, 1) == key
  {
    MulOne(1);
    InvProduct(1, 1);
    MulOne(Inv(1));
    ContributionsCompose(key, 1, 1);
    ContributionUndone(key, 1);
  }

  /** Every query element times the delta of G2 is what it was before the ceremony. */
  lemma QueriesStayExact(v: seq<Fr>, delta: Fr, d: Fr)
    requires d != 0
    ensures AllExact(v, Scaled(v, Inv(d)), delta, Mul(delta, d))
  {
    forall j | 0 <= j < |v| ensures ElementExact(v, Scaled(v, Inv(d)), delta, Mul(delta, d), j) {
      ProductWithDeltaConstant(v[j], delta, d);
    }
  }

  lemma StepsOfPrefix(o: Oracles, initial: Key, cs: seq<Contribution>, c: Contribution, i: nat)
    requires i < |cs|
    ensures StepAccepted(o, initial, cs + [c], i) <==> StepAccepted(o, initial, cs, i)
  {
    var ext := cs + [c];
    assert ext[i] == cs[i] && (i > 0 ==> ext[i - 1] == cs[i - 1]);
  }

  lemma {:induction false} HonestChainAccepted(o: Oracles, srs: Digest, key: Key, turns: seq<Turn>)
    requires AllNonZero(turns) && CodecRoundTrips(o) && key.deltaG1 != 0 && key.deltaG2 != 0
    ensures var cs, last := ChainAfter(o, srs, key, turns), KeyAfter(key, turns);
            && TranscriptAccepted(o, key, srs, cs)
            && DeltasAt(o, key, cs, |cs|) == Some((last.deltaG1, last.deltaG2))
            && last.deltaG1 != 0 && last.deltaG2 != 0
  {
    hide Mul, Prove, VerifyContributionDeltas;
    if turns != [] {
      var n := |turns| - 1;
      HonestChainAccepted(o, srs, key, turns[..n]);
      var cs, before, turn := ChainAfter(o, srs, key, turns[..n]), KeyAfter(key, turns[..n]), turns[n];
      var c := NewContribution(o, before, ExpectedPrior(o.hash, srs, cs, n), turn);
      ExtendChain(o.hash, srs, cs, c);
      HonestProofAccepted(o.challenge, before, turn.delta, turn.nonce);
      ProductNonZero(before.deltaG1, turn.delta);
      ProductNonZero(before.deltaG2, turn.delta);
      var ext := cs + [c];
      assert DeltasAt(o, key, ext, n) == DeltasAt(o, key, cs, n) by { assert n > 0 ==> ext[n - 1] == cs[n - 1]; }
      assert StepAccepted(o, key, ext, n);
      forall i | 0 <= i < n ensures StepAccepted(o, key, ext, i) { StepsOfPrefix(o, key, cs, c, i); }
    }
  }

  lemma ContributedIsConsistent(o: Oracles, key: Key, d: Fr)
    requires d != 0
    ensures KeyConsistent(o, key, Contributed(key, d))
  {
    var last := Contributed(key, d);
    QueriesStayExact(key.hQuery, key.deltaG2, d);
    QueriesStayExact(key.lQuery, key.deltaG2, d);
    BatchedCheckSound(key.hQuery, last.hQuery, key.deltaG2, last.deltaG2);
    BatchedCheckSound(key.lQuery, last.lQuery, key.deltaG2, last.deltaG2);
  }

  /**
   Completeness: from any key with non-zero deltas, any non-zero turns are accepted by all three
   checks, for any nonces, any challenge and combination functions and any hash; and the result
   is the key after one contribution by the product.
   */
  lemma HonestCeremonyAccepted(o: Oracles, srs: Digest, key: Key, turns: seq<Turn>)
    requires AllNonZero(turns) && CodecRoundTrips(o) && key.deltaG1 != 0 && key.deltaG2 != 0
    ensures Product(Scalars(turns)) != 0
    ensures var cs, last := ChainAfter(o, srs, key, turns), KeyAfter(key, turns);
            && TranscriptAccepted(o, key, srs, cs)
            && VerifyFinalPk(o, key, cs, last).Ok?
            && KeyConsistent(o, key, last)
            && last == Contributed(key, Product(Scalars(turns)))
  {
    HonestChainAccepted(o, srs, key, turns);
    TurnsAreOneContribution(key, turns);
    ContributedIsConsistent(o, key, Product(Scalars(turns)));
  }

  /**
   The condition is exact: from a key with a zero delta, an honest ceremony with at least one turn
   is never accepted, and the failure is reported at its first contribution.
   */
  lemma {:induction false} HonestCeremonyNeedsDeltas(o: Oracles, srs: Digest, key: Key, turns: seq<Turn>)
    requires AllNonZero(turns) && turns != [] && CodecRoundTrips(o)
    ensures TranscriptAccepted(o, key, srs, ChainAfter(o, srs, key, turns)) <==> key.deltaG1 != 0 && key.deltaG2 != 0
    ensures key.deltaG1 == 0 || key.deltaG2 == 0 ==>
              StepCheck(o, key, ChainAfter(o, srs, key, turns), 0) == Err(DleqRejected(0, ZeroContribution))
  {
    if key.deltaG1 != 0 && key.deltaG2 != 0 {
      HonestChainAccepted(o, srs, key, turns);
    } else {
      FirstContribution(o, srs, key, turns);
      MulZero(turns[0].delta);
      var cs := ChainAfter(o, srs, key, turns);
      assert !StepAccepted(o, key, cs, 0);
    }
  }

  lemma {:induction false} FirstContribution(o: Oracles, srs: Digest, key: Key, turns: seq<Turn>)
    requires AllNonZero(turns) && turns != []
    ensures ChainAfter(o, srs, key, turns)[0] == NewContribution(o, key, srs, turns[0])
  {
    if |turns| > 1 {
      FirstContribution(o, srs, key, turns[..|turns| - 1]);
    } else {
      assert turns[..0] == [];
    }
  }

  // ---- exactness ----

  /** `d` explains the contribution at position `i` in both groups. */
  ghost predicate ExplainsStep(o: Oracles, initial: Key, cs: seq<Contribution>, i: nat, d: Fr)
    requires i < |cs|
  {
    var b, a := DeltasAt(o, initial, cs, i), DeltasAt(o, initial, cs, i + 1);
    b.Some? && a.Some? && Explains(d, b.value.0, a.value.0, b.value.1, a.value.1)
  }

  ghost predicate ExplainedBy(o: Oracles, initial: Key, cs: seq<Contribution>, ws: seq<Fr>) {
    |ws| == |cs| && forall i :: 0 <= i < |cs| ==> ExplainsStep(o, initial, cs, i, ws[i])
  }

  /** The scalars of an honest ceremony explain its transcript. */
  lemma {:induction false} HonestScalarsExplain(o: Oracles, srs: Digest, key: Key, turns: seq<Turn>)
    requires AllNonZero(turns) && CodecRoundTrips(o)
    ensures var cs, last := ChainAfter(o, srs, key, turns), KeyAfter(key, turns);
            && ExplainedBy(o, key, cs, Scalars(turns))
            && DeltasAt(o, key, cs, |cs|) == Some((last.deltaG1, last.deltaG2))
  {
    hide Mul, Prove;
    if turns != [] {
      var n := |turns| - 1;
      HonestScalarsExplain(o, srs, key, turns[..n]);
      var cs, ext := ChainAfter(o, srs, key, turns[..n]), ChainAfter(o, srs, key, turns);
      assert DeltasAt(o, key, ext, n) == DeltasAt(o, key, cs, n) by { assert n > 0 ==> ext[n - 1] == cs[n - 1]; }
      forall i | 0 <= i < n ensures ExplainsStep(o, key, ext, i, Scalars(turns)[i]) {
        assert ExplainsStep(o, key, cs, i, Scalars(turns[..n])[i]);
        assert ext[i] == cs[i] && (i > 0 ==> ext[i - 1] == cs[i - 1]);
      }
      assert ExplainsStep(o, key, ext, n, turns[n].delta);
    }
  }

  lemma {:induction false} DeltasFollowScalars(o: Oracles, initial: Key, srs: Digest, cs: seq<Contribution>, ws: seq<Fr>, n: nat)
    requires TranscriptAccepted(o, initial, srs, cs) && ExplainedBy(o, initial, cs, ws) && n <= |cs|
    ensures var d := Product(ws[..n]);
            && DeltasAt(o, initial, cs, n) == Some((Mul(initial.deltaG1, d), Mul(initial.deltaG2, d)))
            && d != 0
            && (n > 0 ==> initial.deltaG1 != 0 && initial.deltaG2 != 0)
  {
    if n == 0 {
      MulOne(initial.deltaG1);
      MulOne(initial.deltaG2);
    } else {
      var d, w := Product(ws[..n - 1]), ws[n - 1];
      DeltasFollowScalars(o, initial, srs, cs, ws, n - 1);
      assert ws[..n][..n - 1] == ws[..n - 1];
      assert ExplainsStep(o, initial, cs, n - 1, w) && StepAccepted(o, initial, cs, n - 1);
      MulAssoc(initial.deltaG1, d, w);
      MulAssoc(initial.deltaG2, d, w);
      ProductNonZero(initial.deltaG1, Mul(d, w));
      ProductNonZero(initial.deltaG2, Mul(d, w));
    }
  }

  /** The combination challenges for which a wrong vector would slip through. */
  ghost function BadRhos(initial: seq<Fr>, final: seq<Fr>, deltaI: Fr, deltaF: Fr): (bad: set<Fr>)
    requires |initial| == |final|
    ensures |bad| <= if initial == [] then 0 else |initial| - 1
  {
    BatchedCheckSound(initial, final, deltaI, deltaF);
    if AllExact(initial, final, deltaI, deltaF) then {} else AcceptingRhos(initial, final, deltaI, deltaF)
  }

  lemma ExactQueryIsScaled(initial: seq<Fr>, final: seq<Fr>, delta: Fr, d: Fr)
    requires |initial| == |final| && d != 0 && delta != 0
    requires AllExact(initial, final, delta, Mul(delta, d))
    ensures final == Scaled(initial, Inv(d))
  {
    forall j | 0 <= j < |initial| ensures final[j] == Mul(initial[j], Inv(d)) {
      assert ElementExact(initial, final, delta, Mul(delta, d), j);
      MulSwap(final[j], delta, d);
      MulComm(initial[j], delta);
      Cancel(delta, Mul(final[j], d), initial[j]);
      DivideBy(final[j], d, initial[j]);
    }
  }

  ghost predicate RhosAreGood(o: Oracles, initial: Key, final: Key)
    requires |final.hQuery| == |initial.hQuery| && |final.lQuery| == |initial.lQuery|
  {
    && RhoH(o, initial, final) !in BadRhos(initial.hQuery, final.hQuery, initial.deltaG2, final.deltaG2)
    && RhoL(o, initial, final) !in BadRhos(initial.lQuery, final.lQuery, initial.deltaG2, final.deltaG2)
  }

  /**
   If some scalar explains each accepted contribution and the combination challenges avoid the
   fewer than n bad values each, then any final key that passes all three checks is the initial
   key after one contribution by the product of the scalars.
   */
  lemma ExplainedKeyIsOneContribution(o: Oracles, initial: Key, srs: Digest, cs: seq<Contribution>, ws: seq<Fr>, final: Key)
    requires TranscriptAccepted(o, initial, srs, cs) && VerifyFinalPk(o, initial, cs, final).Ok? && KeyConsistent(o, initial, final)
    requires ExplainedBy(o, initial, cs, ws) && RhosAreGood(o, initial, final)
    requires cs != [] || initial.deltaG2 != 0
    ensures Product(ws) != 0 && final == Contributed(initial, Product(ws))
  {
    DeltasFollowScalars(o, initial, srs, cs, ws, |cs|);
    assert ws[..|cs|] == ws;
    var d := Product(ws);
    assert AllExact(initial.hQuery, final.hQuery, initial.deltaG2, final.deltaG2);
    assert AllExact(initial.lQuery, final.lQuery, initial.deltaG2, final.deltaG2);
    ExactQueryIsScaled(initial.hQuery, final.hQuery, initial.deltaG2, d);
    ExactQueryIsScaled(initial.lQuery, final.lQuery, initial.deltaG2, d);
  }

  /** No scalar explains the contribution at position `i`, and its challenge is its single bad value. */
  ghost predicate BadStep(o: Oracles, initial: Key, cs: seq<Contribution>, i: nat)
    requires i < |cs|
  {
    var b, a, proof := DeltasAt(o, initial, cs, i), DeltasAt(o, initial, cs, i + 1), o.decodeProof(cs[i].dleqProof);
    && b.Some? && a.Some? && proof.Some? && a.value.0 != 0 && a.value.1 != 0
    && !Explainable(b.value.0, a.value.0, b.value.1, a.value.1)
    && o.challenge(b.value.0, a.value.0, b.value.1, a.value.1, proof.value.rG1, proof.value.rG2)
       == BadChallenge(b.value.0, a.value.0, b.value.1, a.value.1, proof.value.rG1, proof.value.rG2)
  }

  ghost predicate SomeBadStep(o: Oracles, initial: Key, cs: seq<Contribution>) {
    exists i :: 0 <= i < |cs| && BadStep(o, initial, cs, i)
  }

  /** The scalar that has to explain position `i`. */
  ghost function StepScalar(o: Oracles, initial: Key, cs: seq<Contribution>, i: nat): Fr
    requires i < |cs|
  {
    var b, a := DeltasAt(o, initial, cs, i), DeltasAt(o, initial, cs, i + 1);
    if b.Some? && a.Some? && b.value.0 != 0 then Ratio(a.value.0, b.value.0) else 0
  }

  lemma StepExplainedOrBad(o: Oracles, initial: Key, cs: seq<Contribution>, i: nat)
    requires i < |cs| && StepAccepted(o, initial, cs, i)
    ensures BadStep(o, initial, cs, i) || ExplainsStep(o, initial, cs, i, StepScalar(o, initial, cs, i))
  {
    var b, a := DeltasAt(o, initial, cs, i).value, DeltasAt(o, initial, cs, i + 1).value;
    AcceptedStepExplained(o.challenge, b.0, a.0, b.1, a.1, o.decodeProof(cs[i].dleqProof).value);
  }

  ghost predicate IsContribution(initial: Key, final: Key) {
    exists d: Fr :: d != 0 && final == Contributed(initial, d)
  }

  /**
   Exactness: any final key that passes all three checks is the initial key after one contribution,
   unless some contribution's challenge is its single bad value or a combination challenge is among
   the fewer than n bad ones.  An empty transcript needs a non-zero initial delta.
   */
  lemma AcceptedKeyIsOneContribution(o: Oracles, initial: Key, srs: Digest, cs: seq<Contribution>, final: Key)
    requires TranscriptAccepted(o, initial, srs, cs) && VerifyFinalPk(o, initial, cs, final).Ok? && KeyConsistent(o, initial, final)
    requires cs != [] || initial.deltaG2 != 0
    ensures IsContribution(initial, final) || SomeBadStep(o, initial, cs) || !RhosAreGood(o, initial, final)
  {
    hide KeyConsistent, StepAccepted, BadStep, ExplainsStep, StepScalar, RhosAreGood, Contributed;
    LengthsAgree(o, initial, final);
    if !SomeBadStep(o, initial, cs) && RhosAreGood(o, initial, final) {
      var ws := seq(|cs|, i requires 0 <= i < |cs| => StepScalar(o, initial, cs, i));
      forall i | 0 <= i < |cs| ensures ExplainsStep(o, initial, cs, i, ws[i]) {
        assert StepAccepted(o, initial, cs, i);
        StepExplainedOrBad(o, initial, cs, i);
      }
      ExplainedKeyIsOneContribution(o, initial, srs, cs, ws, final);
    }
  }

  lemma LengthsAgree(o: Oracles, initial: Key, final: Key)
    requires KeyConsistent(o, initial, final)
    ensures |final.hQuery| == |initial.hQuery| && |final.lQuery| == |initial.lQuery|
  {}

  /**
   The exception is real: with no contribution and a zero initial delta, all three checks accept
   every pair of query vectors of the right length.
   */
  lemma EmptyTranscriptZeroDelta(o: Oracles, initial: Key, srs: Digest, h: seq<Fr>, l: seq<Fr>)
    requires initial.deltaG2 == 0 && |h| == |initial.hQuery| && |l| == |initial.lQuery|
    ensures var final := initial.(hQuery := h, lQuery := l);
            TranscriptAccepted(o, initial, srs, []) && VerifyFinalPk(o, initial, [], final).Ok? && KeyConsistent(o, initial, final)
  {
    var final := initial.(hQuery := h, lQuery := l);
    var sh, sl := Powers(RhoH(o, initial, final), 1, |h|), Powers(RhoL(o, initial, final), 1, |l|);
    MulZero(Msm(h, sh));
    MulZero(Msm(initial.hQuery, sh));
    MulZero(Msm(l, sl));
    MulZero(Msm(initial.lQuery, sl));
  }
}
