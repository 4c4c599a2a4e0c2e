/**
 The end-to-end checks of a finished ceremony: the transcript walk, the binding of the final key
 to the chain, and the batched pairing check of the delta-dependent query vectors.
 */
module CeremonyVerifier {
  import opened Common
  import opened ScalarField
  import opened Bgm17
  import opened Transcript

  /** domain, initial vector, final vector, initial delta-G2, final delta-G2 */
  type RhoFn = (string, seq<Fr>, seq<Fr>, Fr, Fr) -> Fr

  /** Everything the ceremony takes from libraries: hashes and point encodings, all arbitrary. */
  datatype Oracles = Oracles(
    challenge: ChallengeFn,
    rho: RhoFn,
    hash: HashFn,
    encodeG1: Fr -> Bytes, decodeG1: Bytes -> Option<Fr>,
    encodeG2: Fr -> Bytes, decodeG2: Bytes -> Option<Fr>,
    encodeProof: DleqProof -> Bytes, decodeProof: Bytes -> Option<DleqProof>)

  datatype VerifyError =
    | Chain(position: nat)
    | MalformedDeltaG1(position: nat)
    | MalformedDeltaG2(position: nat)
    | MalformedDleq(position: nat, source: BgmError)
    | DleqRejected(position: nat, source: BgmError)
    | FinalPkDeltaMismatch
    | KeyElementAltered(field: string)
    | QueryLengthMismatch(field: string)
    | QueryInconsistent(field: string)

  // ---- the transcript walk ----

  /** The deltas the chain stands at before position `i`, if they decode. */
  function DeltasAt(o: Oracles, initial: Key, cs: seq<Contribution>, i: nat): Option<(Fr, Fr)>
    requires i <= |cs|
  {
    if i == 0 then Some((initial.deltaG1, initial.deltaG2))
    else
      var g1, g2 := o.decodeG1(cs[i - 1].deltaAfterG1), o.decodeG2(cs[i - 1].deltaAfterG2);
      if g1.Some? && g2.Some? then Some((g1.value, g2.value)) else None
  }

  /** The outcome of checking the contribution at position `i` against the deltas before it. */
  function StepCheck(o: Oracles, initial: Key, cs: seq<Contribution>, i: nat): Result<(), VerifyError>
    requires i < |cs| && DeltasAt(o, initial, cs, i).Some?
  {
    var (b1, b2) := DeltasAt(o, initial, cs, i).value;
    var a1, a2 := o.decodeG1(cs[i].deltaAfterG1), o.decodeG2(cs[i].deltaAfterG2);
    if a1.None? then Err(MalformedDeltaG1(i))
    else if a2.None? then Err(MalformedDeltaG2(i))
    else
      var proof := o.decodeProof(cs[i].dleqProof);
      if proof.None? then Err(MalformedDleq(i, MalformedDleqProof))
      else
        var r := VerifyContributionDeltas(o.challenge, b1, a1.value, b2, a2.value, proof.value);
        if r.Err? then Err(DleqRejected(i, r.error)) else Ok(())
  }

  /** Which part of a contribution a refusal names: the first that does not decode, or else the proof. */
  lemma StepRefusedExactly(o: Oracles, initial: Key, cs: seq<Contribution>, i: nat, e: VerifyError)
    requires i < |cs| && DeltasAt(o, initial, cs, i).Some? && StepCheck(o, initial, cs, i) == Err(e)
    ensures var g1, g2, proof := o.decodeG1(cs[i].deltaAfterG1), o.decodeG2(cs[i].deltaAfterG2), o.decodeProof(cs[i].dleqProof);
            && (e.MalformedDeltaG1? <==> g1.None?)
            && (e.MalformedDeltaG2? <==> g1.Some? && g2.None?)
            && (e.MalformedDleq? <==> g1.Some? && g2.Some? && proof.None?)
            && (e.DleqRejected? <==> g1.Some? && g2.Some? && proof.Some?)
            && e.position == i
  {}

  predicate StepAccepted(o: Oracles, initial: Key, cs: seq<Contribution>, i: nat)
    requires i < |cs|
  {
    DeltasAt(o, initial, cs, i).Some? && StepCheck(o, initial, cs, i).Ok?
  }

  ghost predicate TranscriptAccepted(o: Oracles, initial: Key, srs: Digest, cs: seq<Contribution>) {
    && ChainOk(o.hash, srs, cs)
    && forall i :: 0 <= i < |cs| ==> StepAccepted(o, initial, cs, i)
  }

  /**
   Accepts exactly the intact chains whose every contribution passes against its predecessor;
   otherwise reports the first broken link, or on an intact chain the first failing contribution.
   */
  method VerifyPhase2Transcript(o: Oracles, initial: Key, t: Phase2Transcript) returns (r: Result<(), VerifyError>)
    ensures r.Ok? <==> TranscriptAccepted(o, initial, t.initialSrsHash, t.contributions)
    ensures !t.Intact(o.hash) ==> r.Err? && r.error.Chain? &&
                                  FirstBroken(o.hash, t.initialSrsHash, t.contributions, r.error.position)
    ensures t.Intact(o.hash) && r.Err? ==>
              exists i :: 0 <= i < |t.contributions|
                          && (forall j :: 0 <= j < i ==> StepAccepted(o, initial, t.contributions, j))
                          && DeltasAt(o, initial, t.contributions, i).Some?
                          && StepCheck(o, initial, t.contributions, i) == r
  {
    var chain := t.VerifyChain(o.hash);
    if chain.Err? {
      return Err(Chain(chain.error.position));
    }
    var cs := t.contributions;
    var beforeG1, beforeG2 := initial.deltaG1, initial.deltaG2;
    for i := 0 to |cs|
      invariant forall j :: 0 <= j < i ==> StepAccepted(o, initial, cs, j)
      invariant DeltasAt(o, initial, cs, i) == Some((beforeG1, beforeG2))
    {
      var afterG1 := o.decodeG1(cs[i].deltaAfterG1);
      if afterG1.None? {
        r := Err(MalformedDeltaG1(i));
        assert StepCheck(o, initial, cs, i) == r && !StepAccepted(o, initial, cs, i);
        return;
      }
      var afterG2 := o.decodeG2(cs[i].deltaAfterG2);
      if afterG2.None? {
        r := Err(MalformedDeltaG2(i));
        assert StepCheck(o, initial, cs, i) == r && !StepAccepted(o, initial, cs, i);
        return;
      }
      var proof := o.decodeProof(cs[i].dleqProof);
      if proof.None? {
        r := Err(MalformedDleq(i, MalformedDleqProof));
        assert StepCheck(o, initial, cs, i) == r && !StepAccepted(o, initial, cs, i);
        return;
      }
      var v := VerifyContributionDeltas(o.challenge, beforeG1, afterG1.value, beforeG2, afterG2.value, proof.value);
      if v.Err? {
        r := Err(DleqRejected(i, v.error));
        assert StepCheck(o, initial, cs, i) == r && !StepAccepted(o, initial, cs, i);
        return;
      }
      assert StepAccepted(o, initial, cs, i);
      beforeG1, beforeG2 := afterG1.value, afterG2.value;
    }
    return Ok(());
  }

  /** Binds the final key to the chain: its deltas must be the ones the chain ends on. */
  function VerifyFinalPk(o: Oracles, initial: Key, cs: seq<Contribution>, final: Key): (r: Result<(), VerifyError>)
    ensures r.Ok? <==> DeltasAt(o, initial, cs, |cs|) == Some((final.deltaG1, final.deltaG2))
    ensures r.Err? && r.error.FinalPkDeltaMismatch? <==> r.Err? && DeltasAt(o, initial, cs, |cs|).Some?
  {
    if cs == [] then
      if final.deltaG1 != initial.deltaG1 || final.deltaG2 != initial.deltaG2 then Err(FinalPkDeltaMismatch) else Ok(())
    else
      var position := |cs| - 1;
      var g1, g2 := o.decodeG1(cs[position].deltaAfterG1), o.decodeG2(cs[position].deltaAfterG2);
      if g1.None? then Err(MalformedDeltaG1(position))
      else if g2.None? then Err(MalformedDeltaG2(position))
      else if final.deltaG1 != g1.value || final.deltaG2 != g2.value then Err(FinalPkDeltaMismatch)
      else Ok(())
  }

  // ---- the batched query check ----

  /** `[acc, acc*base, acc*base^2, ...]`, `n` long */
  function Powers(base: Fr, acc: Fr, n: nat): (out: seq<Fr>)
    ensures |out| == n
    decreases n
  {
    if n == 0 then [] else [acc] + Powers(base, Mul(acc, base), n - 1)
  }

  method ScalarPowers(base: Fr, n: nat) returns (out: seq<Fr>)
    ensures out == Powers(base, 1, n)
  {
    out := [];
    var acc: Fr := 1;
    for i := 0 to n
      invariant out + Powers(base, acc, n - i) == Powers(base, 1, n)
    {
      assert out + ([acc] + Powers(base, Mul(acc, base), n - i - 1))
          == (out + [acc]) + Powers(base, Mul(acc, base), n - i - 1);
      out := out + [acc];
      acc := Mul(acc, base);
    }
  }

  /** Multi-scalar multiplication of two vectors of the same length. */
  function Msm(points: seq<Fr>, scalars: seq<Fr>): Fr
    requires |points| == |scalars|
  {
    if points == [] then 0 else Add(Mul(points[0], scalars[0]), Msm(points[1..], scalars[1..]))
  }

  /** The two pairings of the combined vectors agree for the combination challenge `rho`. */
  predicate BatchAccepts(initial: seq<Fr>, final: seq<Fr>, deltaI: Fr, deltaF: Fr, rho: Fr)
    requires |initial| == |final|
  {
    var scalars := Powers(rho, 1, |initial|);
    Mul(Msm(final, scalars), deltaF) == Mul(Msm(initial, scalars), deltaI)
  }

  method CheckQueryConsistency(o: Oracles, field: string, initial: seq<Fr>, final: seq<Fr>, deltaI: Fr, deltaF: Fr)
    returns (r: Result<(), VerifyError>)
    requires |initial| == |final|
    ensures r.Ok? <==> BatchAccepts(initial, final, deltaI, deltaF, o.rho(field, initial, final, deltaI, deltaF))
    ensures r.Err? ==> r.error == QueryInconsistent(field)
  {
    if initial == [] {
      MulZero(deltaI);
      MulZero(deltaF);
      return Ok(());
    }
    var rho := o.rho(field, initial, final, deltaI, deltaF);
    var scalars := ScalarPowers(rho, |initial|);
    var lhs := Mul(Msm(final, scalars), deltaF);
    var rhs := Mul(Msm(initial, scalars), deltaI);
    if lhs != rhs {
      return Err(QueryInconsistent(field));
    }
    return Ok(());
  }

  function RhoH(o: Oracles, initial: Key, final: Key): Fr {
    o.rho("h_query", initial.hQuery, final.hQuery, initial.deltaG2, final.deltaG2)
  }

  function RhoL(o: Oracles, initial: Key, final: Key): Fr {
    o.rho("l_query", initial.lQuery, final.lQuery, initial.deltaG2, final.deltaG2)
  }

  /**
   A combination challenge is bound to what it combines: two keys are given the same one by every
   function exactly if they agree in the vectors and in the deltas, and the two vectors of a key are
   given challenges of their own.
   */
  lemma RhoBinds(o: Oracles, i: Key, f: Key, i': Key, f': Key)
    ensures (forall r: RhoFn :: RhoH(o.(rho := r), i, f) == RhoH(o.(rho := r), i', f'))
            <==> i.hQuery == i'.hQuery && f.hQuery == f'.hQuery && i.deltaG2 == i'.deltaG2 && f.deltaG2 == f'.deltaG2
    ensures (forall r: RhoFn :: RhoL(o.(rho := r), i, f) == RhoL(o.(rho := r), i', f'))
            <==> i.lQuery == i'.lQuery && f.lQuery == f'.lQuery && i.deltaG2 == i'.deltaG2 && f.deltaG2 == f'.deltaG2
    ensures exists r: RhoFn :: RhoH(o.(rho := r), i, f) != RhoL(o.(rho := r), i, f)
  {
    var h: RhoFn := (_, a, b, x, y) => if a == i.hQuery && b == f.hQuery && x == i.deltaG2 && y == f.deltaG2 then 1 else 0;
    assert RhoH(o.(rho := h), i, f) == 1;
    assert RhoH(o.(rho := h), i', f') == 1 ==>
             i.hQuery == i'.hQuery && f.hQuery == f'.hQuery && i.deltaG2 == i'.deltaG2 && f.deltaG2 == f'.deltaG2;
    var l: RhoFn := (_, a, b, x, y) => if a == i.lQuery && b == f.lQuery && x == i.deltaG2 && y == f.deltaG2 then 1 else 0;
    assert RhoL(o.(rho := l), i, f) == 1;
    assert RhoL(o.(rho := l), i', f') == 1 ==>
             i.lQuery == i'.lQuery && f.lQuery == f'.lQuery && i.deltaG2 == i'.deltaG2 && f.deltaG2 == f'.deltaG2;
    var n: RhoFn := (name, _, _, _, _) => if name == "h_query" then 1 else 0;
    assert RhoH(o.(rho := n), i, f) == 1 && RhoL(o.(rho := n), i, f) == 0;
  }

  ghost predicate KeyConsistent(o: Oracles, initial: Key, final: Key) {
    && final.fixed == initial.fixed
    && |final.hQuery| == |initial.hQuery|
    && |final.lQuery| == |initial.lQuery|
    && BatchAccepts(initial.hQuery, final.hQuery, initial.deltaG2, final.deltaG2, RhoH(o, initial, final))
    && BatchAccepts(initial.lQuery, final.lQuery, initial.deltaG2, final.deltaG2, RhoL(o, initial, final))
  }

  /** The element of that name differs. */
  predicate NamesAltered(field: string, a: Fixed, b: Fixed) {
    || (field == "vk.alpha_g1" && a.alphaG1 != b.alphaG1)
    || (field == "vk.beta_g2" && a.betaG2 != b.betaG2)
    || (field == "vk.gamma_g2" && a.gammaG2 != b.gammaG2)
    || (field == "vk.gamma_abc_g1" && a.gammaAbcG1 != b.gammaAbcG1)
    || (field == "beta_g1" && a.betaG1 != b.betaG1)
    || (field == "a_query" && a.aQuery != b.aQuery)
    || (field == "b_g1_query" && a.bG1Query != b.bG1Query)
    || (field == "b_g2_query" && a.bG2Query != b.bG2Query)
  }

  method VerifyFinalPkConsistency(o: Oracles, initial: Key, final: Key) returns (r: Result<(), VerifyError>)
    ensures r.Ok? <==> KeyConsistent(o, initial, final)
    ensures final.fixed != initial.fixed ==> r.Err? && r.error.KeyElementAltered?
    ensures r.Err? && r.error.KeyElementAltered? ==> final.fixed != initial.fixed && NamesAltered(r.error.field, initial.fixed, final.fixed)
    ensures r.Err? && r.error.QueryLengthMismatch? ==>
              r.error.field == if |final.hQuery| != |initial.hQuery| then "h_query" else "l_query"
    ensures r.Err? && r.error.QueryInconsistent? ==>
              && |final.hQuery| == |initial.hQuery| && |final.lQuery| == |initial.lQuery|
              && (r.error.field == "l_query" <==>
                    BatchAccepts(initial.hQuery, final.hQuery, initial.deltaG2, final.deltaG2, RhoH(o, initial, final)))
              && (r.error.field == "l_query" || r.error.field == "h_query")
  {
    var f, i := final.fixed, initial.fixed;
    if f.alphaG1 != i.alphaG1 { return Err(KeyElementAltered("vk.alpha_g1")); }
    if f.betaG2 != i.betaG2 { return Err(KeyElementAltered("vk.beta_g2")); }
    if f.gammaG2 != i.gammaG2 { return Err(KeyElementAltered("vk.gamma_g2")); }
    if f.gammaAbcG1 != i.gammaAbcG1 { return Err(KeyElementAltered("vk.gamma_abc_g1")); }
    if f.betaG1 != i.betaG1 { return Err(KeyElementAltered("beta_g1")); }
    if f.aQuery != i.aQuery { return Err(KeyElementAltered("a_query")); }
    if f.bG1Query != i.bG1Query { return Err(KeyElementAltered("b_g1_query")); }
    if f.bG2Query != i.bG2Query { return Err(KeyElementAltered("b_g2_query")); }
    if |final.hQuery| != |initial.hQuery| { return Err(QueryLengthMismatch("h_query")); }
    if |final.lQuery| != |initial.lQuery| { return Err(QueryLengthMismatch("l_query")); }
    r := CheckQueryConsistency(o, "h_query", initial.hQuery, final.hQuery, initial.deltaG2, final.deltaG2);
    if r.Err? { return; }
    r := CheckQueryConsistency(o, "l_query", initial.lQuery, final.lQuery, initial.deltaG2, final.deltaG2);
  }
}
