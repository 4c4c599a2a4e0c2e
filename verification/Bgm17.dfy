/**
 The BGM17 phase-2 contribution (Bowe, Gabizon, Miers, eprint 2017/1050) on a Groth16 proving
 key whose group elements are represented by their exponents.  The Fiat-Shamir challenge is an
 arbitrary function of the six points it is derived from.
 */
module Bgm17 {
  import opened Common
  import opened ScalarField

  /** before-G1, after-G1, before-G2, after-G2, R-G1, R-G2 */
  type ChallengeFn = (Fr, Fr, Fr, Fr, Fr, Fr) -> Fr

  datatype DleqProof = DleqProof(rG1: Fr, rG2: Fr, s: Fr)

  datatype BgmError = ZeroContribution | MalformedDleqProof | DleqMismatchG1 | DleqMismatchG2

  /** The part of a proving key that a phase-2 contribution must not touch. */
  datatype Fixed = Fixed(
    alphaG1: Fr,
    betaG2: Fr,
    gammaG2: Fr,
    gammaAbcG1: seq<Fr>,
    betaG1: Fr,
    aQuery: seq<Fr>,
    bG1Query: seq<Fr>,
    bG2Query: seq<Fr>)

  datatype Key = Key(fixed: Fixed, deltaG1: Fr, deltaG2: Fr, hQuery: seq<Fr>, lQuery: seq<Fr>)

  function Scaled(points: seq<Fr>, scalar: Fr): seq<Fr> {
    seq(|points|, i requires 0 <= i < |points| => Mul(points[i], scalar))
  }

  /** The key after one contribution by the scalar `d`. */
  function Contributed(key: Key, d: Fr): Key
    requires d != 0
  {
    Key(key.fixed, Mul(key.deltaG1, d), Mul(key.deltaG2, d),
        Scaled(key.hQuery, Inv(d)), Scaled(key.lQuery, Inv(d)))
  }

  /** The discrete-log-equality proof a contributor produces with nonce `k`. */
  function Prove(challenge: ChallengeFn, key: Key, d: Fr, k: Fr): DleqProof {
    var rG1, rG2 := Mul(key.deltaG1, k), Mul(key.deltaG2, k);
    var c := challenge(key.deltaG1, Mul(key.deltaG1, d), key.deltaG2, Mul(key.deltaG2, d), rG1, rG2);
    DleqProof(rG1, rG2, Add(k, Mul(c, d)))
  }

  class ProvingKey {
    const fixed: Fixed
    var deltaG1: Fr
    var deltaG2: Fr
    const hQuery: array<Fr>
    const lQuery: array<Fr>

    constructor (key: Key)
      ensures Valid() && Value() == key
      ensures fresh(hQuery) && fresh(lQuery)
    {
      fixed := key.fixed;
      deltaG1 := key.deltaG1;
      deltaG2 := key.deltaG2;
      hQuery := new Fr[|key.hQuery|](i requires 0 <= i < |key.hQuery| => key.hQuery[i]);
      lQuery := new Fr[|key.lQuery|](i requires 0 <= i < |key.lQuery| => key.lQuery[i]);
      new;
      assert hQuery[..] == key.hQuery && lQuery[..] == key.lQuery;
    }

    ghost predicate Valid() { hQuery != lQuery }

    ghost function Value(): Key
      reads this, hQuery, lQuery
    {
      Key(fixed, deltaG1, deltaG2, hQuery[..], lQuery[..])
    }
  }

  method ApplyScalarToG1Vec(points: array<Fr>, scalar: Fr)
    modifies points
    ensures points[..] == Scaled(old(points[..]), scalar)
  {
    for i := 0 to points.Length
      invariant forall j :: 0 <= j < i ==> points[j] == Mul(old(points[j]), scalar)
      invariant forall j :: i <= j < points.Length ==> points[j] == old(points[j])
    {
      points[i] := Mul(points[i], scalar);
    }
  }

  /** Applies `delta` to the key in place; a zero scalar is refused and leaves the key alone. */
  method ApplyContribution(challenge: ChallengeFn, pk: ProvingKey, delta: Fr, k: Fr)
    returns (r: Result<DleqProof, BgmError>)
    requires pk.Valid()
    modifies pk, pk.hQuery, pk.lQuery
    ensures delta == 0 ==> r == Err(ZeroContribution) && pk.Value() == old(pk.Value())
    ensures delta != 0 ==> r == Ok(Prove(challenge, old(pk.Value()), delta, k))
    ensures delta != 0 ==> pk.Value() == Contributed(old(pk.Value()), delta)
  {
    if delta == 0 {
      return Err(ZeroContribution);
    }
    var deltaInv := Inv(delta);
    var beforeG1, beforeG2 := pk.deltaG1, pk.deltaG2;
    pk.deltaG1 := Mul(pk.deltaG1, delta);
    pk.deltaG2 := Mul(pk.deltaG2, delta);
    ApplyScalarToG1Vec(pk.hQuery, deltaInv);
    ApplyScalarToG1Vec(pk.lQuery, deltaInv);
    var afterG1, afterG2 := pk.deltaG1, pk.deltaG2;
    var rG1, rG2 := Mul(beforeG1, k), Mul(beforeG2, k);
    var c := challenge(beforeG1, afterG1, beforeG2, afterG2, rG1, rG2);
    return Ok(DleqProof(rG1, rG2, Add(k, Mul(c, delta))));
  }

  function VerifyContributionDeltas(challenge: ChallengeFn, b1: Fr, a1: Fr, b2: Fr, a2: Fr, proof: DleqProof)
    : Result<(), BgmError>
  {
    if a1 == 0 || a2 == 0 then Err(ZeroContribution)
    else
      var c := challenge(b1, a1, b2, a2, proof.rG1, proof.rG2);
      if Mul(b1, proof.s) != Add(proof.rG1, Mul(a1, c)) then Err(DleqMismatchG1)
      else if Mul(b2, proof.s) != Add(proof.rG2, Mul(a2, c)) then Err(DleqMismatchG2)
      else Ok(())
  }

  // ---- what a contribution does to the key ----

  lemma ScaledTwice(v: seq<Fr>, a: Fr, b: Fr)
    ensures Scaled(Scaled(v, a), b) == Scaled(v, Mul(a, b))
  {
    forall i | 0 <= i < |v| ensures Scaled(Scaled(v, a), b)[i] == Scaled(v, Mul(a, b))[i] {
      MulAssoc(v[i], a, b);
    }
  }

  /** Contributions compose: applying `a` and then `b` is one contribution by their product. */
  lemma ContributionsCompose(key: Key, a: Fr, b: Fr)
    requires a != 0 && b != 0
    ensures Mul(a, b) != 0
    ensures Contributed(Contributed(key, a), b) == Contributed(key, Mul(a, b))
  {
    InvProduct(a, b);
    MulAssoc(key.deltaG1, a, b);
    MulAssoc(key.deltaG2, a, b);
    ScaledTwice(key.hQuery, Inv(a), Inv(b));
    ScaledTwice(key.lQuery, Inv(a), Inv(b));
  }

  /** Contributing by one changes nothing, so contributing by `a` is undone by its inverse. */
  lemma ContributionUndone(key: Key, a: Fr)
    requires a != 0
    ensures Inv(a) != 0 && Contributed(Contributed(key, a), Inv(a)) == key
  {
    InvNonZero(a);
    ContributionsCompose(key, a, Inv(a));
    MulOne(Inv(1));
    MulOne(key.deltaG1);
    MulOne(key.deltaG2);
    forall i | 0 <= i < |key.hQuery| ensures Scaled(key.hQuery, 1)[i] == key.hQuery[i] { MulOne(key.hQuery[i]); }
    forall i | 0 <= i < |key.lQuery| ensures Scaled(key.lQuery, 1)[i] == key.lQuery[i] { MulOne(key.lQuery[i]); }
    assert Scaled(key.hQuery, 1) == key.hQuery && Scaled(key.lQuery, 1) == key.lQuery;
  }

  /** A query element and the delta it is divided by keep their product. */
  lemma ProductWithDeltaConstant(x: Fr, delta: Fr, d: Fr)
    requires d != 0
    ensures Mul(Mul(x, Inv(d)), Mul(delta, d)) == Mul(x, delta)
  {
    calc {
      Mul(Mul(x, Inv(d)), Mul(delta, d));
      { MulAssoc(x, Inv(d), Mul(delta, d)); MulSwap(Inv(d), delta, d); }
      Mul(x, Mul(delta, Mul(Inv(d), d)));
      { MulComm(Inv(d), d); MulOne(delta); }
      Mul(x, delta);
    }
  }

  // ---- the discrete-log-equality proof ----

  lemma SchnorrEquation(b: Fr, d: Fr, k: Fr, c: Fr)
    ensures Mul(b, Add(k, Mul(c, d))) == Add(Mul(b, k), Mul(Mul(b, d), c))
  {
    Distrib(b, k, Mul(c, d));
    MulSwap(b, c, d);
    MulComm(c, Mul(b, d));
  }

  /** An honest contribution to a key with non-zero deltas is accepted, whatever the nonce. */
  lemma HonestProofAccepted(challenge: ChallengeFn, key: Key, d: Fr, k: Fr)
    requires d != 0
    ensures VerifyContributionDeltas(challenge, key.deltaG1, Mul(key.deltaG1, d), key.deltaG2, Mul(key.deltaG2, d),
                                     Prove(challenge, key, d, k)).Ok?
            <==> key.deltaG1 != 0 && key.deltaG2 != 0
  {
    ProductNonZero(key.deltaG1, d);
    ProductNonZero(key.deltaG2, d);
    var proof := Prove(challenge, key, d, k);
    var c := challenge(key.deltaG1, Mul(key.deltaG1, d), key.deltaG2, Mul(key.deltaG2, d), proof.rG1, proof.rG2);
    SchnorrEquation(key.deltaG1, d, k, c);
    SchnorrEquation(key.deltaG2, d, k, c);
  }

  // ---- what the proof shows of the scalar ----

  /** The commitment is blinded by the nonce: different nonces give different commitments. */
  lemma NonceShows(challenge: ChallengeFn, key: Key, d: Fr, k: Fr, k': Fr)
    requires key.deltaG1 != 0
    ensures Prove(challenge, key, d, k).rG1 == Prove(challenge, key, d, k').rG1 <==> k == k'
    ensures key.deltaG2 != 0 ==> (Prove(challenge, key, d, k).rG2 == Prove(challenge, key, d, k').rG2 <==> k == k')
  {
    if Mul(key.deltaG1, k) == Mul(key.deltaG1, k') { Cancel(key.deltaG1, k, k'); }
    if key.deltaG2 != 0 && Mul(key.deltaG2, k) == Mul(key.deltaG2, k') { Cancel(key.deltaG2, k, k'); }
  }

  function Always(c: Fr): ChallengeFn { (_, _, _, _, _, _) => c }

  /** The accepting proof for a challenge and a response, made up from the key before and after, without the scalar. */
  function Simulated(key: Key, after: Key, c: Fr, s: Fr): DleqProof {
    DleqProof(Sub(Mul(key.deltaG1, s), Mul(after.deltaG1, c)), Sub(Mul(key.deltaG2, s), Mul(after.deltaG2, c)), s)
  }

  lemma SimulatedCommitment(b: Fr, d: Fr, k: Fr, c: Fr)
    ensures Sub(Mul(b, Add(k, Mul(c, d))), Mul(Mul(b, d), c)) == Mul(b, k)
  {
    SchnorrEquation(b, d, k, c);
    ShiftedBack(Mul(b, k), Mul(Mul(b, d), c));
  }

  lemma ShiftedBack(x: Fr, y: Fr)
    ensures Sub(Add(x, y), y) == x && Add(Sub(x, y), y) == x
  {}

  /**
   The proof hides the scalar: for a given challenge, every response is given by exactly one nonce,
   and the proof that comes out is the one anybody could have made up from the challenge, the
   response and the two keys.  So under a uniform nonce proofs are distributed alike for all scalars.
   */
  lemma ProofHidesScalar(key: Key, d: Fr, c: Fr, s: Fr) returns (k: Fr)
    requires d != 0
    ensures Prove(Always(c), key, d, k) == Simulated(key, Contributed(key, d), c, s)
    ensures forall k': Fr :: Prove(Always(c), key, d, k').s == s <==> k' == k
  {
    k := Sub(s, Mul(c, d));
    ShiftedBack(s, Mul(c, d));
    SimulatedCommitment(key.deltaG1, d, k, c);
    SimulatedCommitment(key.deltaG2, d, k, c);
    forall k': Fr ensures Prove(Always(c), key, d, k').s == s <==> k' == k {
      ShiftedBack(k', Mul(c, d));
    }
  }

  /** `d` takes both deltas from their old to their new value. */
  predicate Explains(d: Fr, b1: Fr, a1: Fr, b2: Fr, a2: Fr) {
    a1 == Mul(b1, d) && a2 == Mul(b2, d)
  }

  function Extracted(c: Fr, s: Fr, c': Fr, s': Fr): Fr
    requires c != c'
  {
    Mul(Sub(s, s'), Inv(Sub(c, c')))
  }

  lemma ExtractOne(b: Fr, a: Fr, r: Fr, c: Fr, s: Fr, c': Fr, s': Fr)
    requires c != c'
    requires Mul(b, s) == Add(r, Mul(a, c)) && Mul(b, s') == Add(r, Mul(a, c'))
    ensures a == Mul(b, Extracted(c, s, c', s'))
  {
    var ds, dc := Sub(s, s'), Sub(c, c');
    assert dc != 0;
    assert Mul(b, ds) == Mul(a, dc) by {
      DistribSub(b, s, s');
      DistribSub(a, c, c');
      SameShift(r, Mul(a, c), Mul(a, c'));
    }
    calc {
      Mul(b, Mul(ds, Inv(dc)));
      { MulAssoc(b, ds, Inv(dc)); }
      Mul(Mul(a, dc), Inv(dc));
      { MulAssoc(a, dc, Inv(dc)); MulOne(a); }
      a;
    }
  }

  lemma SameShift(r: Fr, x: Fr, y: Fr)
    ensures Sub(Add(r, x), Add(r, y)) == Sub(x, y)
  {}

  /**
   Special soundness: two accepting responses to the same commitments under different challenges
   hand over one non-zero scalar that explains the step in both groups.
   */
  lemma ScalarExtracted(ch: ChallengeFn, ch': ChallengeFn, b1: Fr, a1: Fr, b2: Fr, a2: Fr, rG1: Fr, rG2: Fr, s: Fr, s': Fr)
    requires VerifyContributionDeltas(ch, b1, a1, b2, a2, DleqProof(rG1, rG2, s)).Ok?
    requires VerifyContributionDeltas(ch', b1, a1, b2, a2, DleqProof(rG1, rG2, s')).Ok?
    requires ch(b1, a1, b2, a2, rG1, rG2) != ch'(b1, a1, b2, a2, rG1, rG2)
    ensures var d := Extracted(ch(b1, a1, b2, a2, rG1, rG2), s, ch'(b1, a1, b2, a2, rG1, rG2), s');
            d != 0 && Explains(d, b1, a1, b2, a2)
  {
    var c, c' := ch(b1, a1, b2, a2, rG1, rG2), ch'(b1, a1, b2, a2, rG1, rG2);
    ExtractOne(b1, a1, rG1, c, s, c', s');
    ExtractOne(b2, a2, rG2, c, s, c', s');
    ProductNonZero(b1, Extracted(c, s, c', s'));
  }

  lemma AcceptedEquation(b: Fr, x: Fr, k: Fr, c: Fr, s: Fr)
    requires b != 0
    ensures Mul(b, s) == Add(Mul(b, k), Mul(Mul(b, x), c)) <==> s == Add(k, Mul(c, x))
  {
    SchnorrEquation(b, x, k, c);
    if Mul(b, s) == Mul(b, Add(k, Mul(c, x))) {
      Cancel(b, s, Add(k, Mul(c, x)));
    }
  }

  /** Some response makes the step by `x` in G1 and `y` in G2 pass when the challenge is `c`. */
  ghost predicate Answerable(b1: Fr, b2: Fr, x: Fr, y: Fr, k1: Fr, k2: Fr, c: Fr) {
    exists s: Fr :: AcceptedWith(b1, b2, x, y, k1, k2, c, s)
  }

  ghost predicate AcceptedWith(b1: Fr, b2: Fr, x: Fr, y: Fr, k1: Fr, k2: Fr, c: Fr, s: Fr) {
    VerifyContributionDeltas(Always(c), b1, Mul(b1, x), b2, Mul(b2, y),
                             DleqProof(Mul(b1, k1), Mul(b2, k2), s)).Ok?
  }

  /** Which answer a response gets, in exponents: it has to fit in G1 first and then in G2. */
  lemma AcceptedWithMeans(b1: Fr, b2: Fr, x: Fr, y: Fr, k1: Fr, k2: Fr, c: Fr, s: Fr)
    requires b1 != 0 && b2 != 0 && x != 0 && y != 0
    ensures AcceptedWith(b1, b2, x, y, k1, k2, c, s) <==> s == Add(k1, Mul(c, x)) && s == Add(k2, Mul(c, y))
    ensures VerifyContributionDeltas(Always(c), b1, Mul(b1, x), b2, Mul(b2, y), DleqProof(Mul(b1, k1), Mul(b2, k2), s))
         == if s != Add(k1, Mul(c, x)) then Err(DleqMismatchG1) else if s != Add(k2, Mul(c, y)) then Err(DleqMismatchG2) else Ok(())
  {
    ProductNonZero(b1, x);
    ProductNonZero(b2, y);
    AcceptedEquation(b1, x, k1, c, s);
    AcceptedEquation(b2, y, k2, c, s);
  }

  lemma SameResponse(x: Fr, y: Fr, k1: Fr, k2: Fr, c: Fr)
    ensures Add(k1, Mul(c, x)) == Add(k2, Mul(c, y)) <==> Mul(c, Sub(x, y)) == Sub(k2, k1)
  {
    DistribSub(c, x, y);
  }

  /**
   The converse of honesty: a step by different scalars `x` in G1 and `y` in G2 can be answered
   for one challenge value only, whatever commitments (exponents `k1`, `k2`) were sent first.
   */
  lemma MismatchedStepFitsOneChallenge(b1: Fr, b2: Fr, x: Fr, y: Fr, k1: Fr, k2: Fr, c: Fr)
    requires b1 != 0 && b2 != 0 && x != 0 && y != 0 && x != y
    ensures Sub(x, y) != 0
    ensures Answerable(b1, b2, x, y, k1, k2, c) <==> c == Mul(Sub(k2, k1), Inv(Sub(x, y)))
  {
    SubCharacterised(x, y, 0);
    AddZero(y);
    forall s: Fr ensures AcceptedWith(b1, b2, x, y, k1, k2, c, s) <==> s == Add(k1, Mul(c, x)) && s == Add(k2, Mul(c, y)) {
      AcceptedWithMeans(b1, b2, x, y, k1, k2, c, s);
    }
    SameResponse(x, y, k1, k2, c);
    DivideBy(c, Sub(x, y), Sub(k2, k1));
    var s := Add(k1, Mul(c, x));
    assert AcceptedWith(b1, b2, x, y, k1, k2, c, s) <==> s == Add(k2, Mul(c, y));
  }

  lemma DivideBy(c: Fr, d: Fr, e: Fr)
    requires d != 0
    ensures Mul(c, d) == e <==> c == Mul(e, Inv(d))
  {
    MulAssoc(c, d, Inv(d));
    MulOne(c);
    MulAssoc(e, Inv(d), d);
    MulComm(Inv(d), d);
    MulOne(e);
  }

  /** Some scalar takes both deltas from their old to their new value. */
  ghost predicate Explainable(b1: Fr, a1: Fr, b2: Fr, a2: Fr) {
    exists d: Fr :: Explains(d, b1, a1, b2, a2)
  }

  /** The exponent of `a` with respect to `b`. */
  function Ratio(a: Fr, b: Fr): Fr
    requires b != 0
  {
    Mul(a, Inv(b))
  }

  lemma RatioScales(a: Fr, b: Fr)
    requires b != 0
    ensures Mul(b, Ratio(a, b)) == a
  {
    DivideBy(Ratio(a, b), b, a);
    MulComm(b, Ratio(a, b));
  }

  /** The one challenge under which a step that no scalar explains can be answered after these commitments. */
  function BadChallenge(b1: Fr, a1: Fr, b2: Fr, a2: Fr, rG1: Fr, rG2: Fr): Fr
    requires a1 != 0 && a2 != 0
  {
    if b1 == 0 then Ratio(Sub(0, rG1), a1)
    else if b2 == 0 then Ratio(Sub(0, rG2), a2)
    else
      var x, y := Ratio(a1, b1), Ratio(a2, b2);
      if x == y then 0 else Ratio(Sub(Ratio(rG2, b2), Ratio(rG1, b1)), Sub(x, y))
  }

  /** From a zero delta the equation can hold for one challenge only. */
  lemma ZeroBeforeFitsOneChallenge(a: Fr, r: Fr, c: Fr, s: Fr)
    requires a != 0 && Mul(0, s) == Add(r, Mul(a, c))
    ensures c == Ratio(Sub(0, r), a)
  {
    SubCharacterised(0, r, Mul(a, c));
    MulComm(a, c);
    DivideBy(c, a, Sub(0, r));
  }

  lemma MismatchFitsOneChallenge(ch: ChallengeFn, b1: Fr, a1: Fr, b2: Fr, a2: Fr, proof: DleqProof)
    requires b1 != 0 && b2 != 0 && VerifyContributionDeltas(ch, b1, a1, b2, a2, proof).Ok?
    ensures var x, y := Ratio(a1, b1), Ratio(a2, b2);
            x == y || (Sub(x, y) != 0 &&
                       ch(b1, a1, b2, a2, proof.rG1, proof.rG2) == Ratio(Sub(Ratio(proof.rG2, b2), Ratio(proof.rG1, b1)), Sub(x, y)))
  {
    var x, y, k1, k2 := Ratio(a1, b1), Ratio(a2, b2), Ratio(proof.rG1, b1), Ratio(proof.rG2, b2);
    var c := ch(b1, a1, b2, a2, proof.rG1, proof.rG2);
    RatioScales(a1, b1);
    RatioScales(a2, b2);
    RatioScales(proof.rG1, b1);
    RatioScales(proof.rG2, b2);
    MulZero(b1);
    MulZero(b2);
    hide Ratio;
    assert AcceptedWith(b1, b2, x, y, k1, k2, c, proof.s);
    if x != y {
      MismatchedStepFitsOneChallenge(b1, b2, x, y, k1, k2, c);
    }
  }

  /**
   Every accepted step, honest or not: one scalar explains it in both groups, or its challenge is
   the single bad value of its commitments.
   */
  lemma AcceptedStepExplained(ch: ChallengeFn, b1: Fr, a1: Fr, b2: Fr, a2: Fr, proof: DleqProof)
    requires VerifyContributionDeltas(ch, b1, a1, b2, a2, proof).Ok?
    ensures a1 != 0 && a2 != 0
    ensures (b1 != 0 && b2 != 0 && Explains(Ratio(a1, b1), b1, a1, b2, a2))
         || (!Explainable(b1, a1, b2, a2) && ch(b1, a1, b2, a2, proof.rG1, proof.rG2) == BadChallenge(b1, a1, b2, a2, proof.rG1, proof.rG2))
  {
    var c := ch(b1, a1, b2, a2, proof.rG1, proof.rG2);
    if b1 == 0 {
      ZeroBeforeFitsOneChallenge(a1, proof.rG1, c, proof.s);
    } else if b2 == 0 {
      ZeroBeforeFitsOneChallenge(a2, proof.rG2, c, proof.s);
    } else {
      MismatchFitsOneChallenge(ch, b1, a1, b2, a2, proof);
      RatioScales(a1, b1);
      RatioScales(a2, b2);
      if Ratio(a1, b1) != Ratio(a2, b2) {
        UnequalRatios(b1, a1, b2, a2);
      }
    }
  }

  lemma UnequalRatios(b1: Fr, a1: Fr, b2: Fr, a2: Fr)
    requires b1 != 0 && b2 != 0 && Ratio(a1, b1) != Ratio(a2, b2)
    ensures !Explainable(b1, a1, b2, a2)
  {
    forall d: Fr ensures !Explains(d, b1, a1, b2, a2) {
      if Explains(d, b1, a1, b2, a2) {
        MulComm(b1, d);
        MulComm(b2, d);
        DivideBy(d, b1, a1);
        DivideBy(d, b2, a2);
      }
    }
  }
}
