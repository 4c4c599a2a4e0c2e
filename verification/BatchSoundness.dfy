/** What the random linear combination of the query check guarantees. */
module BatchSoundness {
  import opened ScalarField
  import opened Polynomial
  import opened CeremonyVerifier

  /** Element `j` of the final vector is divided by exactly what its delta was multiplied by. */
  predicate ElementExact(initial: seq<Fr>, final: seq<Fr>, deltaI: Fr, deltaF: Fr, j: nat)
    requires |initial| == |final| && j < |initial|
  {
    Mul(final[j], deltaF) == Mul(initial[j], deltaI)
  }

  ghost predicate AllExact(initial: seq<Fr>, final: seq<Fr>, deltaI: Fr, deltaF: Fr)
    requires |initial| == |final|
  {
    forall j :: 0 <= j < |initial| ==> ElementExact(initial, final, deltaI, deltaF, j)
  }

  ghost function AcceptingRhos(initial: seq<Fr>, final: seq<Fr>, deltaI: Fr, deltaF: Fr): set<Fr>
    requires |initial| == |final|
  {
    set rho | 0 <= rho < P && BatchAccepts(initial, final, deltaI, deltaF, rho)
  }

  lemma {:induction false} MsmIsEval(v: seq<Fr>, x: Fr, acc: Fr)
    ensures Msm(v, Powers(x, acc, |v|)) == Mul(acc, Eval(v, x))
  {
    if v == [] {
      MulZero(acc);
    } else {
      var rest := v[1..];
      assert Powers(x, acc, |v|)[1..] == Powers(x, Mul(acc, x), |rest|);
      MsmIsEval(rest, x, Mul(acc, x));
      MulComm(v[0], acc);
      MulAssoc(acc, x, Eval(rest, x));
      Distrib(acc, v[0], Mul(x, Eval(rest, x)));
    }
  }

  /** The coefficients of the difference of the two sides, as a polynomial in rho. */
  ghost function Difference(initial: seq<Fr>, final: seq<Fr>, deltaI: Fr, deltaF: Fr): seq<Fr>
    requires |initial| == |final|
  {
    seq(|initial|, j requires 0 <= j < |initial| => Sub(Mul(final[j], deltaF), Mul(initial[j], deltaI)))
  }

  lemma {:induction false} EvalDifference(initial: seq<Fr>, final: seq<Fr>, deltaI: Fr, deltaF: Fr, x: Fr)
    requires |initial| == |final|
    ensures Eval(Difference(initial, final, deltaI, deltaF), x)
         == Sub(Mul(Eval(final, x), deltaF), Mul(Eval(initial, x), deltaI))
  {
    var d := Difference(initial, final, deltaI, deltaF);
    if initial == [] {
      MulZero(deltaI);
      MulZero(deltaF);
    } else {
      assert d[1..] == Difference(initial[1..], final[1..], deltaI, deltaF);
      EvalDifference(initial[1..], final[1..], deltaI, deltaF, x);
      EvalScaled(final, deltaF, x);
      EvalScaled(initial, deltaI, x);
      DistribSub(x, Mul(Eval(final[1..], x), deltaF), Mul(Eval(initial[1..], x), deltaI));
      SubOfSums(Mul(final[0], deltaF), Mul(initial[0], deltaI),
                Mul(x, Mul(Eval(final[1..], x), deltaF)), Mul(x, Mul(Eval(initial[1..], x), deltaI)));
    }
  }

  lemma EvalScaled(v: seq<Fr>, delta: Fr, x: Fr)
    requires v != []
    ensures Mul(Eval(v, x), delta) == Add(Mul(v[0], delta), Mul(x, Mul(Eval(v[1..], x), delta)))
  {
    DistribRight(v[0], Mul(x, Eval(v[1..], x)), delta);
    MulAssoc(x, Eval(v[1..], x), delta);
  }

  lemma SubOfSums(a: Fr, b: Fr, c: Fr, d: Fr)
    ensures Add(Sub(a, b), Sub(c, d)) == Sub(Add(a, c), Add(b, d))
  {}

  /** The check accepts for exactly those rho that are roots of the difference polynomial. */
  lemma AcceptsIffRoot(initial: seq<Fr>, final: seq<Fr>, deltaI: Fr, deltaF: Fr, rho: Fr)
    requires |initial| == |final|
    ensures BatchAccepts(initial, final, deltaI, deltaF, rho)
            <==> Eval(Difference(initial, final, deltaI, deltaF), rho) == 0
  {
    MsmIsEval(initial, rho, 1);
    MsmIsEval(final, rho, 1);
    MulOne(Eval(initial, rho));
    MulOne(Eval(final, rho));
    EvalDifference(initial, final, deltaI, deltaF, rho);
  }

  lemma {:induction false} ZeroPolynomial(c: seq<Fr>, x: Fr)
    requires !NonZero(c)
    ensures Eval(c, x) == 0
  {
    if c != [] {
      assert forall i :: 0 <= i < |c[1..]| ==> c[1..][i] == c[i + 1];
      ZeroPolynomial(c[1..], x);
      MulZero(x);
    }
  }

  /**
   If every element is an exact scaling then every rho accepts; if any one is not, then at most
   `n - 1` of the field's elements do.
   */
  lemma BatchedCheckSound(initial: seq<Fr>, final: seq<Fr>, deltaI: Fr, deltaF: Fr)
    requires |initial| == |final|
    ensures AllExact(initial, final, deltaI, deltaF) ==> forall rho: Fr :: BatchAccepts(initial, final, deltaI, deltaF, rho)
    ensures !AllExact(initial, final, deltaI, deltaF) ==> |AcceptingRhos(initial, final, deltaI, deltaF)| <= |initial| - 1
  {
    var d := Difference(initial, final, deltaI, deltaF);
    forall rho: Fr ensures BatchAccepts(initial, final, deltaI, deltaF, rho) <==> Eval(d, rho) == 0 {
      AcceptsIffRoot(initial, final, deltaI, deltaF, rho);
    }
    forall j | 0 <= j < |initial| ensures d[j] == 0 <==> ElementExact(initial, final, deltaI, deltaF, j) {
      SubCharacterised(Mul(final[j], deltaF), Mul(initial[j], deltaI), 0);
      AddZero(Mul(initial[j], deltaI));
    }
    if AllExact(initial, final, deltaI, deltaF) {
      forall rho: Fr ensures BatchAccepts(initial, final, deltaI, deltaF, rho) {
        ZeroPolynomial(d, rho);
      }
    } else {
      assert NonZero(d);
      assert AcceptingRhos(initial, final, deltaI, deltaF) == Roots(d);
      RootBound(d);
    }
  }
}
