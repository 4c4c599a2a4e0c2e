/**
 The scalar field of the pairing-friendly curve, as residues modulo an arbitrary prime.

 Every group element of the ceremony is represented by its exponent with respect to a fixed
 generator, so a G1 point, a G2 point and a scalar are all values of type `Fr`, scalar
 multiplication is `Mul`, point addition is `Add`, and the pairing is `Mul` again.
 */
module ScalarField {

  function Rem(n: nat, d: nat): nat
    requires d > 0
  {
    n % d
  }

  predicate IsPrime(n: nat) {
    n >= 2 && forall d | 2 <= d < n :: Rem(n, d) != 0
  }

  type Prime = n: nat | IsPrime(n) witness 2

  /** The group order: some prime, never looked into. */
  const P: Prime

  type Fr = x: nat | x < P

  function Add(a: Fr, b: Fr): Fr { if a + b < P then a + b else a + b - P }

  function Sub(a: Fr, b: Fr): Fr { if a >= b then a - b else a + P - b }

  /** Multiplication is repeated addition; `MulIsProduct` says that it is the product modulo P. */
  function Mul(a: Fr, b: Fr): Fr {
    if a == 0 then 0 else Add(Mul(a - 1, b), b)
  }

  // ---- field laws ----

  lemma AddAssoc(a: Fr, b: Fr, c: Fr)
    ensures Add(Add(a, b), c) == Add(a, Add(b, c))
  {}

  lemma AddZero(a: Fr)
    ensures Add(a, 0) == a && Add(0, a) == a
  {}

  lemma AddPairs(a: Fr, b: Fr, c: Fr, d: Fr)
    ensures Add(Add(a, b), Add(c, d)) == Add(Add(a, c), Add(b, d))
  {}

  lemma SubCharacterised(a: Fr, b: Fr, c: Fr)
    ensures Sub(a, b) == c <==> a == Add(b, c)
  {}

  lemma {:induction false} MulZero(a: Fr)
    ensures Mul(a, 0) == 0 && Mul(0, a) == 0
  {
    if a > 0 { MulZero(a - 1); }
  }

  lemma {:induction false} MulOne(a: Fr)
    ensures Mul(a, 1) == a && Mul(1, a) == a
  {
    if a > 0 { MulOne(a - 1); }
  }

  lemma {:induction false} Distrib(a: Fr, b: Fr, c: Fr)
    ensures Mul(a, Add(b, c)) == Add(Mul(a, b), Mul(a, c))
  {
    if a > 0 {
      Distrib(a - 1, b, c);
      AddPairs(Mul(a - 1, b), Mul(a - 1, c), b, c);
    }
  }

  lemma {:induction false} MulComm(a: Fr, b: Fr)
    ensures Mul(a, b) == Mul(b, a)
  {
    MulZero(b);
    if a > 0 {
      MulComm(a - 1, b);
      Distrib(b, a - 1, 1);
      MulOne(b);
    }
  }

  lemma DistribRight(a: Fr, b: Fr, c: Fr)
    ensures Mul(Add(a, b), c) == Add(Mul(a, c), Mul(b, c))
  {
    MulComm(Add(a, b), c);
    Distrib(c, a, b);
    MulComm(a, c);
    MulComm(b, c);
  }

  lemma {:induction false} MulAssoc(a: Fr, b: Fr, c: Fr)
    ensures Mul(Mul(a, b), c) == Mul(a, Mul(b, c))
  {
    if a > 0 {
      MulAssoc(a - 1, b, c);
      DistribRight(Mul(a - 1, b), b, c);
    }
  }

  lemma DistribSub(a: Fr, b: Fr, c: Fr)
    ensures Mul(a, Sub(b, c)) == Sub(Mul(a, b), Mul(a, c))
  {
    SubCharacterised(b, c, Sub(b, c));
    Distrib(a, c, Sub(b, c));
    SubCharacterised(Mul(a, b), Mul(a, c), Mul(a, Sub(b, c)));
  }

  // ---- the inverse ----

  /** What `Mul` computes: a multiple of P less than the integer product. */
  lemma {:induction false} MulIsProduct(a: Fr, b: Fr) returns (k: nat)
    ensures a * b == Mul(a, b) + P * k
  {
    if a == 0 {
      k := 0;
    } else {
      k := MulIsProduct(a - 1, b);
      assert a * b == (a - 1) * b + b;
      if Mul(a - 1, b) + b >= P {
        assert P * (k + 1) == P * k + P;
        k := k + 1;
      }
    }
  }

  lemma MulSmall(a: Fr, b: Fr)
    requires a * b < P
    ensures Mul(a, b) == a * b
  {
    var k := MulIsProduct(a, b);
    assert k >= 1 ==> P * k >= P;
  }

  /** The multiplicative inverse. */
  function Inv(a: Fr): (b: Fr)
    requires a != 0
    ensures Mul(a, b) == 1
  {
    OneInverse(a);
    var b: Fr :| 0 <= b < P && Mul(a, b) == 1;
    b
  }

  /** Found by descending through the remainders of P. */
  lemma {:induction false} InverseExists(a: Fr) returns (b: Fr)
    requires a != 0
    ensures Mul(a, b) == 1
    decreases a
  {
    if a == 1 {
      MulOne(1);
      b := 1;
    } else {
      Descends(a);
      var s := InverseExists(Rem(P, a));
      InvStep(a, P / a, Rem(P, a), s);
      b := Mul(Sub(0, P / a), s);
    }
  }

  lemma OneInverse(a: Fr)
    requires a != 0
    ensures exists b: Fr :: Mul(a, b) == 1
    ensures forall x: Fr, y: Fr :: Mul(a, x) == 1 && Mul(a, y) == 1 ==> x == y
  {
    var b := InverseExists(a);
    forall x: Fr, y: Fr | Mul(a, x) == 1 && Mul(a, y) == 1 ensures x == y {
      MulAssoc(x, a, y);
      MulComm(x, a);
      MulOne(x);
      MulOne(y);
    }
  }

  lemma Descends(a: Fr)
    requires a > 1
    ensures 0 < Rem(P, a) < a && P / a < P && P == a * (P / a) + Rem(P, a)
  {
    DivisionFacts(P, a);
    assert IsPrime(P);
    hide Rem;
  }

  lemma DivisionFacts(p: nat, a: nat)
    requires 1 < a < p
    ensures Rem(p, a) < a && p / a < p && p == a * (p / a) + Rem(p, a)
  {
    var q := p / a;
    assert a * q >= 2 * q;
  }

  lemma InvStep(a: Fr, q: Fr, r: Fr, s: Fr)
    requires r > 0 && P == a * q + r && Mul(r, s) == 1
    ensures Mul(a, Mul(Sub(0, q), s)) == 1
  {
    MulSmall(a, q);
    DistribSub(a, 0, q);
    MulZero(a);
    MulAssoc(a, Sub(0, q), s);
  }

  lemma MulSwap(a: Fr, b: Fr, c: Fr)
    ensures Mul(a, Mul(b, c)) == Mul(b, Mul(a, c))
  {
    MulAssoc(a, b, c);
    MulComm(a, b);
    MulAssoc(b, a, c);
  }

  /** Multiplying by a non-zero scalar is injective; in particular there are no zero divisors. */
  lemma Cancel(a: Fr, x: Fr, y: Fr)
    requires a != 0 && Mul(a, x) == Mul(a, y)
    ensures x == y
  {
    UndoMul(a, x);
    UndoMul(a, y);
  }

  lemma UndoMul(a: Fr, x: Fr)
    requires a != 0
    ensures Mul(Inv(a), Mul(a, x)) == x
  {
    MulAssoc(Inv(a), a, x);
    MulComm(Inv(a), a);
    MulOne(x);
  }

  lemma ProductNonZero(a: Fr, b: Fr)
    ensures Mul(a, b) == 0 <==> a == 0 || b == 0
  {
    MulZero(a);
    MulZero(b);
    if a != 0 && Mul(a, b) == 0 {
      Cancel(a, b, 0);
    }
  }

  lemma InvNonZero(a: Fr)
    requires a != 0
    ensures Inv(a) != 0
  {
    MulZero(a);
  }

  lemma InvProduct(a: Fr, b: Fr)
    requires a != 0 && b != 0
    ensures Mul(a, b) != 0 && Inv(Mul(a, b)) == Mul(Inv(a), Inv(b))
  {
    ProductNonZero(a, b);
    var m := Mul(a, b);
    calc {
      Mul(m, Mul(Inv(a), Inv(b)));
      { MulAssoc(a, b, Mul(Inv(a), Inv(b))); }
      Mul(a, Mul(b, Mul(Inv(a), Inv(b))));
      { MulSwap(b, Inv(a), Inv(b)); MulOne(Inv(a)); }
      Mul(a, Inv(a));
      1;
    }
    Cancel(m, Inv(m), Mul(Inv(a), Inv(b)));
  }
}
