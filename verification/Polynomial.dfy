/** Polynomials over the scalar field: a non-zero one has fewer roots than coefficients. */
module Polynomial {
  import opened Common
  import opened ScalarField

  /** `c[0] + c[1]*x + c[2]*x^2 + ...` */
  function Eval(c: seq<Fr>, x: Fr): Fr {
    if c == [] then 0 else Add(c[0], Mul(x, Eval(c[1..], x)))
  }

  ghost predicate NonZero(c: seq<Fr>) {
    exists i :: 0 <= i < |c| && c[i] != 0
  }

  ghost function Roots(c: seq<Fr>): set<Fr> {
    set x | 0 <= x < P && Eval(c, x) == 0
  }

  /** The quotient of `c - c(r)` by `x - r`. */
  ghost function Quotient(c: seq<Fr>, r: Fr): seq<Fr> {
    if |c| <= 1 then [] else [Eval(c[1..], r)] + Quotient(c[1..], r)
  }

  lemma DivisionStep(c0: Fr, r: Fr, d: Fr, a: Fr, q: Fr)
    ensures var x := Add(r, d);
            Add(c0, Mul(x, Add(a, Mul(d, q)))) == Add(Add(c0, Mul(r, a)), Mul(d, Add(a, Mul(x, q))))
  {
    var x := Add(r, d);
    calc {
      Mul(x, Add(a, Mul(d, q)));
      { Distrib(x, a, Mul(d, q)); MulSwap(x, d, q); }
      Add(Mul(x, a), Mul(d, Mul(x, q)));
      { DistribRight(r, d, a); AddAssoc(Mul(r, a), Mul(d, a), Mul(d, Mul(x, q))); }
      Add(Mul(r, a), Add(Mul(d, a), Mul(d, Mul(x, q))));
      { Distrib(d, a, Mul(x, q)); }
      Add(Mul(r, a), Mul(d, Add(a, Mul(x, q))));
    }
    AddAssoc(c0, Mul(r, a), Mul(d, Add(a, Mul(x, q))));
  }

  lemma {:induction false} Division(c: seq<Fr>, r: Fr, x: Fr)
    ensures Eval(c, x) == Add(Eval(c, r), Mul(Sub(x, r), Eval(Quotient(c, r), x)))
  {
    var d := Sub(x, r);
    if c == [] {
      MulZero(d);
      AddZero(0);
    } else if |c| == 1 {
      assert c[1..] == [];
      MulZero(x);
      MulZero(r);
      MulZero(d);
      AddZero(Eval(c, r));
    } else {
      Division(c[1..], r, x);
      SubCharacterised(x, r, d);
      var a, q := Eval(c[1..], r), Quotient(c[1..], r);
      assert ([a] + q)[1..] == q;
      DivisionStep(c[0], r, d, a, Eval(q, x));
    }
  }

  lemma {:induction false} QuotientNonZero(c: seq<Fr>, r: Fr)
    requires NonZero(c) && Eval(c, r) == 0
    ensures |Quotient(c, r)| == |c| - 1 && NonZero(Quotient(c, r))
  {
    var i :| 0 <= i < |c| && c[i] != 0;
    var rest := c[1..];
    MulZero(r);
    AddZero(c[0]);
    assert |c| != 1 by { assert |c| == 1 ==> rest == []; }
    if Eval(rest, r) != 0 {
      QuotientLength(rest, r);
      assert Quotient(c, r)[0] != 0;
    } else {
      assert rest[i - 1] != 0;
      QuotientNonZero(rest, r);
      var j :| 0 <= j < |Quotient(rest, r)| && Quotient(rest, r)[j] != 0;
      assert Quotient(c, r)[j + 1] != 0;
    }
  }

  lemma QuotientLength(c: seq<Fr>, r: Fr)
    ensures |Quotient(c, r)| == if c == [] then 0 else |c| - 1
  {}

  /** A polynomial with `n` coefficients, not all zero, has at most `n - 1` roots. */
  lemma {:induction false} RootBound(c: seq<Fr>)
    requires NonZero(c)
    ensures |Roots(c)| <= |c| - 1
    decreases |c|
  {
    if Roots(c) != {} {
      var r :| r in Roots(c);
      var q := Quotient(c, r);
      QuotientNonZero(c, r);
      forall x | x in Roots(c) ensures x in {r} + Roots(q) {
        Division(c, r, x);
        RootOfFactor(Eval(q, x), x, r);
      }
      assert Roots(c) <= {r} + Roots(q);
      RootBound(q);
      FewerElements(Roots(c), {r} + Roots(q));
    }
  }

  lemma RootOfFactor(v: Fr, x: Fr, r: Fr)
    requires Add(0, Mul(Sub(x, r), v)) == 0
    ensures x == r || v == 0
  {
    AddZero(Mul(Sub(x, r), v));
    ProductNonZero(Sub(x, r), v);
  }

}
