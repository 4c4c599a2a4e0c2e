/** Datatypes and number types shared by the models. */
module Common {

  datatype Option<+T> = None | Some(value: T)

  datatype Result<+T, +E> = Ok(value: T) | Err(error: E)

  newtype byte = x: int | 0 <= x < 256

  type Bytes = seq<byte>

  const U64_MAX: nat := 0xFFFF_FFFF_FFFF_FFFF

  type u64 = x: nat | x <= U64_MAX

  /** `u64::saturating_add` */
  function SatAdd(a: u64, b: u64): u64 {
    if a + b <= U64_MAX then a + b else U64_MAX
  }

  /** `u64::saturating_sub` */
  function SatSub(a: u64, b: u64): u64 {
    if a >= b then a - b else 0
  }

  /** `u64::saturating_mul` */
  function SatMul(a: u64, b: u64): u64 {
    if a * b <= U64_MAX then a * b else U64_MAX
  }

  lemma FewerElements<T>(a: set<T>, b: set<T>)
    requires a <= b
    ensures |a| <= |b|
  {
    assert b == a + (b - a);
  }

  /** The sum of `f` over a set. */
  ghost function SumOver<T(!new)>(f: T -> nat, s: set<T>): nat {
    if s == {} then 0
    else
      var x :| x in s;
      f(x) + SumOver(f, s - {x})
  }

  lemma {:induction false} SumTakeOut<T(!new)>(f: T -> nat, s: set<T>, x: T)
    requires x in s
    ensures SumOver(f, s) == f(x) + SumOver(f, s - {x})
    decreases |s|
  {
    var y :| y in s && SumOver(f, s) == f(y) + SumOver(f, s - {y});
    if y != x {
      SumTakeOut(f, s - {y}, x);
      assert s - {y} - {x} == s - {x} - {y};
      SumTakeOut(f, s - {x}, y);
    }
  }
}
