/** Stake-weighted leader selection. */
module Leader {
  import opened Common
  import opened Encoding
  import opened Tally
  import opened Quorum

  const U128: nat := 0x1_0000_0000_0000_0000_0000_0000_0000_0000

  datatype ValidatorInfo = ValidatorInfo(
    nodeId: NodeId,
    stakeAmount: u64,
    reputation: u64,
    isActive: bool,
    wallet: Option<Wallet>)
  {
    /** `stake * reputation / 1000`, and nothing for an inactive validator */
    function SelectionWeight(): nat {
      if !isActive then 0 else stakeAmount * reputation / 1000
    }
  }

  type Entries = map<NodeId, ValidatorInfo>

  /** `Overflow` is no error value of the program: the checked 128-bit sum aborts it. */
  datatype LeaderError = NoActiveValidators | AllZeroWeight | Overflow

  function Activate(m: Entries, n: NodeId, active: bool): Entries {
    if n in m then m[n := m[n].(isActive := active)] else m
  }

  function OnchainStake(v: ValidatorInfo, stakes: Stakes): u64 {
    if v.wallet.Some? then Weight(stakes, v.wallet.value) else 0
  }

  function WithStakes(m: Entries, stakes: Stakes): Entries {
    map n | n in m :: m[n].(stakeAmount := OnchainStake(m[n], stakes))
  }

  // ---- the weighted choice ----

  function Sum(ws: seq<nat>): nat {
    if ws == [] then 0 else Sum(ws[..|ws| - 1]) + ws[|ws| - 1]
  }

  lemma {:induction false} SumMonotone(ws: seq<nat>, i: nat, j: nat)
    requires i <= j <= |ws|
    ensures Sum(ws[..i]) <= Sum(ws[..j])
  {
    if i < j {
      SumMonotone(ws, i, j - 1);
      assert ws[..j][..j - 1] == ws[..j - 1];
    }
  }

  lemma SumStep(ws: seq<nat>, i: nat)
    requires i < |ws|
    ensures Sum(ws[..i + 1]) == Sum(ws[..i]) + ws[i]
  {
    assert ws[..i + 1][..i] == ws[..i];
  }

  /** Index `i` is the one the loop stops at for the random value `r`. */
  predicate Selects(ws: seq<nat>, r: nat, i: nat) {
    i < |ws| && Sum(ws[..i]) <= r < Sum(ws[..i + 1])
  }

  ghost predicate SelectsSome(ws: seq<nat>, r: nat) {
    exists i: nat :: Selects(ws, r, i)
  }

  lemma {:induction false} SelectionExists(ws: seq<nat>, r: nat) returns (i: nat)
    requires r < Sum(ws)
    ensures Selects(ws, r, i)
  {
    var n := |ws| - 1;
    assert ws[..n + 1] == ws;
    if Sum(ws[..n]) <= r {
      i := n;
    } else {
      i := SelectionExists(ws[..n], r);
      assert ws[..n][..i] == ws[..i] && ws[..n][..i + 1] == ws[..i + 1];
    }
  }

  ghost function ValuesSelecting(ws: seq<nat>, i: nat): set<nat> {
    set r | 0 <= r < Sum(ws) && Selects(ws, r, i)
  }

  predicate InRange(lo: nat, hi: nat, r: nat) { lo <= r < hi }

  ghost function Interval(lo: nat, hi: nat): set<nat> {
    set r: nat | r < hi && InRange(lo, hi, r)
  }

  lemma {:induction false} IntervalSize(lo: nat, hi: nat)
    requires lo <= hi
    ensures |Interval(lo, hi)| == hi - lo
  {
    if lo < hi {
      IntervalSize(lo, hi - 1);
      assert Interval(lo, hi) == Interval(lo, hi - 1) + {hi - 1};
    }
  }

  /**
   The choice is exactly weighted: each random value below the total selects one index, and the
   values that select an index number exactly its weight; so a zero weight is never selected.
   */
  lemma ExactlyWeighted(ws: seq<nat>)
    ensures forall r: nat :: r < Sum(ws) <==> SelectsSome(ws, r)
    ensures forall r: nat, i: nat, j: nat :: Selects(ws, r, i) && Selects(ws, r, j) ==> i == j
    ensures forall i :: 0 <= i < |ws| ==> |ValuesSelecting(ws, i)| == ws[i]
  {
    assert ws[..|ws|] == ws;
    forall r: nat ensures r < Sum(ws) <==> SelectsSome(ws, r) {
      if r < Sum(ws) {
        var i := SelectionExists(ws, r);
      } else if SelectsSome(ws, r) {
        var i: nat :| Selects(ws, r, i);
        SumMonotone(ws, i + 1, |ws|);
      }
    }
    forall r: nat, i: nat, j: nat | Selects(ws, r, i) && Selects(ws, r, j) ensures i == j {
      if i < j {
        SumMonotone(ws, i + 1, j);
      } else if j < i {
        SumMonotone(ws, j + 1, i);
      }
    }
    forall i | 0 <= i < |ws| ensures |ValuesSelecting(ws, i)| == ws[i] {
      var lo, hi := Sum(ws[..i]), Sum(ws[..i + 1]);
      SumStep(ws, i);
      SumMonotone(ws, i + 1, |ws|);
      assert ValuesSelecting(ws, i) == Interval(lo, hi);
      IntervalSize(lo, hi);
    }
  }

  /** The weight is the stake in thousandths of the reputation, rounded down, and nothing for an inactive validator. */
  lemma WeightExactly(v: ValidatorInfo)
    ensures v.isActive ==> 1000 * v.SelectionWeight() <= v.stakeAmount * v.reputation < 1000 * (v.SelectionWeight() + 1)
    ensures !v.isActive ==> v.SelectionWeight() == 0
    ensures v.isActive && v.reputation == 1000 ==> v.SelectionWeight() == v.stakeAmount
  {}

  lemma WeightBound(v: ValidatorInfo)
    ensures v.SelectionWeight() <= U64_MAX * U64_MAX / 1000
  {
    assert v.stakeAmount * v.reputation <= U64_MAX * U64_MAX by {
      assert v.stakeAmount * v.reputation <= v.stakeAmount * U64_MAX;
    }
  }

  function Weights(vs: seq<ValidatorInfo>): (ws: seq<nat>)
    ensures |ws| == |vs|
    ensures forall i :: 0 <= i < |vs| ==> ws[i] == vs[i].SelectionWeight()
  {
    seq(|vs|, i requires 0 <= i < |vs| => vs[i].SelectionWeight())
  }

  lemma {:induction false} SumBound(ws: seq<nat>, bound: nat)
    requires forall i :: 0 <= i < |ws| ==> ws[i] <= bound
    ensures Sum(ws) <= |ws| * bound
  {
    if ws != [] {
      SumBound(ws[..|ws| - 1], bound);
      assert |ws| * bound == (|ws| - 1) * bound + bound;
    }
  }

  /** Up to a thousand validators, whatever their stakes and reputations, the u128 sum cannot overflow. */
  lemma TotalFitsU128(vs: seq<ValidatorInfo>)
    requires |vs| <= 1000
    ensures Sum(Weights(vs)) < U128
  {
    var bound := U64_MAX * U64_MAX / 1000;
    forall i | 0 <= i < |vs| ensures Weights(vs)[i] <= bound { WeightBound(vs[i]); }
    SumBound(Weights(vs), bound);
    assert |vs| * bound <= 1000 * bound;
  }

  // ---- the selector ----

  function ActiveIn(m: Entries, order: seq<NodeId>): seq<ValidatorInfo>
    requires forall n :: n in order ==> n in m
  {
    if order == [] then []
    else
      var rest := ActiveIn(m, order[..|order| - 1]);
      var v := m[order[|order| - 1]];
      if v.isActive then rest + [v] else rest
  }

  /** A visit of every entry, once; the map does not fix which. */
  ghost predicate IterationOrder(m: Entries, order: seq<NodeId>) {
    && (forall n :: n in order <==> n in m)
    && (forall i, j :: 0 <= i < j < |order| ==> order[i] != order[j])
  }

  /** The first sixteen bytes of the seed's digest, as a number, reduced below `max`. */
  function DeterministicRandom(sha: Sha, seed: Bytes, max: nat): nat
    requires max > 0
  {
    FromLe(sha(seed)[..16]) % max
  }

  /** A digest that starts with the number `n` in sixteen bytes draws the remainder of `n`. */
  lemma DrawIsDigest(sha: Sha, seed: Bytes, n: nat, max: nat)
    requires max > 0 && n < Pow256(16) && sha(seed)[..16] == Le(n, 16)
    ensures DeterministicRandom(sha, seed, max) == n % max
  {
    LeRoundTrip(n, 16);
  }

  class LeaderSelector {
    var validators: Entries

    constructor ()
      ensures validators == map[]
    {
      validators := map[];
    }

    method RegisterValidator(v: ValidatorInfo)
      modifies this
      ensures validators == old(validators)[v.nodeId := v]
    {
      validators := validators[v.nodeId := v];
    }

    method SetActive(n: NodeId, active: bool)
      modifies this
      ensures validators == Activate(old(validators), n, active)
    {
      if n in validators {
        validators := validators[n := validators[n].(isActive := active)];
      }
    }

    /** Rewrites every entry's stake from the snapshot, one entry at a time. */
    method ApplyOnchainStakes(stakes: Stakes)
      modifies this
      ensures validators == WithStakes(old(validators), stakes)
    {
      ghost var before := validators;
      var todo := validators.Keys;
      while todo != {}
        invariant todo <= validators.Keys == before.Keys
        invariant forall n :: n in todo ==> validators[n] == before[n]
        invariant forall n :: n in before && n !in todo ==>
                    validators[n] == before[n].(stakeAmount := OnchainStake(before[n], stakes))
        decreases |todo|
      {
        var n :| n in todo;
        var v := validators[n];
        validators := validators[n := v.(stakeAmount := OnchainStake(v, stakes))];
        todo := todo - {n};
      }
    }

    method ActiveValidators(order: seq<NodeId>) returns (active: seq<ValidatorInfo>)
      requires IterationOrder(validators, order)
      ensures active == ActiveIn(validators, order)
    {
      active := [];
      for i := 0 to |order|
        invariant active == ActiveIn(validators, order[..i])
      {
        assert order[..i + 1][..i] == order[..i];
        assert order[..i + 1][i] == order[i];
        var v := validators[order[i]];
        if v.isActive {
          active := active + [v];
        }
      }
      assert order[..|order|] == order;
    }

    /**
     Selects among the active validators in the iteration order of the map.  The sum of the weights
     is checked: it aborts exactly when the total does not fit 128 bits.
     */
    method SelectLeader(sha: Sha, seed: Bytes, order: seq<NodeId>) returns (r: Result<NodeId, LeaderError>)
      requires IterationOrder(validators, order)
      ensures ActiveIn(validators, order) == [] <==> r == Err(NoActiveValidators)
      ensures Sum(Weights(ActiveIn(validators, order))) >= U128 <==> r == Err(Overflow)
      ensures ActiveIn(validators, order) != [] && Sum(Weights(ActiveIn(validators, order))) == 0 <==> r == Err(AllZeroWeight)
      ensures r.Ok? ==> exists i: nat :: Chosen(ActiveIn(validators, order), sha, seed, i) && r.value == ActiveIn(validators, order)[i].nodeId
    {
      SumOfNone();
      hide Sum, FromLe;
      var active := ActiveValidators(order);
      if active == [] {
        assert Weights(active) == [];
        return Err(NoActiveValidators);
      }
      var total := TotalWeight(active);
      if total.None? {
        return Err(Overflow);
      }
      if total.value == 0 {
        return Err(AllZeroWeight);
      }
      var random := DeterministicRandom(sha, seed, total.value);
      var i := Pick(active, total.value, random);
      assert Chosen(active, sha, seed, i);
      return Ok(active[i].nodeId);
    }
  }

  /** Index `i` is the weighted choice for the seed. */
  ghost predicate Chosen(active: seq<ValidatorInfo>, sha: Sha, seed: Bytes, i: nat) {
    && i < |active| && Sum(Weights(active)) > 0
    && Selects(Weights(active), DeterministicRandom(sha, seed, Sum(Weights(active))), i)
  }

  lemma SumOfNone()
    ensures Sum([]) == 0 && U128 > 0
  {}

  /** The checked sum of the weights: none exactly when the true sum needs more than 128 bits. */
  method TotalWeight(active: seq<ValidatorInfo>) returns (total: Option<nat>)
    ensures total.None? <==> Sum(Weights(active)) >= U128
    ensures total.Some? ==> total.value == Sum(Weights(active))
  {
    hide ValidatorInfo.SelectionWeight, Sum;
    ghost var ws := Weights(active);
    SumOfNone();
    var sum := 0;
    for i := 0 to |active|
      invariant sum == Sum(ws[..i]) < U128
    {
      SumStep(ws, i);
      SumMonotone(ws, i + 1, |ws|);
      assert ws[..|ws|] == ws;
      sum := sum + active[i].SelectionWeight();
      if sum >= U128 {
        return None;
      }
    }
    assert ws[..|active|] == ws;
    return Some(sum);
  }

  /**
   The selection loop.  It always stops inside, at the weighted choice, so the fallback behind it is
   never reached; and its running sum stays within the total, so it cannot overflow.
   */
  method Pick(active: seq<ValidatorInfo>, total: nat, random: nat) returns (index: nat)
    requires total == Sum(Weights(active)) < U128 && random < total
    ensures index < |active| && Selects(Weights(active), random, index)
  {
    hide ValidatorInfo.SelectionWeight, Sum;
    ghost var ws := Weights(active);
    SumOfNone();
    var cumulative := 0;
    assert ws[..|active|] == ws;
    for i := 0 to |active|
      invariant cumulative == Sum(ws[..i]) <= random
    {
      SumStep(ws, i);
      SumMonotone(ws, i + 1, |ws|);
      cumulative := cumulative + active[i].SelectionWeight();
      assert cumulative <= total;
      if random < cumulative {
        return i;
      }
    }
    assert false;
  }

  /** Only entries of the map, and only active ones, can be selected. */
  lemma {:induction false} ActiveAreActive(m: Entries, order: seq<NodeId>, i: nat)
    requires forall n :: n in order ==> n in m
    requires i < |ActiveIn(m, order)|
    ensures ActiveIn(m, order)[i].isActive && exists n :: n in order && m[n] == ActiveIn(m, order)[i]
  {
    var k := |order| - 1;
    if i < |ActiveIn(m, order[..k])| {
      ActiveAreActive(m, order[..k], i);
      assert ActiveIn(m, order)[i] == ActiveIn(m, order[..k])[i];
      assert forall n :: n in order[..k] ==> n in order;
    } else {
      assert order[k] in order;
    }
  }
}
