/**
 Do all nodes select the same leader from the same seed?  They draw the same random value, since
 the total weight does not depend on the order in which a node's map is visited; but the choice
 does, unless one validator outweighs the value drawn from either end of the range.
 */
module LeaderAgreement {
  import opened Common
  import opened Encoding
  import opened Tally
  import opened Leader
  import opened TransactModel

  ghost predicate WellKeyed(m: Entries) {
    forall n :: n in m ==> m[n].nodeId == n
  }

  /** Visiting the map in this order, the random value `r` selects `v`. */
  ghost predicate Chooses(m: Entries, order: seq<NodeId>, r: nat, v: ValidatorInfo) {
    IterationOrder(m, order) && exists i: nat :: ChoosesAt(m, order, r, v, i)
  }

  ghost predicate ChoosesAt(m: Entries, order: seq<NodeId>, r: nat, v: ValidatorInfo, i: nat)
    requires IterationOrder(m, order)
  {
    Selects(Weights(ActiveIn(m, order)), r, i) && ActiveIn(m, order)[i] == v
  }

  /** Every visiting order selects the same validator for the random value `r`. */
  ghost predicate SameLeaderFor(m: Entries, r: nat) {
    forall a, b, u, v :: Chooses(m, a, r, u) && Chooses(m, b, r, v) ==> u == v
  }

  /** Whatever the random value, every visiting order selects the same validator. */
  ghost predicate SameLeaderForAll(m: Entries) {
    forall a, b, r, u, v :: Chooses(m, a, r, u) && Chooses(m, b, r, v) ==> u == v
  }

  ghost predicate AtMostOneWeighted(m: Entries) {
    forall u, v :: u in m && v in m && m[u].SelectionWeight() > 0 && m[v].SelectionWeight() > 0 ==> u == v
  }

  // ---- the total does not depend on the order ----

  ghost function WeightOf(m: Entries, ns: set<NodeId>): nat { SumOver(EntryWeigher(m), ns) }

  function EntryWeigher(m: Entries): NodeId -> nat {
    (n: NodeId) => if n in m then m[n].SelectionWeight() else 0
  }

  function Visited(order: seq<NodeId>): set<NodeId> {
    set n | n in order
  }

  lemma SumSnoc(vs: seq<ValidatorInfo>, v: ValidatorInfo)
    ensures Sum(Weights(vs + [v])) == Sum(Weights(vs)) + v.SelectionWeight()
  {
    assert Weights(vs + [v])[..|vs|] == Weights(vs);
  }

  lemma {:induction false} TotalIsWeightOf(m: Entries, order: seq<NodeId>)
    requires forall n :: n in order ==> n in m
    requires forall i, j :: 0 <= i < j < |order| ==> order[i] != order[j]
    ensures Sum(Weights(ActiveIn(m, order))) == WeightOf(m, Visited(order))
  {
    if order == [] {
      assert Visited(order) == {};
    } else {
      var k := |order| - 1;
      var before, last := order[..k], order[k];
      TotalIsWeightOf(m, before);
      assert order == before + [last];
      assert Visited(order) - {last} == Visited(before);
      SumTakeOut(EntryWeigher(m), Visited(order), last);
      SumSnoc(ActiveIn(m, before), m[last]);
    }
  }

  /** All nodes agree on the total weight, hence on the random value drawn below it. */
  lemma TotalIgnoresOrder(m: Entries, a: seq<NodeId>, b: seq<NodeId>)
    requires IterationOrder(m, a) && IterationOrder(m, b)
    ensures Sum(Weights(ActiveIn(m, a))) == Sum(Weights(ActiveIn(m, b)))
  {
    TotalIsWeightOf(m, a);
    TotalIsWeightOf(m, b);
    assert Visited(a) == Visited(b);
  }

  // ---- the choice does ----

  lemma {:induction false} Enumerate(s: set<NodeId>) returns (order: seq<NodeId>)
    ensures forall n :: n in order <==> n in s
    ensures forall i, j :: 0 <= i < j < |order| ==> order[i] != order[j]
  {
    if s == {} {
      order := [];
    } else {
      var n :| n in s;
      var rest := Enumerate(s - {n});
      order := rest + [n];
    }
  }

  lemma {:induction false} FirstThenRest(m: Entries, u: NodeId, rest: seq<NodeId>)
    requires u in m && m[u].isActive && forall n :: n in rest ==> n in m
    ensures forall n :: n in [u] + rest ==> n in m
    ensures ActiveIn(m, [u] + rest) == [m[u]] + ActiveIn(m, rest)
  {
    var order := [u] + rest;
    if rest == [] {
      assert order[..0] == [];
    } else {
      var k := |rest| - 1;
      FirstThenRest(m, u, rest[..k]);
      assert order[..|order| - 1] == [u] + rest[..k];
    }
  }

  /** Visited first, a validator with weight is selected by the random value 0. */
  lemma FirstIsChosen(m: Entries, u: NodeId) returns (order: seq<NodeId>)
    requires u in m && m[u].SelectionWeight() > 0
    ensures Chooses(m, order, 0, m[u])
  {
    var rest := Enumerate(m.Keys - {u});
    order := [u] + rest;
    FirstThenRest(m, u, rest);
    assert IterationOrder(m, order);
    var ws := Weights(ActiveIn(m, order));
    SumStep(ws, 0);
    assert ws[..0] == [];
    assert ChoosesAt(m, order, 0, m[u], 0);
  }

  lemma ChosenHasWeight(m: Entries, order: seq<NodeId>, r: nat, v: ValidatorInfo) returns (n: NodeId)
    requires Chooses(m, order, r, v)
    ensures n in m && m[n] == v && v.SelectionWeight() > 0
  {
    hide Sum, ValidatorInfo.SelectionWeight, ActiveIn;
    var i: nat :| ChoosesAt(m, order, r, v, i);
    SumStep(Weights(ActiveIn(m, order)), i);
    ActiveAreActive(m, order, i);
    n :| n in order && m[n] == v;
  }

  // ---- for one random value ----

  ghost function Total(m: Entries): nat { WeightOf(m, m.Keys) }

  /** Wherever its stretch of `w` values lies within the total, it contains `r`. */
  ghost predicate Dominates(m: Entries, u: NodeId, r: nat) {
    u in m && Total(m) <= r + m[u].SelectionWeight() && r < m[u].SelectionWeight()
  }

  lemma {:induction false} ActiveIndex(m: Entries, order: seq<NodeId>, u: NodeId) returns (i: nat)
    requires (forall n :: n in order ==> n in m) && u in order && m[u].isActive
    ensures i < |ActiveIn(m, order)| && ActiveIn(m, order)[i] == m[u]
  {
    var k := |order| - 1;
    assert order == order[..k] + [order[k]];
    if order[k] == u {
      i := |ActiveIn(m, order)| - 1;
    } else {
      i := ActiveIndex(m, order[..k], u);
    }
  }

  lemma SumOfOrder(m: Entries, order: seq<NodeId>)
    requires IterationOrder(m, order)
    ensures Sum(Weights(ActiveIn(m, order))) == Total(m)
  {
    TotalIsWeightOf(m, order);
    assert Visited(order) == m.Keys;
  }

  lemma DominatorIsChosen(m: Entries, order: seq<NodeId>, r: nat, u: NodeId, v: ValidatorInfo)
    requires Dominates(m, u, r) && Chooses(m, order, r, v)
    ensures v == m[u]
  {
    var i := ActiveIndex(m, order, u);
    var ws := Weights(ActiveIn(m, order));
    SumOfOrder(m, order);
    SumStep(ws, i);
    SumMonotone(ws, i + 1, |ws|);
    assert ws[..|ws|] == ws;
    assert Selects(ws, r, i);
    var j: nat :| ChoosesAt(m, order, r, v, j);
    ExactlyWeighted(ws);
  }

  /** Everybody except `u`, in some order. */
  lemma Others(m: Entries, u: NodeId) returns (rest: seq<NodeId>)
    requires u in m
    ensures forall n :: n in rest <==> n in m && n != u
    ensures IterationOrder(m, [u] + rest) && IterationOrder(m, rest + [u])
  {
    rest := Enumerate(m.Keys - {u});
  }

  lemma ChoiceExists(m: Entries, order: seq<NodeId>, r: nat) returns (v: ValidatorInfo, i: nat)
    requires IterationOrder(m, order) && r < Total(m)
    ensures ChoosesAt(m, order, r, v, i) && Chooses(m, order, r, v)
  {
    SumOfOrder(m, order);
    i := SelectionExists(Weights(ActiveIn(m, order)), r);
    v := ActiveIn(m, order)[i];
    assert ChoosesAt(m, order, r, v, i);
  }

  lemma NotAmongOthers(m: Entries, u: NodeId, rest: seq<NodeId>, i: nat)
    requires WellKeyed(m) && u in m && (forall n :: n in rest <==> n in m && n != u) && i < |ActiveIn(m, rest)|
    ensures ActiveIn(m, rest)[i] != m[u]
  {
    ActiveAreActive(m, rest, i);
  }

  /** Visited first, `u` is passed over by every value its own weight does not reach. */
  lemma PassedOverFirst(m: Entries, u: NodeId, r: nat) returns (order: seq<NodeId>, v: ValidatorInfo)
    requires WellKeyed(m) && u in m && m[u].isActive && m[u].SelectionWeight() <= r < Total(m)
    ensures Chooses(m, order, r, v) && v != m[u]
  {
    var rest := Others(m, u);
    order := [u] + rest;
    FirstThenRest(m, u, rest);
    var i;
    v, i := ChoiceExists(m, order, r);
    var ws := Weights(ActiveIn(m, order));
    assert ws[..1] == [m[u].SelectionWeight()] && ws[..1][..0] == [];
    assert i > 0;
    NotAmongOthers(m, u, rest, i - 1);
  }

  /** Visited last, `u` is passed over by every value the others' weights reach. */
  lemma PassedOverLast(m: Entries, u: NodeId, r: nat) returns (order: seq<NodeId>, v: ValidatorInfo)
    requires WellKeyed(m) && u in m && m[u].isActive && r + m[u].SelectionWeight() < Total(m)
    ensures Chooses(m, order, r, v) && v != m[u]
  {
    var rest := Others(m, u);
    order := rest + [u];
    assert order[..|rest|] == rest;
    var others := ActiveIn(m, rest);
    assert ActiveIn(m, order) == others + [m[u]];
    var i;
    v, i := ChoiceExists(m, order, r);
    var ws := Weights(others + [m[u]]);
    assert ws[..|others|] == Weights(others);
    SumSnoc(others, m[u]);
    SumOfOrder(m, order);
    assert i < |others|;
    NotAmongOthers(m, u, rest, i);
  }

  /**
   The exact condition for one random value: all visiting orders select the same validator if and
   only if some validator's weight exceeds the value and the others' weights do not.
   */
  lemma SameLeaderForValue(m: Entries, r: nat)
    requires WellKeyed(m) && r < Total(m)
    ensures SameLeaderFor(m, r) <==> exists u :: Dominates(m, u, r)
  {
    hide Chooses, Total;
    if u :| Dominates(m, u, r) {
      forall a, b, x, y | Chooses(m, a, r, x) && Chooses(m, b, r, y) ensures x == y {
        DominatorIsChosen(m, a, r, u, x);
        DominatorIsChosen(m, b, r, u, y);
      }
    } else {
      var a := Enumerate(m.Keys);
      var x, i := ChoiceExists(m, a, r);
      var u := ChosenHasWeight(m, a, r, x);
      assert !Dominates(m, u, r);
      if r >= m[u].SelectionWeight() {
        var b, y := PassedOverFirst(m, u, r);
      } else {
        var b, y := PassedOverLast(m, u, r);
      }
    }
  }

  /** `v` is what a node that visits its map in this order selects from the seed. */
  ghost predicate LeaderFrom(m: Entries, order: seq<NodeId>, sha: Sha, seed: Bytes, v: ValidatorInfo) {
    IterationOrder(m, order) && exists i: nat :: ChosenAs(ActiveIn(m, order), sha, seed, i, v)
  }

  ghost predicate ChosenAs(active: seq<ValidatorInfo>, sha: Sha, seed: Bytes, i: nat, v: ValidatorInfo) {
    Chosen(active, sha, seed, i) && active[i] == v
  }

  /** All nodes with these entries select the same leader from the seed. */
  ghost predicate NodesAgree(m: Entries, sha: Sha, seed: Bytes) {
    forall a, b, u, v :: LeaderFrom(m, a, sha, seed, u) && LeaderFrom(m, b, sha, seed, v) ==> u == v
  }

  lemma LeaderFromIsChoice(m: Entries, order: seq<NodeId>, sha: Sha, seed: Bytes, v: ValidatorInfo)
    requires Total(m) > 0
    ensures LeaderFrom(m, order, sha, seed, v) <==> Chooses(m, order, DeterministicRandom(sha, seed, Total(m)), v)
  {
    hide Total, ActiveIn, Sum, DeterministicRandom;
    if IterationOrder(m, order) {
      SumOfOrder(m, order);
      var active, r := ActiveIn(m, order), DeterministicRandom(sha, seed, Total(m));
      assert forall i: nat :: ChosenAs(active, sha, seed, i, v) <==> ChoosesAt(m, order, r, v, i);
    }
  }

  /**
   The exact condition for one seed: all nodes select the same leader if and only if some
   validator's weight exceeds the value the seed draws and the others' weights do not.
   */
  lemma NodesAgreeExactly(m: Entries, sha: Sha, seed: Bytes)
    requires WellKeyed(m) && Total(m) > 0
    ensures NodesAgree(m, sha, seed) <==> exists u :: Dominates(m, u, DeterministicRandom(sha, seed, Total(m)))
  {
    var r := DeterministicRandom(sha, seed, Total(m));
    SameLeaderForValue(m, r);
    hide Chooses, LeaderFrom, Dominates, DeterministicRandom, Total;
    forall order, v ensures LeaderFrom(m, order, sha, seed, v) <==> Chooses(m, order, r, v) {
      LeaderFromIsChoice(m, order, sha, seed, v);
    }
    assert NodesAgree(m, sha, seed) <==> SameLeaderFor(m, r);
  }

  /** Every visiting order gives the same leader for every random value exactly when at most one validator carries weight. */
  lemma SameLeaderExactly(m: Entries)
    requires WellKeyed(m)
    ensures SameLeaderForAll(m) <==> AtMostOneWeighted(m)
  {
    hide Chooses, ValidatorInfo.SelectionWeight;
    if AtMostOneWeighted(m) {
      forall a, b, r, u, v | Chooses(m, a, r, u) && Chooses(m, b, r, v) ensures u == v {
        var x := ChosenHasWeight(m, a, r, u);
        var y := ChosenHasWeight(m, b, r, v);
      }
    } else {
      var u, v :| u in m && v in m && m[u].SelectionWeight() > 0 && m[v].SelectionWeight() > 0 && u != v;
      var a := FirstIsChosen(m, u);
      var b := FirstIsChosen(m, v);
      assert m[u].nodeId != m[v].nodeId;
    }
  }

  /** In every run the entries of the coordinator's selector are keyed by their own node id. */
  lemma {:induction false} ReachableEntriesAreKeyed(cfg: Config, banned: set<Wallet>, events: seq<Event>, n: nat)
    requires n <= |events|
    ensures WellKeyed(At(cfg, Initial(banned), events, n).leaders)
  {
    if n > 0 {
      ReachableEntriesAreKeyed(cfg, banned, events, n - 1);
    }
  }
}
