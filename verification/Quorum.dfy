/**
 The stake-weighted gate: the off-chain check a node makes before it assembles a settlement, and
 the on-chain check the program makes when it receives one.
 */
module Quorum {
  import opened Common
  import opened Encoding
  import opened Tally

  type Stakes = map<Wallet, u64>

  function Weight(stakes: Stakes, w: Wallet): u64 {
    if w in stakes then stakes[w] else 0
  }

  /** The true (unbounded) stake held by a set of wallets. */
  ghost function StakeOf(stakes: Stakes, ws: set<Wallet>): nat { SumOver(Weigher(stakes), ws) }

  function Weigher(stakes: Stakes): Wallet -> nat { (w: Wallet) => Weight(stakes, w) }

  lemma StakeTakeOut(stakes: Stakes, ws: set<Wallet>, x: Wallet)
    requires x in ws
    ensures StakeOf(stakes, ws) == Weight(stakes, x) + StakeOf(stakes, ws - {x})
  {
    SumTakeOut(Weigher(stakes), ws, x);
  }

  lemma StakeOfNone(stakes: Stakes)
    ensures StakeOf(stakes, {}) == 0
  {}

  lemma {:induction false} StakeOfUnion(stakes: Stakes, a: set<Wallet>, b: set<Wallet>)
    ensures StakeOf(stakes, a + b) + StakeOf(stakes, a * b) == StakeOf(stakes, a) + StakeOf(stakes, b)
    decreases |a|
  {
    hide StakeOf;
    if a == {} {
      StakeOfNone(stakes);
      assert a + b == b && a * b == {};
    } else {
      var x :| x in a;
      StakeTakeOut(stakes, a, x);
      StakeOfUnion(stakes, a - {x}, b);
      StakeTakeOut(stakes, a + b, x);
      if x in b {
        assert (a - {x}) + b == a + b;
        StakeTakeOut(stakes, a * b, x);
        assert a * b - {x} == (a - {x}) * b;
      } else {
        assert a + b - {x} == (a - {x}) + b;
        assert a * b == (a - {x}) * b;
      }
    }
  }

  lemma StakeOfOneMore(stakes: Stakes, counted: set<Wallet>, todo: set<Wallet>, w: Wallet)
    requires w in todo
    ensures StakeOf(stakes, counted - (todo - {w}))
         == StakeOf(stakes, counted - todo) + if w in counted then Weight(stakes, w) else 0
  {
    hide StakeOf;
    TakeBack(counted, todo, w);
    if w in counted {
      StakeTakeOut(stakes, counted - (todo - {w}), w);
    }
  }

  lemma TakeBack<T>(s: set<T>, todo: set<T>, w: T)
    requires w in todo
    ensures if w in s then w in s - (todo - {w}) && s - (todo - {w}) - {w} == s - todo else s - (todo - {w}) == s - todo
  {}

  lemma StakeMonotone(stakes: Stakes, a: set<Wallet>, b: set<Wallet>)
    requires a <= b
    ensures StakeOf(stakes, a) <= StakeOf(stakes, b)
  {
    hide StakeOf;
    StakeOfUnion(stakes, a, b - a);
    StakeOfNone(stakes);
    assert a + (b - a) == b && a * (b - a) == {};
  }

  lemma {:induction false} StakeSameWeights(s: Stakes, t: Stakes, ws: set<Wallet>)
    requires forall w :: w in ws ==> Weight(s, w) == Weight(t, w)
    ensures StakeOf(s, ws) == StakeOf(t, ws)
    decreases |ws|
  {
    hide StakeOf;
    if ws == {} {
      StakeOfNone(s);
      StakeOfNone(t);
    } else {
      var x :| x in ws;
      StakeTakeOut(s, ws, x);
      StakeTakeOut(t, ws, x);
      StakeSameWeights(s, t, ws - {x});
    }
  }

  // ---- the threshold ----

  function Threshold(eligible: u64): nat {
    SatMul(eligible, 2) / 3 + 1
  }

  /** `t` is the least integer strictly above two thirds of `e`. */
  predicate LeastAboveTwoThirds(t: nat, e: nat) {
    3 * t > 2 * e && 3 * (t - 1) <= 2 * e
  }

  /** The saturating product gives the intended threshold exactly up to an eligible stake of 2^63. */
  lemma ThresholdExact(e: u64)
    ensures LeastAboveTwoThirds(Threshold(e), e) <==> e <= 0x8000_0000_0000_0000
  {}

  /** The gate without saturating arithmetic, for a true eligible stake of any sign. */
  predicate ClearsTwoThirds(eligible: int, counted: nat) {
    && eligible > 0
    && 3 * counted > (if 2 * eligible <= U64_MAX then 2 * eligible else U64_MAX)
    && (counted <= eligible || eligible == U64_MAX)
  }

  lemma GateExactly(eligible: u64, counted: nat)
    ensures GateOpens(eligible, counted) <==> ClearsTwoThirds(eligible, counted)
  {}

  function Saturated(sum: nat): u64 {
    if sum <= U64_MAX then sum else U64_MAX
  }

  /** What the gate decides from the eligible stake and the true stake of the counted wallets. */
  predicate GateOpens(eligible: u64, counted: nat) {
    eligible != 0 && Threshold(eligible) <= Saturated(counted) <= eligible
  }

  /**
   Saturating the running sum never lets an over-count through, with one exception: an eligible
   stake of exactly 2^64 - 1, where the cap on the sum is also the bound it is compared with.
   */
  lemma SaturationExact(eligible: u64, counted: nat)
    ensures (GateOpens(eligible, counted) <==> eligible != 0 && Threshold(eligible) <= counted <= eligible)
            <==> !(eligible == U64_MAX && counted > eligible)
  {}

  /** The exception is real: two wallets holding 2^64 together pass as no more than 2^64 - 1. */
  lemma SaturationHidesOneOverCount(a: Wallet, b: Wallet, local: Wallet)
    requires a != b && a != local && b != local
    ensures var record := VoteRecord(Valid, [], []);
            var votes, stakes := map[a := record, b := record], map[a := 0x8000_0000_0000_0000, b := 0x8000_0000_0000_0000];
            && StakeQuorum(votes, stakes, U64_MAX, {}, Some(local))
            && StakeOf(stakes, CountedWallets(votes, stakes, {}, local)) > EligibleStake(stakes, U64_MAX, local)
  {
    var stakes: Stakes := map[a := 0x8000_0000_0000_0000, b := 0x8000_0000_0000_0000];
    var record := VoteRecord(Valid, [], []);
    assert CountedWallets(map[a := record, b := record], stakes, {}, local) == {a, b};
    StakeOfPair(stakes, a, b);
  }

  /** Two sets of wallets that both open the gate share wallets holding more than a third. */
  lemma QuorumsIntersect(stakes: Stakes, all: set<Wallet>, a: set<Wallet>, b: set<Wallet>, eligible: u64)
    requires a <= all && b <= all && StakeOf(stakes, all) <= eligible <= 0x8000_0000_0000_0000
    requires GateOpens(eligible, StakeOf(stakes, a)) && GateOpens(eligible, StakeOf(stakes, b))
    ensures 3 * StakeOf(stakes, a * b) > eligible
  {
    hide StakeOf;
    StakeOfUnion(stakes, a, b);
    StakeMonotone(stakes, a + b, all);
    StakeMonotone(stakes, a, all);
    StakeMonotone(stakes, b, all);
    ThresholdExact(eligible);
  }

  lemma StakeOfSingle(stakes: Stakes, a: Wallet)
    ensures StakeOf(stakes, {a}) == Weight(stakes, a)
  {
    StakeTakeOut(stakes, {a}, a);
    assert {a} - {a} == {};
  }

  lemma StakeOfPair(stakes: Stakes, a: Wallet, b: Wallet)
    requires a != b
    ensures StakeOf(stakes, {a, b}) == Weight(stakes, a) + Weight(stakes, b)
  {
    StakeTakeOut(stakes, {a, b}, b);
    assert {a, b} - {b} == {a};
    StakeOfSingle(stakes, a);
  }

  lemma StakeOfThree(stakes: Stakes, a: Wallet, b: Wallet, c: Wallet)
    requires a != b && a != c && b != c
    ensures StakeOf(stakes, {a, b, c}) == Weight(stakes, a) + Weight(stakes, b) + Weight(stakes, c)
  {
    hide StakeOf;
    StakeTakeOut(stakes, {a, b, c}, c);
    assert {a, b, c} - {c} == {a, b};
    StakeOfPair(stakes, a, b);
  }

  /** What two quorums have to share, beyond 2^63. */
  function CommonShare(e: u64): nat {
    if 2 * Threshold(e) >= e then 2 * Threshold(e) - e else 0
  }

  /** `a` and `b` hold a threshold together, and so do `c` and `b`. */
  function SplitStakes(e: u64, a: Wallet, b: Wallet, c: Wallet): Stakes
    requires e > 0x8000_0000_0000_0000
  {
    CommonShareIsSmall(e);
    var own: u64 := Threshold(e) - CommonShare(e);
    map[a := own, b := CommonShare(e), c := own]
  }

  lemma SplitWeights(e: u64, a: Wallet, b: Wallet, c: Wallet)
    requires e > 0x8000_0000_0000_0000 && a != b && a != c && b != c
    ensures var stakes := SplitStakes(e, a, b, c);
            Weight(stakes, a) == Weight(stakes, c) == Threshold(e) - CommonShare(e) && Weight(stakes, b) == CommonShare(e)
  {}

  lemma CommonShareIsSmall(e: u64)
    requires e > 0x8000_0000_0000_0000
    ensures CommonShare(e) <= Threshold(e) <= e && 2 * Threshold(e) - CommonShare(e) <= e && 3 * CommonShare(e) <= e
  {}

  lemma ThresholdOpens(e: u64)
    requires e > 0 && Threshold(e) <= e
    ensures GateOpens(e, Threshold(e))
  {}

  /**
   Beyond 2^63 the capped threshold no longer forces an overlap: for every such eligible stake
   there are two quorums whose common wallets hold a third or less.
   */
  lemma QuorumsCanMiss(e: u64, a: Wallet, b: Wallet, c: Wallet)
    requires e > 0x8000_0000_0000_0000 && a != b && a != c && b != c
    ensures var stakes := SplitStakes(e, a, b, c);
            && StakeOf(stakes, {a, b, c}) <= e
            && GateOpens(e, StakeOf(stakes, {a, b})) && GateOpens(e, StakeOf(stakes, {c, b}))
            && {a, b} * {c, b} == {b} && 3 * StakeOf(stakes, {b}) <= e
  {
    CommonShareIsSmall(e);
    ThresholdOpens(e);
    SplitWeights(e, a, b, c);
    hide StakeOf, Threshold, CommonShare, GateOpens, SplitStakes;
    var stakes := SplitStakes(e, a, b, c);
    StakeOfPair(stakes, a, b);
    StakeOfPair(stakes, c, b);
    StakeOfSingle(stakes, b);
    StakeOfThree(stakes, a, b, c);
  }

  // ---- the off-chain gate ----

  /** The wallets whose stake counts: Valid, staked, not banned, and not the authority itself. */
  function CountedWallets(votes: Votes, stakes: Stakes, banned: set<Wallet>, local: Wallet): set<Wallet> {
    set w | w in votes && w != local && votes[w].vote.Valid? && w !in banned && w in stakes
  }

  function EligibleStake(stakes: Stakes, registryTotal: u64, local: Wallet): u64 {
    SatSub(registryTotal, Weight(stakes, local))
  }

  ghost predicate StakeQuorum(votes: Votes, stakes: Stakes, registryTotal: u64, banned: set<Wallet>, local: Option<Wallet>) {
    local.Some? ==>
      GateOpens(EligibleStake(stakes, registryTotal, local.value),
                StakeOf(stakes, CountedWallets(votes, stakes, banned, local.value)))
  }

  /** The stake loop: visits the votes in any order, adding up with saturation. */
  method CountStake(votes: Votes, stakes: Stakes, banned: set<Wallet>, local: Wallet) returns (countedStake: u64)
    ensures countedStake == Saturated(StakeOf(stakes, CountedWallets(votes, stakes, banned, local)))
  {
    hide StakeOf;
    StakeOfNone(stakes);
    ghost var counted := CountedWallets(votes, stakes, banned, local);
    var todo := votes.Keys;
    countedStake := 0;
    assert counted - todo == {};
    while todo != {}
      invariant todo <= votes.Keys
      invariant countedStake == Saturated(StakeOf(stakes, counted - todo))
      decreases |todo|
    {
      var w :| w in todo;
      StakeOfOneMore(stakes, counted, todo, w);
      if w == local || !votes[w].vote.Valid? || w in banned || w !in stakes {
        assert w !in counted;
      } else {
        countedStake := SatAdd(countedStake, stakes[w]);
      }
      todo := todo - {w};
    }
    assert counted - todo == counted;
  }

  method StakeQuorumMet(votes: Votes, stakes: Stakes, registryTotal: u64, banned: set<Wallet>, local: Option<Wallet>)
    returns (met: bool)
    ensures met <==> StakeQuorum(votes, stakes, registryTotal, banned, local)
  {
    if local.None? {
      return true;
    }
    var authorityStake := Weight(stakes, local.value);
    var eligibleStake := SatSub(registryTotal, authorityStake);
    if eligibleStake == 0 {
      return false;
    }
    var threshold := SatMul(eligibleStake, 2) / 3 + 1;
    var countedStake := CountStake(votes, stakes, banned, local.value);
    if countedStake > eligibleStake {
      return false;
    }
    return countedStake >= threshold;
  }

  /** `ws` are the wallets behind a settlement: standing at Valid, staked, not banned and not the authority. */
  ghost predicate Behind(votes: Votes, stakes: Stakes, banned: set<Wallet>, local: Wallet, ws: set<Wallet>) {
    forall w :: w in ws <==> w in votes && votes[w].vote.Valid? && w in stakes && w !in banned && w != local
  }

  /** The registry's total without the authority's own stake. */
  function Denominator(stakes: Stakes, registryTotal: u64, local: Wallet): int {
    registryTotal - if local in stakes then stakes[local] else 0
  }

  /**
   What the gate means: the wallets behind the settlement hold more than two thirds of the total
   without the authority, and no more than there is.
   */
  lemma StakeQuorumExactly(votes: Votes, stakes: Stakes, registryTotal: u64, banned: set<Wallet>, local: Wallet)
    ensures StakeQuorum(votes, stakes, registryTotal, banned, Some(local)) <==>
            exists ws :: Behind(votes, stakes, banned, local, ws)
                         && ClearsTwoThirds(Denominator(stakes, registryTotal, local), StakeOf(stakes, ws))
  {
    hide StakeOf, GateOpens, ClearsTwoThirds;
    var counted := CountedWallets(votes, stakes, banned, local);
    var e := EligibleStake(stakes, registryTotal, local);
    GateExactly(e, StakeOf(stakes, counted));
    EligibleIsDenominator(stakes, registryTotal, local, StakeOf(stakes, counted));
    assert Behind(votes, stakes, banned, local, counted);
    forall ws | Behind(votes, stakes, banned, local, ws) ensures ws == counted {}
  }

  lemma EligibleIsDenominator(stakes: Stakes, registryTotal: u64, local: Wallet, counted: nat)
    ensures ClearsTwoThirds(EligibleStake(stakes, registryTotal, local), counted)
       <==> ClearsTwoThirds(Denominator(stakes, registryTotal, local), counted)
  {}

  /** A vote that is Invalid, or of a banned or unstaked wallet or of the authority, never matters. */
  lemma UncountedVoteIsIgnored(votes: Votes, stakes: Stakes, registryTotal: u64, banned: set<Wallet>, local: Wallet, w: Wallet)
    requires w in votes && (votes[w].vote.Invalid? || w !in stakes || w in banned || w == local)
    ensures StakeQuorum(votes, stakes, registryTotal, banned, Some(local))
       <==> StakeQuorum(votes - {w}, stakes, registryTotal, banned, Some(local))
  {
    hide StakeOf, GateOpens;
    assert CountedWallets(votes, stakes, banned, local) == CountedWallets(votes - {w}, stakes, banned, local);
  }

  /** The authority might as well not be registered: neither its stake nor its share of the total counts. */
  lemma AuthorityIsLeftOut(votes: Votes, stakes: Stakes, registryTotal: u64, banned: set<Wallet>, local: Wallet)
    requires local in stakes && stakes[local] <= registryTotal
    ensures StakeQuorum(votes, stakes, registryTotal, banned, Some(local))
       <==> StakeQuorum(votes, stakes - {local}, registryTotal - stakes[local], banned, Some(local))
  {
    hide StakeOf, GateOpens;
    var counted := CountedWallets(votes, stakes, banned, local);
    assert CountedWallets(votes, stakes - {local}, banned, local) == counted;
    StakeSameWeights(stakes, stakes - {local}, counted);
  }

  /** A vote that is added cannot make the counted stake smaller. */
  lemma MoreVotesMoreStake(votes: Votes, votes': Votes, stakes: Stakes, banned: set<Wallet>, local: Wallet)
    requires forall w :: w in votes ==> w in votes' && votes'[w] == votes[w]
    ensures StakeOf(stakes, CountedWallets(votes, stakes, banned, local))
         <= StakeOf(stakes, CountedWallets(votes', stakes, banned, local))
  {
    hide StakeOf;
    StakeMonotone(stakes, CountedWallets(votes, stakes, banned, local), CountedWallets(votes', stakes, banned, local));
  }

  // ---- the on-chain gate ----

  /** A program-owned validator account, stored under its wallet's canonical address. */
  datatype ValidatorAccount = ValidatorAccount(validator: Wallet, stakeAmount: u64, isActive: bool)

  type Accounts = map<Wallet, ValidatorAccount>

  /** A `(wallet, pda)` pair handed to the program; `canonical` says the pda is the wallet's own. */
  datatype Pair = Pair(wallet: Wallet, isSigner: bool, canonical: bool)

  predicate PairCounts(accounts: Accounts, authority: Wallet, p: Pair) {
    && p.isSigner && p.wallet != authority && p.canonical
    && p.wallet in accounts && accounts[p.wallet].isActive && accounts[p.wallet].validator == p.wallet
  }

  ghost function Signers(accounts: Accounts, authority: Wallet, pairs: seq<Pair>): set<Wallet> {
    set i | 0 <= i < |pairs| && PairCounts(accounts, authority, pairs[i]) :: pairs[i].wallet
  }

  function AccountStakes(accounts: Accounts): Stakes {
    map w | w in accounts :: accounts[w].stakeAmount
  }

  /** Accepts iff the distinct active signers other than the authority open the same gate. */
  method VerifyValidatorQuorum(accounts: Accounts, registryTotal: u64, authority: Wallet, authorityStake: u64, pairs: seq<Pair>)
    returns (ok: bool)
    ensures ok <==> GateOpens(SatSub(registryTotal, authorityStake),
                              StakeOf(AccountStakes(accounts), Signers(accounts, authority, pairs)))
  {
    var eligibleStake := SatSub(registryTotal, authorityStake);
    var threshold := SatMul(eligibleStake, 2) / 3 + 1;
    var countedStake: u64 := 0;
    var seen: set<Wallet> := {};
    ghost var stakes := AccountStakes(accounts);
    hide StakeOf;
    StakeOfNone(stakes);
    for i := 0 to |pairs|
      invariant seen == Signers(accounts, authority, pairs[..i])
      invariant countedStake == Saturated(StakeOf(stakes, seen))
    {
      SignersSnoc(accounts, authority, pairs[..i], pairs[i]);
      assert pairs[..i + 1] == pairs[..i] + [pairs[i]];
      var p := pairs[i];
      if PairCounts(accounts, authority, p) && p.wallet !in seen {
        StakeTakeOut(stakes, seen + {p.wallet}, p.wallet);
        assert seen + {p.wallet} - {p.wallet} == seen;
        seen := seen + {p.wallet};
        countedStake := SatAdd(countedStake, accounts[p.wallet].stakeAmount);
      }
    }
    assert pairs[..|pairs|] == pairs;
    ok := countedStake <= eligibleStake && countedStake >= threshold;
  }

  lemma SignersSnoc(accounts: Accounts, authority: Wallet, pairs: seq<Pair>, p: Pair)
    ensures Signers(accounts, authority, pairs + [p])
         == Signers(accounts, authority, pairs) + if PairCounts(accounts, authority, p) then {p.wallet} else {}
  {
    var ext := pairs + [p];
    forall w | w in Signers(accounts, authority, pairs) ensures w in Signers(accounts, authority, ext) {
      var i :| 0 <= i < |pairs| && PairCounts(accounts, authority, pairs[i]) && pairs[i].wallet == w;
      assert ext[i] == pairs[i];
    }
    if PairCounts(accounts, authority, p) {
      assert ext[|pairs|] == p;
    }
  }

  /**
   A further pair adds its wallet exactly if the wallet has signed, is not the authority, and comes
   with its own, active validator account; a repeated wallet adds nothing.
   */
  lemma PairAddsExactly(accounts: Accounts, authority: Wallet, pairs: seq<Pair>, p: Pair)
    ensures var proper := && p.isSigner && p.canonical && p.wallet != authority
                          && p.wallet in accounts && accounts[p.wallet].validator == p.wallet && accounts[p.wallet].isActive;
            Signers(accounts, authority, pairs + [p]) == if proper then Signers(accounts, authority, pairs) + {p.wallet}
                                                         else Signers(accounts, authority, pairs)
  {
    SignersSnoc(accounts, authority, pairs, p);
  }

  /** The snapshot the node voted with is what the chain holds. */
  ghost predicate SnapshotAccurate(stakes: Stakes, accounts: Accounts) {
    forall w :: w in stakes ==> w in accounts && accounts[w] == ValidatorAccount(w, stakes[w], true)
  }

  /** What the program decides on a settlement signed by `pairs`. */
  ghost predicate OnchainGateOpens(stakes: Stakes, registryTotal: u64, local: Wallet, accounts: Accounts, pairs: seq<Pair>) {
    GateOpens(EligibleStake(stakes, registryTotal, local), StakeOf(AccountStakes(accounts), Signers(accounts, local, pairs)))
  }

  /**
   A settlement that passes this node's gate, signed by every counted wallet and under an accurate
   snapshot, clears the program's own gate exactly when its signers do not exceed the eligible stake.
   */
  lemma ApprovalClearsOnchainGate(
    votes: Votes, stakes: Stakes, registryTotal: u64, banned: set<Wallet>, local: Wallet, accounts: Accounts, pairs: seq<Pair>)
    requires StakeQuorum(votes, stakes, registryTotal, banned, Some(local))
    requires SnapshotAccurate(stakes, accounts)
    requires CountedWallets(votes, stakes, banned, local) <= Signers(accounts, local, pairs)
    ensures OnchainGateOpens(stakes, registryTotal, local, accounts, pairs)
       <==> Saturated(StakeOf(AccountStakes(accounts), Signers(accounts, local, pairs))) <= EligibleStake(stakes, registryTotal, local)
  {
    hide StakeOf, CountedWallets;
    var counted := CountedWallets(votes, stakes, banned, local);
    CountedAreStaked(votes, stakes, banned, local);
    StakeSameWeights(stakes, AccountStakes(accounts), counted);
    StakeMonotone(AccountStakes(accounts), counted, Signers(accounts, local, pairs));
  }

  lemma CountedAreStaked(votes: Votes, stakes: Stakes, banned: set<Wallet>, local: Wallet)
    ensures CountedWallets(votes, stakes, banned, local) <= stakes.Keys - {local}
  {}

  /** The quorum this node assembles, the counted wallets themselves, always clears the program's gate. */
  lemma AssembledQuorumClears(
    votes: Votes, stakes: Stakes, registryTotal: u64, banned: set<Wallet>, local: Wallet, accounts: Accounts, pairs: seq<Pair>)
    requires StakeQuorum(votes, stakes, registryTotal, banned, Some(local))
    requires SnapshotAccurate(stakes, accounts)
    requires Signers(accounts, local, pairs) == CountedWallets(votes, stakes, banned, local)
    ensures OnchainGateOpens(stakes, registryTotal, local, accounts, pairs)
  {
    hide StakeOf, CountedWallets;
    CountedAreStaked(votes, stakes, banned, local);
    StakeSameWeights(stakes, AccountStakes(accounts), Signers(accounts, local, pairs));
  }
}
