/** One verification round's votes, keyed by the voter's co-sign wallet. */
module Tally {
  import opened Common
  import opened Encoding

  type Wallet = string

  type NodeId = Bytes

  datatype VoteRecord = VoteRecord(vote: Vote, nodeId: NodeId, signature: Bytes)

  type Votes = map<Wallet, VoteRecord>

  datatype Evidence = Equivocation(
    requestId: string,
    wallet: Wallet,
    previousVote: Vote,
    newVote: Vote,
    previousSignature: Bytes,
    newSignature: Bytes)

  datatype ResultError = NotEnoughEligible(eligible: nat, min: nat, excluded: nat)

  /** The first vote of a wallet stands; later ones are not installed. */
  function Install(votes: Votes, wallet: Wallet, record: VoteRecord): Votes {
    if wallet in votes then votes else votes[wallet := record]
  }

  /** The wallet has already decided the other way. */
  predicate Flips(votes: Votes, wallet: Wallet, vote: Vote) {
    wallet in votes && votes[wallet].vote.Valid? != vote.Valid?
  }

  function EligibleVoters(votes: Votes, eligible: set<Wallet>): set<Wallet> {
    votes.Keys * eligible
  }

  function ValidWallets(votes: Votes, eligible: set<Wallet>): set<Wallet> {
    set w | w in votes && w in eligible && votes[w].vote.Valid?
  }

  function Decimal(n: nat): string {
    if n < 10 then ["0123456789"[n]] else Decimal(n / 10) + ["0123456789"[n % 10]]
  }

  function RejectReason(valid: nat, invalid: nat, min: nat): string {
    "Consensus rejected: " + Decimal(valid) + " valid, " + Decimal(invalid) + " invalid (need " + Decimal(min) + ")"
  }

  function DecimalValue(s: string): int {
    if s == [] then 0 else 10 * DecimalValue(s[..|s| - 1]) + (s[|s| - 1] as int - '0' as int)
  }

  lemma {:induction false} DecimalReadsBack(n: nat)
    ensures DecimalValue(Decimal(n)) == n
  {
    assert "0123456789"[n % 10] as int - '0' as int == n % 10;
    if n >= 10 {
      DecimalReadsBack(n / 10);
      assert Decimal(n)[..|Decimal(n)| - 1] == Decimal(n / 10);
    } else {
      assert Decimal(n)[..0] == [];
    }
  }

  class VoteTally {
    const requestId: string
    const startedAt: nat
    const deadline: nat
    const minValidators: nat
    const totalValidators: nat
    var votes: Votes

    constructor (requestId: string, minValidators: nat, totalValidators: nat, now: nat)
      ensures this.requestId == requestId && startedAt == now && deadline == now + 30
      ensures this.minValidators == minValidators && this.totalValidators == totalValidators
      ensures votes == map[]
    {
      this.requestId := requestId;
      startedAt, deadline := now, now + 30;
      this.minValidators, this.totalValidators := minValidators, totalValidators;
      votes := map[];
    }

    /** Reports evidence exactly for a flip, and the evidence carries both signatures. */
    method SubmitVote(wallet: Wallet, nodeId: NodeId, vote: Vote, signature: Bytes) returns (evidence: Option<Evidence>)
      modifies this`votes
      ensures votes == Install(old(votes), wallet, VoteRecord(vote, nodeId, signature))
      ensures evidence.Some? <==> Flips(old(votes), wallet, vote)
      ensures evidence.Some? ==>
                evidence.value == Equivocation(requestId, wallet, old(votes)[wallet].vote, vote,
                                               old(votes)[wallet].signature, signature)
    {
      if wallet in votes {
        var previous := votes[wallet];
        if previous.vote.Valid? == vote.Valid? {
          return None;
        }
        return Some(Equivocation(requestId, wallet, previous.vote, vote, previous.signature, signature));
      }
      votes := votes[wallet := VoteRecord(vote, nodeId, signature)];
      return None;
    }

    predicate IsTimedOut(now: nat) {
      now > deadline
    }

    predicate HasConsensus(eligible: set<Wallet>)
      reads this
    {
      |EligibleVoters(votes, eligible)| >= minValidators
    }

    /** Decides by the eligible votes only: enough of them Valid, or a rejection with the counts. */
    method ConsensusResult(eligible: set<Wallet>) returns (r: Result<Vote, ResultError>)
      ensures r.Ok? <==> HasConsensus(eligible)
      ensures r.Ok? ==> (r.value.Valid? <==> |ValidWallets(votes, eligible)| >= minValidators)
      ensures |ValidWallets(votes, eligible)| <= |EligibleVoters(votes, eligible)|
      ensures r.Ok? && r.value.Invalid? ==>
                var valid := |ValidWallets(votes, eligible)|;
                r.value.reason == "Consensus rejected: " + Decimal(valid) + " valid, "
                                  + Decimal(|EligibleVoters(votes, eligible)| - valid) + " invalid (need " + Decimal(minValidators) + ")"
      ensures r.Err? ==> r.error == NotEnoughEligible(|EligibleVoters(votes, eligible)|, minValidators, |votes.Keys - eligible|)
    {
      hide Decimal, ValidWallets, EligibleVoters;
      var eligibleCount, excluded := CountVotes(votes, eligible);
      var validCount := CountValid(votes, eligible);
      if eligibleCount < minValidators {
        return Err(NotEnoughEligible(eligibleCount, minValidators, excluded));
      }
      var invalidCount := eligibleCount - validCount;
      if validCount >= minValidators {
        return Ok(Valid);
      }
      return Ok(Invalid(RejectReason(validCount, invalidCount, minValidators)));
    }

    /** The node ids of the eligible wallets that stand at Valid, one entry per wallet, in some order. */
    method ValidVoters(eligible: set<Wallet>) returns (out: seq<NodeId>)
      ensures ListsNodes(votes, ValidWallets(votes, eligible), out)
    {
      out := ListValid(votes, eligible);
    }
  }

  /** The counting loop; the votes are visited in any order. */
  method CountVotes(votes: Votes, eligible: set<Wallet>) returns (eligibleCount: nat, excluded: nat)
    ensures eligibleCount == |EligibleVoters(votes, eligible)| && excluded == |votes.Keys - eligible|
  {
    ValidAreEligible(votes, eligible);
    hide EligibleVoters;
    ghost var voters, others := EligibleVoters(votes, eligible), votes.Keys - eligible;
    var todo := votes.Keys;
    eligibleCount, excluded := 0, 0;
    while todo != {}
      invariant todo <= votes.Keys
      invariant eligibleCount == |voters - todo|
      invariant excluded == |others - todo|
      decreases |todo|
    {
      var w :| w in todo;
      Membership(votes, eligible, w);
      CountOneMore(voters, todo, w);
      CountOneMore(others, todo, w);
      if w in eligible {
        eligibleCount := eligibleCount + 1;
      } else {
        excluded := excluded + 1;
      }
      todo := todo - {w};
    }
    assert voters - todo == voters && others - todo == others;
  }

  /** How many of the eligible votes are Valid. */
  method CountValid(votes: Votes, eligible: set<Wallet>) returns (validCount: nat)
    ensures validCount == |ValidWallets(votes, eligible)| <= |EligibleVoters(votes, eligible)|
  {
    ValidAreEligible(votes, eligible);
    hide ValidWallets, EligibleVoters;
    ghost var valid := ValidWallets(votes, eligible);
    var todo := votes.Keys;
    validCount := 0;
    while todo != {}
      invariant todo <= votes.Keys
      invariant validCount == |valid - todo|
      decreases |todo|
    {
      var w :| w in todo;
      Membership(votes, eligible, w);
      CountOneMore(valid, todo, w);
      if w in eligible && votes[w].vote.Valid? {
        validCount := validCount + 1;
      }
      todo := todo - {w};
    }
    assert valid - todo == valid;
  }

  lemma Membership(votes: Votes, eligible: set<Wallet>, w: Wallet)
    requires w in votes
    ensures w in EligibleVoters(votes, eligible) <==> w in eligible
    ensures w in ValidWallets(votes, eligible) <==> w in eligible && votes[w].vote.Valid?
  {}

  lemma ValidAreEligible(votes: Votes, eligible: set<Wallet>)
    ensures ValidWallets(votes, eligible) <= EligibleVoters(votes, eligible) <= votes.Keys
    ensures |ValidWallets(votes, eligible)| <= |EligibleVoters(votes, eligible)|
    ensures EligibleVoters(votes, eligible) - votes.Keys == {} && ValidWallets(votes, eligible) - votes.Keys == {}
  {
    var valid, voters := ValidWallets(votes, eligible), EligibleVoters(votes, eligible);
    assert voters == valid + (voters - valid);
  }

  /** `out` lists, for the wallets of `ws` in some order and each once, the node ids they voted from. */
  ghost predicate ListsNodes(votes: Votes, ws: set<Wallet>, out: seq<NodeId>) {
    exists order: seq<Wallet> :: InOrder(votes, ws, order, out)
  }

  ghost predicate InOrder(votes: Votes, ws: set<Wallet>, order: seq<Wallet>, out: seq<NodeId>) {
    && |out| == |order| == |ws|
    && (forall w :: w in ws <==> w in order)
    && (forall i :: 0 <= i < |order| ==> order[i] in votes && out[i] == votes[order[i]].nodeId)
  }

  lemma InOrderNext(votes: Votes, ws: set<Wallet>, order: seq<Wallet>, out: seq<NodeId>, w: Wallet)
    requires InOrder(votes, ws, order, out) && w in votes && w !in ws
    ensures InOrder(votes, ws + {w}, order + [w], out + [votes[w].nodeId])
  {}

  method ListValid(votes: Votes, eligible: set<Wallet>) returns (out: seq<NodeId>)
    ensures ListsNodes(votes, ValidWallets(votes, eligible), out)
  {
    ValidAreEligible(votes, eligible);
    hide ValidWallets, InOrder;
    var todo := votes.Keys;
    out := [];
    ghost var valid, order: seq<Wallet> := ValidWallets(votes, eligible), [];
    NothingListed(votes);
    while todo != {}
      invariant todo <= votes.Keys
      invariant InOrder(votes, valid - todo, order, out)
      decreases |todo|
    {
      var w :| w in todo;
      Membership(votes, eligible, w);
      TakeOne(valid, todo, w);
      if votes[w].vote.Valid? && w in eligible {
        InOrderNext(votes, valid - todo, order, out, w);
        out, order := out + [votes[w].nodeId], order + [w];
      }
      todo := todo - {w};
    }
    assert valid - todo == valid;
  }

  lemma NothingListed(votes: Votes)
    ensures InOrder(votes, {}, [], [])
  {}

  lemma TakeOne<T>(s: set<T>, todo: set<T>, w: T)
    requires w in todo
    ensures s - (todo - {w}) == if w in s then s - todo + {w} else s - todo
  {}

  lemma CountOneMore<T>(s: set<T>, todo: set<T>, w: T)
    requires w in todo
    ensures |s - (todo - {w})| == |s - todo| + if w in s then 1 else 0
  {
    if w in s {
      assert s - (todo - {w}) == (s - todo) + {w};
    } else {
      assert s - (todo - {w}) == s - todo;
    }
  }
}
