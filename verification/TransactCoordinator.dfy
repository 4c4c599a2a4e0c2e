/** The coordinator object; each operation is proved to take the corresponding step of the model. */
module TransactCoordinator {
  import opened Common
  import opened Encoding
  import opened Tally
  import opened Quorum
  import opened Leader
  import opened TransactModel

  datatype TransactConsensus = TransactConsensus(request: Request, tally: VoteTally)

  datatype CoordinatorError =
    | NotCanonicalId
    | NoValidators
    | NotEnoughValidators(have: nat, need: nat)
    | RequestNotFound
    | VerificationTimedOut
    | NotEnoughVotes(error: ResultError)

  class TransactVerificationCoordinator {
    const cfg: Config
    var pending: map<string, TransactConsensus>
    var validators: seq<NodeId>
    const leaderSelector: LeaderSelector
    var emitted: set<string>
    var onchainWallets: set<Wallet>
    var onchainStakes: Stakes
    var onchainRegistryTotal: u64
    var equivocators: set<Wallet>
    /** The messages sent on the approval channel. */
    var sent: seq<Request>

    ghost function Tallies(): set<VoteTally>
      reads this`pending
    {
      set id | id in pending :: pending[id].tally
    }

    ghost predicate Valid()
      reads this`pending
    {
      forall i, j :: i in pending && j in pending && i != j ==> pending[i].tally != pending[j].tally
    }

    ghost function RoundOf(id: string): Round
      requires id in pending
      reads this`pending, pending[id].tally
    {
      var c := pending[id];
      Round(c.request, c.tally.votes, c.tally.deadline, c.tally.minValidators)
    }

    ghost function Rounds(): map<string, Round>
      reads this`pending, Tallies()
    {
      map id | id in pending :: RoundOf(id)
    }

    ghost function Core(): Core
      reads this, Tallies()
    {
      TransactModel.Core(Rounds(), emitted, onchainWallets, onchainStakes,
                         onchainRegistryTotal, equivocators, sent)
    }

    ghost function State(): State
      reads this, Tallies(), leaderSelector
    {
      TransactModel.State(Core(), validators, leaderSelector.validators)
    }

    constructor (sha: Sha, minValidators: nat, totalValidators: nat, hasChannel: bool, localWallet: Option<Wallet>, equivocators: set<Wallet>)
      ensures Valid() && State() == Initial(equivocators) && fresh(leaderSelector)
      ensures UsesCanonicalId(cfg, sha) && cfg == Config(cfg.idOf, minValidators, totalValidators, hasChannel, localWallet)
    {
      cfg := Config((r: Request) => CanonicalId(sha, r), minValidators, totalValidators, hasChannel, localWallet);
      pending, validators, emitted := map[], [], {};
      onchainWallets, onchainStakes, onchainRegistryTotal := {}, map[], 0;
      this.equivocators := equivocators;
      sent := [];
      leaderSelector := new LeaderSelector();
    }

    method RegisterValidatorWithWallet(node: NodeId, wallet: Option<Wallet>)
      requires Valid()
      modifies this`validators, leaderSelector
      ensures Valid() && State() == Step(cfg, old(State()), Register(node, wallet))
    {
      hide MayEmit, Emit, SubmitCore, SweepCore, WithStakes;
      if onchainWallets != {} {
        var admitted := if wallet.Some? then wallet.value in onchainWallets else false;
        if !admitted {
          return;
        }
      }
      if node !in validators {
        validators := validators + [node];
      }
      if node in leaderSelector.validators {
        var existing := leaderSelector.validators[node];
        if wallet.Some? && wallet != existing.wallet {
          leaderSelector.validators := leaderSelector.validators[node := existing.(wallet := wallet)];
        }
        leaderSelector.SetActive(node, true);
      } else {
        leaderSelector.RegisterValidator(ValidatorInfo(node, 0, 1000, true, wallet));
      }
      assert leaderSelector.validators == RegisterLeader(old(leaderSelector.validators), node, wallet);
      assert Rounds() == old(Rounds());
    }

    method UnregisterValidator(node: NodeId)
      requires Valid()
      modifies this`validators, leaderSelector
      ensures Valid() && State() == Step(cfg, old(State()), Unregister(node))
    {
      var kept: seq<NodeId> := [];
      for i := 0 to |validators|
        invariant kept == Without(validators[..i], node)
      {
        assert validators[..i + 1][..i] == validators[..i];
        if validators[i] != node {
          kept := kept + [validators[i]];
        }
      }
      assert validators[..|validators|] == validators;
      validators := kept;
      leaderSelector.SetActive(node, false);
    }

    method SyncOnchainStakes(stakes: Stakes, registryTotal: u64)
      requires Valid()
      modifies this`onchainWallets, this`onchainStakes, this`onchainRegistryTotal, leaderSelector
      ensures Valid() && State() == Step(cfg, old(State()), Sync(stakes, registryTotal))
    {
      hide MayEmit, Emit, SubmitCore, SweepCore, StartCore, RegisterStep, WithStakes;
      if stakes != map[] {
        onchainWallets := stakes.Keys;
        onchainRegistryTotal := registryTotal;
        onchainStakes := stakes;
      }
      leaderSelector.ApplyOnchainStakes(stakes);
    }

    method StartVerification(request: Request, now: nat) returns (r: Result<string, CoordinatorError>)
      requires Valid()
      modifies this`pending
      ensures Valid() && State() == Step(cfg, old(State()), Start(request, now))
      ensures r.Ok? <==> StartSucceeds(cfg, old(State()), request)
      ensures r.Ok? ==> r.value == request.requestId && r.value in pending
    {
      if request.requestId != cfg.idOf(request) {
        return Err(NotCanonicalId);
      }
      if validators == [] {
        return Err(NoValidators);
      }
      if |validators| < cfg.minValidators {
        return Err(NotEnoughValidators(|validators|, cfg.minValidators));
      }
      if request.requestId !in pending {
        var tally := new VoteTally(request.requestId, cfg.minValidators, cfg.totalValidators, now);
        pending := pending[request.requestId := TransactConsensus(request, tally)];
        assert Rounds() == StartCore(cfg, old(Core()), request, now).pending;
      }
      return Ok(request.requestId);
    }

    method SubmitResult(m: VoteMessage, receiverAlive: bool) returns (r: Result<(), CoordinatorError>)
      requires Valid()
      modifies this`equivocators, this`emitted, this`sent, Tallies()
      ensures Valid() && State() == Step(cfg, old(State()), Submit(m, receiverAlive))
      ensures r.Ok? <==> m.requestId in old(pending)
    {
      hide MayEmit, SweepCore, WithStakes, RegisterStep, Tallied;
      if m.requestId !in pending {
        return Err(RequestNotFound);
      }
      assert Rounds()[m.requestId].request == pending[m.requestId].request;
      var consensus := pending[m.requestId];
      if m.requestId != cfg.idOf(consensus.request) {
        return Ok(());
      }
      if m.wallet == "" || m.signature == [] {
        return Ok(());
      }
      if onchainWallets != {} && m.wallet !in onchainWallets {
        return Ok(());
      }
      TallyVote(m);
      if cfg.hasChannel {
        EmitIfApproved(m.requestId, receiverAlive);
      }
      return Ok(());
    }

    method TallyVote(m: VoteMessage)
      requires Valid() && m.requestId in pending
      modifies this`equivocators, pending[m.requestId].tally
      ensures State() == old(State()).(core := Tallied(old(Core()), m))
    {
      var tally := pending[m.requestId].tally;
      var evidence := tally.SubmitVote(m.wallet, m.validator, m.vote, m.signature);
      if evidence.Some? {
        equivocators := equivocators + {m.wallet};
      }
      assert Rounds() == Tallied(old(Core()), m).pending;
    }

    method EmitIfApproved(id: string, receiverAlive: bool)
      requires Valid() && id in pending && cfg.hasChannel
      modifies this`emitted, this`sent
      ensures State() == old(State()).(core := Emit(cfg, old(Core()), id, EligibleWallets(old(Core())), receiverAlive))
    {
      var eligible := onchainWallets - equivocators;
      var tally := pending[id].tally;
      ghost var before := Core();
      ghost var round := before.pending[id];
      assert round.votes == tally.votes && round.minValidators == tally.minValidators;
      hide StakeOf, StakeQuorum, EligibleVoters, ValidWallets, RejectReason;
      var result := tally.ConsensusResult(eligible);
      var met := StakeQuorumMet(tally.votes, onchainStakes, onchainRegistryTotal, equivocators, cfg.localWallet);
      var approve := id !in emitted && tally.HasConsensus(eligible) && met && result.Ok? && result.value.Valid?;
      assert approve <==> MayEmit(cfg, before, id, eligible);
      if approve && receiverAlive {
        sent := sent + [pending[id].request];
        emitted := emitted + {id};
      }
      assert Rounds() == before.pending;
    }

    /** The non-blocking check: `None` while votes or stake are missing, an error past the deadline. */
    method CheckConsensus(id: string, now: nat) returns (r: Result<Option<Vote>, CoordinatorError>)
      requires Valid()
      ensures r.Err? <==> id !in pending || now > pending[id].tally.deadline
      ensures r.Ok? ==>
                var votes, min := pending[id].tally.votes, pending[id].tally.minValidators;
                var eligible := EligibleWallets(Core());
                && (r.value == Some(Vote.Valid) <==>
                      && |ValidWallets(votes, eligible)| >= min
                      && |EligibleVoters(votes, eligible)| >= min
                      && StakeQuorum(votes, onchainStakes, onchainRegistryTotal, equivocators, cfg.localWallet))
                && (r.value.Some? && r.value.value.Invalid? <==>
                      |EligibleVoters(votes, eligible)| >= min && |ValidWallets(votes, eligible)| < min)
    {
      if id !in pending {
        return Err(RequestNotFound);
      }
      var tally := pending[id].tally;
      if tally.IsTimedOut(now) {
        return Err(VerificationTimedOut);
      }
      var eligible := onchainWallets - equivocators;
      if tally.HasConsensus(eligible) {
        var result := tally.ConsensusResult(eligible);
        if result.value.Valid? {
          var met := StakeQuorumMet(tally.votes, onchainStakes, onchainRegistryTotal, equivocators, cfg.localWallet);
          if !met {
            return Ok(None);
          }
        }
        return Ok(Some(result.value));
      }
      return Ok(None);
    }

    /** The co-signers of a pending request: the node ids its eligible Valid wallets voted from. */
    method ValidVotersOf(id: string) returns (out: seq<NodeId>)
      requires Valid()
      ensures id !in pending ==> out == []
      ensures id in pending ==>
                ListsNodes(pending[id].tally.votes, ValidWallets(pending[id].tally.votes, EligibleWallets(Core())), out)
    {
      if id !in pending {
        return [];
      }
      out := pending[id].tally.ValidVoters(onchainWallets - equivocators);
    }

    method ClearEmittedMark(id: string)
      requires Valid()
      modifies this`emitted
      ensures Valid() && State() == Step(cfg, old(State()), ClearEmitted(id))
    {
      emitted := emitted - {id};
    }

    method CleanupRound(id: string)
      requires Valid()
      modifies this`pending
      ensures Valid() && State() == Step(cfg, old(State()), Cleanup(id))
    {
      pending := pending - {id};
    }

    method CleanupTimeouts(now: nat) returns (count: nat)
      requires Valid()
      modifies this`pending, this`emitted
      ensures Valid() && State() == Step(cfg, old(State()), Sweep(now))
      ensures count == |TimedOut(old(Core()), now)|
    {
      ghost var before := Core();
      var timedOut := set id | id in pending && pending[id].tally.IsTimedOut(now);
      assert timedOut == TimedOut(before, now);
      count := |timedOut|;
      RemoveAll(timedOut);
      assert Rounds() == SweepCore(before, now).pending;
    }

    method RemoveAll(ids: set<string>)
      modifies this`pending, this`emitted
      ensures pending == old(pending) - ids
      ensures emitted == old(emitted) - ids
    {
      var todo := ids;
      while todo != {}
        invariant todo <= ids
        invariant pending - todo == old(pending) - ids
        invariant emitted - todo == old(emitted) - ids
        decreases |todo|
      {
        var id :| id in todo;
        pending := pending - {id};
        emitted := emitted - {id};
        todo := todo - {id};
      }
    }
  }
}
