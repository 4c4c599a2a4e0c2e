/** What holds of the settlement consensus in every run. */
module TransactRuns {
  import opened Common
  import opened Encoding
  import opened Tally
  import opened Quorum
  import opened TransactModel

  // ---- what every step keeps ----

  ghost predicate RoundOk(cfg: Config, id: string, round: Round) {
    && round.request.requestId == id == cfg.idOf(round.request)
    && round.minValidators == cfg.minValidators
  }

  /**
   Rounds are keyed by their own canonical id and carry the configured threshold; the wallet set
   is the key set of the stakes; and the registry total is zero until a snapshot has landed.
   */
  ghost predicate Inv(cfg: Config, c: Core) {
    && (forall id :: id in c.pending ==> RoundOk(cfg, id, c.pending[id]))
    && c.wallets == c.stakes.Keys
    && (c.wallets == {} ==> c.registryTotal == 0)
  }

  lemma InvStep(cfg: Config, s: State, e: Event)
    requires Inv(cfg, s.core)
    ensures Inv(cfg, Step(cfg, s, e).core)
  {
    hide MayEmit, RegisterLeader;
    if e.Sync? && e.stakes != map[] {
      var w :| w in e.stakes;
    }
  }

  lemma {:induction false} InvAlways(cfg: Config, banned: set<Wallet>, events: seq<Event>, n: nat)
    requires n <= |events|
    ensures Inv(cfg, At(cfg, Initial(banned), events, n).core)
  {
    if n > 0 {
      InvAlways(cfg, banned, events, n - 1);
      InvStep(cfg, At(cfg, Initial(banned), events, n - 1), events[n - 1]);
    }
  }

  /**
   A start for an id already in flight keeps the round and its votes, and that round is for the
   same settlement, short of a hash collision.
   */
  lemma DuplicateStartIsSameSettlement(
    cfg: Config, sha: Sha, banned: set<Wallet>, events: seq<Event>, n: nat, request: Request, now: nat)
    requires n <= |events| && request.requestId == cfg.idOf(request)
    requires request.requestId in At(cfg, Initial(banned), events, n).core.pending
    ensures var s := At(cfg, Initial(banned), events, n);
            var standing := s.core.pending[request.requestId].request;
            && Step(cfg, s, Start(request, now)) == s
            && cfg.idOf(standing) == cfg.idOf(request)
            && (UsesCanonicalId(cfg, sha) ==> SameSettlement(standing, request) || DigestCollision(sha, standing, request))
  {
    hide UsesCanonicalId, SameSettlement, DigestCollision;
    InvAlways(cfg, banned, events, n);
    var s := At(cfg, Initial(banned), events, n);
    assert RoundOk(cfg, request.requestId, s.core.pending[request.requestId]);
    if UsesCanonicalId(cfg, sha) {
      IdBindsSettlement(cfg, sha, s.core.pending[request.requestId].request, request);
    }
  }

  lemma IdBindsSettlement(cfg: Config, sha: Sha, a: Request, b: Request)
    requires UsesCanonicalId(cfg, sha)
    ensures cfg.idOf(a) == cfg.idOf(b) <==> SameSettlement(a, b) || DigestCollision(sha, a, b)
  {
    hide CanonicalId, SameSettlement, DigestCollision;
    CanonicalIdBindsSettlement(sha, a, b);
  }

  // ---- approvals are sound ----

  /** The staked, unbanned wallets at Valid, the authority left out, hold more than two thirds and no more than there is. */
  ghost predicate StakeBehind(c: Core, id: string, local: Wallet)
    requires id in c.pending
  {
    exists ws :: Behind(c.pending[id].votes, c.stakes, c.banned, local, ws)
                 && ClearsTwoThirds(Denominator(c.stakes, c.registryTotal, local), StakeOf(c.stakes, ws))
  }

  /** Everything an approval of `request`, sent in state `c`, stands on. */
  ghost predicate ApprovalSound(cfg: Config, c: Core, request: Request) {
    var id := request.requestId;
    && id in c.pending && c.pending[id].request == request
    && id == cfg.idOf(request)
    && id in c.emitted
    && |ValidWallets(c.pending[id].votes, EligibleWallets(c))| >= cfg.minValidators
    && (cfg.localWallet.Some? ==> StakeBehind(c, id, cfg.localWallet.value))
    && (NeedsSnapshot(cfg) ==> c.wallets != {})
  }

  /** Without a snapshot no wallet is eligible and no stake is known, so either setting rules approvals out. */
  predicate NeedsSnapshot(cfg: Config) { cfg.localWallet.Some? || cfg.minValidators >= 1 }

  lemma GateMeansStake(c: Core, id: string, local: Wallet)
    requires id in c.pending
    ensures StakeBehind(c, id, local) <==> StakeQuorum(c.pending[id].votes, c.stakes, c.registryTotal, c.banned, Some(local))
  {
    StakeQuorumExactly(c.pending[id].votes, c.stakes, c.registryTotal, c.banned, local);
  }

  /** A step sends nothing, or is a vote that sends one approval, and that approval is sound. */
  lemma ApprovalStep(cfg: Config, s: State, e: Event)
    requires Inv(cfg, s.core)
    ensures var t := Step(cfg, s, e);
            t.core.approvals == s.core.approvals ||
            (&& e.Submit? && cfg.hasChannel && e.receiverAlive
             && |t.core.approvals| == |s.core.approvals| + 1
             && t.core.approvals[..|s.core.approvals|] == s.core.approvals
             && t.core.approvals[|s.core.approvals|].requestId == e.message.requestId
             && ApprovalSound(cfg, t.core, t.core.approvals[|s.core.approvals|]))
  {
    hide StakeQuorum, StakeBehind, ValidWallets, EligibleVoters;
    if e.Submit? && Admitted(cfg, s.core, e.message) {
      var c, id := Tallied(s.core, e.message), e.message.requestId;
      if cfg.hasChannel && e.receiverAlive && MayEmit(cfg, c, id, EligibleWallets(c)) {
        InvTallied(cfg, s.core, e.message);
        var t := Step(cfg, s, e).core;
        if cfg.localWallet.Some? {
          GateMeansStake(t, id, cfg.localWallet.value);
          EligibleNeedsSnapshot(cfg, t, id);
        }
        if t.wallets == {} {
          ValidNeedSnapshot(t, t.pending[id].votes);
        }
      }
    }
  }

  /** The three conditions of an approval, on the state the vote has been tallied in. */
  ghost predicate Due(cfg: Config, c: Core, id: string) {
    && id in c.pending && id !in c.emitted
    && |ValidWallets(c.pending[id].votes, EligibleWallets(c))| >= cfg.minValidators
    && (cfg.localWallet.Some? ==>
          GateOpens(EligibleStake(c.stakes, c.registryTotal, cfg.localWallet.value),
                    StakeOf(c.stakes, CountedWallets(c.pending[id].votes, c.stakes, c.banned, cfg.localWallet.value))))
  }

  /**
   A vote sends the approval of its request exactly when it is admitted and, with it, the approval
   is due; that enough eligible wallets have voted at all is implied.
   */
  lemma SendsExactlyWhenDue(cfg: Config, c: Core, m: VoteMessage, receiverAlive: bool)
    requires Inv(cfg, c)
    ensures var c' := SubmitCore(cfg, c, m, receiverAlive);
            var due := cfg.hasChannel && receiverAlive && Admitted(cfg, c, m) && Due(cfg, Tallied(c, m), m.requestId);
            && (due ==> c'.approvals == c.approvals + [c.pending[m.requestId].request])
            && (!due ==> c'.approvals == c.approvals)
  {
    hide Due, MayEmit;
    if Admitted(cfg, c, m) {
      InvTallied(cfg, c, m);
      DueMeansMayEmit(cfg, Tallied(c, m), m.requestId);
    }
  }

  lemma DueMeansMayEmit(cfg: Config, c: Core, id: string)
    requires Inv(cfg, c)
    ensures Due(cfg, c, id) <==> MayEmit(cfg, c, id, EligibleWallets(c))
  {
    hide ValidWallets, EligibleVoters, StakeOf, CountedWallets;
    if id in c.pending {
      assert RoundOk(cfg, id, c.pending[id]);
      ValidAreEligible(c.pending[id].votes, EligibleWallets(c));
    }
  }

  lemma InvTallied(cfg: Config, c: Core, m: VoteMessage)
    requires Inv(cfg, c) && m.requestId in c.pending
    ensures Inv(cfg, Tallied(c, m))
  {
  }

  lemma EligibleNeedsSnapshot(cfg: Config, c: Core, id: string)
    requires id in c.pending && (c.wallets == {} ==> c.registryTotal == 0) && cfg.localWallet.Some?
    requires StakeBehind(c, id, cfg.localWallet.value)
    ensures c.wallets != {}
  {}

  lemma ValidNeedSnapshot(c: Core, votes: Votes)
    requires c.wallets == {}
    ensures ValidWallets(votes, EligibleWallets(c)) == {}
  {}

  // ---- approvals that are due and not sent ----

  /**
   How an approval can become due without being sent: by a snapshot, by the mark being cleared, by
   a vote whose receiver is gone, or by a flip in another round, whose ban ends an over-count.
   */
  ghost predicate LateCause(cfg: Config, c: Core, e: Event, id: string) {
    match e
    case Sync(stakes, _) => stakes != map[]
    case ClearEmitted(cleared) => cleared == id
    case Submit(m, receiverAlive) => Admitted(cfg, c, m) && if m.requestId == id then !receiverAlive else IsFlip(c, m)
    case _ => false
  }

  /** Whether the approval of `id` is due depends on nothing else. */
  ghost predicate SameView(c: Core, d: Core, id: string) {
    && id in c.pending && id in d.pending && c.pending[id] == d.pending[id]
    && c.wallets == d.wallets && c.stakes == d.stakes && c.registryTotal == d.registryTotal && c.banned == d.banned
    && (id in c.emitted <==> id in d.emitted)
  }

  lemma DueBySameView(cfg: Config, c: Core, d: Core, id: string)
    requires SameView(c, d, id)
    ensures Due(cfg, c, id) == Due(cfg, d, id)
  {}

  lemma VoteElsewhereKeepsView(cfg: Config, c: Core, m: VoteMessage, receiverAlive: bool, id: string)
    requires id in c.pending && m.requestId != id && !(Admitted(cfg, c, m) && IsFlip(c, m))
    ensures SameView(c, SubmitCore(cfg, c, m, receiverAlive), id)
  {
    hide MayEmit, Install;
  }

  lemma VoteKeepsRounds(cfg: Config, c: Core, m: VoteMessage, receiverAlive: bool)
    ensures SubmitCore(cfg, c, m, receiverAlive).pending.Keys == c.pending.Keys
  {
    hide MayEmit, Install;
  }

  lemma NewRoundIsNotDue(cfg: Config, c: Core, request: Request, now: nat, id: string)
    requires cfg.minValidators >= 1 && Due(cfg, StartCore(cfg, c, request, now), id)
    ensures id in c.pending && SameView(c, StartCore(cfg, c, request, now), id)
  {
    assert ValidWallets(map[], EligibleWallets(c)) == {};
  }

  lemma VoteMakesDue(cfg: Config, c: Core, m: VoteMessage, receiverAlive: bool, id: string)
    requires Inv(cfg, c) && cfg.hasChannel
    requires !Due(cfg, c, id) && Due(cfg, SubmitCore(cfg, c, m, receiverAlive), id)
    ensures LateCause(cfg, c, Submit(m, receiverAlive), id)
  {
    hide MayEmit;
    VoteKeepsRounds(cfg, c, m, receiverAlive);
    DueHasRound(cfg, SubmitCore(cfg, c, m, receiverAlive), id);
    hide Due;
    if m.requestId != id {
      if !(Admitted(cfg, c, m) && IsFlip(c, m)) {
        VoteElsewhereKeepsView(cfg, c, m, receiverAlive, id);
        DueBySameView(cfg, c, SubmitCore(cfg, c, m, receiverAlive), id);
      }
    } else if Admitted(cfg, c, m) && receiverAlive {
      InvTallied(cfg, c, m);
      DueMeansMayEmit(cfg, Tallied(c, m), id);
      DueHasRound(cfg, SubmitCore(cfg, c, m, receiverAlive), id);
    }
  }

  lemma DueHasRound(cfg: Config, c: Core, id: string)
    requires Due(cfg, c, id)
    ensures id in c.pending && id !in c.emitted
  {}

  lemma BecomesDue(cfg: Config, s: State, e: Event, id: string)
    requires Inv(cfg, s.core) && cfg.hasChannel && cfg.minValidators >= 1
    requires !Due(cfg, s.core, id) && Due(cfg, Step(cfg, s, e).core, id)
    ensures LateCause(cfg, s.core, e, id)
  {
    hide SubmitCore, Due;
    var c := Step(cfg, s, e).core;
    DueHasRound(cfg, c, id);
    match e
    case Submit(m, receiverAlive) => VoteMakesDue(cfg, s.core, m, receiverAlive, id);
    case Start(request, now) =>
      if StartSucceeds(cfg, s, request) {
        NewRoundIsNotDue(cfg, s.core, request, now, id);
        DueBySameView(cfg, s.core, c, id);
      }
    case Sync(_, _) =>
    case _ =>
      if !LateCause(cfg, s.core, e, id) {
        DueBySameView(cfg, s.core, c, id);
      }
  }

  /**
   An approval is sent the moment it is due, with these exceptions and no others: if it is due and
   unsent in some state of a run, then it has been due since one event that was not a vote able to
   send it.
   */
  lemma {:induction false} DueOnlyAfterLateCause(cfg: Config, banned: set<Wallet>, events: seq<Event>, id: string, n: nat) returns (i: nat)
    requires n <= |events| && cfg.hasChannel && cfg.minValidators >= 1
    requires Due(cfg, At(cfg, Initial(banned), events, n).core, id)
    ensures i < n && LateCause(cfg, At(cfg, Initial(banned), events, i).core, events[i], id)
    ensures !Due(cfg, At(cfg, Initial(banned), events, i).core, id)
    ensures forall k :: i < k <= n ==> Due(cfg, At(cfg, Initial(banned), events, k).core, id)
  {
    if n == 0 {
      DueHasRound(cfg, Initial(banned).core, id);
      assert false;
    } else {
      hide Due, Step, LateCause;
      var s := At(cfg, Initial(banned), events, n - 1);
      if Due(cfg, s.core, id) {
        i := DueOnlyAfterLateCause(cfg, banned, events, id, n - 1);
      } else {
        i := n - 1;
        InvAlways(cfg, banned, events, n - 1);
        BecomesDue(cfg, s, events[n - 1], id);
      }
    }
  }

  /** The exceptions are real: a Valid vote that arrives before the snapshot leaves the approval due and unsent. */
  lemma VoteBeforeSnapshotLeavesDue(cfg: Config, request: Request, node: NodeId, w: Wallet, now: nat)
    requires cfg.hasChannel && cfg.minValidators == 1 && cfg.localWallet != Some(w)
    requires request.requestId == cfg.idOf(request) && w != ""
    ensures var vote := VoteMessage(request.requestId, node, Valid, w, [1]);
            var c := Final(cfg, Initial({}), [Register(node, Some(w)), Start(request, now), Submit(vote, true), Sync(map[w := 5], 5)]).core;
            Due(cfg, c, request.requestId) && c.approvals == []
  {
    hide Step, Due;
    var vote := VoteMessage(request.requestId, node, Valid, w, [1]);
    FourSteps(cfg, Initial({}), Register(node, Some(w)), Start(request, now), Submit(vote, true), Sync(map[w := 5], 5));
    Opened(cfg, request, node, w, now);
    VoteTooEarly(cfg, request, node, w, now, vote, Step(cfg, Step(cfg, Initial({}), Register(node, Some(w))), Start(request, now)));
  }

  lemma FourSteps(cfg: Config, s: State, e: Event, f: Event, g: Event, h: Event)
    ensures Final(cfg, s, [e, f, g, h]) == Step(cfg, Step(cfg, Step(cfg, Step(cfg, s, e), f), g), h)
  {
    hide Step;
    var events := [e, f, g, h];
    assert At(cfg, s, events, 1) == Step(cfg, s, e);
    assert At(cfg, s, events, 2) == Step(cfg, Step(cfg, s, e), f);
    assert At(cfg, s, events, 3) == Step(cfg, At(cfg, s, events, 2), g);
    assert At(cfg, s, events, 4) == Step(cfg, Step(cfg, At(cfg, s, events, 2), g), h);
  }

  /** A coordinator without a snapshot that has one round, with these votes. */
  function OneRound(cfg: Config, request: Request, votes: Votes, now: nat): Core {
    Core(map[request.requestId := Round(request, votes, now + 30, cfg.minValidators)], {}, {}, map[], 0, {}, [])
  }

  lemma Opened(cfg: Config, request: Request, node: NodeId, w: Wallet, now: nat)
    requires cfg.minValidators == 1 && request.requestId == cfg.idOf(request)
    ensures Step(cfg, Step(cfg, Initial({}), Register(node, Some(w))), Start(request, now)).core == OneRound(cfg, request, map[], now)
  {}

  lemma VoteTooEarly(cfg: Config, request: Request, node: NodeId, w: Wallet, now: nat, vote: VoteMessage, s: State)
    requires cfg.minValidators == 1 && cfg.localWallet != Some(w) && request.requestId == cfg.idOf(request) && w != ""
    requires vote == VoteMessage(request.requestId, node, Valid, w, [1]) && s.core == OneRound(cfg, request, map[], now)
    ensures var c := Step(cfg, Step(cfg, s, Submit(vote, true)), Sync(map[w := 5], 5)).core;
            Due(cfg, c, request.requestId) && c.approvals == []
  {
    var votes := map[w := VoteRecord(Valid, node, [1])];
    var voted := OneRound(cfg, request, votes, now);
    assert Tallied(s.core, vote) == voted;
    assert EligibleVoters(votes, {}) == {};
    assert SubmitCore(cfg, s.core, vote, true) == voted;
    var c := SyncCore(voted, map[w := 5], 5);
    assert ValidWallets(votes, EligibleWallets(c)) == {w};
    if cfg.localWallet.Some? {
      assert CountedWallets(votes, c.stakes, {}, cfg.localWallet.value) == {w};
      StakeOfSingle(c.stakes, w);
    }
  }

  /** A non-empty snapshot was applied among the first `n` events. */
  ghost predicate SnapshotLanded(events: seq<Event>, n: nat)
    requires n <= |events|
  {
    exists k :: 0 <= k < n && events[k].Sync? && events[k].stakes != map[]
  }

  lemma {:induction false} WalletsComeFromSnapshot(cfg: Config, banned: set<Wallet>, events: seq<Event>, n: nat)
    requires n <= |events|
    requires At(cfg, Initial(banned), events, n).core.wallets != {}
    ensures SnapshotLanded(events, n)
  {
    var s, e := At(cfg, Initial(banned), events, n - 1), events[n - 1];
    if !(e.Sync? && e.stakes != map[]) {
      assert s.core.wallets == Step(cfg, s, e).core.wallets;
      WalletsComeFromSnapshot(cfg, banned, events, n - 1);
    }
  }

  /** Approval number `k` of the run was sent by event `n`, and it was sound then. */
  ghost predicate SentAt(cfg: Config, banned: set<Wallet>, events: seq<Event>, n: nat, k: nat, request: Request) {
    && n < |events| && events[n].Submit?
    && |At(cfg, Initial(banned), events, n).core.approvals| == k
    && ApprovalSound(cfg, At(cfg, Initial(banned), events, n + 1).core, request)
    && (NeedsSnapshot(cfg) ==> SnapshotLanded(events, n))
  }

  /**
   In every run, every approval that was ever sent was sent by some vote, for a pending request
   under its own canonical id, with enough eligible Valid wallets and, when the authority's
   wallet is configured, with more than two thirds of the eligible stake behind it; and, with a
   minimum of at least one or that wallet configured, never before a non-empty snapshot.
   */
  lemma {:induction false} EveryApprovalIsSound(cfg: Config, banned: set<Wallet>, events: seq<Event>, n: nat, k: nat)
    requires n <= |events| && k < |At(cfg, Initial(banned), events, n).core.approvals|
    ensures exists i :: 0 <= i < n && SentAt(cfg, banned, events, i, k, At(cfg, Initial(banned), events, n).core.approvals[k])
  {
    hide ApprovalSound, Step;
    if n > 0 {
      var s, e := At(cfg, Initial(banned), events, n - 1), events[n - 1];
      var t := At(cfg, Initial(banned), events, n);
      InvAlways(cfg, banned, events, n - 1);
      ApprovalStep(cfg, s, e);
      if k < |s.core.approvals| {
        assert s.core.approvals[k] == t.core.approvals[k];
        EveryApprovalIsSound(cfg, banned, events, n - 1, k);
      } else {
        if NeedsSnapshot(cfg) {
          SoundNeedsWallets(cfg, t.core, t.core.approvals[k]);
          WalletsComeFromSnapshot(cfg, banned, events, n);
          assert events[n - 1].Submit?;
        }
        assert SentAt(cfg, banned, events, n - 1, k, t.core.approvals[k]);
      }
    }
  }

  lemma SoundNeedsWallets(cfg: Config, c: Core, request: Request)
    requires ApprovalSound(cfg, c, request) && NeedsSnapshot(cfg)
    ensures c.wallets != {}
  {}

  // ---- exactly once ----

  ghost function Sent(approvals: seq<Request>, id: string): nat {
    if approvals == [] then 0
    else
      var n := |approvals| - 1;
      Sent(approvals[..n], id) + if approvals[n].requestId == id then 1 else 0
  }

  /** How often the mark of `id` was actually taken off the emitted set. */
  ghost function Unmarked(cfg: Config, s: State, events: seq<Event>, id: string, n: nat): nat
    requires n <= |events|
  {
    if n == 0 then 0
    else
      Unmarked(cfg, s, events, id, n - 1) +
      if id in At(cfg, s, events, n - 1).core.emitted && id !in At(cfg, s, events, n).core.emitted then 1 else 0
  }

  /** Events that may take the mark of `id` off: clearing it, or a timeout sweep. */
  ghost function ClearRequests(events: seq<Event>, id: string, n: nat): nat
    requires n <= |events|
  {
    if n == 0 then 0
    else ClearRequests(events, id, n - 1) + if events[n - 1] == ClearEmitted(id) || events[n - 1].Sweep? then 1 else 0
  }

  lemma MarkVote(cfg: Config, c: Core, m: VoteMessage, receiverAlive: bool, id: string)
    requires Inv(cfg, c)
    ensures var c' := SubmitCore(cfg, c, m, receiverAlive);
            && c.emitted <= c'.emitted
            && Sent(c'.approvals, id) - Sent(c.approvals, id) == (if id in c'.emitted && id !in c.emitted then 1 else 0)
  {
    hide StakeQuorum, ValidWallets, EligibleVoters, EligibleWallets;
    var c' := SubmitCore(cfg, c, m, receiverAlive);
    if c'.approvals != c.approvals {
      InvTallied(cfg, c, m);
      assert c'.approvals[..|c.approvals|] == c.approvals;
    }
  }

  lemma MarkStep(cfg: Config, s: State, e: Event, id: string)
    requires Inv(cfg, s.core)
    ensures var t := Step(cfg, s, e);
            && Sent(t.core.approvals, id) - Sent(s.core.approvals, id)
               == (if id in t.core.emitted && id !in s.core.emitted then 1 else 0)
            && (id in s.core.emitted && id !in t.core.emitted ==> e == ClearEmitted(id) || e.Sweep?)
  {
    if e.Submit? {
      MarkVote(cfg, s.core, e.message, e.receiverAlive, id);
    }
  }

  /**
   Exactly once: the approvals sent for an id are one for each time its mark was taken off, plus
   one if it is marked now; so never more than one plus the number of clears and sweeps.
   */
  lemma {:induction false} SentExactlyOncePerMark(cfg: Config, banned: set<Wallet>, events: seq<Event>, id: string, n: nat)
    requires n <= |events|
    ensures var s := At(cfg, Initial(banned), events, n);
            && Sent(s.core.approvals, id)
               == Unmarked(cfg, Initial(banned), events, id, n) + (if id in s.core.emitted then 1 else 0)
            && Unmarked(cfg, Initial(banned), events, id, n) <= ClearRequests(events, id, n)
  {
    hide Step;
    if n > 0 {
      SentExactlyOncePerMark(cfg, banned, events, id, n - 1);
      InvAlways(cfg, banned, events, n - 1);
      MarkStep(cfg, At(cfg, Initial(banned), events, n - 1), events[n - 1], id);
    }
  }
}
