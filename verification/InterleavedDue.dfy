/**
 Approvals that are due and unsent when votes are in flight at the same time.  Once no vote is in
 flight, an approval can be due only since one of the same four kinds of cause as in the runs whose
 operations are one step.
 */
module InterleavedDue {
  import opened Common
  import opened Tally
  import opened Quorum
  import opened TransactModel
  import opened TransactRuns
  import opened TransactInterleaved

  /** A write of a snapshot, the clearing of the mark, a sending without a receiver, or a ban from another round. */
  ghost predicate LateMove(s: Shared, e: Move, id: string) {
    match e
    case WriteWallets(_) => true
    case WriteTotal(_, _) => true
    case WriteStakes(_) => true
    case ClearMark(cleared) => cleared == id
    case Go(t, receiverAlive) =>
      t in s.tasks &&
      if s.tasks[t].message.requestId == id then s.tasks[t].phase.Staked? && !receiverAlive else s.tasks[t].phase.Banning?
    case _ => false
  }

  /** The eligible wallets that were read still carry enough Valid votes. */
  ghost predicate Enough(cfg: Config, c: Core, id: string, read: Core)
    requires id in c.pending
  {
    |ValidWallets(c.pending[id].votes, EligibleWallets(read))| >= cfg.minValidators
  }

  /** A vote on `id` is in flight, and what it has seen so far lets it send. */
  ghost predicate OnItsWay(cfg: Config, s: Shared, id: string, t: nat) {
    && t in s.tasks && s.tasks[t].message.requestId == id && id in s.core.pending
    && match s.tasks[t].phase
       case Installing => false
       case Banning => true
       case Reading => true
       case Waiting(read) => Enough(cfg, s.core, id, read)
       case Locked(read) => Enough(cfg, s.core, id, read)
       case Counted(read) => Enough(cfg, s.core, id, read)
       case Priced(read, total) => Enough(cfg, s.core, id, read) && total == s.core.registryTotal
       case Staked(read, _) => Enough(cfg, s.core, id, read)
  }

  lemma MoreVotesEnough(cfg: Config, c: Core, c': Core, id: string, read: Core)
    requires id in c.pending && id in c'.pending && VotesGrow(c.pending[id].votes, c'.pending[id].votes) && Enough(cfg, c, id, read)
    ensures Enough(cfg, c', id, read)
  {
    var eligible := EligibleWallets(read);
    FewerElements(ValidWallets(c.pending[id].votes, eligible), ValidWallets(c'.pending[id].votes, eligible));
  }

  lemma OnItsWayStable(cfg: Config, s: Shared, s': Shared, id: string, t: nat)
    requires OnItsWay(cfg, s, id, t) && t in s'.tasks && s'.tasks[t] == s.tasks[t] && id in s'.core.pending
    requires VotesGrow(s.core.pending[id].votes, s'.core.pending[id].votes) && s'.core.registryTotal == s.core.registryTotal
    ensures OnItsWay(cfg, s', id, t)
  {
    hide Enough, VotesGrow;
    var phase := s.tasks[t].phase;
    if !phase.Banning? && !phase.Reading? {
      MoreVotesEnough(cfg, s.core, s'.core, id, phase.read);
    }
  }

  // ---- a vote on its way stays on its way ----

  lemma OwnStep(cfg: Config, s: Shared, id: string, t: nat)
    requires Safe(cfg, s) && cfg.hasChannel && Due(cfg, s.core, id) && OnItsWay(cfg, s, id, t)
    requires Due(cfg, Proceed(cfg, s, t, true).core, id)
    ensures OnItsWay(cfg, Proceed(cfg, s, t, true), id, t)
  {
    var round := s.core.pending[id];
    assert RoundOk(cfg, id, round);
    match s.tasks[t].phase
    case Locked(read) => ValidAreEligible(round.votes, EligibleWallets(read));
    case Priced(read, total) => hide EligibleVoters, ValidWallets, StakeOf, CountedWallets;
    case _ =>
  }

  lemma DeadStep(cfg: Config, s: Shared, id: string, t: nat)
    requires Safe(cfg, s) && t in s.tasks && s.tasks[t].message.requestId == id && !s.tasks[t].phase.Staked?
    ensures Proceed(cfg, s, t, false) == Proceed(cfg, s, t, true)
  {}

  lemma OtherStep(cfg: Config, s: Shared, id: string, t: nat, u: nat, receiverAlive: bool)
    requires Safe(cfg, s) && OnItsWay(cfg, s, id, t) && u in s.tasks && u != t
    ensures OnItsWay(cfg, Proceed(cfg, s, u, receiverAlive), id, t)
  {
    hide EligibleVoters, ValidWallets, StakeQuorum, OnItsWay, Install;
    OnItsWayHasRound(cfg, s, id, t);
    ProceedKeeps(cfg, s, id, t, u, receiverAlive);
    OnItsWayStable(cfg, s, Proceed(cfg, s, u, receiverAlive), id, t);
  }

  lemma OnItsWayHasRound(cfg: Config, s: Shared, id: string, t: nat)
    requires OnItsWay(cfg, s, id, t)
    ensures t in s.tasks && id in s.core.pending
  {}

  lemma ProceedKeeps(cfg: Config, s: Shared, id: string, t: nat, u: nat, receiverAlive: bool)
    requires u in s.tasks && t in s.tasks && u != t && id in s.core.pending
    ensures var s' := Proceed(cfg, s, u, receiverAlive);
            && t in s'.tasks && s'.tasks[t] == s.tasks[t] && id in s'.core.pending
            && VotesGrow(s.core.pending[id].votes, s'.core.pending[id].votes) && s'.core.registryTotal == s.core.registryTotal
  {
    hide EligibleVoters, ValidWallets, StakeQuorum;
  }

  lemma StaysOnItsWay(cfg: Config, s: Shared, e: Move, id: string, t: nat)
    requires Safe(cfg, s) && cfg.hasChannel && Enabled(s, e) && !LateMove(s, e, id)
    requires Due(cfg, s.core, id) && Due(cfg, Next(cfg, s, e).core, id) && OnItsWay(cfg, s, id, t)
    ensures OnItsWay(cfg, Next(cfg, s, e), id, t)
  {
    hide Proceed, Due, Safe, Admitted, Enough;
    match e
    case Go(u, receiverAlive) =>
      if u == t {
        if !receiverAlive { DeadStep(cfg, s, id, t); }
        OwnStep(cfg, s, id, t);
      } else {
        OtherStep(cfg, s, id, t, u, receiverAlive);
      }
    case Arrive(u, m) =>
      OnItsWayStable(cfg, s, Next(cfg, s, e), id, t);
    case ClearMark(_) =>
      OnItsWayStable(cfg, s, Next(cfg, s, e), id, t);
    case _ =>
  }

  // ---- what makes an approval due ----

  lemma ProceedMakesDue(cfg: Config, s: Shared, id: string, t: nat, receiverAlive: bool)
    requires Safe(cfg, s) && cfg.hasChannel && t in s.tasks
    requires !Due(cfg, s.core, id) && Due(cfg, Proceed(cfg, s, t, receiverAlive).core, id)
    requires !LateMove(s, Go(t, receiverAlive), id)
    ensures OnItsWay(cfg, Proceed(cfg, s, t, receiverAlive), id, t)
  {
    var s' := Proceed(cfg, s, t, receiverAlive);
    DueHasRound(cfg, s'.core, id);
    ViewKept(cfg, s, id, t, receiverAlive);
    hide Due, EligibleVoters, ValidWallets, StakeQuorum, InstallVote;
    if SameView(s.core, s'.core, id) {
      DueBySameView(cfg, s.core, s'.core, id);
    }
  }

  /** Only the tally and the ban of a vote on `id`, a ban from elsewhere and the sending touch what its approval depends on. */
  lemma ViewKept(cfg: Config, s: Shared, id: string, t: nat, receiverAlive: bool)
    requires t in s.tasks && id in Proceed(cfg, s, t, receiverAlive).core.pending
    ensures var s', phase, own := Proceed(cfg, s, t, receiverAlive), s.tasks[t].phase, s.tasks[t].message.requestId == id;
            || SameView(s.core, s'.core, id) || id in s'.core.emitted
            || (own && id in s.core.pending && (phase.Installing? || phase.Banning?)) || (!own && phase.Banning?)
  {
    hide EligibleVoters, ValidWallets, StakeQuorum, Install;
  }

  lemma RoundsMakeNothingDue(cfg: Config, s: Shared, e: Move, id: string)
    requires cfg.minValidators >= 1 && Enabled(s, e) && (e.StartRound? || e.RemoveRound? || e.SweepRounds?)
    requires Due(cfg, Next(cfg, s, e).core, id)
    ensures Due(cfg, s.core, id)
  {
    var c' := Next(cfg, s, e).core;
    DueHasRound(cfg, c', id);
    hide Due;
    if e.StartRound? && c' != s.core {
      NewRoundIsNotDue(cfg, s.core, e.request, e.now, id);
    }
    DueBySameView(cfg, s.core, c', id);
  }

  lemma MoveMakesDue(cfg: Config, s: Shared, e: Move, id: string)
    requires Safe(cfg, s) && cfg.hasChannel && cfg.minValidators >= 1 && Enabled(s, e)
    requires !Due(cfg, s.core, id) && Due(cfg, Next(cfg, s, e).core, id)
    ensures LateMove(s, e, id) || (e.Go? && OnItsWay(cfg, Next(cfg, s, e), id, e.task))
  {
    hide Due, Proceed, Safe, Admitted, OnItsWay;
    var s' := Next(cfg, s, e);
    DueHasRound(cfg, s'.core, id);
    match e
    case Go(t, receiverAlive) =>
      if !LateMove(s, e, id) { ProceedMakesDue(cfg, s, id, t, receiverAlive); }
    case StartRound(_, _, _) => RoundsMakeNothingDue(cfg, s, e, id);
    case RemoveRound(_) => RoundsMakeNothingDue(cfg, s, e, id);
    case SweepRounds(_) => RoundsMakeNothingDue(cfg, s, e, id);
    case ClearMark(cleared) =>
      if cleared != id { DueBySameView(cfg, s.core, s'.core, id); }
    case _ =>
  }

  // ---- runs ----

  /** The approval was not due in state `m` and has been due ever since. */
  ghost predicate DueSince(cfg: Config, states: seq<Shared>, moves: seq<Move>, id: string, m: nat, n: nat)
    requires m <= n <= |moves| && |states| == |moves| + 1
  {
    && !Due(cfg, states[m].core, id)
    && (forall k :: m < k <= n ==> Due(cfg, states[k].core, id))
  }

  ghost predicate LateBetween(states: seq<Shared>, moves: seq<Move>, id: string, m: nat, n: nat)
    requires m <= n <= |moves| && |states| == |moves| + 1
  {
    exists i :: m <= i < n && LateMove(states[i], moves[i], id)
  }

  lemma {:induction false} DueWithReason(cfg: Config, banned: set<Wallet>, states: seq<Shared>, moves: seq<Move>, id: string, n: nat)
    returns (m: nat)
    requires Interleaving(cfg, banned, states, moves) && n <= |moves| && cfg.hasChannel && cfg.minValidators >= 1
    requires Due(cfg, states[n].core, id)
    ensures m < n && DueSince(cfg, states, moves, id, m, n)
    ensures LateBetween(states, moves, id, m, n) || exists t :: OnItsWay(cfg, states[n], id, t)
  {
    if n == 0 {
      DueHasRound(cfg, Start0(banned).core, id);
      assert false;
    } else {
      hide Due, Next, LateMove, OnItsWay;
      var s, e := states[n - 1], moves[n - 1];
      assert StepFrom(cfg, s, e, states[n]);
      AlwaysSafe(cfg, banned, states, moves, n - 1);
      if Due(cfg, s.core, id) {
        m := DueWithReason(cfg, banned, states, moves, id, n - 1);
        if LateBetween(states, moves, id, m, n - 1) {
          var i :| m <= i < n - 1 && LateMove(states[i], moves[i], id);
        } else if !LateMove(s, e, id) {
          var t :| OnItsWay(cfg, s, id, t);
          StaysOnItsWay(cfg, s, e, id, t);
        }
      } else {
        m := n - 1;
        MoveMakesDue(cfg, s, e, id);
      }
    }
  }

  /**
   Under any interleaving: if an approval is due and unsent while no vote is in flight, then it has
   been due since a state after which a snapshot was written, its mark was cleared, its sending
   found no receiver, or a flip in another round banned a wallet.
   */
  lemma InterleavedDueOnlyAfterLateMove(cfg: Config, banned: set<Wallet>, states: seq<Shared>, moves: seq<Move>, id: string, n: nat)
    returns (m: nat)
    requires Interleaving(cfg, banned, states, moves) && n <= |moves| && cfg.hasChannel && cfg.minValidators >= 1
    requires Due(cfg, states[n].core, id) && states[n].tasks == map[]
    ensures m < n && DueSince(cfg, states, moves, id, m, n) && LateBetween(states, moves, id, m, n)
  {
    m := DueWithReason(cfg, banned, states, moves, id, n);
    if t :| OnItsWay(cfg, states[n], id, t) {
      OnItsWayHasRound(cfg, states[n], id, t);
    }
  }
}
