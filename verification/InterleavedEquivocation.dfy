/**
 Votes, flips and bans when votes are in flight at the same time.  Records stand and bans are for
 good as before; but a task keeps the eligible wallets it has read, so a wallet banned after that
 still counts for it.
 */
module InterleavedEquivocation {
  import opened Common
  import opened Encoding
  import opened Tally
  import opened Quorum
  import opened TransactModel
  import opened TransactRuns
  import opened TransactInterleaved
  import opened Equivocation

  ghost predicate PendingInAll(states: seq<Shared>, id: string, m: nat, n: nat)
    requires m <= n < |states|
  {
    forall k :: m <= k <= n ==> id in states[k].core.pending
  }

  // ---- records stand ----

  lemma RecordMove(cfg: Config, s: Shared, e: Move, id: string, w: Wallet)
    requires Enabled(s, e) && HasVoted(s.core, id, w) && id in Next(cfg, s, e).core.pending
    ensures HasVoted(Next(cfg, s, e).core, id, w)
    ensures Next(cfg, s, e).core.pending[id].votes[w] == s.core.pending[id].votes[w]
  {
    hide StakeQuorum, EligibleVoters, ValidWallets, Admitted;
  }

  /** Under any interleaving, while a round lasts the record of a wallet that has voted never changes. */
  lemma {:induction false} InterleavedRecordStands(
    cfg: Config, banned: set<Wallet>, states: seq<Shared>, moves: seq<Move>, id: string, w: Wallet, m: nat, n: nat)
    requires Interleaving(cfg, banned, states, moves) && m <= n <= |moves| && PendingInAll(states, id, m, n)
    requires HasVoted(states[m].core, id, w)
    ensures HasVoted(states[n].core, id, w)
    ensures states[n].core.pending[id].votes[w] == states[m].core.pending[id].votes[w]
    decreases n
  {
    hide Next;
    if m < n {
      InterleavedRecordStands(cfg, banned, states, moves, id, w, m, n - 1);
      assert StepFrom(cfg, states[n - 1], moves[n - 1], states[n]);
      RecordMove(cfg, states[n - 1], moves[n - 1], id, w);
    }
  }

  // ---- bans ----

  /** The move is a ban of `w`: the step of a task that has found a flip. */
  ghost predicate BanMove(s: Shared, e: Move, w: Wallet) {
    e.Go? && e.task in s.tasks && s.tasks[e.task].phase.Banning? && s.tasks[e.task].message.wallet == w
  }

  lemma BannedMove(cfg: Config, s: Shared, e: Move, w: Wallet)
    requires Enabled(s, e)
    ensures s.core.banned <= Next(cfg, s, e).core.banned
    ensures w in Next(cfg, s, e).core.banned && w !in s.core.banned ==> BanMove(s, e, w)
  {
    hide StakeQuorum, EligibleVoters, ValidWallets, Admitted, Install;
  }

  lemma {:induction false} InterleavedBansAreForGood(
    cfg: Config, banned: set<Wallet>, states: seq<Shared>, moves: seq<Move>, m: nat, n: nat)
    requires Interleaving(cfg, banned, states, moves) && m <= n <= |moves|
    ensures states[m].core.banned <= states[n].core.banned
    decreases n
  {
    hide Next;
    if m < n {
      InterleavedBansAreForGood(cfg, banned, states, moves, m, n - 1);
      assert StepFrom(cfg, states[n - 1], moves[n - 1], states[n]);
      BannedMove(cfg, states[n - 1], moves[n - 1], "");
    }
  }

  /** The ban of `w` fell at move `b`. */
  ghost predicate BannedBy(states: seq<Shared>, moves: seq<Move>, b: nat, w: Wallet)
    requires b < |moves| && |states| == |moves| + 1
  {
    w !in states[b].core.banned && w in states[b + 1].core.banned && BanMove(states[b], moves[b], w)
  }

  /** The ban of `w` fell between the states `m` and `n`. */
  ghost predicate BannedBetween(states: seq<Shared>, moves: seq<Move>, m: nat, n: nat, w: Wallet)
    requires n <= |moves| && |states| == |moves| + 1
  {
    exists b :: m <= b < n && BannedBy(states, moves, b, w)
  }

  lemma {:induction false} BanFellBetween(
    cfg: Config, banned: set<Wallet>, states: seq<Shared>, moves: seq<Move>, m: nat, n: nat, w: Wallet)
    requires Interleaving(cfg, banned, states, moves) && m <= n <= |moves|
    requires w !in states[m].core.banned && w in states[n].core.banned
    ensures BannedBetween(states, moves, m, n, w)
    decreases n
  {
    hide Next, BanMove;
    assert StepFrom(cfg, states[n - 1], moves[n - 1], states[n]);
    if w in states[n - 1].core.banned {
      BanFellBetween(cfg, banned, states, moves, m, n - 1, w);
      var b :| m <= b < n - 1 && BannedBy(states, moves, b, w);
    } else {
      BannedMove(cfg, states[n - 1], moves[n - 1], w);
      assert BannedBy(states, moves, n - 1, w);
    }
  }

  // ---- only flips ban ----

  /** Move `i` tallies the vote `m`. */
  ghost predicate Tallies(states: seq<Shared>, moves: seq<Move>, i: nat, m: VoteMessage) {
    && i < |moves| && i < |states| && moves[i].Go? && moves[i].task in states[i].tasks
    && states[i].tasks[moves[i].task] == Task(m, Installing)
  }

  lemma NewRecordMove(cfg: Config, s: Shared, e: Move, id: string, w: Wallet)
    requires Enabled(s, e) && HasVoted(Next(cfg, s, e).core, id, w)
    ensures id in s.core.pending && (
              || (HasVoted(s.core, id, w) && s.core.pending[id].votes[w] == Next(cfg, s, e).core.pending[id].votes[w])
              || (&& e.Go? && s.tasks[e.task].phase.Installing?
                  && var m := s.tasks[e.task].message;
                     m.requestId == id && m.wallet == w && RecordOf(m) == Next(cfg, s, e).core.pending[id].votes[w]))
  {
    hide StakeQuorum, EligibleVoters, ValidWallets, Admitted;
  }

  /** A standing record was put there by a vote tallied in the same round. */
  lemma {:induction false} InterleavedRecordsComeFromVotes(
    cfg: Config, banned: set<Wallet>, states: seq<Shared>, moves: seq<Move>, n: nat, id: string, w: Wallet)
    returns (i: nat, m: VoteMessage)
    requires Interleaving(cfg, banned, states, moves) && n <= |moves| && HasVoted(states[n].core, id, w)
    ensures i < n && Tallies(states, moves, i, m) && PendingInAll(states, id, i, n)
    ensures m.requestId == id && m.wallet == w && RecordOf(m) == states[n].core.pending[id].votes[w]
  {
    hide Next;
    var s, e := states[n - 1], moves[n - 1];
    assert StepFrom(cfg, s, e, states[n]);
    NewRecordMove(cfg, s, e, id, w);
    if HasVoted(s.core, id, w) && s.core.pending[id].votes[w] == states[n].core.pending[id].votes[w] {
      i, m := InterleavedRecordsComeFromVotes(cfg, banned, states, moves, n - 1, id, w);
    } else {
      i, m := n - 1, s.tasks[e.task].message;
    }
  }

  lemma EntersBanning(cfg: Config, s: Shared, e: Move, t: nat)
    requires Enabled(s, e) && t in Next(cfg, s, e).tasks && Next(cfg, s, e).tasks[t].phase.Banning?
    ensures t in s.tasks && s.tasks[t].message == Next(cfg, s, e).tasks[t].message
    ensures s.tasks[t].phase.Banning? || (&& e.Go? && e.task == t && s.tasks[t].phase.Installing?
                                          && s.tasks[t].message.requestId in s.core.pending
                                          && IsFlip(s.core, s.tasks[t].message))
  {
    hide StakeQuorum, EligibleVoters, ValidWallets, Admitted, InstallVote, IsFlip;
  }

  /** A task about to ban has tallied a vote that flips the record standing then. */
  lemma {:induction false} BanningFollowsFlip(
    cfg: Config, banned: set<Wallet>, states: seq<Shared>, moves: seq<Move>, n: nat, t: nat)
    returns (j: nat)
    requires Interleaving(cfg, banned, states, moves) && n <= |moves| && t in states[n].tasks && states[n].tasks[t].phase.Banning?
    ensures var m := states[n].tasks[t].message;
            j < n && Tallies(states, moves, j, m) && m.requestId in states[j].core.pending && IsFlip(states[j].core, m)
  {
    hide Next, IsFlip;
    assert StepFrom(cfg, states[n - 1], moves[n - 1], states[n]);
    EntersBanning(cfg, states[n - 1], moves[n - 1], t);
    if states[n - 1].tasks[t].phase.Banning? {
      j := BanningFollowsFlip(cfg, banned, states, moves, n - 1, t);
    } else {
      j := n - 1;
    }
  }

  /** Under any interleaving only flips ban: two votes of `w` tallied in one round, of opposite kind. */
  lemma InterleavedOnlyFlipsBan(cfg: Config, banned: set<Wallet>, states: seq<Shared>, moves: seq<Move>, n: nat, w: Wallet)
    returns (i: nat, a: VoteMessage, j: nat, b: VoteMessage)
    requires Interleaving(cfg, banned, states, moves) && n <= |moves| && w !in banned && w in states[n].core.banned
    ensures i < j < n && Tallies(states, moves, i, a) && Tallies(states, moves, j, b)
    ensures a.requestId == b.requestId && a.wallet == b.wallet == w && a.vote.Valid? != b.vote.Valid?
    ensures PendingInAll(states, a.requestId, i, j)
  {
    hide Next;
    assert states[0].core.banned == banned;
    BanFellBetween(cfg, banned, states, moves, 0, n, w);
    var at :| 0 <= at < n && BannedBy(states, moves, at, w);
    b := states[at].tasks[moves[at].task].message;
    j := BanningFollowsFlip(cfg, banned, states, moves, at, moves[at].task);
    i, a := InterleavedRecordsComeFromVotes(cfg, banned, states, moves, j, b.requestId, w);
  }

  /** Two votes of `w` are tallied in one round, at moves `i` and `j`, and are of opposite kind. */
  ghost predicate TalliedFlip(states: seq<Shared>, moves: seq<Move>, i: nat, a: VoteMessage, j: nat, b: VoteMessage, w: Wallet) {
    && i < j < |states| && Tallies(states, moves, i, a) && Tallies(states, moves, j, b)
    && a.requestId == b.requestId && a.wallet == b.wallet == w && a.vote.Valid? != b.vote.Valid?
    && PendingInAll(states, a.requestId, i, j)
  }

  /** `w` is banned, or a task is about to ban it. */
  ghost predicate BannedOrBanning(s: Shared, w: Wallet) {
    w in s.core.banned || exists t :: BanningTask(s, t, w)
  }

  ghost predicate BanningTask(s: Shared, t: nat, w: Wallet) {
    t in s.tasks && s.tasks[t].phase.Banning? && s.tasks[t].message.wallet == w
  }

  lemma BanningMove(cfg: Config, s: Shared, e: Move, t: nat, w: Wallet)
    requires Enabled(s, e) && BanningTask(s, t, w)
    ensures w in Next(cfg, s, e).core.banned || BanningTask(Next(cfg, s, e), t, w)
  {
    hide StakeQuorum, EligibleVoters, ValidWallets, Admitted, Install;
  }

  lemma {:induction false} BanStays(
    cfg: Config, banned: set<Wallet>, states: seq<Shared>, moves: seq<Move>, m: nat, n: nat, w: Wallet)
    requires Interleaving(cfg, banned, states, moves) && m <= n <= |moves| && BannedOrBanning(states[m], w)
    ensures BannedOrBanning(states[n], w)
    decreases n
  {
    hide Next, BanningTask;
    if m < n {
      BanStays(cfg, banned, states, moves, m, n - 1, w);
      assert StepFrom(cfg, states[n - 1], moves[n - 1], states[n]);
      BannedMove(cfg, states[n - 1], moves[n - 1], w);
      if w !in states[n - 1].core.banned {
        var t :| BanningTask(states[n - 1], t, w);
        BanningMove(cfg, states[n - 1], moves[n - 1], t, w);
      }
    }
  }

  lemma TallyMove(cfg: Config, s: Shared, t: nat, receiverAlive: bool)
    requires t in s.tasks && s.tasks[t].phase.Installing? && s.tasks[t].message.requestId in s.core.pending
    ensures var m, s' := s.tasks[t].message, Proceed(cfg, s, t, receiverAlive);
            var id, w := m.requestId, m.wallet;
            && HasVoted(s'.core, id, w)
            && s'.core.pending[id].votes[w] == (if HasVoted(s.core, id, w) then s.core.pending[id].votes[w] else RecordOf(m))
            && (HasVoted(s.core, id, w) && s.core.pending[id].votes[w].vote.Valid? != m.vote.Valid? ==> BanningTask(s', t, w))
  {}

  /** Under any interleaving a wallet that flips, whichever way, is banned or about to be ever after. */
  lemma InterleavedFlipBans(
    cfg: Config, banned: set<Wallet>, states: seq<Shared>, moves: seq<Move>, i: nat, a: VoteMessage, j: nat, b: VoteMessage, n: nat, w: Wallet)
    requires Interleaving(cfg, banned, states, moves) && TalliedFlip(states, moves, i, a, j, b, w) && j < n <= |moves|
    ensures BannedOrBanning(states[n], w)
  {
    hide Next, Proceed, BanningTask;
    var id := a.requestId;
    GoesFrom(cfg, banned, states, moves, i);
    GoesFrom(cfg, banned, states, moves, j);
    TallyMove(cfg, states[i], moves[i].task, moves[i].receiverAlive);
    TallyMove(cfg, states[j], moves[j].task, moves[j].receiverAlive);
    if HasVoted(states[i].core, id, w) && states[i].core.pending[id].votes[w].vote.Valid? != a.vote.Valid? {
      BanStays(cfg, banned, states, moves, i + 1, n, w);
    } else {
      InterleavedRecordStands(cfg, banned, states, moves, id, w, i + 1, j);
      BanStays(cfg, banned, states, moves, j + 1, n, w);
    }
  }

  lemma GoesFrom(cfg: Config, banned: set<Wallet>, states: seq<Shared>, moves: seq<Move>, i: nat)
    requires Interleaving(cfg, banned, states, moves) && i < |moves| && moves[i].Go?
    ensures moves[i].task in states[i].tasks && states[i + 1] == Proceed(cfg, states[i], moves[i].task, moves[i].receiverAlive)
  {
    hide Proceed;
    assert StepFrom(cfg, states[i], moves[i], states[i + 1]);
  }

  /** Under any interleaving, exactly the wallets that were banned from the start or have flipped are banned or about to be. */
  lemma InterleavedBannedExactly(cfg: Config, banned: set<Wallet>, states: seq<Shared>, moves: seq<Move>, n: nat, w: Wallet)
    requires Interleaving(cfg, banned, states, moves) && n <= |moves|
    ensures BannedOrBanning(states[n], w) <==>
            w in banned || exists i: nat, a, j: nat, b :: j < n && TalliedFlip(states, moves, i, a, j, b, w)
  {
    hide Next, BanningTask, TalliedFlip;
    assert states[0].core.banned == banned;
    if w in banned {
      BanStays(cfg, banned, states, moves, 0, n, w);
    } else if BannedOrBanning(states[n], w) {
      var i, a, j, b := FlipBehindBan(cfg, banned, states, moves, n, w);
    } else if i: nat, a, j: nat, b :| j < n && TalliedFlip(states, moves, i, a, j, b, w) {
      InterleavedFlipBans(cfg, banned, states, moves, i, a, j, b, n, w);
    }
  }

  lemma FlipBehindBan(cfg: Config, banned: set<Wallet>, states: seq<Shared>, moves: seq<Move>, n: nat, w: Wallet)
    returns (i: nat, a: VoteMessage, j: nat, b: VoteMessage)
    requires Interleaving(cfg, banned, states, moves) && n <= |moves| && w !in banned && BannedOrBanning(states[n], w)
    ensures j < n && TalliedFlip(states, moves, i, a, j, b, w)
  {
    hide Next;
    if w in states[n].core.banned {
      i, a, j, b := InterleavedOnlyFlipsBan(cfg, banned, states, moves, n, w);
    } else {
      var t :| BanningTask(states[n], t, w);
      b := states[n].tasks[t].message;
      j := BanningFollowsFlip(cfg, banned, states, moves, n, t);
      i, a := InterleavedRecordsComeFromVotes(cfg, banned, states, moves, j, b.requestId, w);
    }
  }

  // ---- what a ban does to approvals in flight ----

  /**
   The exact rule for the wallets an approval sent by move `m` counts: none was banned when its
   vote read the eligible wallets (state `i`), none counted for stake was banned when the stake was
   checked (state `j`), and one that is banned at sending was banned since.
   */
  ghost predicate CountsOnlyUnbanned(cfg: Config, states: seq<Shared>, moves: seq<Move>, i: nat, j: nat, m: nat, checked: Core, id: string)
    requires i <= j <= m <= |moves| && |states| == |moves| + 1
    requires id in states[m].core.pending && id in checked.pending
  {
    && (forall w :: w in ValidWallets(states[m].core.pending[id].votes, EligibleWallets(states[i].core)) ==>
          && w !in states[i].core.banned
          && (w in states[m].core.banned <==> BannedBetween(states, moves, i, m, w)))
    && (cfg.localWallet.Some? ==>
          forall w :: w in CountedWallets(checked.pending[id].votes, checked.stakes, checked.banned, cfg.localWallet.value) ==>
            && w !in states[j].core.banned
            && (w in states[m].core.banned <==> BannedBetween(states, moves, j, m, w)))
  }

  lemma BannedExactlySince(cfg: Config, banned: set<Wallet>, states: seq<Shared>, moves: seq<Move>, i: nat, m: nat, w: Wallet)
    requires Interleaving(cfg, banned, states, moves) && i <= m <= |moves| && w !in states[i].core.banned
    ensures w in states[m].core.banned <==> BannedBetween(states, moves, i, m, w)
  {
    hide Interleaving, BanMove;
    RunShape(cfg, banned, states, moves);
    if w in states[m].core.banned {
      BanFellBetween(cfg, banned, states, moves, i, m, w);
    } else if BannedBetween(states, moves, i, m, w) {
      var b :| i <= b < m && BannedBy(states, moves, b, w);
      InterleavedBansAreForGood(cfg, banned, states, moves, b + 1, m);
      assert false;
    }
  }

  /** An approval was backed and counts only wallets that were unbanned when it looked at them. */
  ghost predicate SentUnderRule(cfg: Config, states: seq<Shared>, moves: seq<Move>, m: nat, request: Request)
    requires m <= |moves| && |states| == |moves| + 1
  {
    exists read, checked, i, h, j ::
      && 0 <= i <= h <= j <= m && ReadAndChecked(states, i, h, j, read, checked)
      && Backed(cfg, read, checked, states[m].core, request)
      && CountsOnlyUnbanned(cfg, states, moves, i, j, m, checked, request.requestId)
  }

  /** Under any interleaving every approval ever sent obeys the rule. */
  lemma ApprovalsCountOnlyUnbanned(
    cfg: Config, banned: set<Wallet>, states: seq<Shared>, moves: seq<Move>, n: nat, k: nat)
    returns (m: nat)
    requires Interleaving(cfg, banned, states, moves) && n <= |moves| && k < |states[n].core.approvals|
    ensures m < n && |states[m].core.approvals| == k && SentUnderRule(cfg, states, moves, m, states[n].core.approvals[k])
  {
    hide ReadAndChecked, Interleaving;
    m := EveryInterleavedApprovalIsBacked(cfg, banned, states, moves, n, k);
    RunShape(cfg, banned, states, moves);
    var request := states[n].core.approvals[k];
    var read, checked, i, h, j :| 0 <= i <= h <= j <= m && ReadAndChecked(states, i, h, j, read, checked)
                                  && Backed(cfg, read, checked, states[m].core, request);
    RuleHolds(cfg, banned, states, moves, m, request, read, checked, i, h, j);
  }

  lemma RunShape(cfg: Config, banned: set<Wallet>, states: seq<Shared>, moves: seq<Move>)
    requires Interleaving(cfg, banned, states, moves)
    ensures |states| == |moves| + 1
  {}

  lemma RuleHolds(
    cfg: Config, banned: set<Wallet>, states: seq<Shared>, moves: seq<Move>, m: nat, request: Request,
    read: Core, checked: Core, i: nat, h: nat, j: nat)
    requires Interleaving(cfg, banned, states, moves) && i <= h <= j <= m <= |moves|
    requires ReadAndChecked(states, i, h, j, read, checked) && Backed(cfg, read, checked, states[m].core, request)
    ensures CountsOnlyUnbanned(cfg, states, moves, i, j, m, checked, request.requestId)
  {
    hide BannedBetween, StakeBehind, VotesGrow;
    forall w | w !in states[i].core.banned ensures w in states[m].core.banned <==> BannedBetween(states, moves, i, m, w) {
      BannedExactlySince(cfg, banned, states, moves, i, m, w);
    }
    forall w | w !in states[j].core.banned ensures w in states[m].core.banned <==> BannedBetween(states, moves, j, m, w) {
      BannedExactlySince(cfg, banned, states, moves, j, m, w);
    }
  }

  /** `w` stands at Valid now, and is neither the authority nor was it banned or unstaked when the stake was checked. */
  ghost predicate StillBehind(checked: Core, now: Core, id: string, local: Wallet, w: Wallet) {
    id in now.pending && w in now.pending[id].votes && now.pending[id].votes[w].vote.Valid?
    && w != local && w !in checked.banned && w in checked.stakes
  }

  /** Every wallet whose stake passed the check still stands at Valid when the approval is sent. */
  lemma StakeStandsAtSending(cfg: Config, read: Core, checked: Core, now: Core, request: Request)
    returns (ws: set<Wallet>)
    requires Backed(cfg, read, checked, now, request) && cfg.localWallet.Some?
    ensures forall w :: w in ws ==> StillBehind(checked, now, request.requestId, cfg.localWallet.value, w)
    ensures ClearsTwoThirds(Denominator(checked.stakes, checked.registryTotal, cfg.localWallet.value), StakeOf(checked.stakes, ws))
  {
    hide StakeOf;
    var local := cfg.localWallet.value;
    var votes := checked.pending[request.requestId].votes;
    ws :| Behind(votes, checked.stakes, checked.banned, local, ws)
          && ClearsTwoThirds(Denominator(checked.stakes, checked.registryTotal, local), StakeOf(checked.stakes, ws));
  }

  // ---- a banned wallet can still carry an approval ----

  /** The run can be continued by the move to `s`. */
  lemma Continue(cfg: Config, states: seq<Shared>, moves: seq<Move>, e: Move, s: Shared) returns (states': seq<Shared>, moves': seq<Move>)
    requires Interleaving(cfg, {}, states, moves) && StepFrom(cfg, states[|moves|], e, s)
    ensures Interleaving(cfg, {}, states', moves') && states'[|moves'|] == s
  {
    states', moves' := states + [s], moves + [e];
    forall i | 0 <= i < |moves'| ensures StepFrom(cfg, states'[i], moves'[i], states'[i + 1]) {
      if i < |moves| {
        assert StepFrom(cfg, states[i], moves[i], states[i + 1]);
      }
    }
  }

  /** A wallet that votes Valid and then Invalid on a request. */
  datatype Scene = Scene(request: Request, node: NodeId, w: Wallet, now: nat)
  {
    function First(): VoteMessage { VoteMessage(request.requestId, node, Valid, w, [1]) }

    function Second(): VoteMessage { VoteMessage(request.requestId, node, Invalid(""), w, [1]) }

    function WithVotes(votes: Votes): Core {
      Core(map[request.requestId := Round(request, votes, now + 30, 1)], {}, {w}, map[w := 5], 5, {}, [])
    }

    function Opened(): Core { WithVotes(map[]) }

    function Voted(): Core { WithVotes(map[w := VoteRecord(Valid, node, [1])]) }

    function Banned(): Core { Voted().(banned := {w}) }

    function One(phase: Phase, c: Core): Shared {
      Shared(c, map[0 := Task(First(), phase)], if phase.HoldsLock() then Some(0) else None)
    }

    /** The first vote has passed its stake check, and the second one is under way. */
    function Both(c: Core, other: Phase): Shared {
      Shared(c, map[0 := Task(First(), Staked(Voted(), Voted())), 1 := Task(Second(), other)], Some(0))
    }

    function Sent(): Shared {
      Shared(Banned().(emitted := {request.requestId}, approvals := [request]), map[1 := Task(Second(), Reading)], None)
    }
  }

  /** The settings under which the scene is played: a minimum of one, and the voter is not the authority. */
  predicate Plays(cfg: Config, x: Scene) {
    cfg.hasChannel && cfg.minValidators == 1 && cfg.localWallet != Some(x.w) && x.request.requestId == cfg.idOf(x.request) && x.w != ""
  }

  lemma SceneOpens(cfg: Config, x: Scene) returns (states: seq<Shared>, moves: seq<Move>)
    requires Plays(cfg, x)
    ensures Interleaving(cfg, {}, states, moves) && states[|moves|] == Shared(x.Opened(), map[], None)
  {
    states, moves := [Start0({})], [];
    var stakes: Stakes := map[x.w := 5];
    assert x.w in stakes && stakes.Keys == {x.w};
    var c0 := Initial({}).core;
    var c1 := c0.(wallets := {x.w});
    states, moves := Continue(cfg, states, moves, WriteWallets(stakes), Shared(c1, map[], None));
    var c2 := c1.(registryTotal := 5);
    states, moves := Continue(cfg, states, moves, WriteTotal(stakes, 5), Shared(c2, map[], None));
    var c3 := c2.(stakes := stakes);
    states, moves := Continue(cfg, states, moves, WriteStakes(stakes), Shared(c3, map[], None));
    assert StartCore(cfg, c3, x.request, x.now) == x.Opened();
    states, moves := Continue(cfg, states, moves, StartRound(x.request, x.now, true), Shared(x.Opened(), map[], None));
  }

  lemma FirstVoteReads(cfg: Config, x: Scene)
    requires Plays(cfg, x)
    ensures StepFrom(cfg, Shared(x.Opened(), map[], None), Arrive(0, x.First()), x.One(Installing, x.Opened()))
    ensures StepFrom(cfg, x.One(Installing, x.Opened()), Go(0, true), x.One(Reading, x.Voted()))
    ensures StepFrom(cfg, x.One(Reading, x.Voted()), Go(0, true), x.One(Waiting(x.Voted()), x.Voted()))
  {
    assert InstallVote(x.Opened(), x.First()) == x.Voted();
  }

  lemma FirstVoteLocks(cfg: Config, x: Scene, c: Core)
    requires Plays(cfg, x) && c == x.Voted()
    ensures StepFrom(cfg, x.One(Waiting(c), c), Go(0, true), x.One(Locked(c), c))
    ensures StepFrom(cfg, x.One(Counted(c), c), Go(0, true), x.One(Priced(c, 5), c))
  {
    hide EligibleVoters, ValidWallets, StakeQuorum, InstallVote, IsFlip;
  }

  lemma FirstVoteCounts(cfg: Config, x: Scene, c: Core)
    requires Plays(cfg, x) && c == x.Voted()
    ensures StepFrom(cfg, x.One(Locked(c), c), Go(0, true), x.One(Counted(c), c))
  {
    hide ValidWallets, StakeQuorum, InstallVote, IsFlip;
    assert EligibleVoters(c.pending[x.request.requestId].votes, EligibleWallets(c)) == {x.w};
  }

  /** The wallet holds all the eligible stake, so the check passes while it is not banned. */
  lemma FirstVotePassesStakeCheck(cfg: Config, x: Scene, c: Core)
    requires Plays(cfg, x) && c == x.Voted()
    ensures StepFrom(cfg, x.One(Priced(c, 5), c), Go(0, true), x.One(Staked(c, c), c))
  {
    var votes := c.pending[x.request.requestId].votes;
    if cfg.localWallet.Some? {
      assert CountedWallets(votes, c.stakes, {}, cfg.localWallet.value) == {x.w};
      StakeOfSingle(c.stakes, x.w);
    }
    assert StakeQuorum(votes, c.stakes, 5, c.banned, cfg.localWallet);
  }

  lemma SecondVoteBans(cfg: Config, x: Scene, c: Core)
    requires Plays(cfg, x) && c == x.Voted()
    ensures StepFrom(cfg, x.One(Staked(c, c), c), Arrive(1, x.Second()), x.Both(c, Installing))
    ensures StepFrom(cfg, x.Both(c, Installing), Go(1, true), x.Both(c, Banning))
    ensures StepFrom(cfg, x.Both(c, Banning), Go(1, true), x.Both(x.Banned(), Reading))
  {
    assert InstallVote(c, x.Second()) == c;
    assert map[0 := Task(x.First(), Staked(c, c))][1 := Task(x.Second(), Installing)] == x.Both(c, Installing).tasks;
  }

  lemma FirstVoteSends(cfg: Config, x: Scene)
    requires Plays(cfg, x)
    ensures StepFrom(cfg, x.Both(x.Banned(), Reading), Go(0, true), x.Sent())
  {
    assert ValidWallets(x.Banned().pending[x.request.requestId].votes, EligibleWallets(x.Voted())) == {x.w};
    assert x.Both(x.Banned(), Reading).tasks - {0} == map[1 := Task(x.Second(), Reading)];
  }

  /**
   The failing run, on a node with or without an authority wallet: a Valid vote passes its stake
   check, the same wallet's flip bans it, and the first vote goes on and sends an approval whose
   only Valid vote, and all of whose stake, is that of the banned wallet.
   */
  lemma BannedWalletCarriesApproval(cfg: Config, x: Scene) returns (states: seq<Shared>, moves: seq<Move>)
    requires Plays(cfg, x)
    ensures Interleaving(cfg, {}, states, moves)
    ensures var c := states[|moves|].core;
            && c.approvals == [x.request] && c.banned == {x.w}
            && x.request.requestId in c.pending && c.pending[x.request.requestId].votes.Keys == {x.w}
  {
    hide StepFrom, Interleaving;
    var c := x.Voted();
    states, moves := SceneOpens(cfg, x);
    FirstVoteReads(cfg, x);
    states, moves := Continue(cfg, states, moves, Arrive(0, x.First()), x.One(Installing, x.Opened()));
    states, moves := Continue(cfg, states, moves, Go(0, true), x.One(Reading, c));
    states, moves := Continue(cfg, states, moves, Go(0, true), x.One(Waiting(c), c));
    FirstVoteLocks(cfg, x, c);
    FirstVoteCounts(cfg, x, c);
    states, moves := Continue(cfg, states, moves, Go(0, true), x.One(Locked(c), c));
    states, moves := Continue(cfg, states, moves, Go(0, true), x.One(Counted(c), c));
    states, moves := Continue(cfg, states, moves, Go(0, true), x.One(Priced(c, 5), c));
    FirstVotePassesStakeCheck(cfg, x, c);
    states, moves := Continue(cfg, states, moves, Go(0, true), x.One(Staked(c, c), c));
    SecondVoteBans(cfg, x, c);
    states, moves := Continue(cfg, states, moves, Arrive(1, x.Second()), x.Both(c, Installing));
    states, moves := Continue(cfg, states, moves, Go(1, true), x.Both(c, Banning));
    states, moves := Continue(cfg, states, moves, Go(1, true), x.Both(x.Banned(), Reading));
    FirstVoteSends(cfg, x);
    states, moves := Continue(cfg, states, moves, Go(0, true), x.Sent());
  }
}
