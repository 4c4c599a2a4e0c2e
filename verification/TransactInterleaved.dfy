/**
 The settlement consensus with votes in flight at the same time.

 `submit_result` is a task that holds the pending map's read lock from its first to its last
 step, so rounds are started, removed and swept only while no vote is in flight.  Between two
 steps of a task anything else may run: other votes, bans, the three writes of a stake snapshot,
 and clearing of marks.  The write lock on the emitted set is held across the last four steps.
 The stake check holds the stakes' lock but reads the registry total ahead of the votes and bans,
 so a snapshot being written can change the total in between.
 */
module TransactInterleaved {
  import opened Common
  import opened Encoding
  import opened Tally
  import opened Quorum
  import opened TransactModel
  import opened TransactRuns

  /**
   Where a task stands.  Once it has read the eligible wallets it keeps them; `read` is the
   counting state it read them from, `total` the registry total its stake check read first, and
   `checked` what the stake check then looked at, with that total.
   */
  datatype Phase =
    | Installing
    | Banning
    | Reading
    | Waiting(read: Core)
    | Locked(read: Core)
    | Counted(read: Core)
    | Priced(read: Core, total: u64)
    | Staked(read: Core, checked: Core)
  {
    predicate HoldsLock() { Locked? || Counted? || Priced? || Staked? }
  }

  datatype Task = Task(message: VoteMessage, phase: Phase)

  datatype Shared = Shared(core: Core, tasks: map<nat, Task>, holder: Option<nat>)

  datatype Move =
    | Arrive(task: nat, message: VoteMessage)
    | Go(task: nat, receiverAlive: bool)
    | WriteWallets(stakes: Stakes)
    | WriteTotal(stakes: Stakes, registryTotal: u64)
    | WriteStakes(stakes: Stakes)
    | StartRound(request: Request, now: nat, enoughValidators: bool)
    | ClearMark(id: string)
    | RemoveRound(id: string)
    | SweepRounds(now: nat)

  /** The lock on the stakes is held by a stake check under way. */
  predicate StakesLocked(s: Shared) {
    s.holder.Some? && s.holder.value in s.tasks && s.tasks[s.holder.value].phase.Priced?
  }

  ghost predicate Enabled(s: Shared, e: Move) {
    match e
    case Arrive(t, _) => t !in s.tasks
    case Go(t, _) => t in s.tasks && (s.tasks[t].phase.Waiting? ==> s.holder.None?)
    case WriteWallets(stakes) => stakes != map[]
    case WriteTotal(stakes, _) => stakes != map[]
    case WriteStakes(stakes) => stakes != map[] && !StakesLocked(s)
    case StartRound(_, _, _) => s.tasks == map[]
    case ClearMark(_) => s.holder.None?
    case RemoveRound(_) => s.tasks == map[]
    case SweepRounds(_) => s.tasks == map[] && s.holder.None?
  }

  function Advance(s: Shared, t: nat, phase: Phase): Shared
    requires t in s.tasks
  {
    s.(tasks := s.tasks[t := s.tasks[t].(phase := phase)])
  }

  function Finish(s: Shared, t: nat): Shared {
    Shared(s.core, s.tasks - {t}, if s.holder == Some(t) then None else s.holder)
  }

  /** The next step of a task. */
  ghost function Proceed(cfg: Config, s: Shared, t: nat, receiverAlive: bool): Shared
    requires t in s.tasks
  {
    var m, c := s.tasks[t].message, s.core;
    if m.requestId !in c.pending then s else
    var id, round := m.requestId, c.pending[m.requestId];
    match s.tasks[t].phase
    case Installing =>
      var s' := s.(core := InstallVote(c, m));
      if IsFlip(c, m) then Advance(s', t, Banning) else AfterTally(cfg, s', t)
    case Banning => AfterTally(cfg, s.(core := c.(banned := c.banned + {m.wallet})), t)
    case Reading => Advance(s, t, Waiting(c))
    case Waiting(read) => Advance(s, t, Locked(read)).(holder := Some(t))
    case Locked(read) =>
      if id !in c.emitted && |EligibleVoters(round.votes, EligibleWallets(read))| >= round.minValidators
      then Advance(s, t, Counted(read)) else Finish(s, t)
    case Counted(read) => Advance(s, t, Priced(read, c.registryTotal))
    case Priced(read, total) =>
      if StakeQuorum(round.votes, c.stakes, total, c.banned, cfg.localWallet)
      then Advance(s, t, Staked(read, c.(registryTotal := total))) else Finish(s, t)
    case Staked(read, _) =>
      if |ValidWallets(round.votes, EligibleWallets(read))| >= round.minValidators && receiverAlive
      then Finish(s.(core := c.(emitted := c.emitted + {id}, approvals := c.approvals + [round.request])), t)
      else Finish(s, t)
  }

  function AfterTally(cfg: Config, s: Shared, t: nat): Shared
    requires t in s.tasks
  {
    if cfg.hasChannel then Advance(s, t, Reading) else Finish(s, t)
  }

  ghost function Next(cfg: Config, s: Shared, e: Move): Shared
    requires Enabled(s, e)
  {
    var c := s.core;
    match e
    case Arrive(t, m) => if Admitted(cfg, c, m) then s.(tasks := s.tasks[t := Task(m, Installing)]) else s
    case Go(t, receiverAlive) => Proceed(cfg, s, t, receiverAlive)
    case WriteWallets(stakes) => s.(core := c.(wallets := stakes.Keys))
    case WriteTotal(_, registryTotal) => s.(core := c.(registryTotal := registryTotal))
    case WriteStakes(stakes) => s.(core := c.(stakes := stakes))
    case StartRound(request, now, enough) =>
      if enough && request.requestId == cfg.idOf(request) then s.(core := StartCore(cfg, c, request, now)) else s
    case ClearMark(id) => s.(core := c.(emitted := c.emitted - {id}))
    case RemoveRound(id) => s.(core := c.(pending := c.pending - {id}))
    case SweepRounds(now) => s.(core := SweepCore(c, now))
  }

  // ---- the invariant ----

  ghost predicate VotesGrow(a: Votes, b: Votes) {
    forall w :: w in a ==> w in b && b[w] == a[w]
  }

  /** What is known of a task in each phase, against the current counting state. */
  ghost predicate TaskOk(cfg: Config, c: Core, task: Task) {
    var id := task.message.requestId;
    && id in c.pending
    && match task.phase
       case Counted(read) =>
         && id !in c.emitted
         && |EligibleVoters(c.pending[id].votes, EligibleWallets(read))| >= cfg.minValidators
       case Priced(read, _) =>
         && id !in c.emitted
         && |EligibleVoters(c.pending[id].votes, EligibleWallets(read))| >= cfg.minValidators
       case Staked(read, checked) =>
         && id !in c.emitted
         && |EligibleVoters(c.pending[id].votes, EligibleWallets(read))| >= cfg.minValidators
         && id in checked.pending && VotesGrow(checked.pending[id].votes, c.pending[id].votes)
         && StakeQuorum(checked.pending[id].votes, checked.stakes, checked.registryTotal, checked.banned, cfg.localWallet)
       case _ => true
  }

  ghost predicate Safe(cfg: Config, s: Shared) {
    && (forall id :: id in s.core.pending ==> RoundOk(cfg, id, s.core.pending[id]))
    && (forall t :: t in s.tasks ==> TaskOk(cfg, s.core, s.tasks[t]))
    && (forall t :: t in s.tasks ==> (s.tasks[t].phase.HoldsLock() <==> s.holder == Some(t)))
    && (s.holder.Some? ==> s.holder.value in s.tasks)
  }

  function Start0(banned: set<Wallet>): Shared {
    Shared(Initial(banned).core, map[], None)
  }

  lemma MoreVotersEligible(a: Votes, b: Votes, eligible: set<Wallet>)
    requires VotesGrow(a, b)
    ensures |EligibleVoters(a, eligible)| <= |EligibleVoters(b, eligible)|
  {
    var x, y := EligibleVoters(a, eligible), EligibleVoters(b, eligible);
    assert y == x + (y - x);
  }

  /** What is known of a task survives any change that keeps its round, grows its votes and marks nothing new for it. */
  lemma TaskOkStable(cfg: Config, c: Core, c': Core, task: Task)
    requires TaskOk(cfg, c, task) && task.message.requestId in c'.pending
    requires VotesGrow(c.pending[task.message.requestId].votes, c'.pending[task.message.requestId].votes)
    requires task.message.requestId in c'.emitted ==> task.message.requestId in c.emitted || !task.phase.HoldsLock()
    ensures TaskOk(cfg, c', task)
  {
    if task.phase.Counted? || task.phase.Priced? || task.phase.Staked? {
      var id := task.message.requestId;
      MoreVotersEligible(c.pending[id].votes, c'.pending[id].votes, EligibleWallets(task.phase.read));
    }
  }

  lemma GoKeepsOthers(cfg: Config, s: Shared, t: nat, receiverAlive: bool, u: nat)
    requires Safe(cfg, s) && t in s.tasks && u in s.tasks && u != t
    ensures TaskOk(cfg, Proceed(cfg, s, t, receiverAlive).core, s.tasks[u])
  {
    hide EligibleVoters, ValidWallets, StakeQuorum;
    TaskOkStable(cfg, s.core, Proceed(cfg, s, t, receiverAlive).core, s.tasks[u]);
  }

  /** A step of one task leaves the other tasks alone, and takes or releases the lock only for itself. */
  lemma GoKeepsTable(cfg: Config, s: Shared, t: nat, receiverAlive: bool)
    requires Safe(cfg, s) && Enabled(s, Go(t, receiverAlive))
    ensures var s' := Proceed(cfg, s, t, receiverAlive);
            && (t in s'.tasks ==> (s'.tasks[t].phase.HoldsLock() <==> s'.holder == Some(t)))
            && (t !in s'.tasks ==> s'.holder != Some(t))
            && (forall u :: u != t ==> (u in s'.tasks <==> u in s.tasks))
            && (forall u :: u != t && u in s.tasks ==> s'.tasks[u] == s.tasks[u])
            && (s'.holder != s.holder ==> s'.holder == Some(t) || (s.holder == Some(t) && s'.holder == None))
            && (s'.holder == Some(t) && s.holder != Some(t) ==> s.holder == None)
  {
    hide EligibleVoters, ValidWallets, StakeQuorum, TaskOk, RoundOk, InstallVote, IsFlip, EligibleWallets;
  }

  lemma GoKeepsRounds(cfg: Config, s: Shared, t: nat, receiverAlive: bool)
    requires Safe(cfg, s) && Enabled(s, Go(t, receiverAlive))
    ensures forall id :: id in Proceed(cfg, s, t, receiverAlive).core.pending ==>
              RoundOk(cfg, id, Proceed(cfg, s, t, receiverAlive).core.pending[id])
  {
  }

  lemma GoKeepsSelf(cfg: Config, s: Shared, t: nat, receiverAlive: bool)
    requires Safe(cfg, s) && Enabled(s, Go(t, receiverAlive))
    ensures var s' := Proceed(cfg, s, t, receiverAlive);
            t in s'.tasks ==> TaskOk(cfg, s'.core, s'.tasks[t])
  {
    assert TaskOk(cfg, s.core, s.tasks[t]);
  }

  lemma SafeGo(cfg: Config, s: Shared, t: nat, receiverAlive: bool)
    requires Safe(cfg, s) && Enabled(s, Go(t, receiverAlive))
    ensures Safe(cfg, Proceed(cfg, s, t, receiverAlive))
  {
    var s' := Proceed(cfg, s, t, receiverAlive);
    GoKeepsSelf(cfg, s, t, receiverAlive);
    GoKeepsTable(cfg, s, t, receiverAlive);
    GoKeepsRounds(cfg, s, t, receiverAlive);
    forall u | u in s'.tasks && u != t ensures TaskOk(cfg, s'.core, s'.tasks[u]) {
      GoKeepsOthers(cfg, s, t, receiverAlive, u);
    }
    forall u | u in s'.tasks && u != t ensures s'.tasks[u].phase.HoldsLock() <==> s'.holder == Some(u) {
      assert s.tasks[u].phase.HoldsLock() <==> s.holder == Some(u);
    }
  }

  lemma SafeArrive(cfg: Config, s: Shared, t: nat, m: VoteMessage)
    requires Safe(cfg, s) && t !in s.tasks
    ensures Safe(cfg, Next(cfg, s, Arrive(t, m)))
  {
  }

  /** Rounds are only touched while nothing is in flight. */
  lemma SafeRounds(cfg: Config, s: Shared, e: Move)
    requires Safe(cfg, s) && Enabled(s, e) && (e.StartRound? || e.RemoveRound? || e.SweepRounds?)
    ensures Safe(cfg, Next(cfg, s, e))
  {
  }

  lemma SafeWrites(cfg: Config, s: Shared, e: Move)
    requires Safe(cfg, s) && Enabled(s, e) && (e.WriteWallets? || e.WriteTotal? || e.WriteStakes? || e.ClearMark?)
    ensures Safe(cfg, Next(cfg, s, e))
  {
    var s' := Next(cfg, s, e);
    forall t | t in s.tasks ensures TaskOk(cfg, s'.core, s.tasks[t]) {
      TaskHasRound(cfg, s.core, s.tasks[t]);
      TaskOkStable(cfg, s.core, s'.core, s.tasks[t]);
    }
  }

  lemma TaskHasRound(cfg: Config, c: Core, task: Task)
    requires TaskOk(cfg, c, task)
    ensures task.message.requestId in c.pending
  {}

  /** Every step of every interleaving keeps the lock discipline and what each task relies on. */
  lemma SafeStep(cfg: Config, s: Shared, e: Move)
    requires Safe(cfg, s) && Enabled(s, e)
    ensures Safe(cfg, Next(cfg, s, e))
  {
    match e
    case Arrive(t, m) => SafeArrive(cfg, s, t, m);
    case Go(t, receiverAlive) => SafeGoes(cfg, s, t, receiverAlive);
    case StartRound(_, _, _) => SafeRounds(cfg, s, e);
    case RemoveRound(_) => SafeRounds(cfg, s, e);
    case SweepRounds(_) => SafeRounds(cfg, s, e);
    case _ => SafeWrites(cfg, s, e);
  }

  lemma SafeGoes(cfg: Config, s: Shared, t: nat, receiverAlive: bool)
    requires Safe(cfg, s) && Enabled(s, Go(t, receiverAlive))
    ensures Safe(cfg, Next(cfg, s, Go(t, receiverAlive)))
  {
    SafeGo(cfg, s, t, receiverAlive);
  }

  // ---- runs ----

  ghost predicate Interleaving(cfg: Config, banned: set<Wallet>, states: seq<Shared>, moves: seq<Move>) {
    && |states| == |moves| + 1
    && states[0] == Start0(banned)
    && forall i :: 0 <= i < |moves| ==> StepFrom(cfg, states[i], moves[i], states[i + 1])
  }

  ghost predicate StepFrom(cfg: Config, s: Shared, e: Move, s': Shared) {
    Enabled(s, e) && s' == Next(cfg, s, e)
  }

  lemma {:induction false} AlwaysSafe(cfg: Config, banned: set<Wallet>, states: seq<Shared>, moves: seq<Move>, n: nat)
    requires Interleaving(cfg, banned, states, moves) && n <= |moves|
    ensures Safe(cfg, states[n])
  {
    if n > 0 {
      AlwaysSafe(cfg, banned, states, moves, n - 1);
      assert StepFrom(cfg, states[n - 1], moves[n - 1], states[n]);
      SafeStep(cfg, states[n - 1], moves[n - 1]);
    }
  }

  // ---- exactly once, under any interleaving ----

  ghost function UnmarkedSoFar(states: seq<Shared>, id: string, n: nat): nat
    requires n < |states|
  {
    if n == 0 then 0
    else
      UnmarkedSoFar(states, id, n - 1) +
      if id in states[n - 1].core.emitted && id !in states[n].core.emitted then 1 else 0
  }

  ghost function ClearMoves(moves: seq<Move>, id: string, n: nat): nat
    requires n <= |moves|
  {
    if n == 0 then 0
    else ClearMoves(moves, id, n - 1) + if moves[n - 1] == ClearMark(id) || moves[n - 1].SweepRounds? then 1 else 0
  }

  /** A move sends at most one approval, exactly when it marks the id, and only the holder of the lock does. */
  lemma SendStep(cfg: Config, s: Shared, e: Move)
    requires Safe(cfg, s) && Enabled(s, e)
    ensures var s' := Next(cfg, s, e);
            || (s'.core.approvals == s.core.approvals && s'.core.emitted <= s.core.emitted)
            || (&& e.Go? && s.tasks[e.task].phase.Staked? && s.holder == Some(e.task)
                && var id := s.tasks[e.task].message.requestId;
                   && id in s.core.pending && id !in s.core.emitted
                   && s'.core.emitted == s.core.emitted + {id}
                   && s'.core.approvals == s.core.approvals + [s.core.pending[id].request]
                   && s.core.pending[id].request.requestId == id == cfg.idOf(s.core.pending[id].request))
  {
    if e.Go? {
      assert TaskOk(cfg, s.core, s.tasks[e.task]);
      assert RoundOk(cfg, s.tasks[e.task].message.requestId, s.core.pending[s.tasks[e.task].message.requestId]);
    }
  }

  lemma MarksOnlyFallByClearing(cfg: Config, s: Shared, e: Move, id: string)
    requires Safe(cfg, s) && Enabled(s, e) && id in s.core.emitted && id !in Next(cfg, s, e).core.emitted
    ensures e == ClearMark(id) || e.SweepRounds?
  {
  }

  lemma SentAppend(approvals: seq<Request>, r: Request, id: string)
    ensures Sent(approvals + [r], id) == Sent(approvals, id) + if r.requestId == id then 1 else 0
  {
    assert (approvals + [r])[..|approvals|] == approvals;
  }

  /**
   Exactly once: whatever the interleaving of votes, snapshots, starts, clears and sweeps, the
   approvals sent for an id are one for each time its mark was taken off, plus one if it is
   marked; so never more than one plus the number of clears and sweeps.
   */
  lemma {:induction false} InterleavedSendsOncePerMark(cfg: Config, banned: set<Wallet>, states: seq<Shared>, moves: seq<Move>, id: string, n: nat)
    requires Interleaving(cfg, banned, states, moves) && n <= |moves|
    ensures Sent(states[n].core.approvals, id)
         == UnmarkedSoFar(states, id, n) + (if id in states[n].core.emitted then 1 else 0)
    ensures UnmarkedSoFar(states, id, n) <= ClearMoves(moves, id, n)
  {
    hide Next, Safe, Sent;
    if n == 0 {
      SentNone(id);
    } else {
      InterleavedSendsOncePerMark(cfg, banned, states, moves, id, n - 1);
      AlwaysSafe(cfg, banned, states, moves, n - 1);
      assert StepFrom(cfg, states[n - 1], moves[n - 1], states[n]);
      var s, e := states[n - 1], moves[n - 1];
      SendStep(cfg, s, e);
      if id in s.core.emitted && id !in states[n].core.emitted {
        MarksOnlyFallByClearing(cfg, s, e, id);
      }
      if states[n].core.approvals != s.core.approvals {
        SentAppend(s.core.approvals, s.core.pending[s.tasks[e.task].message.requestId].request, id);
      }
    }
  }

  lemma SentNone(id: string)
    ensures Sent([], id) == 0
  {}

  // ---- what an approval stands on, under any interleaving ----

  /** The wallets were read in state `i`, the total in state `h`, and everything else checked in state `j`. */
  ghost predicate ReadAndChecked(states: seq<Shared>, i: nat, h: nat, j: nat, read: Core, checked: Core)
    requires i < |states| && h < |states| && j < |states|
  {
    states[i].core == read && states[j].core.(registryTotal := states[h].core.registryTotal) == checked
  }

  /** A task's remembered counting states are states the run has been in, in this order. */
  ghost predicate Remembered(states: seq<Shared>, n: nat, phase: Phase)
    requires n < |states|
  {
    match phase
    case Waiting(read) => exists i :: 0 <= i <= n && states[i].core == read
    case Locked(read) => exists i :: 0 <= i <= n && states[i].core == read
    case Counted(read) => exists i :: 0 <= i <= n && states[i].core == read
    case Priced(read, total) => exists i, h :: 0 <= i <= h <= n && states[i].core == read && states[h].core.registryTotal == total
    case Staked(read, checked) => exists i, h, j :: 0 <= i <= h <= j <= n && ReadAndChecked(states, i, h, j, read, checked)
    case _ => true
  }

  lemma RememberedStep(cfg: Config, states: seq<Shared>, n: nat, e: Move, t: nat)
    requires 0 < n < |states| && StepFrom(cfg, states[n - 1], e, states[n]) && t in states[n].tasks
    requires t in states[n - 1].tasks ==> Remembered(states, n - 1, states[n - 1].tasks[t].phase)
    ensures Remembered(states, n, states[n].tasks[t].phase)
  {
    hide EligibleVoters, ValidWallets, StakeQuorum, StartCore, SweepCore, Admitted, InstallVote, IsFlip;
    if t in states[n - 1].tasks {
      var before, after := states[n - 1].tasks[t].phase, states[n].tasks[t].phase;
      if before != after {
        if after.Priced? {
          var i :| 0 <= i <= n - 1 && states[i].core == after.read;
          assert states[n - 1].core.registryTotal == after.total;
        }
        if after.Staked? {
          var i, h :| 0 <= i <= h <= n - 1 && states[i].core == after.read && states[h].core.registryTotal == before.total;
          assert ReadAndChecked(states, i, h, n - 1, after.read, after.checked);
        }
      }
    }
  }

  lemma {:induction false} TasksRemember(cfg: Config, banned: set<Wallet>, states: seq<Shared>, moves: seq<Move>, n: nat, t: nat)
    requires Interleaving(cfg, banned, states, moves) && n <= |moves| && t in states[n].tasks
    ensures Remembered(states, n, states[n].tasks[t].phase)
  {
    if n > 0 {
      if t in states[n - 1].tasks {
        TasksRemember(cfg, banned, states, moves, n - 1, t);
      }
      assert StepFrom(cfg, states[n - 1], moves[n - 1], states[n]);
      RememberedStep(cfg, states, n, moves[n - 1], t);
    }
  }

  /**
   What stands behind an approval of `request` sent from state `now`: the eligible wallets were
   those of an earlier state `read`, the stake check has passed on `checked` since, and every
   wallet counted then still stands at Valid now.
   */
  ghost predicate Backed(cfg: Config, read: Core, checked: Core, now: Core, request: Request) {
    var id := request.requestId;
    && id in now.pending && now.pending[id].request == request && id == cfg.idOf(request)
    && |ValidWallets(now.pending[id].votes, EligibleWallets(read))| >= cfg.minValidators
    && id in checked.pending && VotesGrow(checked.pending[id].votes, now.pending[id].votes)
    && (cfg.localWallet.Some? ==> StakeBehind(checked, id, cfg.localWallet.value))
  }

  lemma SendIsBacked(cfg: Config, s: Shared, e: Move)
    requires Safe(cfg, s) && Enabled(s, e) && Next(cfg, s, e).core.approvals != s.core.approvals
    ensures e.Go? && e.task in s.tasks && s.tasks[e.task].phase.Staked?
    ensures var task := s.tasks[e.task];
            && task.message.requestId in s.core.pending
            && Backed(cfg, task.phase.read, task.phase.checked, s.core, s.core.pending[task.message.requestId].request)
  {
    SendStep(cfg, s, e);
    var task := s.tasks[e.task];
    assert TaskOk(cfg, s.core, task);
    if cfg.localWallet.Some? {
      GateMeansStake(task.phase.checked, task.message.requestId, cfg.localWallet.value);
    }
  }

  /** A registry total was written among the first `n` moves, as part of a non-empty snapshot. */
  ghost predicate SnapshotBegan(moves: seq<Move>, n: nat)
    requires n <= |moves|
  {
    exists k :: 0 <= k < n && moves[k].WriteTotal? && moves[k].stakes != map[]
  }

  /** A non-empty wallet set was written among the first `n` moves. */
  ghost predicate WalletsWritten(moves: seq<Move>, n: nat)
    requires n <= |moves|
  {
    exists k :: 0 <= k < n && moves[k].WriteWallets? && moves[k].stakes != map[]
  }

  /** An approval sent by move `m` was backed by what its task read in states the run went through in order. */
  ghost predicate BackedByRun(cfg: Config, states: seq<Shared>, moves: seq<Move>, m: nat, request: Request)
    requires m < |states| && m <= |moves|
  {
    && (cfg.localWallet.Some? ==> SnapshotBegan(moves, m))
    && (cfg.minValidators >= 1 ==> WalletsWritten(moves, m))
    && exists read, checked, i, h, j :: 0 <= i <= h <= j <= m && ReadAndChecked(states, i, h, j, read, checked)
                                        && Backed(cfg, read, checked, states[m].core, request)
  }

  /** The stakes, wallets and total that the last writes among the first `n` moves put there. */
  ghost function Written(moves: seq<Move>, n: nat): (set<Wallet>, Stakes, u64)
    requires n <= |moves|
  {
    if n == 0 then ({}, map[], 0)
    else
      var (wallets, stakes, total) := Written(moves, n - 1);
      match moves[n - 1]
      case WriteWallets(next) => (next.Keys, stakes, total)
      case WriteStakes(next) => (wallets, next, total)
      case WriteTotal(_, next) => (wallets, stakes, next)
      case _ => (wallets, stakes, total)
  }

  lemma WriteStep(cfg: Config, s: Shared, e: Move)
    requires Enabled(s, e)
    ensures var c, c' := s.core, Next(cfg, s, e).core;
            && c'.wallets == (if e.WriteWallets? then e.stakes.Keys else c.wallets)
            && c'.stakes == (if e.WriteStakes? then e.stakes else c.stakes)
            && c'.registryTotal == (if e.WriteTotal? then e.registryTotal else c.registryTotal)
  {
    hide StakeQuorum, EligibleVoters, ValidWallets, Admitted, Install, EligibleWallets;
  }

  /** Under any interleaving each part of a snapshot is what its last write put there; nothing older is left. */
  lemma {:induction false} WritesReplace(cfg: Config, banned: set<Wallet>, states: seq<Shared>, moves: seq<Move>, n: nat)
    requires Interleaving(cfg, banned, states, moves) && n <= |moves|
    ensures (states[n].core.wallets, states[n].core.stakes, states[n].core.registryTotal) == Written(moves, n)
  {
    hide Next;
    if n > 0 {
      WritesReplace(cfg, banned, states, moves, n - 1);
      assert StepFrom(cfg, states[n - 1], moves[n - 1], states[n]);
      WriteStep(cfg, states[n - 1], moves[n - 1]);
    }
  }

  lemma {:induction false} TotalComesFromSnapshot(cfg: Config, banned: set<Wallet>, states: seq<Shared>, moves: seq<Move>, n: nat)
    requires Interleaving(cfg, banned, states, moves) && n <= |moves| && states[n].core.registryTotal > 0
    ensures SnapshotBegan(moves, n)
  {
    var s, e := states[n - 1], moves[n - 1];
    assert StepFrom(cfg, s, e, states[n]);
    if !e.WriteTotal? {
      assert s.core.registryTotal == states[n].core.registryTotal;
      TotalComesFromSnapshot(cfg, banned, states, moves, n - 1);
    }
  }

  lemma {:induction false} WalletsComeFromWrite(cfg: Config, banned: set<Wallet>, states: seq<Shared>, moves: seq<Move>, n: nat)
    requires Interleaving(cfg, banned, states, moves) && n <= |moves| && states[n].core.wallets != {}
    ensures WalletsWritten(moves, n)
  {
    var s, e := states[n - 1], moves[n - 1];
    assert StepFrom(cfg, s, e, states[n]);
    if !e.WriteWallets? {
      assert s.core.wallets == states[n].core.wallets;
      WalletsComeFromWrite(cfg, banned, states, moves, n - 1);
    }
  }

  lemma BackedNeedsWallets(cfg: Config, read: Core, checked: Core, now: Core, request: Request)
    requires Backed(cfg, read, checked, now, request) && cfg.minValidators >= 1
    ensures read.wallets != {}
  {
    if read.wallets == {} {
      ValidNeedSnapshot(read, now.pending[request.requestId].votes);
      assert false;
    }
  }

  lemma BackedNeedsTotal(cfg: Config, read: Core, checked: Core, now: Core, request: Request)
    requires Backed(cfg, read, checked, now, request) && cfg.localWallet.Some?
    ensures checked.registryTotal > 0
  {}

  /**
   Under any interleaving, every approval ever sent was backed: by enough Valid votes of wallets
   that were eligible when its task read them, and by a stake check passed in between; and, when
   the authority's wallet is configured or the minimum is at least one, none was sent before a
   non-empty snapshot began to land.
   */
  lemma {:induction false} EveryInterleavedApprovalIsBacked(
    cfg: Config, banned: set<Wallet>, states: seq<Shared>, moves: seq<Move>, n: nat, k: nat)
    returns (m: nat)
    requires Interleaving(cfg, banned, states, moves) && n <= |moves| && k < |states[n].core.approvals|
    ensures m < n && |states[m].core.approvals| == k && BackedByRun(cfg, states, moves, m, states[n].core.approvals[k])
  {
    hide Next, Safe, Backed;
    var s, e := states[n - 1], moves[n - 1];
    assert StepFrom(cfg, s, e, states[n]);
    AlwaysSafe(cfg, banned, states, moves, n - 1);
    SendStep(cfg, s, e);
    if k < |s.core.approvals| {
      assert s.core.approvals[k] == states[n].core.approvals[k];
      m := EveryInterleavedApprovalIsBacked(cfg, banned, states, moves, n - 1, k);
    } else {
      m := n - 1;
      SendIsBacked(cfg, s, e);
      TasksRemember(cfg, banned, states, moves, m, e.task);
      var phase := s.tasks[e.task].phase;
      var i, h, j :| 0 <= i <= h <= j <= m && ReadAndChecked(states, i, h, j, phase.read, phase.checked);
      if cfg.localWallet.Some? {
        BackedNeedsTotal(cfg, phase.read, phase.checked, s.core, states[n].core.approvals[k]);
        TotalComesFromSnapshot(cfg, banned, states, moves, h);
      }
      if cfg.minValidators >= 1 {
        BackedNeedsWallets(cfg, phase.read, phase.checked, s.core, states[n].core.approvals[k]);
        WalletsComeFromWrite(cfg, banned, states, moves, i);
      }
    }
  }

  // ---- a vote run without interference is the atomic step ----

  /** At most `steps` steps of task `t`, with nothing else in between. */
  ghost function Alone(cfg: Config, s: Shared, t: nat, receiverAlive: bool, steps: nat): Shared
    decreases steps
  {
    if steps == 0 || t !in s.tasks then s else Alone(cfg, Proceed(cfg, s, t, receiverAlive), t, receiverAlive, steps - 1)
  }

  function Only(c: Core, t: nat, m: VoteMessage, phase: Phase): Shared {
    Shared(c, map[t := Task(m, phase)], if phase.HoldsLock() then Some(t) else None)
  }

  lemma AloneStep(cfg: Config, s: Shared, t: nat, receiverAlive: bool, steps: nat)
    requires t in s.tasks && steps > 0
    ensures Alone(cfg, s, t, receiverAlive, steps) == Alone(cfg, Proceed(cfg, s, t, receiverAlive), t, receiverAlive, steps - 1)
  {}

  lemma AloneDone(cfg: Config, c: Core, t: nat, receiverAlive: bool, steps: nat)
    ensures Alone(cfg, Shared(c, map[], None), t, receiverAlive, steps) == Shared(c, map[], None)
  {}

  lemma FinishOnly(c: Core, t: nat, m: VoteMessage, phase: Phase)
    ensures Finish(Only(c, t, m, phase), t) == Shared(c, map[], None)
  {
    assert map[t := Task(m, phase)] - {t} == map[];
  }

  /** What a task past its stake check does to the counting state it has looked at all along. */
  ghost function Sending(c: Core, id: string, receiverAlive: bool): Core
    requires id in c.pending
  {
    if |ValidWallets(c.pending[id].votes, EligibleWallets(c))| >= c.pending[id].minValidators && receiverAlive
    then c.(emitted := c.emitted + {id}, approvals := c.approvals + [c.pending[id].request])
    else c
  }

  lemma FromStaked(cfg: Config, c: Core, m: VoteMessage, t: nat, receiverAlive: bool)
    requires m.requestId in c.pending
    ensures Alone(cfg, Only(c, t, m, Staked(c, c)), t, receiverAlive, 1)
         == Shared(Sending(c, m.requestId, receiverAlive), map[], None)
  {
    var c' := Sending(c, m.requestId, receiverAlive);
    AloneStep(cfg, Only(c, t, m, Staked(c, c)), t, receiverAlive, 1);
    FinishOnly(c', t, m, Staked(c, c));
    AloneDone(cfg, c', t, receiverAlive, 0);
  }

  lemma FromPriced(cfg: Config, c: Core, m: VoteMessage, t: nat, receiverAlive: bool)
    requires m.requestId in c.pending
    ensures Alone(cfg, Only(c, t, m, Priced(c, c.registryTotal)), t, receiverAlive, 2)
         == Shared(if StakeQuorum(c.pending[m.requestId].votes, c.stakes, c.registryTotal, c.banned, cfg.localWallet)
                   then Sending(c, m.requestId, receiverAlive) else c, map[], None)
  {
    var phase := Priced(c, c.registryTotal);
    AloneStep(cfg, Only(c, t, m, phase), t, receiverAlive, 2);
    FinishOnly(c, t, m, phase);
    AloneDone(cfg, c, t, receiverAlive, 1);
    FromStaked(cfg, c, m, t, receiverAlive);
    assert c.(registryTotal := c.registryTotal) == c;
    assert Advance(Only(c, t, m, phase), t, Staked(c, c)) == Only(c, t, m, Staked(c, c));
  }

  lemma FromLocked(cfg: Config, c: Core, m: VoteMessage, t: nat, receiverAlive: bool)
    requires m.requestId in c.pending && cfg.hasChannel
    ensures Alone(cfg, Only(c, t, m, Locked(c)), t, receiverAlive, 4)
         == Shared(Emit(cfg, c, m.requestId, EligibleWallets(c), receiverAlive), map[], None)
  {
    AloneStep(cfg, Only(c, t, m, Locked(c)), t, receiverAlive, 4);
    FinishOnly(c, t, m, Locked(c));
    AloneDone(cfg, c, t, receiverAlive, 3);
    AloneStep(cfg, Only(c, t, m, Counted(c)), t, receiverAlive, 3);
    FromPriced(cfg, c, m, t, receiverAlive);
    assert Advance(Only(c, t, m, Locked(c)), t, Counted(c)) == Only(c, t, m, Counted(c));
    assert Advance(Only(c, t, m, Counted(c)), t, Priced(c, c.registryTotal)) == Only(c, t, m, Priced(c, c.registryTotal));
  }

  lemma CheckAlone(cfg: Config, c: Core, m: VoteMessage, t: nat, receiverAlive: bool)
    requires m.requestId in c.pending && cfg.hasChannel
    ensures Alone(cfg, Only(c, t, m, Reading), t, receiverAlive, 6)
         == Shared(Emit(cfg, c, m.requestId, EligibleWallets(c), receiverAlive), map[], None)
  {
    hide Emit, Alone, EligibleWallets;
    AloneStep(cfg, Only(c, t, m, Reading), t, receiverAlive, 6);
    AloneStep(cfg, Only(c, t, m, Waiting(c)), t, receiverAlive, 5);
    FromLocked(cfg, c, m, t, receiverAlive);
    assert Advance(Only(c, t, m, Reading), t, Waiting(c)) == Only(c, t, m, Waiting(c));
    assert Advance(Only(c, t, m, Waiting(c)), t, Locked(c)).(holder := Some(t)) == Only(c, t, m, Locked(c));
  }

  /** A vote whose steps run without interference does exactly what the one-step model says. */
  lemma AloneIsAtomic(cfg: Config, c: Core, m: VoteMessage, t: nat, receiverAlive: bool)
    requires Admitted(cfg, c, m)
    ensures exists steps: nat :: steps <= 8 &&
              Alone(cfg, Only(c, t, m, Installing), t, receiverAlive, steps)
              == Shared(SubmitCore(cfg, c, m, receiverAlive), map[], None)
  {
    hide MayEmit, Alone, Admitted;
    AdmittedHasRound(cfg, c, m);
    var c1, c2 := InstallVote(c, m), Tallied(c, m);
    var steps := if IsFlip(c, m) then 8 else 7;
    AloneStep(cfg, Only(c, t, m, Installing), t, receiverAlive, steps);
    if IsFlip(c, m) {
      assert Proceed(cfg, Only(c, t, m, Installing), t, receiverAlive) == Only(c1, t, m, Banning);
      AloneStep(cfg, Only(c1, t, m, Banning), t, receiverAlive, 7);
      FinishOnly(c2, t, m, Banning);
      assert cfg.hasChannel ==> Proceed(cfg, Only(c1, t, m, Banning), t, receiverAlive) == Only(c2, t, m, Reading);
    } else {
      FinishOnly(c1, t, m, Installing);
      assert cfg.hasChannel ==> Proceed(cfg, Only(c, t, m, Installing), t, receiverAlive) == Only(c1, t, m, Reading);
    }
    if cfg.hasChannel {
      CheckAlone(cfg, c2, m, t, receiverAlive);
    } else {
      AloneDone(cfg, c2, t, receiverAlive, 6);
    }
  }
}
