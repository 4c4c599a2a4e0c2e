/** The leader entries in every run, read off the events, and what they make of the selection. */
module LeaderRuns {
  import opened Common
  import opened Tally
  import opened Leader
  import opened LeaderAgreement
  import opened TransactModel
  import opened TransactHistory

  /** The wallet a peer is known under: the last one it registered with, as far as it named one. */
  ghost function KnownWallet(events: seq<Event>, n: nat, node: NodeId): Option<Option<Wallet>>
    requires n <= |events|
  {
    if n == 0 then None
    else
      var before, e := KnownWallet(events, n - 1, node), events[n - 1];
      if e.Register? && e.node == node && Known(events, n - 1, e.wallet) && (before.None? || e.wallet.Some?) then Some(e.wallet)
      else before
  }

  /** The stake of the wallet it was known under in the last snapshot, empty ones included; zero if it came later. */
  ghost function SyncedStake(events: seq<Event>, n: nat, node: NodeId): u64
    requires n <= |events|
  {
    if n == 0 then 0
    else if events[n - 1].Sync? then
      var known, stakes := KnownWallet(events, n - 1, node), events[n - 1].stakes;
      if known.Some? && known.value.Some? && known.value.value in stakes then stakes[known.value.value] else 0
    else SyncedStake(events, n - 1, node)
  }

  ghost predicate EntryIs(m: Entries, node: NodeId, known: Option<Option<Wallet>>, stake: u64, active: bool) {
    && (node in m <==> known.Some?)
    && (known.None? ==> stake == 0 && !active)
    && (known.Some? ==> m[node] == ValidatorInfo(node, stake, 1000, active, known.value))
  }

  lemma EntryNext(cfg: Config, s: State, e: Event, node: NodeId, known: Option<Option<Wallet>>, stake: u64, active: bool)
    requires EntryIs(s.leaders, node, known, stake, active)
    ensures var joins := e.Register? && e.node == node && (s.core.wallets == {} || (e.wallet.Some? && e.wallet.value in s.core.wallets));
            EntryIs(Step(cfg, s, e).leaders, node,
                    if joins && (known.None? || e.wallet.Some?) then Some(e.wallet) else known,
                    if !e.Sync? then stake
                    else if known.Some? && known.value.Some? && known.value.value in e.stakes then e.stakes[known.value.value] else 0,
                    joins || (active && !(e.Unregister? && e.node == node)))
  {
    hide SubmitCore, StartCore, SweepCore, StartSucceeds;
  }

  /** In every run a peer's entry holds its wallet, that wallet's stake, full reputation, and whether it is a voter now. */
  lemma {:induction false} EntriesExactly(cfg: Config, banned: set<Wallet>, events: seq<Event>, n: nat, node: NodeId)
    requires n <= |events|
    ensures EntryIs(At(cfg, Initial(banned), events, n).leaders, node,
                    KnownWallet(events, n, node), SyncedStake(events, n, node), node in Voters(events, n))
  {
    hide Step;
    if n > 0 {
      EntriesExactly(cfg, banned, events, n - 1, node);
      SnapshotIsLast(cfg, banned, events, n - 1);
      EntryNext(cfg, At(cfg, Initial(banned), events, n - 1), events[n - 1], node,
                KnownWallet(events, n - 1, node), SyncedStake(events, n - 1, node), node in Voters(events, n - 1));
    }
  }

  /**
   In every run and for every visiting order, each voter can be selected, and the random values
   that select it number exactly its wallet's stake in the last snapshot.
   */
  lemma ChancesAreStakes(cfg: Config, banned: set<Wallet>, events: seq<Event>, n: nat, order: seq<NodeId>, node: NodeId)
    returns (i: nat)
    requires n <= |events| && IterationOrder(At(cfg, Initial(banned), events, n).leaders, order) && node in Voters(events, n)
    ensures var active := ActiveIn(At(cfg, Initial(banned), events, n).leaders, order);
            && i < |active| && active[i].nodeId == node
            && |ValuesSelecting(Weights(active), i)| == SyncedStake(events, n, node)
  {
    hide At, Voters, SyncedStake, KnownWallet, ActiveIn, ValuesSelecting;
    var m := At(cfg, Initial(banned), events, n).leaders;
    EntriesExactly(cfg, banned, events, n, node);
    i := ActiveIndex(m, order, node);
    WeightExactly(m[node]);
    ExactlyWeighted(Weights(ActiveIn(m, order)));
  }

  /** Nobody but a voter is ever selected. */
  lemma OnlyVotersLead(cfg: Config, banned: set<Wallet>, events: seq<Event>, n: nat, order: seq<NodeId>, i: nat)
    requires n <= |events| && IterationOrder(At(cfg, Initial(banned), events, n).leaders, order)
    requires i < |ActiveIn(At(cfg, Initial(banned), events, n).leaders, order)|
    ensures ActiveIn(At(cfg, Initial(banned), events, n).leaders, order)[i].nodeId in Voters(events, n)
  {
    hide At, Voters, SyncedStake, KnownWallet, ActiveIn;
    var m := At(cfg, Initial(banned), events, n).leaders;
    ActiveAreActive(m, order, i);
    var node :| node in order && m[node] == ActiveIn(m, order)[i];
    EntriesExactly(cfg, banned, events, n, node);
  }

  ghost predicate NoSync(events: seq<Event>, n: nat)
    requires n <= |events|
  {
    forall k :: 0 <= k < n ==> !events[k].Sync?
  }

  lemma {:induction false} NoStakeWithoutSync(events: seq<Event>, n: nat, node: NodeId)
    requires n <= |events| && NoSync(events, n)
    ensures SyncedStake(events, n, node) == 0
  {
    if n > 0 { NoStakeWithoutSync(events, n - 1, node); }
  }

  /** Before the first snapshot there is no weight at all, so no selection succeeds. */
  lemma NoLeaderBeforeSnapshot(cfg: Config, banned: set<Wallet>, events: seq<Event>, n: nat, order: seq<NodeId>)
    requires n <= |events| && NoSync(events, n) && IterationOrder(At(cfg, Initial(banned), events, n).leaders, order)
    ensures Sum(Weights(ActiveIn(At(cfg, Initial(banned), events, n).leaders, order))) == 0
  {
    hide At, Voters, SyncedStake, KnownWallet, ActiveIn, Sum;
    var m := At(cfg, Initial(banned), events, n).leaders;
    var ws := Weights(ActiveIn(m, order));
    forall i | 0 <= i < |ws| ensures ws[i] <= 0 {
      ActiveAreActive(m, order, i);
      var node :| node in order && m[node] == ActiveIn(m, order)[i];
      EntriesExactly(cfg, banned, events, n, node);
      NoStakeWithoutSync(events, n, node);
      WeightExactly(m[node]);
    }
    SumBound(ws, 0);
  }
}
