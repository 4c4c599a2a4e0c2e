/**
 What a run of the settlement consensus decides, read off its events alone.  Each part of the
 coordinator's state has a definition that looks only at the events so far: the snapshot in force,
 the voters, the open rounds, the ballots cast in them, the bans, the marks and the approvals.  The
 coordinator is proved to agree with these definitions in every run.
 */
module TransactHistory {
  import opened Common
  import opened Encoding
  import opened Tally
  import opened Quorum
  import opened TransactModel
  import opened TransactRuns

  // ---- the snapshot in force ----

  datatype Snapshot = Snapshot(stakes: Stakes, total: u64)

  /** The last snapshot that was not empty. */
  ghost function LastSnapshot(events: seq<Event>, n: nat): Snapshot
    requires n <= |events|
  {
    if n == 0 then Snapshot(map[], 0)
    else if events[n - 1].Sync? && events[n - 1].stakes != map[] then Snapshot(events[n - 1].stakes, events[n - 1].registryTotal)
    else LastSnapshot(events, n - 1)
  }

  lemma SnapshotStep(cfg: Config, s: State, e: Event)
    ensures var c, c' := s.core, Step(cfg, s, e).core;
            if e.Sync? && e.stakes != map[]
            then c'.stakes == e.stakes && c'.wallets == e.stakes.Keys && c'.registryTotal == e.registryTotal
            else c'.stakes == c.stakes && c'.wallets == c.wallets && c'.registryTotal == c.registryTotal
  {
    hide MayEmit, RegisterLeader, Install;
  }

  /** Stakes, wallets and registry total are those of the last snapshot; nothing of an earlier one is left. */
  lemma {:induction false} SnapshotIsLast(cfg: Config, banned: set<Wallet>, events: seq<Event>, n: nat)
    requires n <= |events|
    ensures var c, last := At(cfg, Initial(banned), events, n).core, LastSnapshot(events, n);
            c.stakes == last.stakes && c.wallets == last.stakes.Keys && c.registryTotal == last.total
  {
    hide Step;
    if n > 0 {
      SnapshotIsLast(cfg, banned, events, n - 1);
      SnapshotStep(cfg, At(cfg, Initial(banned), events, n - 1), events[n - 1]);
    }
  }

  // ---- the voters ----

  /** Before a snapshot everybody is known, and then exactly the wallets in it. */
  ghost predicate Known(events: seq<Event>, n: nat, wallet: Option<Wallet>)
    requires n <= |events|
  {
    var stakes := LastSnapshot(events, n).stakes;
    stakes == map[] || (wallet.Some? && wallet.value in stakes)
  }

  /** The peers that registered with a known wallet and have not left since. */
  ghost function Voters(events: seq<Event>, n: nat): set<NodeId>
    requires n <= |events|
  {
    if n == 0 then {}
    else
      match events[n - 1]
      case Register(node, wallet) => if Known(events, n - 1, wallet) then Voters(events, n - 1) + {node} else Voters(events, n - 1)
      case Unregister(node) => Voters(events, n - 1) - {node}
      case _ => Voters(events, n - 1)
  }

  /** `vs` lists the members of `s`, each once. */
  ghost predicate Lists(vs: seq<NodeId>, s: set<NodeId>) {
    && (forall v :: v in vs <==> v in s)
    && (forall i, j :: 0 <= i < j < |vs| ==> vs[i] != vs[j])
  }

  lemma ListsSplit(vs: seq<NodeId>, s: set<NodeId>)
    requires Lists(vs, s) && vs != []
    ensures var k := |vs| - 1; vs[k] in s && Lists(vs[..k], s - {vs[k]})
  {
    var k := |vs| - 1;
    assert vs == vs[..k] + [vs[k]];
  }

  lemma {:induction false} ListsSize(vs: seq<NodeId>, s: set<NodeId>)
    requires Lists(vs, s)
    ensures |vs| == |s|
  {
    if vs == [] {
      assert s == {};
    } else {
      ListsSplit(vs, s);
      ListsSize(vs[..|vs| - 1], s - {vs[|vs| - 1]});
    }
  }

  lemma ListsPush(vs: seq<NodeId>, s: set<NodeId>, node: NodeId)
    requires Lists(vs, s) && node !in s
    ensures Lists(vs + [node], s + {node})
  {}

  lemma {:induction false} ListsWithout(vs: seq<NodeId>, s: set<NodeId>, node: NodeId)
    requires Lists(vs, s)
    ensures Lists(Without(vs, node), s - {node})
  {
    if vs != [] {
      var last := vs[|vs| - 1];
      ListsSplit(vs, s);
      ListsWithout(vs[..|vs| - 1], s - {last}, node);
      if last == node {
        assert s - {last} - {node} == s - {node};
      } else {
        ListsPush(Without(vs[..|vs| - 1], node), s - {last} - {node}, last);
        assert s - {last} - {node} + {last} == s - {node};
      }
    }
  }

  lemma VotersStep(cfg: Config, s: State, e: Event, voters: set<NodeId>)
    requires Lists(s.validators, voters)
    ensures Lists(Step(cfg, s, e).validators,
                  match e
                  case Register(node, wallet) => if s.core.wallets == {} || (wallet.Some? && wallet.value in s.core.wallets) then voters + {node} else voters
                  case Unregister(node) => voters - {node}
                  case _ => voters)
  {
    hide Lists, RegisterLeader, SubmitCore, Without;
    match e
    case Register(node, _) =>
      if node in s.validators { ListsMember(s.validators, voters, node); } else { ListsNew(s.validators, voters, node); }
    case Unregister(node) => ListsWithout(s.validators, voters, node);
    case _ =>
  }

  lemma ListsMember(vs: seq<NodeId>, s: set<NodeId>, node: NodeId)
    requires Lists(vs, s) && node in vs
    ensures s + {node} == s
  {}

  lemma ListsNew(vs: seq<NodeId>, s: set<NodeId>, node: NodeId)
    requires Lists(vs, s) && node !in vs
    ensures Lists(vs + [node], s + {node})
  {
    ListsPush(vs, s, node);
  }

  /** The coordinator's list holds exactly the voters, each once: a peer outside the snapshot never joins. */
  lemma {:induction false} VotersExactly(cfg: Config, banned: set<Wallet>, events: seq<Event>, n: nat)
    requires n <= |events|
    ensures Lists(At(cfg, Initial(banned), events, n).validators, Voters(events, n))
    ensures |At(cfg, Initial(banned), events, n).validators| == |Voters(events, n)|
  {
    hide Step;
    if n > 0 {
      VotersExactly(cfg, banned, events, n - 1);
      SnapshotIsLast(cfg, banned, events, n - 1);
      VotersStep(cfg, At(cfg, Initial(banned), events, n - 1), events[n - 1], Voters(events, n - 1));
    }
    ListsSize(At(cfg, Initial(banned), events, n).validators, Voters(events, n));
  }

  // ---- the open rounds ----

  datatype OpenRound = OpenRound(request: Request, deadline: nat)

  /**
   A round is opened by a start under the request's own id while there is a voter and at least the
   minimum of them; it ends when it is cleaned up, or by a sweep more than thirty seconds later.
   */
  ghost function Open(cfg: Config, events: seq<Event>, n: nat, id: string): Option<OpenRound>
    requires n <= |events|
  {
    if n == 0 then None
    else
      var before, voters := Open(cfg, events, n - 1, id), |Voters(events, n - 1)|;
      match events[n - 1]
      case Start(request, now) =>
        if before.None? && request.requestId == id && cfg.idOf(request) == id && voters >= 1 && voters >= cfg.minValidators
        then Some(OpenRound(request, now + 30)) else before
      case Cleanup(other) => if other == id then None else before
      case Sweep(now) => if before.Some? && now > before.value.deadline then None else before
      case _ => before
  }

  /** The rounds of the state are the given one and no other. */
  ghost predicate RoundIs(cfg: Config, c: Core, id: string, round: Option<OpenRound>) {
    && (id in c.pending <==> round.Some?)
    && (round.Some? ==>
          && c.pending[id].request == round.value.request && c.pending[id].deadline == round.value.deadline
          && c.pending[id].minValidators == cfg.minValidators)
  }

  lemma RoundStep(cfg: Config, s: State, e: Event, id: string, round: Option<OpenRound>)
    requires RoundIs(cfg, s.core, id, round)
    ensures RoundIs(cfg, Step(cfg, s, e).core, id,
                    match e
                    case Start(request, now) =>
                      if round.None? && request.requestId == id && cfg.idOf(request) == id && |s.validators| >= 1 && |s.validators| >= cfg.minValidators
                      then Some(OpenRound(request, now + 30)) else round
                    case Cleanup(other) => if other == id then None else round
                    case Sweep(now) => if round.Some? && now > round.value.deadline then None else round
                    case _ => round)
  {
    hide MayEmit, RegisterLeader, Install;
  }

  lemma {:induction false} RoundsExactly(cfg: Config, banned: set<Wallet>, events: seq<Event>, n: nat, id: string)
    requires n <= |events|
    ensures RoundIs(cfg, At(cfg, Initial(banned), events, n).core, id, Open(cfg, events, n, id))
  {
    hide Step, RoundIs;
    if n == 0 {
      NothingOpen(cfg, banned, id);
    } else {
      RoundsExactly(cfg, banned, events, n - 1, id);
      VotersExactly(cfg, banned, events, n - 1);
      RoundStep(cfg, At(cfg, Initial(banned), events, n - 1), events[n - 1], id, Open(cfg, events, n - 1, id));
    }
  }

  lemma NothingOpen(cfg: Config, banned: set<Wallet>, id: string)
    ensures RoundIs(cfg, Initial(banned).core, id, None)
  {}

  // ---- the ballots ----

  /** Event `k` is a signed vote of the known wallet `w` on the open round of `id`. */
  ghost predicate Votes(cfg: Config, events: seq<Event>, k: nat, id: string, w: Wallet) {
    && k < |events| && events[k].Submit? && Open(cfg, events, k, id).Some?
    && events[k].message.requestId == id && events[k].message.wallet == w
    && w != "" && events[k].message.signature != [] && Known(events, k, Some(w))
  }

  /** The first vote of `w` in the open round of `id`. */
  ghost function Ballot(cfg: Config, events: seq<Event>, n: nat, id: string, w: Wallet): Option<VoteRecord>
    requires n <= |events|
  {
    if n == 0 || Open(cfg, events, n, id).None? then None
    else
      var before := Ballot(cfg, events, n - 1, id, w);
      if before.None? && Votes(cfg, events, n - 1, id, w) then
        var m := events[n - 1].message;
        Some(VoteRecord(m.vote, m.validator, m.signature))
      else before
  }

  ghost predicate BallotIs(c: Core, id: string, w: Wallet, ballot: Option<VoteRecord>) {
    && (id in c.pending && w in c.pending[id].votes <==> ballot.Some?)
    && (ballot.Some? ==> c.pending[id].votes[w] == ballot.value)
  }

  /** The vote is admitted exactly if it is signed, on an open round, and of a known wallet. */
  lemma AdmittedExactly(cfg: Config, banned: set<Wallet>, events: seq<Event>, n: nat)
    requires n < |events| && events[n].Submit?
    ensures var m := events[n].message;
            Admitted(cfg, At(cfg, Initial(banned), events, n).core, m) <==> Votes(cfg, events, n, m.requestId, m.wallet)
  {
    hide Step;
    var c, m := At(cfg, Initial(banned), events, n).core, events[n].message;
    SnapshotIsLast(cfg, banned, events, n);
    RoundsExactly(cfg, banned, events, n, m.requestId);
    InvAlways(cfg, banned, events, n);
    if m.requestId in c.pending {
      assert RoundOk(cfg, m.requestId, c.pending[m.requestId]);
    }
  }

  lemma BallotStep(cfg: Config, s: State, e: Event, id: string, w: Wallet, ballot: Option<VoteRecord>)
    requires BallotIs(s.core, id, w, ballot)
    ensures BallotIs(Step(cfg, s, e).core, id, w,
                     if id !in s.core.pending || id !in Step(cfg, s, e).core.pending then None
                     else if ballot.None? && e.Submit? && Admitted(cfg, s.core, e.message) && e.message.requestId == id && e.message.wallet == w
                     then Some(VoteRecord(e.message.vote, e.message.validator, e.message.signature)) else ballot)
  {
    hide MayEmit, RegisterLeader;
  }

  /** Every record is the first vote of its wallet in the round, and every such vote is recorded. */
  lemma {:induction false} BallotsExactly(cfg: Config, banned: set<Wallet>, events: seq<Event>, n: nat, id: string, w: Wallet)
    requires n <= |events|
    ensures BallotIs(At(cfg, Initial(banned), events, n).core, id, w, Ballot(cfg, events, n, id, w))
  {
    hide Step, Admitted, Open, Known;
    RoundsExactly(cfg, banned, events, n, id);
    if n > 0 {
      var s := At(cfg, Initial(banned), events, n - 1);
      RoundsExactly(cfg, banned, events, n - 1, id);
      BallotsExactly(cfg, banned, events, n - 1, id, w);
      BallotStep(cfg, s, events[n - 1], id, w, Ballot(cfg, events, n - 1, id, w));
      if events[n - 1].Submit? {
        AdmittedExactly(cfg, banned, events, n - 1);
      }
    }
  }

  // ---- the bans ----

  /** `w` was banned from the start, or has cast a vote against its ballot. */
  ghost predicate Banned(cfg: Config, banned: set<Wallet>, events: seq<Event>, n: nat, w: Wallet)
    requires n <= |events|
  {
    if n == 0 then w in banned
    else Banned(cfg, banned, events, n - 1, w) || Turns(cfg, events, n - 1, w)
  }

  /** Event `k` is a vote of `w` of the other kind than its ballot. */
  ghost predicate Turns(cfg: Config, events: seq<Event>, k: nat, w: Wallet)
    requires k < |events|
  {
    && events[k].Submit? && Votes(cfg, events, k, events[k].message.requestId, w)
    && var ballot := Ballot(cfg, events, k, events[k].message.requestId, w);
       ballot.Some? && ballot.value.vote.Valid? != events[k].message.vote.Valid?
  }

  lemma BanStep(cfg: Config, s: State, e: Event, w: Wallet)
    ensures w in Step(cfg, s, e).core.banned <==>
            || w in s.core.banned
            || (&& e.Submit? && Admitted(cfg, s.core, e.message) && e.message.wallet == w
                && e.message.requestId in s.core.pending && w in s.core.pending[e.message.requestId].votes
                && s.core.pending[e.message.requestId].votes[w].vote.Valid? != e.message.vote.Valid?)
  {
    hide MayEmit, RegisterLeader, Install;
  }

  lemma {:induction false} BansExactly(cfg: Config, banned: set<Wallet>, events: seq<Event>, n: nat, w: Wallet)
    requires n <= |events|
    ensures w in At(cfg, Initial(banned), events, n).core.banned <==> Banned(cfg, banned, events, n, w)
  {
    hide Step, Admitted, Ballot, Open, Known;
    if n > 0 {
      BansExactly(cfg, banned, events, n - 1, w);
      BanStep(cfg, At(cfg, Initial(banned), events, n - 1), events[n - 1], w);
      if events[n - 1].Submit? {
        AdmittedExactly(cfg, banned, events, n - 1);
        BallotsExactly(cfg, banned, events, n - 1, events[n - 1].message.requestId, w);
      }
    }
  }

  // ---- marks and approvals ----

  /** `ws` are the wallets of the snapshot whose ballot is Valid and that are not banned. */
  ghost predicate Backers(cfg: Config, banned: set<Wallet>, events: seq<Event>, n: nat, id: string, ws: set<Wallet>)
    requires n <= |events|
  {
    forall w :: w in ws <==>
      && Ballot(cfg, events, n, id, w).Some? && Ballot(cfg, events, n, id, w).value.vote.Valid?
      && w in LastSnapshot(events, n).stakes && !Banned(cfg, banned, events, n, w)
  }

  /** There are enough backers, and without the authority they hold more than two thirds of the rest of the stake. */
  ghost predicate Suffices(cfg: Config, snapshot: Snapshot, ws: set<Wallet>) {
    && |ws| >= cfg.minValidators
    && (cfg.localWallet.Some? ==>
          ClearsTwoThirds(Denominator(snapshot.stakes, snapshot.total, cfg.localWallet.value),
                          StakeOf(snapshot.stakes, ws - {cfg.localWallet.value})))
  }

  ghost predicate Carried(cfg: Config, banned: set<Wallet>, events: seq<Event>, n: nat, id: string)
    requires n <= |events|
  {
    exists ws :: Backers(cfg, banned, events, n, id, ws) && Suffices(cfg, LastSnapshot(events, n), ws)
  }

  /** Event `k` is a vote that finds the round unmarked and, with it, carried, and somebody is listening. */
  ghost predicate Sends(cfg: Config, banned: set<Wallet>, events: seq<Event>, k: nat)
    requires k < |events|
    decreases k, 1
  {
    && events[k].Submit? && cfg.hasChannel && events[k].receiverAlive
    && Votes(cfg, events, k, events[k].message.requestId, events[k].message.wallet)
    && !Marked(cfg, banned, events, k, events[k].message.requestId)
    && Carried(cfg, banned, events, k + 1, events[k].message.requestId)
  }

  /** An approval of `id` has been sent, and since then its mark was not cleared and its round not swept. */
  ghost predicate Marked(cfg: Config, banned: set<Wallet>, events: seq<Event>, n: nat, id: string)
    requires n <= |events|
    decreases n, 0
  {
    n > 0 &&
    (|| (Sends(cfg, banned, events, n - 1) && events[n - 1].message.requestId == id)
     || (Marked(cfg, banned, events, n - 1, id) && !Unmarks(cfg, events, n - 1, id)))
  }

  ghost predicate Unmarks(cfg: Config, events: seq<Event>, k: nat, id: string)
    requires k < |events|
  {
    var round := Open(cfg, events, k, id);
    events[k] == ClearEmitted(id) || (events[k].Sweep? && round.Some? && events[k].now > round.value.deadline)
  }

  ghost function Approvals(cfg: Config, banned: set<Wallet>, events: seq<Event>, n: nat): seq<Request>
    requires n <= |events|
  {
    if n == 0 then []
    else if Sends(cfg, banned, events, n - 1) then
      Approvals(cfg, banned, events, n - 1) + [Open(cfg, events, n - 1, events[n - 1].message.requestId).value.request]
    else Approvals(cfg, banned, events, n - 1)
  }

  /** The same said of a counting state. */
  ghost predicate CarriedIn(cfg: Config, c: Core, id: string) {
    id in c.pending && exists ws :: BackersIn(c, id, ws) && Suffices(cfg, Snapshot(c.stakes, c.registryTotal), ws)
  }

  ghost predicate BackersIn(c: Core, id: string, ws: set<Wallet>)
    requires id in c.pending
  {
    forall w :: w in ws <==> w in c.pending[id].votes && c.pending[id].votes[w].vote.Valid? && w in c.stakes && w !in c.banned
  }

  lemma SufficesExactly(cfg: Config, c: Core, id: string, ws: set<Wallet>)
    requires Inv(cfg, c) && id in c.pending && id !in c.emitted && BackersIn(c, id, ws)
    ensures Due(cfg, c, id) <==> Suffices(cfg, Snapshot(c.stakes, c.registryTotal), ws)
  {
    hide StakeOf, GateOpens, ClearsTwoThirds, Inv;
    assert c.wallets == c.stakes.Keys by { InvWallets(cfg, c); }
    var votes := c.pending[id].votes;
    assert ValidWallets(votes, EligibleWallets(c)) == ws;
    if cfg.localWallet.Some? {
      var local := cfg.localWallet.value;
      assert CountedWallets(votes, c.stakes, c.banned, local) == ws - {local};
      var counted := StakeOf(c.stakes, ws - {local});
      GateExactly(EligibleStake(c.stakes, c.registryTotal, local), counted);
      EligibleIsDenominator(c.stakes, c.registryTotal, local, counted);
    }
  }

  lemma InvWallets(cfg: Config, c: Core)
    requires Inv(cfg, c)
    ensures c.wallets == c.stakes.Keys
  {}

  lemma DueExactly(cfg: Config, c: Core, id: string)
    requires Inv(cfg, c)
    ensures Due(cfg, c, id) <==> id !in c.emitted && CarriedIn(cfg, c, id)
  {
    hide Suffices, Due;
    if Due(cfg, c, id) { DueHasRound(cfg, c, id); }
    if id in c.pending && id !in c.emitted {
      var ws := ValidWallets(c.pending[id].votes, c.stakes.Keys - c.banned);
      assert BackersIn(c, id, ws);
      SufficesExactly(cfg, c, id, ws);
      forall vs | BackersIn(c, id, vs) ensures vs == ws {}
    }
  }

  lemma CarriedExactly(cfg: Config, banned: set<Wallet>, events: seq<Event>, n: nat, id: string)
    requires n <= |events| && Open(cfg, events, n, id).Some?
    ensures CarriedIn(cfg, At(cfg, Initial(banned), events, n).core, id) <==> Carried(cfg, banned, events, n, id)
  {
    hide At, Ballot, Banned, Open, LastSnapshot, Suffices;
    var c := At(cfg, Initial(banned), events, n).core;
    SnapshotIsLast(cfg, banned, events, n);
    RoundsExactly(cfg, banned, events, n, id);
    forall w ensures BallotIs(c, id, w, Ballot(cfg, events, n, id, w)) { BallotsExactly(cfg, banned, events, n, id, w); }
    forall w ensures w in c.banned <==> Banned(cfg, banned, events, n, w) { BansExactly(cfg, banned, events, n, w); }
    forall ws ensures BackersIn(c, id, ws) <==> Backers(cfg, banned, events, n, id, ws) {
      assert forall w :: BallotIs(c, id, w, Ballot(cfg, events, n, id, w));
    }
    assert Snapshot(c.stakes, c.registryTotal) == LastSnapshot(events, n);
  }

  /** What a vote leaves of the state, apart from the mark and the approval. */
  lemma SubmitIsTallied(cfg: Config, c: Core, m: VoteMessage, receiverAlive: bool, id: string)
    requires Admitted(cfg, c, m)
    ensures CarriedIn(cfg, SubmitCore(cfg, c, m, receiverAlive), id) <==> CarriedIn(cfg, Tallied(c, m), id)
    ensures Tallied(c, m).emitted == c.emitted
  {
    hide MayEmit, Suffices, StakeQuorum, Install, IsFlip;
  }

  /** The marks are those the events call for. */
  ghost predicate MarksAgree(cfg: Config, banned: set<Wallet>, events: seq<Event>, n: nat)
    requires n <= |events|
  {
    forall id :: id in At(cfg, Initial(banned), events, n).core.emitted <==> Marked(cfg, banned, events, n, id)
  }

  lemma SendsExactly(cfg: Config, banned: set<Wallet>, events: seq<Event>, n: nat)
    requires n < |events| && events[n].Submit?
    requires MarksAgree(cfg, banned, events, n)
    ensures var c, c', m := At(cfg, Initial(banned), events, n).core, At(cfg, Initial(banned), events, n + 1).core, events[n].message;
            if Sends(cfg, banned, events, n)
            then m.requestId in c.pending && c'.approvals == c.approvals + [c.pending[m.requestId].request]
            else c'.approvals == c.approvals
  {
    var s, m, alive := At(cfg, Initial(banned), events, n), events[n].message, events[n].receiverAlive;
    var c, id := s.core, m.requestId;
    assert At(cfg, Initial(banned), events, n + 1).core == SubmitCore(cfg, c, m, alive);
    hide At, SubmitCore, Admitted, Marked, Carried, CarriedIn, Open, Due, Tallied, Inv;
    AdmittedExactly(cfg, banned, events, n);
    InvAlways(cfg, banned, events, n);
    SendsExactlyWhenDue(cfg, c, m, alive);
    if Admitted(cfg, c, m) {
      AdmittedHasRound(cfg, c, m);
      InvTallied(cfg, c, m);
      DueExactly(cfg, Tallied(c, m), id);
      SubmitIsTallied(cfg, c, m, alive, id);
      OpenStays(cfg, events, n, id);
      CarriedExactly(cfg, banned, events, n + 1, id);
    }
  }

  lemma OpenStays(cfg: Config, events: seq<Event>, n: nat, id: string)
    requires n < |events| && events[n].Submit?
    ensures Open(cfg, events, n + 1, id) == Open(cfg, events, n, id)
  {}

  lemma MarkChange(cfg: Config, s: State, e: Event, id: string)
    requires Inv(cfg, s.core)
    ensures id in Step(cfg, s, e).core.emitted <==>
            || (e.Submit? && Step(cfg, s, e).core.approvals != s.core.approvals && e.message.requestId == id)
            || (id in s.core.emitted && e != ClearEmitted(id)
                && !(e.Sweep? && id in s.core.pending && e.now > s.core.pending[id].deadline))
  {
    hide StakeQuorum, ValidWallets, EligibleVoters, EligibleWallets, RegisterLeader;
  }

  /**
   In every run the approvals are exactly those the events call for, in order: a vote sends one
   exactly if it is signed, of a known wallet and on an open round that is not marked, and if the
   wallets of the last snapshot that are not banned and whose first vote in the round is Valid are
   enough and, without the authority, hold more than two thirds of the remaining stake.
   */
  lemma {:induction false} ApprovalsByHistory(cfg: Config, banned: set<Wallet>, events: seq<Event>, n: nat)
    requires n <= |events|
    ensures At(cfg, Initial(banned), events, n).core.approvals == Approvals(cfg, banned, events, n)
    ensures MarksAgree(cfg, banned, events, n)
  {
    hide Step, Carried, Open, Votes;
    if n > 0 {
      ApprovalsByHistory(cfg, banned, events, n - 1);
      ApprovalsNext(cfg, banned, events, n);
      forall id ensures id in At(cfg, Initial(banned), events, n).core.emitted <==> Marked(cfg, banned, events, n, id) {
        MarkedNext(cfg, banned, events, n, id);
      }
    }
  }

  lemma ApprovalsNext(cfg: Config, banned: set<Wallet>, events: seq<Event>, n: nat)
    requires 0 < n <= |events|
    requires At(cfg, Initial(banned), events, n - 1).core.approvals == Approvals(cfg, banned, events, n - 1)
    requires MarksAgree(cfg, banned, events, n - 1)
    ensures At(cfg, Initial(banned), events, n).core.approvals == Approvals(cfg, banned, events, n)
  {
    hide Step, Carried, Marked, Open, Votes;
    var e := events[n - 1];
    if e.Submit? {
      SendsExactly(cfg, banned, events, n - 1);
      RoundsExactly(cfg, banned, events, n - 1, e.message.requestId);
    } else {
      OnlyVotesSend(cfg, At(cfg, Initial(banned), events, n - 1), e);
    }
  }

  lemma OnlyVotesSend(cfg: Config, s: State, e: Event)
    requires !e.Submit?
    ensures Step(cfg, s, e).core.approvals == s.core.approvals
  {}

  lemma MarkedNext(cfg: Config, banned: set<Wallet>, events: seq<Event>, n: nat, id: string)
    requires 0 < n <= |events|
    requires MarksAgree(cfg, banned, events, n - 1)
    ensures id in At(cfg, Initial(banned), events, n).core.emitted <==> Marked(cfg, banned, events, n, id)
  {
    hide Step, Carried, Open, Votes, Inv;
    var e := events[n - 1];
    InvAlways(cfg, banned, events, n - 1);
    MarkChange(cfg, At(cfg, Initial(banned), events, n - 1), e, id);
    RoundsExactly(cfg, banned, events, n - 1, id);
    if e.Submit? {
      SendsExactly(cfg, banned, events, n - 1);
    }
  }
}
