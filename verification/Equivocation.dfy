/**
 Votes, flips and bans over whole runs whose operations are one step each; `InterleavedEquivocation`
 says what becomes of this when votes are in flight at the same time.
 */
module Equivocation {
  import opened Tally
  import opened Quorum
  import opened TransactModel

  /** The round of `id` exists in every state from the `m`-th to the `n`-th. */
  ghost predicate PendingThroughout(cfg: Config, s: State, events: seq<Event>, id: string, m: nat, n: nat)
    requires m <= n <= |events|
  {
    forall k :: m <= k <= n ==> id in At(cfg, s, events, k).core.pending
  }

  ghost predicate HasVoted(c: Core, id: string, w: Wallet) {
    id in c.pending && w in c.pending[id].votes
  }

  lemma RecordStep(cfg: Config, s: State, e: Event, id: string, w: Wallet)
    requires HasVoted(s.core, id, w) && id in Step(cfg, s, e).core.pending
    ensures HasVoted(Step(cfg, s, e).core, id, w)
    ensures Step(cfg, s, e).core.pending[id].votes[w] == s.core.pending[id].votes[w]
  {
    hide MayEmit, RegisterLeader;
  }

  /** While a round lasts, the record of a wallet that has voted never changes: not its vote, its node id or its signature. */
  lemma {:induction false} RecordStands(cfg: Config, s: State, events: seq<Event>, id: string, w: Wallet, m: nat, n: nat)
    requires m <= n <= |events| && PendingThroughout(cfg, s, events, id, m, n)
    requires HasVoted(At(cfg, s, events, m).core, id, w)
    ensures HasVoted(At(cfg, s, events, n).core, id, w)
    ensures At(cfg, s, events, n).core.pending[id].votes[w] == At(cfg, s, events, m).core.pending[id].votes[w]
    decreases n
  {
    hide Step;
    if m < n {
      RecordStands(cfg, s, events, id, w, m, n - 1);
      assert id in At(cfg, s, events, n).core.pending;
      RecordStep(cfg, At(cfg, s, events, n - 1), events[n - 1], id, w);
    }
  }

  lemma BannedStep(cfg: Config, s: State, e: Event)
    ensures Step(cfg, s, e).core.banned == s.core.banned +
              if e.Submit? && Admitted(cfg, s.core, e.message) && IsFlip(s.core, e.message) then {e.message.wallet} else {}
  {
    hide MayEmit, RegisterLeader, Install;
  }

  lemma {:induction false} BansAreForGood(cfg: Config, s: State, events: seq<Event>, m: nat, n: nat)
    requires m <= n <= |events|
    ensures At(cfg, s, events, m).core.banned <= At(cfg, s, events, n).core.banned
    decreases n
  {
    hide Step;
    if m < n {
      BansAreForGood(cfg, s, events, m, n - 1);
      BannedStep(cfg, At(cfg, s, events, n - 1), events[n - 1]);
    }
  }

  /** The wallet plays no part in any decision: not eligible, no counted stake, no co-signer. */
  ghost predicate Powerless(cfg: Config, c: Core, w: Wallet) {
    && w !in EligibleWallets(c)
    && forall id :: id in c.pending ==>
         && w !in ValidWallets(c.pending[id].votes, EligibleWallets(c))
         && w !in EligibleVoters(c.pending[id].votes, EligibleWallets(c))
         && (cfg.localWallet.Some? ==> w !in CountedWallets(c.pending[id].votes, c.stakes, c.banned, cfg.localWallet.value))
  }

  /** Event `i` is an admitted vote of wallet `w` on `id`. */
  ghost predicate VotesAt(cfg: Config, s: State, events: seq<Event>, i: nat, id: string, w: Wallet) {
    && i < |events| && events[i].Submit?
    && events[i].message.requestId == id && events[i].message.wallet == w
    && Admitted(cfg, At(cfg, s, events, i).core, events[i].message)
  }

  function RecordOf(m: VoteMessage): VoteRecord { VoteRecord(m.vote, m.validator, m.signature) }

  /** Event `i` is the vote that the stored record came from, and the round has lasted since. */
  ghost predicate CameFrom(cfg: Config, s: State, events: seq<Event>, i: nat, n: nat, id: string, w: Wallet, record: VoteRecord) {
    && i < n <= |events| && VotesAt(cfg, s, events, i, id, w) && RecordOf(events[i].message) == record
    && PendingThroughout(cfg, s, events, id, i, n)
  }

  lemma NewRecordStep(cfg: Config, s: State, e: Event, id: string, w: Wallet)
    requires HasVoted(Step(cfg, s, e).core, id, w)
    ensures id in s.core.pending && (
              || (HasVoted(s.core, id, w) && s.core.pending[id].votes[w] == Step(cfg, s, e).core.pending[id].votes[w])
              || (&& e.Submit? && Admitted(cfg, s.core, e.message)
                  && e.message.requestId == id && e.message.wallet == w
                  && RecordOf(e.message) == Step(cfg, s, e).core.pending[id].votes[w]))
  {
    hide MayEmit, RegisterLeader;
  }

  /** Every record standing in a round is the vote, node id and signature of an admitted vote of that wallet in that round. */
  lemma {:induction false} RecordsComeFromVotes(cfg: Config, banned: set<Wallet>, events: seq<Event>, n: nat, id: string, w: Wallet)
    returns (i: nat)
    requires n <= |events| && HasVoted(At(cfg, Initial(banned), events, n).core, id, w)
    ensures CameFrom(cfg, Initial(banned), events, i, n, id, w, At(cfg, Initial(banned), events, n).core.pending[id].votes[w])
  {
    hide Step, Admitted;
    var s := At(cfg, Initial(banned), events, n - 1);
    NewRecordStep(cfg, s, events[n - 1], id, w);
    if HasVoted(s.core, id, w) && s.core.pending[id].votes[w] == At(cfg, Initial(banned), events, n).core.pending[id].votes[w] {
      i := RecordsComeFromVotes(cfg, banned, events, n - 1, id, w);
    } else {
      i := n - 1;
    }
  }

  /** Two admitted votes of `w` in one round, the first Valid and the other not or the other way round. */
  ghost predicate FlippedBetween(cfg: Config, s: State, events: seq<Event>, i: nat, j: nat, id: string, w: Wallet) {
    && i < j && VotesAt(cfg, s, events, i, id, w) && VotesAt(cfg, s, events, j, id, w)
    && events[i].message.vote.Valid? != events[j].message.vote.Valid?
    && PendingThroughout(cfg, s, events, id, i, j)
  }

  lemma VoteLeavesRecord(cfg: Config, s: State, e: Event)
    requires e.Submit? && Admitted(cfg, s.core, e.message)
    ensures HasVoted(Step(cfg, s, e).core, e.message.requestId, e.message.wallet)
    ensures var id, w := e.message.requestId, e.message.wallet;
            Step(cfg, s, e).core.pending[id].votes[w]
            == if HasVoted(s.core, id, w) then s.core.pending[id].votes[w] else RecordOf(e.message)
  {
    hide MayEmit, RegisterLeader;
  }

  lemma FlipStep(cfg: Config, s: State, e: Event)
    requires e.Submit? && Admitted(cfg, s.core, e.message) && HasVoted(s.core, e.message.requestId, e.message.wallet)
    requires s.core.pending[e.message.requestId].votes[e.message.wallet].vote.Valid? != e.message.vote.Valid?
    ensures e.message.wallet in Step(cfg, s, e).core.banned
  {
    BannedStep(cfg, s, e);
    hide Step;
  }

  /**
   A wallet that casts two admitted votes of opposite kind in one round, whichever comes first, is
   banned and powerless in every later state of the run, whatever happens next.
   */
  lemma FlipBansForGood(cfg: Config, s: State, events: seq<Event>, i: nat, j: nat, n: nat, id: string, w: Wallet)
    requires FlippedBetween(cfg, s, events, i, j, id, w) && j < n <= |events|
    ensures w in At(cfg, s, events, n).core.banned
    ensures Powerless(cfg, At(cfg, s, events, n).core, w)
  {
    hide Step, Admitted;
    var before, m := At(cfg, s, events, i), events[i].message;
    if HasVoted(before.core, id, w) && before.core.pending[id].votes[w].vote.Valid? != m.vote.Valid? {
      FlipStep(cfg, before, events[i]);
      BansAreForGood(cfg, s, events, i + 1, n);
    } else {
      VoteLeavesRecord(cfg, before, events[i]);
      RecordStands(cfg, s, events, id, w, i + 1, j);
      FlipStep(cfg, At(cfg, s, events, j), events[j]);
      BansAreForGood(cfg, s, events, j + 1, n);
    }
  }

  /** Nobody else is banned: a wallet a run has banned flipped, in one round, between two admitted votes. */
  lemma {:induction false} OnlyFlipsBan(cfg: Config, banned: set<Wallet>, events: seq<Event>, n: nat, w: Wallet)
    returns (i: nat, j: nat, id: string)
    requires n <= |events| && w !in banned && w in At(cfg, Initial(banned), events, n).core.banned
    ensures j < n && FlippedBetween(cfg, Initial(banned), events, i, j, id, w)
  {
    hide Step, Admitted;
    var s := At(cfg, Initial(banned), events, n - 1);
    if w in s.core.banned {
      i, j, id := OnlyFlipsBan(cfg, banned, events, n - 1, w);
    } else {
      BannedStep(cfg, s, events[n - 1]);
      j, id := n - 1, events[n - 1].message.requestId;
      AdmittedHasRound(cfg, s.core, events[n - 1].message);
      i := RecordsComeFromVotes(cfg, banned, events, n - 1, id, w);
    }
  }

  /** Who is banned, exactly: the wallets banned from the start, and those that have flipped. */
  lemma BannedExactly(cfg: Config, banned: set<Wallet>, events: seq<Event>, n: nat, w: Wallet)
    requires n <= |events|
    ensures w in At(cfg, Initial(banned), events, n).core.banned <==>
            w in banned || exists i: nat, j: nat, id :: j < n && FlippedBetween(cfg, Initial(banned), events, i, j, id, w)
  {
    hide FlippedBetween, Powerless;
    if w in banned {
      BansAreForGood(cfg, Initial(banned), events, 0, n);
    } else if w in At(cfg, Initial(banned), events, n).core.banned {
      var i, j, id := OnlyFlipsBan(cfg, banned, events, n, w);
    } else if i: nat, j: nat, id :| j < n && FlippedBetween(cfg, Initial(banned), events, i, j, id, w) {
      FlipBansForGood(cfg, Initial(banned), events, i, j, n, id, w);
    }
  }
}
