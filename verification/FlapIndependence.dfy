/**
 Connectivity does not decide settlements: registering and unregistering peers influences the
 approvals only through whether a round may be started.
 */
module FlapIndependence {
  import opened Common
  import opened Encoding
  import opened Tally
  import opened Quorum
  import opened TransactModel

  /** A run with its register and unregister events left out and each start marked with its success. */
  datatype Observed = Other(event: Event) | Started(request: Request, now: nat, ok: bool)

  ghost function Observe(cfg: Config, s: State, events: seq<Event>, n: nat): seq<Observed>
    requires n <= |events|
  {
    if n == 0 then []
    else
      var before, e := Observe(cfg, s, events, n - 1), events[n - 1];
      match e
      case Register(_, _) => before
      case Unregister(_) => before
      case Start(request, now) => before + [Started(request, now, StartSucceeds(cfg, At(cfg, s, events, n - 1), request))]
      case _ => before + [Other(e)]
  }

  /** The counting state, driven by what was observed alone. */
  ghost function CoreRun(cfg: Config, c: Core, obs: seq<Observed>): Core {
    if obs == [] then c
    else
      var before := CoreRun(cfg, c, obs[..|obs| - 1]);
      match obs[|obs| - 1]
      case Started(request, now, ok) => if ok then StartCore(cfg, before, request, now) else before
      case Other(e) => Step(cfg, State(before, [], map[]), e).core
  }

  lemma CoreStepLocal(cfg: Config, s: State, e: Event)
    requires !e.Start?
    ensures Step(cfg, s, e).core == Step(cfg, State(s.core, [], map[]), e).core
    ensures e.Register? || e.Unregister? ==> Step(cfg, s, e).core == s.core
  {
  }

  lemma {:induction false} CoreFollowsObservation(cfg: Config, s: State, events: seq<Event>, n: nat)
    requires n <= |events|
    ensures At(cfg, s, events, n).core == CoreRun(cfg, s.core, Observe(cfg, s, events, n))
  {
    if n > 0 {
      CoreFollowsObservation(cfg, s, events, n - 1);
      var before, e := At(cfg, s, events, n - 1), events[n - 1];
      var obs, obs' := Observe(cfg, s, events, n - 1), Observe(cfg, s, events, n);
      if obs' != obs {
        assert obs'[..|obs'| - 1] == obs;
      }
      if !e.Start? {
        CoreStepLocal(cfg, before, e);
      }
    }
  }

  /**
   Flap independence: two runs that differ only in register and unregister events, and in which
   each start succeeds in both or in neither, end with the same rounds, marks, bans and stakes
   and have sent the same approvals in the same order.
   */
  lemma ApprovalsIgnoreFlaps(cfg: Config, s: State, events: seq<Event>, t: State, events': seq<Event>)
    requires s.core == t.core
    requires Observe(cfg, s, events, |events|) == Observe(cfg, t, events', |events'|)
    ensures Final(cfg, s, events).core == Final(cfg, t, events').core
    ensures Final(cfg, s, events).core.approvals == Final(cfg, t, events').core.approvals
  {
    CoreFollowsObservation(cfg, s, events, |events|);
    CoreFollowsObservation(cfg, t, events', |events'|);
  }

  // ---- a reconnecting validator ----

  /** No event registers `node` under another wallet than `w`. */
  ghost predicate KeepsWallet(events: seq<Event>, n: nat, node: NodeId, w: Wallet)
    requires n <= |events|
  {
    forall k :: 0 <= k < n && events[k].Register? && events[k].node == node && events[k].wallet.Some? ==>
      events[k].wallet.value == w
  }

  /** The stake of `w` in the last snapshot of the run, or `initial` if there was none. */
  ghost function LastStake(events: seq<Event>, n: nat, w: Wallet, initial: u64): u64
    requires n <= |events|
  {
    if n == 0 then initial
    else if events[n - 1].Sync? then Weight(events[n - 1].stakes, w)
    else LastStake(events, n - 1, w, initial)
  }

  lemma EntryStep(cfg: Config, s: State, e: Event, node: NodeId, w: Wallet)
    requires node in s.leaders && s.leaders[node].wallet == Some(w)
    requires e.Register? && e.node == node && e.wallet.Some? ==> e.wallet.value == w
    ensures var t := Step(cfg, s, e);
            && node in t.leaders && t.leaders[node].wallet == Some(w)
            && t.leaders[node].reputation == s.leaders[node].reputation
            && t.leaders[node].stakeAmount == if e.Sync? then Weight(e.stakes, w) else s.leaders[node].stakeAmount
  {
  }

  /**
   However often it disconnects and reconnects with the same wallet, a known validator keeps its
   entry: the wallet, the reputation, and the stake of the last snapshot.
   */
  lemma {:induction false} EntrySurvivesFlaps(cfg: Config, s: State, events: seq<Event>, n: nat, node: NodeId, w: Wallet)
    requires n <= |events| && node in s.leaders && s.leaders[node].wallet == Some(w)
    requires KeepsWallet(events, n, node, w)
    ensures var t := At(cfg, s, events, n);
            && node in t.leaders && t.leaders[node].wallet == Some(w)
            && t.leaders[node].reputation == s.leaders[node].reputation
            && t.leaders[node].stakeAmount == LastStake(events, n, w, s.leaders[node].stakeAmount)
  {
    if n > 0 {
      EntrySurvivesFlaps(cfg, s, events, n - 1, node, w);
      EntryStep(cfg, At(cfg, s, events, n - 1), events[n - 1], node, w);
    }
  }

  /**
   Reconnecting restores the entry: after any run, registering the node again with its wallet,
   while the wallet is in the snapshot (or none has landed), gives back the very entry it had,
   active, and puts the node in the voter set.
   */
  lemma ReconnectRestores(cfg: Config, s: State, node: NodeId, w: Wallet)
    requires node in s.leaders && s.leaders[node].wallet == Some(w)
    requires s.core.wallets == {} || w in s.core.wallets
    ensures var t := Step(cfg, Step(cfg, s, Unregister(node)), Register(node, Some(w)));
            && t.leaders == s.leaders[node := s.leaders[node].(isActive := true)]
            && node in t.validators
            && t.core == s.core
  {
  }

  /** Disconnecting takes the node out of the voter set and leaves everyone else in, in order. */
  lemma {:induction false} WithoutRemoves(vs: seq<NodeId>, node: NodeId)
    ensures node !in Without(vs, node)
    ensures forall v :: v != node ==> (v in Without(vs, node) <==> v in vs)
  {
    if vs != [] {
      WithoutRemoves(vs[..|vs| - 1], node);
      assert vs == vs[..|vs| - 1] + [vs[|vs| - 1]];
    }
  }
}
