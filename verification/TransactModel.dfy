/**
 The transact settlement consensus as a state machine: its state, one step per public operation,
 and runs of any length.  `TransactCoordinator` is proved to take exactly these steps.
 */
module TransactModel {
  import opened Common
  import opened Encoding
  import opened Tally
  import opened Quorum
  import opened Leader

  /** `idOf` is the content-bound id of a request; on a node it is the canonical id (`UsesCanonicalId`). */
  datatype Config = Config(
    idOf: Request -> string,
    minValidators: nat,
    totalValidators: nat,
    hasChannel: bool,
    localWallet: Option<Wallet>)

  ghost predicate UsesCanonicalId(cfg: Config, sha: Sha) {
    forall r :: cfg.idOf(r) == CanonicalId(sha, r)
  }

  /** One pending verification. */
  datatype Round = Round(request: Request, votes: Votes, deadline: nat, minValidators: nat)

  /** Everything counting depends on; `approvals` is what has been sent on the approval channel. */
  datatype Core = Core(
    pending: map<string, Round>,
    emitted: set<string>,
    wallets: set<Wallet>,
    stakes: Stakes,
    registryTotal: u64,
    banned: set<Wallet>,
    approvals: seq<Request>)

  /** The whole coordinator: counting plus the connectivity-driven part. */
  datatype State = State(core: Core, validators: seq<NodeId>, leaders: Entries)

  /** A signed vote as it arrives. */
  datatype VoteMessage = VoteMessage(requestId: string, validator: NodeId, vote: Vote, wallet: Wallet, signature: Bytes)

  datatype Event =
    | Register(node: NodeId, wallet: Option<Wallet>)
    | Unregister(node: NodeId)
    | Sync(stakes: Stakes, registryTotal: u64)
    | Start(request: Request, now: nat)
    | Submit(message: VoteMessage, receiverAlive: bool)
    | ClearEmitted(id: string)
    | Cleanup(id: string)
    | Sweep(now: nat)

  function Initial(banned: set<Wallet>): State {
    State(Core(map[], {}, {}, map[], 0, banned, []), [], map[])
  }

  // ---- counting ----

  function EligibleWallets(c: Core): set<Wallet> { c.wallets - c.banned }

  /** All conditions under which the check under the `emitted` lock sends the approval. */
  ghost predicate MayEmit(cfg: Config, c: Core, id: string, eligible: set<Wallet>) {
    && id in c.pending
    && id !in c.emitted
    && |EligibleVoters(c.pending[id].votes, eligible)| >= c.pending[id].minValidators
    && StakeQuorum(c.pending[id].votes, c.stakes, c.registryTotal, c.banned, cfg.localWallet)
    && |ValidWallets(c.pending[id].votes, eligible)| >= c.pending[id].minValidators
  }

  ghost function Emit(cfg: Config, c: Core, id: string, eligible: set<Wallet>, receiverAlive: bool): Core {
    if cfg.hasChannel && MayEmit(cfg, c, id, eligible) && receiverAlive then
      c.(emitted := c.emitted + {id}, approvals := c.approvals + [c.pending[id].request])
    else c
  }

  /** The vote gets past the checks in front of the tally. */
  predicate Admitted(cfg: Config, c: Core, m: VoteMessage) {
    && m.requestId in c.pending
    && m.requestId == cfg.idOf(c.pending[m.requestId].request)
    && m.wallet != "" && m.signature != []
    && (c.wallets == {} || m.wallet in c.wallets)
  }

  lemma AdmittedHasRound(cfg: Config, c: Core, m: VoteMessage)
    requires Admitted(cfg, c, m)
    ensures m.requestId in c.pending
  {}

  function InstallVote(c: Core, m: VoteMessage): Core
    requires m.requestId in c.pending
  {
    var round := c.pending[m.requestId];
    var record := VoteRecord(m.vote, m.validator, m.signature);
    c.(pending := c.pending[m.requestId := round.(votes := Install(round.votes, m.wallet, record))])
  }

  predicate IsFlip(c: Core, m: VoteMessage)
    requires m.requestId in c.pending
  {
    Flips(c.pending[m.requestId].votes, m.wallet, m.vote)
  }

  /** The vote is tallied, and a flip bans the wallet. */
  function Tallied(c: Core, m: VoteMessage): Core
    requires m.requestId in c.pending
  {
    var c' := InstallVote(c, m);
    if IsFlip(c, m) then c'.(banned := c'.banned + {m.wallet}) else c'
  }

  ghost function SubmitCore(cfg: Config, c: Core, m: VoteMessage, receiverAlive: bool): Core {
    if !Admitted(cfg, c, m) then c
    else
      var c' := Tallied(c, m);
      Emit(cfg, c', m.requestId, EligibleWallets(c'), receiverAlive)
  }

  // ---- the other operations ----

  predicate StartSucceeds(cfg: Config, s: State, request: Request) {
    && request.requestId == cfg.idOf(request)
    && |s.validators| > 0
    && |s.validators| >= cfg.minValidators
  }

  function StartCore(cfg: Config, c: Core, request: Request, now: nat): Core {
    if request.requestId in c.pending then c
    else c.(pending := c.pending[request.requestId := Round(request, map[], now + 30, cfg.minValidators)])
  }

  /** An empty snapshot is not trusted to clear the wallets and stakes. */
  function SyncCore(c: Core, stakes: Stakes, registryTotal: u64): Core {
    if stakes == map[] then c
    else c.(wallets := stakes.Keys, registryTotal := registryTotal, stakes := stakes)
  }

  function TimedOut(c: Core, now: nat): set<string> {
    set id | id in c.pending && now > c.pending[id].deadline
  }

  function SweepCore(c: Core, now: nat): Core {
    c.(pending := c.pending - TimedOut(c, now), emitted := c.emitted - TimedOut(c, now))
  }

  predicate RegistrationAdmitted(c: Core, wallet: Option<Wallet>) {
    c.wallets == {} || (wallet.Some? && wallet.value in c.wallets)
  }

  function RegisterLeader(m: Entries, node: NodeId, wallet: Option<Wallet>): Entries {
    if node in m then
      var adopted := if wallet.Some? && wallet != m[node].wallet then m[node := m[node].(wallet := wallet)] else m;
      Activate(adopted, node, true)
    else m[node := ValidatorInfo(node, 0, 1000, true, wallet)]
  }

  function RegisterStep(s: State, node: NodeId, wallet: Option<Wallet>): State {
    if !RegistrationAdmitted(s.core, wallet) then s
    else
      s.(validators := if node in s.validators then s.validators else s.validators + [node],
         leaders := RegisterLeader(s.leaders, node, wallet))
  }

  function Without(vs: seq<NodeId>, node: NodeId): seq<NodeId> {
    if vs == [] then []
    else
      var rest := Without(vs[..|vs| - 1], node);
      if vs[|vs| - 1] == node then rest else rest + [vs[|vs| - 1]]
  }

  // ---- steps and runs ----

  ghost function Step(cfg: Config, s: State, e: Event): State {
    match e
    case Register(node, wallet) => RegisterStep(s, node, wallet)
    case Unregister(node) =>
      s.(validators := Without(s.validators, node), leaders := Activate(s.leaders, node, false))
    case Sync(stakes, registryTotal) =>
      s.(core := SyncCore(s.core, stakes, registryTotal), leaders := WithStakes(s.leaders, stakes))
    case Start(request, now) =>
      if StartSucceeds(cfg, s, request) then s.(core := StartCore(cfg, s.core, request, now)) else s
    case Submit(m, receiverAlive) => s.(core := SubmitCore(cfg, s.core, m, receiverAlive))
    case ClearEmitted(id) => s.(core := s.core.(emitted := s.core.emitted - {id}))
    case Cleanup(id) => s.(core := s.core.(pending := s.core.pending - {id}))
    case Sweep(now) => s.(core := SweepCore(s.core, now))
  }

  /** The state after the first `n` events of a run. */
  ghost function At(cfg: Config, s: State, events: seq<Event>, n: nat): State
    requires n <= |events|
  {
    if n == 0 then s else Step(cfg, At(cfg, s, events, n - 1), events[n - 1])
  }

  ghost function Final(cfg: Config, s: State, events: seq<Event>): State {
    At(cfg, s, events, |events|)
  }
}
