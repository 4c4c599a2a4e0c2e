/**
 The order in which the job coordinator's operations take its three locks, as a state machine over
 requests, grants and releases.  The locks are fair: requests for a lock are granted in the order
 they were made, and a granted writer excludes everybody else.
 */
module LockOrder {

  datatype Lock = Validators | Pending | Active
  {
    function Rank(): nat {
      match this
      case Validators => 0
      case Pending => 1
      case Active => 2
    }
  }

  datatype Mode = Read | Write

  datatype Action = Acquire(lock: Lock, mode: Mode) | Release(lock: Lock)

  type Program = seq<Action>

  /** How far each operation of the pool has come, and who waits, in the order of the requests. */
  datatype Locks = Locks(pcs: seq<nat>, queue: seq<nat>)

  /** The mode in which a program holds a lock after its first `pc` actions. */
  function Holds(p: Program, pc: nat, lock: Lock): (m: set<Mode>)
    requires pc <= |p|
  {
    if pc == 0 then {}
    else
      match p[pc - 1]
      case Acquire(l, m) => if l == lock then {m} else Holds(p, pc - 1, lock)
      case Release(l) => if l == lock then {} else Holds(p, pc - 1, lock)
  }

  ghost predicate Shape(pool: seq<Program>, s: Locks) {
    && |s.pcs| == |pool|
    && (forall t :: 0 <= t < |pool| ==> s.pcs[t] <= |pool[t]|)
    && (forall i :: 0 <= i < |s.queue| ==> s.queue[i] < |pool| && AtAcquire(pool, s, s.queue[i]))
  }

  predicate AtAcquire(pool: seq<Program>, s: Locks, t: nat) {
    t < |pool| && t < |s.pcs| && s.pcs[t] < |pool[t]| && pool[t][s.pcs[t]].Acquire?
  }

  predicate AtRelease(pool: seq<Program>, s: Locks, t: nat) {
    t < |pool| && t < |s.pcs| && s.pcs[t] < |pool[t]| && pool[t][s.pcs[t]].Release?
  }

  /** What an operation at an acquire asks for. */
  function Wanted(pool: seq<Program>, s: Locks, t: nat): Action
    requires AtAcquire(pool, s, t)
  {
    pool[t][s.pcs[t]]
  }

  /** Somebody else holds the lock in a mode that excludes the wanted one. */
  ghost predicate Excluded(pool: seq<Program>, s: Locks, t: nat)
    requires Shape(pool, s) && AtAcquire(pool, s, t)
  {
    exists u :: 0 <= u < |pool| && u != t && Excludes(pool, s, u, Wanted(pool, s, t))
  }

  predicate Excludes(pool: seq<Program>, s: Locks, u: nat, a: Action)
    requires a.Acquire? && u < |pool| && u < |s.pcs| && s.pcs[u] <= |pool[u]|
  {
    var held := Holds(pool[u], s.pcs[u], a.lock);
    held != {} && (a.mode.Write? || Write in held)
  }

  /** The first request in the queue for its lock. */
  ghost predicate First(pool: seq<Program>, s: Locks, i: nat)
    requires Shape(pool, s) && i < |s.queue|
  {
    forall j :: 0 <= j < i ==> Wanted(pool, s, s.queue[j]).lock != Wanted(pool, s, s.queue[i]).lock
  }

  // ---- steps ----

  datatype Step = Request(task: nat) | Grant(position: nat) | Free(task: nat)

  ghost predicate Enabled(pool: seq<Program>, s: Locks, e: Step)
    requires Shape(pool, s)
  {
    match e
    case Request(t) => AtAcquire(pool, s, t) && t !in s.queue
    case Grant(i) => i < |s.queue| && First(pool, s, i) && !Excluded(pool, s, s.queue[i])
    case Free(t) => AtRelease(pool, s, t)
  }

  ghost function Take(pool: seq<Program>, s: Locks, e: Step): Locks
    requires Shape(pool, s) && Enabled(pool, s, e)
  {
    match e
    case Request(t) => s.(queue := s.queue + [t])
    case Grant(i) => Locks(s.pcs[s.queue[i] := s.pcs[s.queue[i]] + 1], s.queue[..i] + s.queue[i + 1..])
    case Free(t) => s.(pcs := s.pcs[t := s.pcs[t] + 1])
  }

  /** Somebody is not done, and nothing can happen any more. */
  ghost predicate Deadlocked(pool: seq<Program>, s: Locks)
    requires Shape(pool, s)
  {
    && (exists t :: 0 <= t < |pool| && s.pcs[t] < |pool[t]|)
    && forall e :: !Enabled(pool, s, e)
  }

  function Begin(pool: seq<Program>): Locks {
    Locks(seq(|pool|, _ => 0), [])
  }

  /** `s` is reached from the beginning by the steps. */
  ghost predicate Reaches(pool: seq<Program>, steps: seq<Step>, s: Locks) {
    if steps == [] then s == Begin(pool)
    else
      var n := |steps| - 1;
      exists mid :: Reaches(pool, steps[..n], mid) && Follows(pool, mid, steps[n], s)
  }

  ghost predicate Follows(pool: seq<Program>, s: Locks, e: Step, t: Locks) {
    Shape(pool, s) && Distinct(s) && Enabled(pool, s, e) && t == Take(pool, s, e)
  }

  ghost predicate Distinct(s: Locks) {
    forall i, j :: 0 <= i < j < |s.queue| ==> s.queue[i] != s.queue[j]
  }

  lemma StepKeepsShape(pool: seq<Program>, s: Locks, e: Step)
    requires Shape(pool, s) && Distinct(s) && Enabled(pool, s, e)
    ensures Shape(pool, Take(pool, s, e)) && Distinct(Take(pool, s, e))
  {
    hide Holds, First, Excluded;
    var s' := Take(pool, s, e);
    match e
    case Request(t) =>
    case Grant(i) =>
      forall k | 0 <= k < |s'.queue| ensures s'.queue[k] < |pool| && AtAcquire(pool, s', s'.queue[k]) {
        assert s'.queue[k] == s.queue[if k < i then k else k + 1];
      }
    case Free(t) =>
      forall k | 0 <= k < |s.queue| ensures AtAcquire(pool, s', s.queue[k]) {
        assert AtAcquire(pool, s, s.queue[k]);
      }
  }

  lemma {:induction false} ReachableShape(pool: seq<Program>, steps: seq<Step>, s: Locks)
    requires Reaches(pool, steps, s)
    ensures Shape(pool, s) && Distinct(s)
  {
    if steps != [] {
      var n := |steps| - 1;
      var mid :| Reaches(pool, steps[..n], mid) && Follows(pool, mid, steps[n], s);
      StepKeepsShape(pool, mid, steps[n]);
    }
  }

  // ---- ordered programs never deadlock ----

  /** Every lock is asked for while holding only locks of lower rank, and none is held at the end. */
  ghost predicate Ordered(p: Program) {
    && (forall k, l :: 0 <= k < |p| && p[k].Acquire? && Holds(p, k, l) != {} ==> l.Rank() < p[k].lock.Rank())
    && (forall l :: Holds(p, |p|, l) == {})
  }

  /** Of the waiting operations, one that asks for a lock of the highest rank and is first in line for it. */
  lemma {:induction false} HighestFirst(pool: seq<Program>, s: Locks, n: nat) returns (i: nat)
    requires Shape(pool, s) && 0 < n <= |s.queue|
    ensures i < n && First(pool, s, i)
    ensures forall j :: 0 <= j < n ==> Wanted(pool, s, s.queue[j]).lock.Rank() <= Wanted(pool, s, s.queue[i]).lock.Rank()
  {
    if n == 1 {
      i := 0;
    } else {
      i := HighestFirst(pool, s, n - 1);
      if Wanted(pool, s, s.queue[n - 1]).lock.Rank() > Wanted(pool, s, s.queue[i]).lock.Rank() {
        i := n - 1;
      }
    }
  }

  /** Whatever the pool, if its programs are ordered then in every reachable state something can happen until all are done. */
  lemma OrderedNeverDeadlocks(pool: seq<Program>, steps: seq<Step>, s: Locks)
    requires Reaches(pool, steps, s) && forall t :: 0 <= t < |pool| ==> Ordered(pool[t])
    ensures Shape(pool, s) && !Deadlocked(pool, s)
  {
    ReachableShape(pool, steps, s);
    if Deadlocked(pool, s) {
      var t :| 0 <= t < |pool| && s.pcs[t] < |pool[t]|;
      UnfinishedWaits(pool, s, t);
      var i := HighestFirst(pool, s, |s.queue|);
      var w := s.queue[i];
      assert !Enabled(pool, s, Grant(i));
      var u :| 0 <= u < |pool| && u != w && Excludes(pool, s, u, Wanted(pool, s, w));
      HolderWaitsHigher(pool, s, u, Wanted(pool, s, w).lock);
      assert false;
    }
  }

  lemma UnfinishedWaits(pool: seq<Program>, s: Locks, t: nat)
    requires Shape(pool, s) && Deadlocked(pool, s) && t < |pool| && s.pcs[t] < |pool[t]|
    ensures t in s.queue && AtAcquire(pool, s, t)
  {
    assert !Enabled(pool, s, Request(t)) && !Enabled(pool, s, Free(t));
  }

  lemma HolderWaitsHigher(pool: seq<Program>, s: Locks, u: nat, lock: Lock)
    requires Shape(pool, s) && Deadlocked(pool, s) && u < |pool| && Ordered(pool[u]) && Holds(pool[u], s.pcs[u], lock) != {}
    ensures exists j :: 0 <= j < |s.queue| && Wanted(pool, s, s.queue[j]).lock.Rank() > lock.Rank()
  {
    assert s.pcs[u] < |pool[u]|;
    UnfinishedWaits(pool, s, u);
    var j :| 0 <= j < |s.queue| && s.queue[j] == u;
    assert pool[u][s.pcs[u]].Acquire?;
  }

  // ---- the coordinator's operations ----

  const FETCH: Program := [Acquire(Pending, Write), Acquire(Active, Write), Release(Active), Release(Pending)]

  const FETCH_UNKNOWN: Program := [Acquire(Pending, Write), Release(Pending)]

  const LOAD: Program := [Acquire(Pending, Read), Acquire(Active, Read), Release(Active), Release(Pending)]

  const ASSIGN: Program := [Acquire(Validators, Read), Acquire(Pending, Write), Release(Pending), Release(Validators)]

  const ASSIGN_NOBODY: Program := [Acquire(Validators, Read), Release(Validators)]

  const ANNOUNCE: Program := [Acquire(Validators, Write), Release(Validators)]

  const STATS: Program :=
    [Acquire(Validators, Read), Acquire(Pending, Read), Acquire(Active, Read), Release(Active), Release(Pending), Release(Validators)]

  const PENDING_TURN: Program := [Acquire(Validators, Read), Release(Validators)]

  /** The turn of an active job: its load count, and the write if somebody with room was found. */
  function ActiveTurn(found: bool): Program {
    [Acquire(Validators, Read), Acquire(Pending, Read), Release(Pending)] +
    ((if found then [Acquire(Pending, Write), Release(Pending)] else []) + [Release(Validators)])
  }

  function ActiveTurns(found: seq<bool>): Program {
    if found == [] then [] else ActiveTurn(found[0]) + ActiveTurns(found[1..])
  }

  function Times(p: Program, n: nat): Program {
    if n == 0 then [] else p + Times(p, n - 1)
  }

  /** A sweep with `n` pending jobs that have retries left, and as many active ones as `found` says. */
  function Sweep(n: nat, found: seq<bool>): Program {
    [Acquire(Pending, Write)] + (Times(PENDING_TURN, n) +
    ([Release(Pending), Acquire(Active, Write)] + (ActiveTurns(found) + [Release(Active)])))
  }

  /** The handling of a failed validator: it is forgotten first, and then its jobs are swept. */
  function Failure(n: nat, found: seq<bool>): Program { ANNOUNCE + Sweep(n, found) }

  /** All operations of the coordinator, with sweeps that have this much to hand over. */
  function Operations(n: nat, found: seq<bool>): set<Program> {
    {FETCH, FETCH_UNKNOWN, LOAD, ASSIGN, ASSIGN_NOBODY, ANNOUNCE, STATS, Sweep(n, found), Failure(n, found)}
  }

  /** The operations other than sweeps take the locks in one order, and so does a sweep with nothing to hand over. */
  lemma OperationsAreOrdered()
    ensures Ordered(FETCH) && Ordered(FETCH_UNKNOWN) && Ordered(LOAD)
    ensures Ordered(ASSIGN) && Ordered(ASSIGN_NOBODY) && Ordered(ANNOUNCE) && Ordered(STATS)
    ensures Ordered(Sweep(0, [])) && Ordered(Failure(0, []))
  {
    FourActionsOrdered(Pending, Active, Write, Write);
    FourActionsOrdered(Pending, Active, Read, Read);
    FourActionsOrdered(Validators, Pending, Read, Write);
    TwoActionsOrdered(Pending, Write);
    TwoActionsOrdered(Validators, Read);
    TwoActionsOrdered(Validators, Write);
    StatsOrdered();
    EmptySweep();
    EmptyFailure();
  }

  lemma StatsOrdered()
    ensures Ordered(STATS)
  {
    forall l ensures Holds(STATS, 0, l) == {} && Holds(STATS, 6, l) == {} &&
                     Holds(STATS, 1, l) == (if l == Validators then {Read} else {}) &&
                     Holds(STATS, 2, l) == (if l == Active then {} else {Read})
    {
      assert Holds(STATS, 1, l) == if l == Validators then {Read} else {};
      assert Holds(STATS, 3, l) == {Read};
      assert Holds(STATS, 4, l) == if l == Active then {} else {Read};
      assert Holds(STATS, 5, l) == if l == Validators then {Read} else {};
    }
  }

  lemma EmptyFailure()
    ensures Ordered(Failure(0, []))
  {
    var p := [Acquire(Validators, Write), Release(Validators), Acquire(Pending, Write), Release(Pending), Acquire(Active, Write), Release(Active)];
    assert Failure(0, []) == p;
    forall l ensures Holds(p, 0, l) == {} && Holds(p, 2, l) == {} && Holds(p, 4, l) == {} && Holds(p, 6, l) == {} {
      assert Holds(p, 1, l) == if l == Validators then {Write} else {};
      assert Holds(p, 2, l) == {};
      assert Holds(p, 3, l) == if l == Pending then {Write} else {};
      assert Holds(p, 4, l) == {};
      assert Holds(p, 5, l) == if l == Active then {Write} else {};
    }
  }

  lemma FourActionsOrdered(a: Lock, b: Lock, m: Mode, n: Mode)
    requires a.Rank() < b.Rank()
    ensures Ordered([Acquire(a, m), Acquire(b, n), Release(b), Release(a)])
  {
    var p := [Acquire(a, m), Acquire(b, n), Release(b), Release(a)];
    forall l ensures Holds(p, 0, l) == {} && Holds(p, 1, l) == (if l == a then {m} else {}) && Holds(p, 4, l) == {} {
      assert Holds(p, 2, l) == if l == b then {n} else Holds(p, 1, l);
      assert Holds(p, 3, l) == if l == b then {} else Holds(p, 2, l);
    }
  }

  lemma TwoActionsOrdered(a: Lock, m: Mode)
    ensures Ordered([Acquire(a, m), Release(a)])
  {
    var p := [Acquire(a, m), Release(a)];
    forall l ensures Holds(p, 0, l) == {} && Holds(p, 2, l) == {} {
      assert Holds(p, 1, l) == if l == a then {m} else {};
    }
  }

  lemma EmptySweep()
    ensures Ordered(Sweep(0, []))
  {
    var p := [Acquire(Pending, Write), Release(Pending), Acquire(Active, Write), Release(Active)];
    assert Sweep(0, []) == p;
    forall l ensures Holds(p, 0, l) == {} && Holds(p, 2, l) == {} && Holds(p, 4, l) == {} {
      assert Holds(p, 1, l) == if l == Pending then {Write} else {};
      assert Holds(p, 3, l) == if l == Active then {Write} else {};
    }
  }

  /** A sweep keeps to the order exactly when no selected job has retries left. */
  lemma SweepOrderedExactly(n: nat, found: seq<bool>)
    ensures Ordered(Sweep(n, found)) <==> n == 0 && found == []
  {
    EmptySweep();
    var p := Sweep(n, found);
    if n > 0 {
      SweepBegins(n, found);
      assert Holds(p, 1, Pending) == {Write};
    } else if found != [] {
      ActiveSweepBegins(found);
      assert Holds(p, 3, Active) == {Write};
    }
  }

  lemma SweepBegins(n: nat, found: seq<bool>)
    requires n > 0
    ensures |Sweep(n, found)| > 1 && Sweep(n, found)[0] == Acquire(Pending, Write) && Sweep(n, found)[1] == Acquire(Validators, Read)
  {
    assert Times(PENDING_TURN, n) == PENDING_TURN + Times(PENDING_TURN, n - 1);
  }

  lemma ActiveSweepBegins(found: seq<bool>)
    requires found != []
    ensures BeginsActive(Sweep(0, found))
  {
    assert ActiveTurns(found) == ActiveTurn(found[0]) + ActiveTurns(found[1..]);
  }

  ghost predicate PoolOf(pool: seq<Program>, ops: set<Program>) {
    forall t :: 0 <= t < |pool| ==> pool[t] in ops
  }

  /** Any number of the operations, with sweeps that have nothing to hand over, never block each other. */
  lemma WithoutHandoverNoDeadlock(pool: seq<Program>, steps: seq<Step>, s: Locks)
    requires Reaches(pool, steps, s) && PoolOf(pool, Operations(0, []))
    ensures Shape(pool, s) && !Deadlocked(pool, s)
  {
    OperationsAreOrdered();
    hide Ordered, Reaches, Sweep, Failure;
    forall t | 0 <= t < |pool| ensures Ordered(pool[t]) {
      assert pool[t] in Operations(0, []);
    }
    OrderedNeverDeadlocks(pool, steps, s);
  }

  // ---- sweeps that hand jobs over can block for good ----

  lemma Then(pool: seq<Program>, steps: seq<Step>, s: Locks, e: Step, t: Locks) returns (steps': seq<Step>)
    requires Reaches(pool, steps, s) && Shape(pool, s) && Distinct(s) && Enabled(pool, s, e) && t == Take(pool, s, e)
    ensures Reaches(pool, steps', t) && Shape(pool, t) && Distinct(t)
  {
    steps' := steps + [e];
    assert steps'[..|steps|] == steps && Follows(pool, s, e, t);
    StepKeepsShape(pool, s, e);
  }

  /** A task that meets no other holder and no earlier request gets its lock. */
  lemma GetsLock(pool: seq<Program>, steps: seq<Step>, s: Locks, t: nat) returns (steps': seq<Step>, s': Locks)
    requires Reaches(pool, steps, s) && Shape(pool, s) && s.queue == [] && AtAcquire(pool, s, t)
    requires forall u :: 0 <= u < |pool| && u != t ==> Holds(pool[u], s.pcs[u], Wanted(pool, s, t).lock) == {}
    ensures Reaches(pool, steps', s') && Shape(pool, s') && s' == Locks(s.pcs[t := s.pcs[t] + 1], [])
  {
    hide Holds, Reaches;
    var asked := s.(queue := [t]);
    assert s.queue + [t] == [t];
    steps' := Then(pool, steps, s, Request(t), asked);
    s' := Locks(s.pcs[t := s.pcs[t] + 1], []);
    HeadIsGranted(pool, asked, t);
    steps' := Then(pool, steps', asked, Grant(0), s');
  }

  lemma HeadIsGranted(pool: seq<Program>, s: Locks, t: nat)
    requires Shape(pool, s) && s.queue == [t] && AtAcquire(pool, s, t)
    requires forall u :: 0 <= u < |pool| && u != t ==> Holds(pool[u], s.pcs[u], Wanted(pool, s, t).lock) == {}
    ensures Enabled(pool, s, Grant(0)) && Take(pool, s, Grant(0)) == Locks(s.pcs[t := s.pcs[t] + 1], [])
  {
    hide Holds;
    assert s.queue[..0] + s.queue[1..] == [];
  }

  lemma Asks(pool: seq<Program>, steps: seq<Step>, s: Locks, t: nat) returns (steps': seq<Step>)
    requires Reaches(pool, steps, s) && AtAcquire(pool, s, t) && t !in s.queue
    ensures Reaches(pool, steps', s.(queue := s.queue + [t]))
  {
    ReachableShape(pool, steps, s);
    hide Reaches;
    steps' := Then(pool, steps, s, Request(t), s.(queue := s.queue + [t]));
  }

  lemma BeginShape(pool: seq<Program>)
    ensures Reaches(pool, [], Begin(pool)) && Shape(pool, Begin(pool))
  {}

  /** A sweep with an active job to hand over, alone at work, gets as far as asking for the pending jobs. */
  lemma SweepRunsAhead(pool: seq<Program>) returns (steps: seq<Step>)
    requires |pool| == 2 && BeginsActive(pool[0]) && pool[1] == FETCH
    ensures Reaches(pool, steps, Locks([4, 0], []))
  {
    hide Reaches, Holds, BeginsActive;
    HoldsAtFour(pool[0]);
    HoldsNothing(pool[1]);
    BeginShape(pool);
    assert Begin(pool) == Locks([0, 0], []);
    var s;
    steps, s := GetsLock(pool, [], Locks([0, 0], []), 0);
    assert s == Locks([1, 0], []);
    steps := Then(pool, steps, s, Free(0), Locks([2, 0], []));
    steps, s := GetsLock(pool, steps, Locks([2, 0], []), 0);
    assert s == Locks([3, 0], []);
    steps, s := GetsLock(pool, steps, s, 0);
    assert s == Locks([4, 0], []);
  }

  lemma HoldsNothing(p: Program)
    ensures forall l :: Holds(p, 0, l) == {}
  {}

  /**
   A sweep that hands over an active job and a fetch can block each other: the sweep holds the
   active jobs and asks for the pending ones, the fetch holds the pending jobs and asks for the active.
   */
  lemma SweepAndFetchDeadlock(found: seq<bool>) returns (steps: seq<Step>, s: Locks)
    requires found != []
    ensures var pool := [Sweep(0, found), FETCH]; Reaches(pool, steps, s) && Shape(pool, s) && Deadlocked(pool, s)
  {
    var pool := [Sweep(0, found), FETCH];
    ActiveSweepBegins(found);
    hide Reaches, Deadlocked, Sweep;
    steps := SweepRunsAhead(pool);
    steps := FetchStarts(pool, steps);
    steps, s := FetchGetsCaught(pool, steps);
    SweepAndFetchStuck(pool, s);
  }

  lemma FetchStarts(pool: seq<Program>, before: seq<Step>) returns (steps: seq<Step>)
    requires |pool| == 2 && BeginsActive(pool[0]) && pool[1] == FETCH && Reaches(pool, before, Locks([4, 0], []))
    ensures Reaches(pool, steps, Locks([4, 1], []))
  {
    var s := Locks([4, 0], []);
    ReachableShape(pool, before, s);
    hide Reaches, Holds, BeginsActive, Shape;
    HoldsAtFour(pool[0]);
    assert Wanted(pool, s, 1) == Acquire(Pending, Write);
    assert Holds(pool[0], s.pcs[0], Pending) == {};
    steps, s := GetsLock(pool, before, s, 1);
    assert s.pcs == [4, 1];
  }

  lemma FetchGetsCaught(pool: seq<Program>, before: seq<Step>) returns (steps: seq<Step>, s: Locks)
    requires |pool| == 2 && BeginsActive(pool[0]) && pool[1] == FETCH && Reaches(pool, before, Locks([4, 1], []))
    ensures s == Locks([4, 1], [0, 1]) && Reaches(pool, steps, s) && Shape(pool, s)
  {
    hide Reaches, Holds, Shape;
    assert pool[1][1] == Acquire(Active, Write);
    steps := Asks(pool, before, Locks([4, 1], []), 0);
    assert [] + [0] == [0] && [0] + [1] == [0, 1];
    steps := Asks(pool, steps, Locks([4, 1], [0]), 1);
    s := Locks([4, 1], [0, 1]);
    ReachableShape(pool, steps, s);
  }

  /** What a sweep does first if it has no pending but an active job to hand over. */
  ghost predicate BeginsActive(p: Program) {
    && |p| > 4 && p[0] == Acquire(Pending, Write) && p[1] == Release(Pending) && p[2] == Acquire(Active, Write)
    && p[3] == Acquire(Validators, Read) && p[4] == Acquire(Pending, Read)
  }

  lemma HoldsAtFour(p: Program)
    requires BeginsActive(p)
    ensures |p| > 4 && p[0] == Acquire(Pending, Write) && p[1] == Release(Pending) && p[2] == Acquire(Active, Write)
    ensures p[3] == Acquire(Validators, Read) && p[4] == Acquire(Pending, Read)
    ensures forall l :: Holds(p, 4, l) == (if l == Active then {Write} else if l == Validators then {Read} else {})
  {
    forall l ensures Holds(p, 4, l) == if l == Active then {Write} else if l == Validators then {Read} else {} {
      assert Holds(p, 1, l) == if l == Pending then {Write} else {};
      assert Holds(p, 2, l) == {};
      assert Holds(p, 3, l) == if l == Active then {Write} else {};
    }
  }

  lemma SweepAndFetchStuck(pool: seq<Program>, s: Locks)
    requires |pool| == 2 && pool[1] == FETCH && s == Locks([4, 1], [0, 1]) && Shape(pool, s) && BeginsActive(pool[0])
    ensures Deadlocked(pool, s)
  {
    HoldsAtFour(pool[0]);
    assert Holds(FETCH, 1, Pending) == {Write};
    hide Holds;
    assert pool[1][1] == Acquire(Active, Write);
    assert Excludes(pool, s, 1, Wanted(pool, s, 0)) && Excludes(pool, s, 0, Wanted(pool, s, 1));
    forall e ensures !Enabled(pool, s, e) {
      if e.Request? && e.task < 2 {
        assert s.queue[e.task] == e.task;
      }
    }
    assert s.pcs[1] < |pool[1]|;
  }

  /**
   A sweep that hands over a pending job, an assignment and an announcement can block each other:
   the announcement waits for the assignment's read of the validators, the sweep's read waits
   behind the announcement, and the assignment waits for the pending jobs the sweep holds.
   */
  lemma SweepAssignAnnounceDeadlock(n: nat, found: seq<bool>) returns (steps: seq<Step>, s: Locks)
    requires n > 0
    ensures var pool := [Sweep(n, found), ASSIGN, ANNOUNCE]; Reaches(pool, steps, s) && Shape(pool, s) && Deadlocked(pool, s)
  {
    var pool := [Sweep(n, found), ASSIGN, ANNOUNCE];
    SweepBegins(n, found);
    hide Reaches, Deadlocked, Sweep;
    steps := SweepAndAssignStart(pool);
    steps, s := AllThreeAsk(pool, steps);
    SweepAssignAnnounceStuck(pool, s);
  }

  lemma SweepAndAssignStart(pool: seq<Program>) returns (steps: seq<Step>)
    requires |pool| == 3 && pool[1] == ASSIGN && pool[2] == ANNOUNCE
    requires |pool[0]| > 1 && pool[0][0] == Acquire(Pending, Write) && pool[0][1] == Acquire(Validators, Read)
    ensures Reaches(pool, steps, Locks([1, 1, 0], []))
  {
    HoldsNothing(pool[0]);
    HoldsNothing(pool[1]);
    HoldsNothing(pool[2]);
    assert Holds(pool[0], 1, Validators) == {};
    hide Reaches, Holds;
    BeginShape(pool);
    assert Begin(pool) == Locks([0, 0, 0], []);
    assert pool[1][0] == Acquire(Validators, Read);
    var s;
    steps, s := GetsLock(pool, [], Locks([0, 0, 0], []), 0);
    assert s == Locks([1, 0, 0], []);
    steps, s := GetsLock(pool, steps, s, 1);
    assert s == Locks([1, 1, 0], []);
  }

  lemma AllThreeAsk(pool: seq<Program>, before: seq<Step>) returns (steps: seq<Step>, s: Locks)
    requires |pool| == 3 && pool[1] == ASSIGN && pool[2] == ANNOUNCE && Reaches(pool, before, Locks([1, 1, 0], []))
    requires |pool[0]| > 1 && pool[0][0] == Acquire(Pending, Write) && pool[0][1] == Acquire(Validators, Read)
    ensures s == Locks([1, 1, 0], [2, 0, 1]) && Reaches(pool, steps, s) && Shape(pool, s)
  {
    hide Reaches, Holds, Shape;
    assert pool[1][1] == Acquire(Pending, Write) && pool[2][0] == Acquire(Validators, Write);
    assert [] + [2] == [2] && [2] + [0] == [2, 0] && [2, 0] + [1] == [2, 0, 1];
    steps := Asks(pool, before, Locks([1, 1, 0], []), 2);
    steps := Asks(pool, steps, Locks([1, 1, 0], [2]), 0);
    steps := Asks(pool, steps, Locks([1, 1, 0], [2, 0]), 1);
    s := Locks([1, 1, 0], [2, 0, 1]);
    ReachableShape(pool, steps, s);
  }

  lemma SweepAssignAnnounceStuck(pool: seq<Program>, s: Locks)
    requires |pool| == 3 && pool[1] == ASSIGN && pool[2] == ANNOUNCE && s == Locks([1, 1, 0], [2, 0, 1]) && Shape(pool, s)
    requires |pool[0]| > 1 && pool[0][0] == Acquire(Pending, Write) && pool[0][1] == Acquire(Validators, Read)
    ensures Deadlocked(pool, s)
  {
    assert Holds(pool[0], 1, Pending) == {Write} && Holds(ASSIGN, 1, Validators) == {Read};
    hide Holds;
    assert Excludes(pool, s, 1, Wanted(pool, s, 2)) && Excludes(pool, s, 0, Wanted(pool, s, 1));
    assert Wanted(pool, s, 2).lock == Wanted(pool, s, 0).lock && s.queue[0] == 2 && s.queue[1] == 0;
    assert !First(pool, s, 1);
    forall e ensures !Enabled(pool, s, e) {
      if e.Request? && e.task < 3 {
        assert s.queue[if e.task == 2 then 0 else e.task + 1] == e.task;
      }
    }
    assert s.pcs[1] < |pool[1]|;
  }

  // ---- exactly when the operations can block each other ----

  ghost predicate BlockedFor(pool: seq<Program>, steps: seq<Step>, s: Locks) {
    Reaches(pool, steps, s) && Shape(pool, s) && Deadlocked(pool, s)
  }

  /** No pool of the operations, however large and however interleaved, ever blocks for good. */
  ghost predicate NeverBlocks(ops: set<Program>) {
    forall pool, steps, s :: PoolOf(pool, ops) ==> !BlockedFor(pool, steps, s)
  }

  /** The coordinator's operations never block each other if and only if the sweeps have nothing to hand over. */
  lemma NeverBlocksExactly(n: nat, found: seq<bool>)
    ensures NeverBlocks(Operations(n, found)) <==> n == 0 && found == []
  {
    hide Reaches, Deadlocked, Shape, Sweep, Failure;
    if n == 0 && found == [] {
      forall pool, steps, s | PoolOf(pool, Operations(n, found)) ensures !BlockedFor(pool, steps, s) {
        if Reaches(pool, steps, s) {
          WithoutHandoverNoDeadlock(pool, steps, s);
        }
      }
    } else if n > 0 {
      var steps, s := SweepAssignAnnounceDeadlock(n, found);
      var pool := [Sweep(n, found), ASSIGN, ANNOUNCE];
      assert PoolOf(pool, Operations(n, found)) && BlockedFor(pool, steps, s);
    } else {
      var steps, s := SweepAndFetchDeadlock(found);
      var pool := [Sweep(0, found), FETCH];
      assert PoolOf(pool, Operations(n, found)) && BlockedFor(pool, steps, s);
    }
  }
}
