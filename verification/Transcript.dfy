/**
 The phase-2 ceremony transcript: an append-only chain of contributions, each naming the digest
 of the one before it.  The digest (SHA-512 of the serialised contribution) is an arbitrary
 function `hash`; what a property needs of it is stated with that property.
 */
module Transcript {
  import opened Common

  const TRANSCRIPT_VERSION: nat := 1

  type Digest = d: Bytes | |d| == 64 witness seq(64, _ => 0)

  datatype CircuitId = Deposit | Transfer | Withdraw | Transact

  datatype Contribution = Contribution(
    priorHash: Digest,
    contributor: Bytes,
    deltaAfterG1: Bytes,
    deltaAfterG2: Bytes,
    dleqProof: Bytes,
    contributorPubkey: Bytes,
    signature: Bytes,
    attestation: string)

  datatype ChainBroken = ChainBroken(position: nat)

  type HashFn = Contribution -> Digest

  /** The digest that position `i` of the chain has to name. */
  function ExpectedPrior(hash: HashFn, initial: Digest, cs: seq<Contribution>, i: nat): Digest
    requires i <= |cs|
  {
    if i == 0 then initial else hash(cs[i - 1])
  }

  predicate LinkOk(hash: HashFn, initial: Digest, cs: seq<Contribution>, i: nat)
    requires i < |cs|
  {
    cs[i].priorHash == ExpectedPrior(hash, initial, cs, i)
  }

  ghost predicate ChainOk(hash: HashFn, initial: Digest, cs: seq<Contribution>) {
    forall i :: 0 <= i < |cs| ==> LinkOk(hash, initial, cs, i)
  }

  /** `at` is the first link of the chain that does not hold. */
  ghost predicate FirstBroken(hash: HashFn, initial: Digest, cs: seq<Contribution>, at: nat) {
    && at < |cs|
    && !LinkOk(hash, initial, cs, at)
    && forall i :: 0 <= i < at ==> LinkOk(hash, initial, cs, i)
  }

  class Phase2Transcript {
    const version: nat
    const circuit: CircuitId
    const initialSrsHash: Digest
    var contributions: seq<Contribution>
    var finalSrsHash: Digest

    constructor (circuit: CircuitId, initialSrsHash: Digest)
      ensures version == TRANSCRIPT_VERSION && this.circuit == circuit
      ensures this.initialSrsHash == initialSrsHash && contributions == []
      ensures finalSrsHash == seq(64, _ => 0)
    {
      version := TRANSCRIPT_VERSION;
      this.circuit := circuit;
      this.initialSrsHash := initialSrsHash;
      contributions := [];
      finalSrsHash := seq(64, _ => 0);
    }

    ghost predicate Intact(hash: HashFn)
      reads this
    {
      ChainOk(hash, initialSrsHash, contributions)
    }

    /** Extends the chain exactly when the extended chain would still link up. */
    method Append(hash: HashFn, c: Contribution) returns (r: Result<(), ChainBroken>)
      modifies this`contributions
      ensures r.Ok? ==> contributions == old(contributions) + [c]
      ensures r.Err? ==> contributions == old(contributions) && r.error.position == |contributions|
      ensures r.Ok? <==> c.priorHash == ExpectedPrior(hash, initialSrsHash, old(contributions), |old(contributions)|)
      ensures old(Intact(hash)) ==> Intact(hash)
      ensures old(Intact(hash)) ==> (r.Ok? <==> ChainOk(hash, initialSrsHash, old(contributions) + [c]))
    {
      ExtendChain(hash, initialSrsHash, contributions, c);
      var expectedPrior :=
        if |contributions| > 0 then hash(contributions[|contributions| - 1]) else initialSrsHash;
      if c.priorHash != expectedPrior {
        return Err(ChainBroken(|contributions|));
      }
      contributions := contributions + [c];
      return Ok(());
    }

    /** Accepts exactly the intact chains and otherwise reports the first broken link. */
    method VerifyChain(hash: HashFn) returns (r: Result<(), ChainBroken>)
      ensures r.Ok? <==> Intact(hash)
      ensures r.Err? ==> FirstBroken(hash, initialSrsHash, contributions, r.error.position)
    {
      var expected := initialSrsHash;
      for i := 0 to |contributions|
        invariant expected == ExpectedPrior(hash, initialSrsHash, contributions, i)
        invariant forall j :: 0 <= j < i ==> LinkOk(hash, initialSrsHash, contributions, j)
      {
        if contributions[i].priorHash != expected {
          assert !LinkOk(hash, initialSrsHash, contributions, i);
          return Err(ChainBroken(i));
        }
        expected := hash(contributions[i]);
      }
      return Ok(());
    }
  }

  /** An intact chain starts from the initial digest, and every later contribution names the digest of the one before. */
  lemma ChainExactly(hash: HashFn, initial: Digest, cs: seq<Contribution>)
    ensures ChainOk(hash, initial, cs) <==>
            && (cs != [] ==> cs[0].priorHash == initial)
            && forall i :: 0 < i < |cs| ==> cs[i].priorHash == hash(cs[i - 1])
  {
    if ChainOk(hash, initial, cs) {
      assert cs != [] ==> LinkOk(hash, initial, cs, 0);
      forall i | 0 < i < |cs| ensures cs[i].priorHash == hash(cs[i - 1]) {
        assert LinkOk(hash, initial, cs, i);
      }
    }
  }

  /** A chain extended by `c` is intact iff it was intact and `c` names the digest of its tip. */
  lemma ExtendChain(hash: HashFn, initial: Digest, cs: seq<Contribution>, c: Contribution)
    ensures ChainOk(hash, initial, cs + [c]) <==>
            ChainOk(hash, initial, cs) && c.priorHash == ExpectedPrior(hash, initial, cs, |cs|)
  {
    var ext := cs + [c];
    assert forall i :: 0 <= i < |cs| ==> (LinkOk(hash, initial, ext, i) <==> LinkOk(hash, initial, cs, i));
    assert LinkOk(hash, initial, ext, |cs|) <==> c.priorHash == ExpectedPrior(hash, initial, cs, |cs|);
  }

  /**
   Replacing a contribution that is not the last one, without touching the digest it names, is
   reported exactly one position later, unless the replacement has the same digest, and then it
   is not noticed at all.
   */
  lemma TamperingSurfacesNext(hash: HashFn, initial: Digest, cs: seq<Contribution>, i: nat, c: Contribution)
    requires ChainOk(hash, initial, cs) && i + 1 < |cs|
    requires c.priorHash == cs[i].priorHash
    ensures hash(c) != hash(cs[i]) <==> FirstBroken(hash, initial, cs[i := c], i + 1)
    ensures hash(c) == hash(cs[i]) <==> ChainOk(hash, initial, cs[i := c])
  {
    var t := cs[i := c];
    forall j | 0 <= j < |cs| && j != i + 1 ensures LinkOk(hash, initial, t, j) {
      assert LinkOk(hash, initial, cs, j);
    }
    assert LinkOk(hash, initial, cs, i + 1);
    assert LinkOk(hash, initial, t, i + 1) <==> hash(c) == hash(cs[i]);
  }

  /** Two different contributions, one from each chain, share a digest. */
  ghost predicate Collision(hash: HashFn, a: seq<Contribution>, b: seq<Contribution>) {
    exists i, j :: 0 <= i < |a| && 0 <= j < |b| && a[i] != b[j] && hash(a[i]) == hash(b[j])
  }

  ghost predicate HitsInitial(hash: HashFn, initial: Digest, cs: seq<Contribution>) {
    exists i :: 0 <= i < |cs| && hash(cs[i]) == initial
  }

  /**
   The digest of the tip fixes the whole history: two intact chains from the same initial digest
   whose last contributions have the same digest are the same chain, unless they exhibit a
   collision of the hash or a contribution that hashes to the initial digest.
   */
  lemma {:induction false} PinnedTipFixesHistory(hash: HashFn, initial: Digest, a: seq<Contribution>, b: seq<Contribution>)
    requires ChainOk(hash, initial, a) && ChainOk(hash, initial, b)
    requires ExpectedPrior(hash, initial, a, |a|) == ExpectedPrior(hash, initial, b, |b|)
    ensures a == b || Collision(hash, a, b) || HitsInitial(hash, initial, a) || HitsInitial(hash, initial, b)
  {
    if a != [] && b != [] {
      var m, n := |a| - 1, |b| - 1;
      if a[m] == b[n] {
        assert LinkOk(hash, initial, a, m) && LinkOk(hash, initial, b, n);
        ExtendChain(hash, initial, a[..m], a[m]);
        ExtendChain(hash, initial, b[..n], b[n]);
        assert a == a[..m] + [a[m]] && b == b[..n] + [b[n]];
        PinnedTipFixesHistory(hash, initial, a[..m], b[..n]);
        if Collision(hash, a[..m], b[..n]) {
          var i, j :| 0 <= i < m && 0 <= j < n && a[..m][i] != b[..n][j] && hash(a[..m][i]) == hash(b[..n][j]);
          assert a[i] != b[j] && hash(a[i]) == hash(b[j]);
        }
      }
    }
  }
}
