/**
 The on-chain incremental commitment tree.  The two-to-one hash `h` and the empty leaf `z` are
 arbitrary, and so is the depth.
 */
module Merkle {
  import opened Common

  const ROOT_HISTORY_SIZE: nat := 64

  function Pow2(d: nat): nat {
    if d == 0 then 1 else 2 * Pow2(d - 1)
  }

  /** `i >> level` */
  function Shift(i: nat, level: nat): nat {
    if level == 0 then i else Shift(i, level - 1) / 2
  }

  /** The root of an empty subtree of the given height. */
  function ZeroHash<T>(h: (T, T) -> T, z: T, level: nat): T {
    if level == 0 then z else h(ZeroHash(h, z, level - 1), ZeroHash(h, z, level - 1))
  }

  /** The node at position `i` of a level in the tree of `leaves` padded with empty ones. */
  ghost function Node<T>(h: (T, T) -> T, z: T, leaves: seq<T>, level: nat, i: nat): T {
    if level == 0 then (if i < |leaves| then leaves[i] else z)
    else h(Node(h, z, leaves, level - 1, 2 * i), Node(h, z, leaves, level - 1, 2 * i + 1))
  }

  ghost function Root<T>(h: (T, T) -> T, z: T, leaves: seq<T>, depth: nat): T {
    Node(h, z, leaves, depth, 0)
  }

  /** The position of the last leaf (0 in an empty tree). */
  function LastIndex(n: nat): nat {
    if n == 0 then 0 else n - 1
  }

  // ---- which nodes an append leaves alone ----

  lemma {:induction false} NodeBeyondIsEmpty<T>(h: (T, T) -> T, z: T, leaves: seq<T>, level: nat, i: nat)
    requires leaves == [] || i > Shift(|leaves| - 1, level)
    ensures Node(h, z, leaves, level, i) == ZeroHash(h, z, level)
  {
    if level > 0 {
      NodeBeyondIsEmpty(h, z, leaves, level - 1, 2 * i);
      NodeBeyondIsEmpty(h, z, leaves, level - 1, 2 * i + 1);
    }
  }

  lemma {:induction false} NodeBeforeIsKept<T>(h: (T, T) -> T, z: T, leaves: seq<T>, x: T, level: nat, i: nat)
    requires i < Shift(|leaves|, level)
    ensures Node(h, z, leaves + [x], level, i) == Node(h, z, leaves, level, i)
  {
    if level > 0 {
      NodeBeforeIsKept(h, z, leaves, x, level - 1, 2 * i);
      NodeBeforeIsKept(h, z, leaves, x, level - 1, 2 * i + 1);
    }
  }

  lemma {:induction false} ShiftSuccessor(n: nat, level: nat)
    ensures Shift(n, level) <= Shift(n + 1, level) <= Shift(n, level) + 1
  {
    if level > 0 {
      ShiftSuccessor(n, level - 1);
    }
  }

  lemma {:induction false} ShiftToZero(n: nat, depth: nat)
    requires n < Pow2(depth)
    ensures Shift(n, depth) == 0
  {
    if depth > 0 {
      ShiftHalf(n, depth - 1);
      ShiftToZero(n / 2, depth - 1);
    }
  }

  lemma {:induction false} ShiftHalf(n: nat, level: nat)
    ensures Shift(n, level + 1) == Shift(n / 2, level)
  {
    if level > 0 {
      ShiftHalf(n, level - 1);
    }
  }

  // ---- the on-chain tree ----

  datatype AppendError = TreeFull

  /** The left child among the pair of nodes that holds the last leaf, at a level. */
  ghost function LeftOfPair<T>(h: (T, T) -> T, z: T, leaves: seq<T>, level: nat): T {
    Node(h, z, leaves, level, Shift(LastIndex(|leaves|), level) / 2 * 2)
  }

  /** What the stored left children have to be for the next append to come out right. */
  lemma StoredLeftSibling<T>(h: (T, T) -> T, z: T, leaves: seq<T>, level: nat)
    requires Shift(|leaves|, level) % 2 == 1
    ensures LeftOfPair(h, z, leaves, level) == Node(h, z, leaves, level, Shift(|leaves|, level) - 1)
  {
    if leaves == [] {
      ShiftOfZero(level);
    } else {
      ShiftSuccessor(|leaves| - 1, level);
    }
  }

  lemma {:induction false} ShiftOfZero(level: nat)
    ensures Shift(0, level) == 0
  {
    if level > 0 { ShiftOfZero(level - 1); }
  }

  lemma StartOfClimb<T>(h: (T, T) -> T, z: T, leaves: seq<T>, leaf: T)
    ensures Shift(|leaves|, 0) == |leaves| && Node(h, z, leaves + [leaf], 0, |leaves|) == leaf
  {}

  /** From the node above the new leaf to the next level, and what has to be stored on the way. */
  lemma OneLevelUp<T>(h: (T, T) -> T, z: T, leaves: seq<T>, leaf: T, level: nat)
    ensures var after, i := leaves + [leaf], Shift(|leaves|, level);
            && Shift(|leaves|, level + 1) == i / 2
            && (i % 2 == 0 ==>
                  && LeftOfPair(h, z, after, level) == Node(h, z, after, level, i)
                  && Node(h, z, after, level + 1, i / 2) == h(Node(h, z, after, level, i), ZeroHash(h, z, level)))
            && (i % 2 == 1 ==>
                  && LeftOfPair(h, z, after, level) == LeftOfPair(h, z, leaves, level)
                  && Node(h, z, after, level + 1, i / 2) == h(LeftOfPair(h, z, leaves, level), Node(h, z, after, level, i)))
  {
    var after, i := leaves + [leaf], Shift(|leaves|, level);
    if i % 2 == 0 {
      NodeBeyondIsEmpty(h, z, after, level, i + 1);
    } else {
      StoredLeftSibling(h, z, leaves, level);
      NodeBeforeIsKept(h, z, leaves, leaf, level, i - 1);
    }
  }

  /** `roots[n]` is the root the tree had when it held the first `n` leaves. */
  ghost predicate RootsOf<T>(h: (T, T) -> T, z: T, depth: nat, leaves: seq<T>, roots: seq<T>) {
    && |roots| == |leaves| + 1
    && forall n :: 0 <= n <= |leaves| ==> roots[n] == Root(h, z, leaves[..n], depth)
  }

  /** The ring holds the last 64 roots, and `z` where there has been none yet. */
  ghost predicate HistoryHolds<T>(ring: seq<T>, roots: seq<T>, z: T) {
    && |ring| == ROOT_HISTORY_SIZE
    && (forall n :: 0 <= n < |roots| && n + ROOT_HISTORY_SIZE >= |roots| ==> ring[n % ROOT_HISTORY_SIZE] == roots[n])
    && (forall s :: |roots| <= s < ROOT_HISTORY_SIZE ==> ring[s] == z)
  }

  lemma HistoryPush<T>(ring: seq<T>, roots: seq<T>, z: T, r: T)
    requires HistoryHolds(ring, roots, z)
    ensures HistoryHolds(ring[|roots| % ROOT_HISTORY_SIZE := r], roots + [r], z)
  {}

  lemma RootsPush<T>(h: (T, T) -> T, z: T, depth: nat, leaves: seq<T>, roots: seq<T>, leaf: T)
    requires RootsOf(h, z, depth, leaves, roots)
    ensures RootsOf(h, z, depth, leaves + [leaf], roots + [Root(h, z, leaves + [leaf], depth)])
  {
    var after := leaves + [leaf];
    assert forall k :: 0 <= k <= |leaves| ==> after[..k] == leaves[..k];
    assert after[..|after|] == after;
  }

  class IncrementalMerkleTree<T(==)> {
    const h: (T, T) -> T
    const z: T
    const depth: nat
    var nextIndex: nat
    var rootIndex: nat
    var root: T
    const filledSubtrees: array<T>
    const rootHistory: array<T>
    /** Every leaf appended and every root the tree has had, in order. */
    ghost var leaves: seq<T>
    ghost var roots: seq<T>

    ghost predicate Valid()
      reads this, filledSubtrees, rootHistory
    {
      && filledSubtrees != rootHistory
      && filledSubtrees.Length == depth && rootHistory.Length == ROOT_HISTORY_SIZE
      && nextIndex == |leaves| && |leaves| <= Pow2(depth)
      && root == Root(h, z, leaves, depth)
      && (forall l :: 0 <= l < depth ==> filledSubtrees[l] == LeftOfPair(h, z, leaves, l))
      && RootsOf(h, z, depth, leaves, roots)
      && rootIndex == |leaves| % ROOT_HISTORY_SIZE
      && HistoryHolds(rootHistory[..], roots, z)
    }

    constructor (h: (T, T) -> T, z: T, depth: nat)
      ensures Valid() && fresh(filledSubtrees) && fresh(rootHistory)
      ensures this.h == h && this.z == z && this.depth == depth && leaves == []
    {
      this.h, this.z, this.depth := h, z, depth;
      filledSubtrees := new T[depth](i => ZeroHash(h, z, if i >= 0 then i else 0));
      rootHistory := new T[ROOT_HISTORY_SIZE](_ => z);
      nextIndex, rootIndex := 0, 0;
      root := ZeroHash(h, z, depth);
      leaves, roots := [], [ZeroHash(h, z, depth)];
      new;
      rootHistory[0] := ZeroHash(h, z, depth);
      NodeBeyondIsEmpty(h, z, leaves, depth, 0);
      forall l | 0 <= l < depth ensures filledSubtrees[l] == LeftOfPair(h, z, leaves, l) {
        ShiftOfZero(l);
        NodeBeyondIsEmpty(h, z, leaves, l, 0);
      }
    }

    /** Hashes up from a new leaf, storing the left children it passes. */
    method Climb(leaf: T) returns (currentHash: T)
      requires Valid() && |leaves| < Pow2(depth)
      modifies filledSubtrees
      ensures currentHash == Root(h, z, leaves + [leaf], depth)
      ensures forall l :: 0 <= l < depth ==> filledSubtrees[l] == LeftOfPair(h, z, leaves + [leaf], l)
    {
      ghost var n, after := |leaves|, leaves + [leaf];
      ShiftToZero(n, depth);
      StartOfClimb(h, z, leaves, leaf);
      hide Node, LeftOfPair, ZeroHash, Shift;
      var currentIndex := nextIndex;
      currentHash := leaf;
      for i := 0 to depth
        invariant currentIndex == Shift(n, i)
        invariant currentHash == Node(h, z, after, i, currentIndex)
        invariant forall l :: 0 <= l < i ==> filledSubtrees[l] == LeftOfPair(h, z, after, l)
        invariant forall l :: i <= l < depth ==> filledSubtrees[l] == LeftOfPair(h, z, leaves, l)
      {
        OneLevelUp(h, z, leaves, leaf, i);
        if currentIndex % 2 == 0 {
          filledSubtrees[i] := currentHash;
          currentHash := h(currentHash, ZeroHash(h, z, i));
        } else {
          currentHash := h(filledSubtrees[i], currentHash);
        }
        currentIndex := currentIndex / 2;
      }
    }

    /**
     Appends a leaf: the new root is the root of the padded tree of all leaves so far, the old
     root joins the history, and a full tree refuses and stays as it is.
     */
    method Append(leaf: T) returns (r: Result<T, AppendError>)
      requires Valid()
      modifies this, filledSubtrees, rootHistory
      ensures Valid()
      ensures r.Ok? <==> |old(leaves)| < Pow2(depth)
      ensures r.Ok? ==> leaves == old(leaves) + [leaf] && roots == old(roots) + [root] && r.value == root
      ensures r.Err? ==> leaves == old(leaves) && roots == old(roots) && root == old(root)
    {
      hide Node, LeftOfPair, ZeroHash, Shift;
      if nextIndex >= Pow2(depth) {
        return Err(TreeFull);
      }
      var currentHash := Climb(leaf);
      RootsPush(h, z, depth, leaves, roots, leaf);
      HistoryPush(rootHistory[..], roots, z, currentHash);
      ghost var ring := rootHistory[..][|roots| % ROOT_HISTORY_SIZE := currentHash];
      root := currentHash;
      nextIndex := nextIndex + 1;
      rootIndex := (rootIndex + 1) % ROOT_HISTORY_SIZE;
      rootHistory[rootIndex] := currentHash;
      leaves, roots := leaves + [leaf], roots + [currentHash];
      assert rootHistory[..] == ring;
      return Ok(currentHash);
    }

    /** The non-empty root `candidate` is among the last 64 roots the tree has had. */
    ghost predicate IsRecentRoot(candidate: T)
      reads this
    {
      candidate != z && exists n :: 0 <= n < |roots| && n + 64 >= |roots| && roots[n] == candidate
    }

    lemma SlotHoldsRecentRoot(s: nat)
      requires Valid() && s < ROOT_HISTORY_SIZE
      ensures rootHistory[s] == z || IsRecentRoot(rootHistory[s])
    {
      if s < |roots| {
        var n := |leaves| - (|leaves| - s) % ROOT_HISTORY_SIZE;
        assert n % ROOT_HISTORY_SIZE == s && n + ROOT_HISTORY_SIZE >= |roots|;
        assert roots[n] == rootHistory[s];
      }
    }

    /** Walks the history ring once, backwards from the current root. */
    method IsKnownRoot(candidate: T) returns (known: bool)
      requires Valid()
      ensures known <==> IsRecentRoot(candidate)
    {
      if candidate == z {
        return false;
      }
      var start := rootIndex;
      var i, more := start, true;
      ghost var seen := 0;
      while more
        invariant 0 <= i < ROOT_HISTORY_SIZE && seen <= ROOT_HISTORY_SIZE
        invariant i == (start - seen) % ROOT_HISTORY_SIZE && (more <==> seen < ROOT_HISTORY_SIZE)
        invariant forall s :: 0 <= s < ROOT_HISTORY_SIZE && (start - s) % ROOT_HISTORY_SIZE < seen ==> rootHistory[s] != candidate
        decreases ROOT_HISTORY_SIZE - seen
      {
        if rootHistory[i] == candidate {
          SlotHoldsRecentRoot(i);
          return true;
        }
        i := if i == 0 then ROOT_HISTORY_SIZE - 1 else i - 1;
        seen := seen + 1;
        more := i != start;
      }
      return false;
    }
  }
}
