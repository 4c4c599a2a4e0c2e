/**
 The client's authentication paths: derived from the left children that the tree stores and the
 hashes of empty subtrees, and what folding them to the root proves.
 */
module Membership {
  import opened Common
  import opened Merkle

  /** At every set bit of the leaf's index, the stored value is the root of the left sibling. */
  ghost predicate LeftSiblingsStored<T>(h: (T, T) -> T, z: T, leaves: seq<T>, filled: seq<T>, leafIndex: nat) {
    forall l :: 0 <= l < |filled| && Shift(leafIndex, l) % 2 == 1 ==>
      filled[l] == Node(h, z, leaves, l, Shift(leafIndex, l) - 1)
  }

  /** The sibling the client picks at a level: the stored left node or the empty subtree. */
  function SiblingAt<T>(h: (T, T) -> T, z: T, filled: seq<T>, leafIndex: nat, level: nat): T
    requires level < |filled|
  {
    if Shift(leafIndex, level) % 2 == 1 then filled[level] else ZeroHash(h, z, level)
  }

  function DerivedPath<T>(h: (T, T) -> T, z: T, filled: seq<T>, leafIndex: nat): seq<T> {
    seq(|filled|, l requires 0 <= l < |filled| => SiblingAt(h, z, filled, leafIndex, l))
  }

  function Fold<T>(h: (T, T) -> T, leaf: T, leafIndex: nat, path: seq<T>, levels: nat): T
    requires levels <= |path|
  {
    if levels == 0 then leaf
    else
      var below := Fold(h, leaf, leafIndex, path, levels - 1);
      if Shift(leafIndex, levels - 1) % 2 == 1 then h(path[levels - 1], below) else h(below, path[levels - 1])
  }

  method DerivePath<T>(h: (T, T) -> T, z: T, filled: seq<T>, leafIndex: nat) returns (path: seq<T>)
    ensures |path| == |filled|
    ensures forall l :: 0 <= l < |path| ==> path[l] == SiblingAt(h, z, filled, leafIndex, l)
  {
    var zeros := [z];
    for k := 0 to |filled|
      invariant |zeros| == k + 1
      invariant forall l :: 0 <= l <= k ==> zeros[l] == ZeroHash(h, z, l)
    {
      zeros := zeros + [h(zeros[k], zeros[k])];
    }
    path := [];
    for level := 0 to |filled|
      invariant |path| == level
      invariant forall l :: 0 <= l < level ==> path[l] == SiblingAt(h, z, filled, leafIndex, l)
    {
      var sib := if Shift(leafIndex, level) % 2 == 1 then filled[level] else zeros[level];
      path := path + [sib];
    }
  }

  method FoldPath<T>(h: (T, T) -> T, leaf: T, leafIndex: nat, path: seq<T>) returns (cur: T)
    ensures cur == Fold(h, leaf, leafIndex, path, |path|)
  {
    cur := leaf;
    for level := 0 to |path|
      invariant cur == Fold(h, leaf, leafIndex, path, level)
    {
      cur := if Shift(leafIndex, level) % 2 == 1 then h(path[level], cur) else h(cur, path[level]);
    }
  }

  /**
   Folding the derived path up from the last leaf passes through the nodes above it, at every
   level; with enough levels it ends at the root of the padded tree.
   */
  lemma {:induction false} DerivedPathFolds<T>(h: (T, T) -> T, z: T, leaves: seq<T>, filled: seq<T>, path: seq<T>, levels: nat)
    requires leaves != [] && levels <= |path| == |filled|
    requires LeftSiblingsStored(h, z, leaves, filled, |leaves| - 1)
    requires forall l :: 0 <= l < |path| ==> path[l] == SiblingAt(h, z, filled, |leaves| - 1, l)
    ensures Fold(h, leaves[|leaves| - 1], |leaves| - 1, path, levels) == Node(h, z, leaves, levels, Shift(|leaves| - 1, levels))
    ensures |leaves| <= Pow2(levels) ==>
              Fold(h, leaves[|leaves| - 1], |leaves| - 1, path, levels) == Root(h, z, leaves, levels)
  {
    var last := |leaves| - 1;
    if levels > 0 {
      var level := levels - 1;
      DerivedPathFolds(h, z, leaves, filled, path, level);
      var i := Shift(last, level);
      if i % 2 == 0 {
        NodeBeyondIsEmpty(h, z, leaves, level, i + 1);
      }
    }
    if |leaves| <= Pow2(levels) {
      ShiftToZero(last, levels);
    }
  }

  /**
   End to end: after any number of appends, the path a client derives from the tree's stored left
   children and the empty-subtree hashes folds from the last leaf to the tree's own root.
   */
  method LastLeafMembership<T>(tree: IncrementalMerkleTree<T>, leaf: T) returns (path: seq<T>, folded: T)
    requires tree.Valid() && tree.leaves != [] && leaf == tree.leaves[|tree.leaves| - 1]
    ensures |path| == tree.depth && folded == tree.root
  {
    var leafIndex := tree.nextIndex - 1;
    var filled := tree.filledSubtrees[..];
    path := DerivePath(tree.h, tree.z, filled, leafIndex);
    folded := FoldPath(tree.h, leaf, leafIndex, path);
    LastSiblingsStored(tree, filled);
    DerivedPathFolds(tree.h, tree.z, tree.leaves, filled, path, tree.depth);
  }

  // ---- any index, any claimed leaf ----

  /** The position a leaf index denotes in a tree of this depth: the path loops read only its low bits. */
  function Position(i: nat, depth: nat): (p: nat)
    ensures p < Pow2(depth)
    ensures i < Pow2(depth) ==> p == i
  {
    Pow2Positive(depth);
    if i < Pow2(depth) then i else Position(i - Pow2(depth), depth)
  }

  lemma {:induction false} Pow2Positive(d: nat)
    ensures Pow2(d) > 0
  {
    if d > 0 { Pow2Positive(d - 1); }
  }

  lemma {:induction false} ShiftAbove(i: nat, depth: nat, level: nat)
    requires level <= depth
    ensures Shift(i + Pow2(depth), level) == Shift(i, level) + Pow2(depth - level)
  {
    if level > 0 {
      ShiftAbove(i, depth, level - 1);
      assert Pow2(depth - level + 1) == 2 * Pow2(depth - level);
    }
  }

  lemma {:induction false} PositionBits(i: nat, depth: nat, level: nat)
    requires level < depth
    ensures Shift(Position(i, depth), level) % 2 == Shift(i, level) % 2
    decreases i
  {
    Pow2Positive(depth);
    if i >= Pow2(depth) {
      PositionBits(i - Pow2(depth), depth, level);
      ShiftAbove(i - Pow2(depth), depth, level);
      assert Pow2(depth - level) == 2 * Pow2(depth - level - 1);
    }
  }

  lemma {:induction false} FoldAtPosition<T>(h: (T, T) -> T, leaf: T, i: nat, path: seq<T>, depth: nat, levels: nat)
    requires levels <= depth <= |path|
    ensures Fold(h, leaf, Position(i, depth), path, levels) == Fold(h, leaf, i, path, levels)
  {
    if levels > 0 {
      FoldAtPosition(h, leaf, i, path, depth, levels - 1);
      PositionBits(i, depth, levels - 1);
    }
  }

  /** The pair the fold hashes at a level. */
  function FoldPair<T>(h: (T, T) -> T, leaf: T, i: nat, path: seq<T>, level: nat): (T, T)
    requires level < |path|
  {
    var below := Fold(h, leaf, i, path, level);
    if Shift(i, level) % 2 == 1 then (path[level], below) else (below, path[level])
  }

  /** The pair of nodes the tree hashes there. */
  ghost function NodePair<T>(h: (T, T) -> T, z: T, leaves: seq<T>, i: nat, level: nat): (T, T) {
    var k := Shift(i, level) / 2;
    (Node(h, z, leaves, level, 2 * k), Node(h, z, leaves, level, 2 * k + 1))
  }

  /** Position `i` of the tree: itself, or beside itself. */
  function Beside(i: nat): nat { if i % 2 == 1 then i - 1 else i + 1 }

  /** The leaf is the one at position `i`, and every element of the path is the node beside the way up. */
  ghost predicate PathIsTrue<T(!new)>(h: (T, T) -> T, z: T, leaves: seq<T>, leaf: T, i: nat, path: seq<T>, levels: nat)
    requires levels <= |path|
  {
    && leaf == Node(h, z, leaves, 0, i)
    && forall l :: 0 <= l < levels ==> path[l] == Node(h, z, leaves, l, Beside(Shift(i, l)))
  }

  /** At some level the fold and the tree hash different pairs to the same value. */
  ghost predicate PathCollides<T(!new)>(h: (T, T) -> T, z: T, leaves: seq<T>, leaf: T, i: nat, path: seq<T>, levels: nat)
    requires levels <= |path|
  {
    exists l :: 0 <= l < levels && CollidesAt(h, FoldPair(h, leaf, i, path, l), NodePair(h, z, leaves, i, l))
  }

  predicate CollidesAt<T(==)>(h: (T, T) -> T, a: (T, T), b: (T, T)) {
    a != b && h(a.0, a.1) == h(b.0, b.1)
  }

  lemma OneLevel<T>(h: (T, T) -> T, z: T, leaves: seq<T>, leaf: T, i: nat, path: seq<T>, level: nat)
    requires level < |path|
    ensures var f, t := FoldPair(h, leaf, i, path, level), NodePair(h, z, leaves, i, level);
            && Fold(h, leaf, i, path, level + 1) == h(f.0, f.1)
            && Node(h, z, leaves, level + 1, Shift(i, level + 1)) == h(t.0, t.1)
            && (f == t <==> && Fold(h, leaf, i, path, level) == Node(h, z, leaves, level, Shift(i, level))
                            && path[level] == Node(h, z, leaves, level, Beside(Shift(i, level))))
  {}

  /** A path folds to the node above position `i` if it is true, and only if it is true or the hash collides on the way. */
  lemma {:induction false} FoldsExactly<T(!new)>(h: (T, T) -> T, z: T, leaves: seq<T>, leaf: T, i: nat, path: seq<T>, levels: nat)
    requires levels <= |path|
    ensures var folds := Fold(h, leaf, i, path, levels) == Node(h, z, leaves, levels, Shift(i, levels));
            && (PathIsTrue(h, z, leaves, leaf, i, path, levels) ==> folds)
            && (folds ==> PathIsTrue(h, z, leaves, leaf, i, path, levels) || PathCollides(h, z, leaves, leaf, i, path, levels))
  {
    hide Fold, Node, Shift, FoldPair, NodePair;
    if levels == 0 {
      NoLevels(h, leaf, i, path);
    } else {
      var l := levels - 1;
      FoldsExactly(h, z, leaves, leaf, i, path, l);
      OneLevel(h, z, leaves, leaf, i, path, l);
      if Fold(h, leaf, i, path, levels) == Node(h, z, leaves, levels, Shift(i, levels)) {
        if FoldPair(h, leaf, i, path, l) != NodePair(h, z, leaves, i, l) {
          assert CollidesAt(h, FoldPair(h, leaf, i, path, l), NodePair(h, z, leaves, i, l));
        } else if PathCollides(h, z, leaves, leaf, i, path, l) {
          var k :| 0 <= k < l && CollidesAt(h, FoldPair(h, leaf, i, path, k), NodePair(h, z, leaves, i, k));
        }
      }
    }
  }

  lemma NoLevels<T>(h: (T, T) -> T, leaf: T, i: nat, path: seq<T>)
    ensures Fold(h, leaf, i, path, 0) == leaf && Shift(i, 0) == i
  {}

  // ---- which index the derived path is good for ----

  lemma {:induction false} ShiftMonotone(i: nat, j: nat, level: nat)
    requires i <= j
    ensures Shift(i, level) <= Shift(j, level)
  {
    if level > 0 { ShiftMonotone(i, j, level - 1); }
  }

  /** The level at which the ways up from two positions meet: left and right child of one node. */
  lemma {:induction false} MeetingLevel(i: nat, j: nat, top: nat) returns (l: nat)
    requires i < j && Shift(i, top) == Shift(j, top)
    ensures l < top && Shift(i, l) % 2 == 0 && Shift(j, l) == Shift(i, l) + 1
  {
    ShiftMonotone(i, j, top - 1);
    if Shift(i, top - 1) == Shift(j, top - 1) {
      l := MeetingLevel(i, j, top - 1);
    } else {
      l := top - 1;
    }
  }

  /** The subtree that holds the last leaf hashes like an empty one of its height. */
  ghost predicate LooksEmpty<T(!new)>(h: (T, T) -> T, z: T, leaves: seq<T>, depth: nat)
    requires leaves != []
  {
    exists l :: 0 <= l < depth && ZeroHash(h, z, l) == Node(h, z, leaves, l, Shift(|leaves| - 1, l))
  }

  /** The derived path of an earlier leaf takes the way up to the last one for empty. */
  lemma EarlierPathIsFalse<T(!new)>(h: (T, T) -> T, z: T, leaves: seq<T>, filled: seq<T>, leaf: T, i: nat, path: seq<T>)
    requires |path| == |filled| && i < |leaves| - 1 && |leaves| <= Pow2(|filled|)
    requires forall l :: 0 <= l < |path| ==> path[l] == SiblingAt(h, z, filled, i, l)
    requires PathIsTrue(h, z, leaves, leaf, i, path, |path|)
    ensures LooksEmpty(h, z, leaves, |filled|)
  {
    ShiftToZero(i, |filled|);
    ShiftToZero(|leaves| - 1, |filled|);
    var l := MeetingLevel(i, |leaves| - 1, |filled|);
    assert path[l] == ZeroHash(h, z, l);
  }

  datatype MembershipError = RootMismatch(leafIndex: nat)

  /**
   Derives the path for any index and checks that it folds from the claimed leaf to the root.  What
   it accepts is the leaf at that position with its true path, or a collision of the hash; it does
   accept the last leaf, and an earlier one only if the last leaf's subtree looks empty.
   */
  method ReadMembership<T(==, !new)>(tree: IncrementalMerkleTree<T>, leafIndex: nat, commitment: T) returns (r: Result<seq<T>, MembershipError>)
    requires tree.Valid()
    ensures var path := DerivedPath(tree.h, tree.z, tree.filledSubtrees[..], leafIndex);
            r == if Fold(tree.h, commitment, leafIndex, path, |path|) == tree.root then Ok(path) else Err(RootMismatch(leafIndex))
    ensures var p := Position(leafIndex, tree.depth);
            r.Ok? ==> || PathIsTrue(tree.h, tree.z, tree.leaves, commitment, p, r.value, tree.depth)
                      || PathCollides(tree.h, tree.z, tree.leaves, commitment, p, r.value, tree.depth)
    ensures var p, n := Position(leafIndex, tree.depth), |tree.leaves|;
            && (n > 0 && p == n - 1 && commitment == tree.leaves[p] ==> r.Ok?)
            && (r.Ok? && p + 1 < n && !PathCollides(tree.h, tree.z, tree.leaves, commitment, p, r.value, tree.depth) ==>
                  LooksEmpty(tree.h, tree.z, tree.leaves, tree.depth))
  {
    var h, z := tree.h, tree.z;
    var filled := tree.filledSubtrees[..];
    var path := DerivePath(h, z, filled, leafIndex);
    assert path == DerivedPath(h, z, filled, leafIndex);
    var cur := FoldPath(h, commitment, leafIndex, path);
    MembershipMeans(tree, filled, leafIndex, commitment, path);
    if cur != tree.root {
      return Err(RootMismatch(leafIndex));
    }
    return Ok(path);
  }

  lemma MembershipMeans<T(!new)>(tree: IncrementalMerkleTree<T>, filled: seq<T>, leafIndex: nat, leaf: T, path: seq<T>)
    requires tree.Valid() && filled == tree.filledSubtrees[..] && |path| == |filled|
    requires forall l :: 0 <= l < |path| ==> path[l] == SiblingAt(tree.h, tree.z, filled, leafIndex, l)
    ensures var h, z, leaves, p := tree.h, tree.z, tree.leaves, Position(leafIndex, tree.depth);
            var folds, n := Fold(h, leaf, leafIndex, path, |path|) == tree.root, |tree.leaves|;
            && (folds ==> PathIsTrue(h, z, leaves, leaf, p, path, |path|) || PathCollides(h, z, leaves, leaf, p, path, |path|))
            && (n > 0 && p == n - 1 && leaf == leaves[p] ==> folds)
            && (folds && p + 1 < n && !PathCollides(h, z, leaves, leaf, p, path, |path|) ==> LooksEmpty(h, z, leaves, |path|))
  {
    var h, z, leaves, depth, p := tree.h, tree.z, tree.leaves, tree.depth, Position(leafIndex, tree.depth);
    FoldAtPosition(h, leaf, leafIndex, path, depth, depth);
    FoldsExactly(h, z, leaves, leaf, p, path, depth);
    ShiftToZero(p, depth);
    SiblingsAtPosition(h, z, filled, leafIndex, path);
    hide Fold, Node, Shift, PathIsTrue, PathCollides, LooksEmpty, SiblingAt;
    if |leaves| > 0 && p == |leaves| - 1 {
      LastSiblingsStored(tree, filled);
      DerivedPathFolds(h, z, leaves, filled, path, depth);
    }
    if PathIsTrue(h, z, leaves, leaf, p, path, depth) && p + 1 < |leaves| {
      EarlierPathIsFalse(h, z, leaves, filled, leaf, p, path);
    }
  }

  lemma SiblingsAtPosition<T>(h: (T, T) -> T, z: T, filled: seq<T>, i: nat, path: seq<T>)
    requires |path| == |filled| && forall l :: 0 <= l < |path| ==> path[l] == SiblingAt(h, z, filled, i, l)
    ensures forall l :: 0 <= l < |path| ==> path[l] == SiblingAt(h, z, filled, Position(i, |filled|), l)
  {
    forall l | 0 <= l < |path| ensures path[l] == SiblingAt(h, z, filled, Position(i, |filled|), l) {
      PositionBits(i, |filled|, l);
    }
  }

  lemma LastSiblingsStored<T>(tree: IncrementalMerkleTree<T>, filled: seq<T>)
    requires tree.Valid() && filled == tree.filledSubtrees[..] && tree.leaves != []
    ensures LeftSiblingsStored(tree.h, tree.z, tree.leaves, filled, |tree.leaves| - 1)
  {
    var last := |tree.leaves| - 1;
    forall l | 0 <= l < |filled| && Shift(last, l) % 2 == 1
      ensures filled[l] == Node(tree.h, tree.z, tree.leaves, l, Shift(last, l) - 1)
    {
      assert filled[l] == LeftOfPair(tree.h, tree.z, tree.leaves, l);
    }
  }

  /** Two leaves: the path derived for the first one folds to `h(a, z)`, while the root is `h(a, b)`. */
  lemma FirstOfTwoLeaves<T>(h: (T, T) -> T, z: T, a: T, b: T, filled: seq<T>)
    requires |filled| == 1
    ensures var path := DerivedPath(h, z, filled, 0);
            Fold(h, a, 0, path, |path|) == h(a, z) && Root(h, z, [a, b], 1) == h(a, b)
  {
    assert DerivedPath(h, z, filled, 0) == [z];
    assert Fold(h, a, 0, [z], 1) == h(a, z);
    assert Node(h, z, [a, b], 0, 0) == a && Node(h, z, [a, b], 0, 1) == b;
  }

  /** The first of two leaves is refused, unless the hash does not tell the second from an empty leaf. */
  method ReadFirstOfTwo<T(==, !new)>(h: (T, T) -> T, z: T, a: T, b: T) returns (r: Result<seq<T>, MembershipError>)
    ensures r.Err? <==> h(a, z) != h(a, b)
    ensures r.Err? ==> r.error == RootMismatch(0)
  {
    var tree := new IncrementalMerkleTree(h, z, 1);
    var first := tree.Append(a);
    assert tree.leaves == [a];
    var second := tree.Append(b);
    assert tree.leaves == [a, b];
    FirstOfTwoLeaves(h, z, a, b, tree.filledSubtrees[..]);
    r := ReadMembership(tree, 0, a);
  }
}
