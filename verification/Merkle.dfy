/**
 The Merkle tree of a block's transaction hashes. CalcHash defines a node by recursion; the
 flat array of BuildMerkleTree and the branches cut from it are proved against it. The hash
 of two digests is a parameter, injective only where a result says so.
 */
module Merkle {
  import opened Common
  import opened Arith

  type Digest = nat

  type Hash = (Digest, Digest) -> Digest

  ghost predicate Injective(hash: Hash) {
    forall a, b, c, d {:trigger hash(a, b), hash(c, d)} :: hash(a, b) == hash(c, d) ==> a == c && b == d
  }

  // ---------- the shape of the tree ----------

  /** How many nodes a tree over n leaves has at some height. */
  function Width(n: nat, height: nat): nat {
    if height == 0 then n else (Width(n, height - 1) + 1) / 2
  }

  /** The same, as the partial tree computes it with shifts. */
  function CalcTreeWidth(n: nat, height: nat): nat {
    (n + Pow2(height) - 1) / Pow2(height)
  }

  lemma {:induction false} WidthIsShift(n: nat, height: nat)
    ensures CalcTreeWidth(n, height) == Width(n, height)
  {
    if height > 0 {
      WidthIsShift(n, height - 1);
      var p := Pow2(height - 1);
      QuotientBounds(n + p - 1, p);
      HalfOfCeiling(n, p, Width(n, height - 1));
    }
  }

  /** Halving a ceiling is the ceiling of the half. */
  lemma HalfOfCeiling(n: nat, p: nat, w: nat)
    requires p > 0 && w * p <= n + p - 1 < (w + 1) * p
    ensures (n + 2 * p - 1) / (2 * p) == (w + 1) / 2
  {
    var v := (w + 1) / 2;
    MulGe(2 * v, w + 1, p);
    MulGe(w + 2, 2 * v + 2, p);
    Regroup(v, p);
    Regroup(v + 1, p);
    assert (w + 1) * p == w * p + p && (w + 2) * p == (w + 1) * p + p;
    DivExact(n + 2 * p - 1, 2 * p, v);
  }

  lemma Regroup(v: nat, p: nat)
    ensures v * (2 * p) == 2 * v * p
  {
  }

  /** The height of the root: the first height, from `height` on, with a single node. */
  function HeightFrom(n: nat, height: nat): (r: nat)
    requires n > 0
    ensures r >= height && Width(n, r) == 1
    ensures forall h :: height <= h < r ==> Width(n, h) > 1
    decreases Width(n, height)
  {
    WidthPositive(n, height);
    if Width(n, height) == 1 then height else HeightFrom(n, height + 1)
  }

  function Height(n: nat): nat
    requires n > 0
  {
    HeightFrom(n, 0)
  }

  lemma {:induction false} WidthPositive(n: nat, height: nat)
    requires n > 0
    ensures Width(n, height) > 0
  {
    if height > 0 {
      WidthPositive(n, height - 1);
    }
  }

  // ---------- nodes ----------

  /** A node at some height; the last one of an odd level is paired with itself. */
  function CalcHash(height: nat, pos: nat, txids: seq<Digest>, hash: Hash): Digest
    requires pos < Width(|txids|, height)
  {
    if height == 0 then
      txids[pos]
    else
      var left := CalcHash(height - 1, pos * 2, txids, hash);
      var right := if pos * 2 + 1 < Width(|txids|, height - 1) then CalcHash(height - 1, pos * 2 + 1, txids, hash) else left;
      hash(left, right)
  }

  function Root(txids: seq<Digest>, hash: Hash): Digest {
    if txids == [] then
      0
    else
      CalcHash(Height(|txids|), 0, txids, hash)
  }

  // ---------- the flat array ----------

  /** Where the nodes of a height start in the flat array. */
  function Offset(n: nat, height: nat): nat {
    if height == 0 then 0 else Offset(n, height - 1) + Width(n, height - 1)
  }

  /** Entry i of a level is where it belongs in the array. */
  ghost predicate HoldsLevel(tree: seq<Digest>, txids: seq<Digest>, hash: Hash, h: nat) {
    && Offset(|txids|, h + 1) <= |tree|
    && forall i :: 0 <= i < Width(|txids|, h) ==> tree[Offset(|txids|, h) + i] == CalcHash(h, i, txids, hash)
  }

  /** The array holds, level after level, the first `levels` levels of the tree. */
  ghost predicate HoldsLevels(tree: seq<Digest>, txids: seq<Digest>, hash: Hash, levels: nat) {
    forall h :: 0 <= h < levels ==> HoldsLevel(tree, txids, hash, h)
  }

  lemma LevelsKept(tree: seq<Digest>, tree': seq<Digest>, txids: seq<Digest>, hash: Hash, levels: nat)
    requires tree <= tree' && HoldsLevels(tree, txids, hash, levels)
    ensures HoldsLevels(tree', txids, hash, levels)
  {
    forall h | 0 <= h < levels ensures HoldsLevel(tree', txids, hash, h) {
      assert HoldsLevel(tree, txids, hash, h);
    }
  }

  /**
   Appends the levels of the tree one after the other. Entry i of level h is the node that
   CalcHash defines, up to the root, which is returned.
   */
  method BuildMerkleTree(txids: seq<Digest>, hash: Hash) returns (tree: seq<Digest>, root: Digest)
    ensures txids == [] ==> tree == []
    ensures txids != [] ==>
              && HoldsLevels(tree, txids, hash, Height(|txids|) + 1)
              && |tree| == Offset(|txids|, Height(|txids|) + 1)
    ensures root == Root(txids, hash)
  {
    tree := txids;
    var j, size := 0, |txids|;
    ghost var h := 0;
    ghost var n := |txids|;
    assert Offset(n, 1) == Offset(n, 0) + Width(n, 0) == n;
    assert HoldsLevel(tree, txids, hash, 0);
    while size > 1
      invariant if n == 0 then h == 0 && tree == [] else h <= Height(n)
      invariant size == Width(n, h) && j == Offset(n, h) && |tree| == Offset(n, h + 1)
      invariant HoldsLevels(tree, txids, hash, h + 1)
      decreases size
    {
      tree := AddLevel(tree, txids, hash, j, size, h);
      j := j + size;
      size := (size + 1) / 2;
      h := h + 1;
    }
    if n > 0 {
      WidthPositive(n, h);
      TopIsUnique(n, h);
      NodeInArray(tree, txids, hash, h + 1, h, 0);
    }
    root := if tree == [] then 0 else tree[|tree| - 1];
  }

  lemma TopIsReached(n: nat, height: nat)
    requires n > 0 && Width(n, height) == 1
    ensures Height(n) <= height
  {
  }

  lemma TopIsUnique(n: nat, h: nat)
    requires n > 0 && h <= Height(n) && Width(n, h) == 1
    ensures h == Height(n)
  {
  }

  lemma LevelAdded(tree: seq<Digest>, txids: seq<Digest>, hash: Hash, levels: nat)
    requires HoldsLevels(tree, txids, hash, levels) && HoldsLevel(tree, txids, hash, levels)
    ensures HoldsLevels(tree, txids, hash, levels + 1)
  {
  }

  lemma NodeFromArray(tree: seq<Digest>, txids: seq<Digest>, hash: Hash, h: nat, i: nat, i2: nat)
    requires HoldsLevels(tree, txids, hash, h + 1) && i % 2 == 0 && i < Width(|txids|, h)
    requires i2 == if i + 1 < Width(|txids|, h) then i + 1 else i
    ensures Offset(|txids|, h) + i2 < |tree|
    ensures CalcHash(h + 1, i / 2, txids, hash) == hash(tree[Offset(|txids|, h) + i], tree[Offset(|txids|, h) + i2])
  {
    NodeInArray(tree, txids, hash, h + 1, h, i);
    NodeInArray(tree, txids, hash, h + 1, h, i2);
  }

  /** Pairs up the nodes of one level and appends what they hash to. */
  method AddLevel(tree: seq<Digest>, txids: seq<Digest>, hash: Hash, j: nat, size: nat, ghost h: nat)
    returns (tree': seq<Digest>)
    requires size == Width(|txids|, h) > 1 && j == Offset(|txids|, h) && |tree| == Offset(|txids|, h + 1)
    requires HoldsLevels(tree, txids, hash, h + 1)
    ensures HoldsLevels(tree', txids, hash, h + 2) && |tree'| == Offset(|txids|, h + 2)
  {
    hide CalcHash, HoldsLevels;
    ghost var n, above := |txids|, h + 1;
    tree' := tree;
    var i := 0;
    while i < size
      invariant i % 2 == 0 && 0 <= i <= size + 1
      invariant tree <= tree' && |tree'| == |tree| + i / 2
      invariant forall k :: 0 <= k < i / 2 ==> tree'[|tree| + k] == CalcHash(above, k, txids, hash)
    {
      var i2 := if i + 1 < size - 1 then i + 1 else size - 1;
      NodeFromArray(tree, txids, hash, h, i, i2);
      tree' := tree' + [hash(tree'[j + i], tree'[j + i2])];
      i := i + 2;
    }
    assert i / 2 == Width(n, h + 1);
    LevelsKept(tree, tree', txids, hash, h + 1);
    assert HoldsLevel(tree', txids, hash, above);
    LevelAdded(tree', txids, hash, above);
  }

  // ---------- branches ----------

  function Sibling(index: nat): nat {
    if index % 2 == 0 then index + 1 else index - 1
  }

  /** The node that is hashed together with node `index` of a level. */
  function Partner(n: nat, h: nat, index: nat): (r: nat)
    requires index < Width(n, h) && Width(n, h) > 1
    ensures r < Width(n, h)
  {
    if Sibling(index) < Width(n, h) - 1 then Sibling(index) else Width(n, h) - 1
  }

  /** The partners on the way from node `index` of level h to the root. */
  function Branch(h: nat, index: nat, txids: seq<Digest>, hash: Hash): (r: seq<Digest>)
    requires index < Width(|txids|, h)
    decreases Width(|txids|, h)
  {
    if Width(|txids|, h) <= 1 then
      []
    else
      [CalcHash(h, Partner(|txids|, h, index), txids, hash)] + Branch(h + 1, index / 2, txids, hash)
  }

  method GetMerkleBranch(txids: seq<Digest>, hash: Hash, index: nat) returns (branch: seq<Digest>)
    requires index < |txids|
    ensures branch == Branch(0, index, txids, hash)
  {
    hide *;
    var tree, root := BuildMerkleTree(txids, hash);
    branch := [];
    var i: nat, j: nat, size: nat := index, 0, |txids|;
    ghost var n, h := |txids|, 0;
    LevelStep(n, 0);
    while size > 1
      invariant h <= Height(n)
      invariant size == Width(n, h) && j == Offset(n, h) && i < size
      invariant branch + Branch(h, i, txids, hash) == Branch(0, index, txids, hash)
      decreases size
    {
      TopIsFirst(n, h);
      LevelStep(n, h);
      BranchStep(h, i, txids, hash);
      PartnerIs(n, h, i);
      var k := if Sibling(i) < size - 1 then Sibling(i) else size - 1;
      NodeInArray(tree, txids, hash, Height(n) + 1, h, k);
      branch := branch + [tree[j + k]];
      i := i / 2;
      j := j + size;
      size := (size + 1) / 2;
      h := h + 1;
    }
    BranchStep(h, i, txids, hash);
  }

  lemma PartnerIs(n: nat, h: nat, i: nat)
    requires i < Width(n, h) && Width(n, h) > 1
    ensures i / 2 < (Width(n, h) + 1) / 2
    ensures Partner(n, h, i) == if Sibling(i) < Width(n, h) - 1 then Sibling(i) else Width(n, h) - 1
  {
  }

  lemma LevelStep(n: nat, h: nat)
    ensures Width(n, 0) == n && Offset(n, 0) == 0
    ensures Width(n, h + 1) == (Width(n, h) + 1) / 2 && Offset(n, h + 1) == Offset(n, h) + Width(n, h)
  {
  }

  lemma BranchStep(h: nat, i: nat, txids: seq<Digest>, hash: Hash)
    requires i < Width(|txids|, h)
    ensures Branch(h, i, txids, hash) ==
              if Width(|txids|, h) <= 1 then [] else
                [CalcHash(h, Partner(|txids|, h, i), txids, hash)] + Branch(h + 1, i / 2, txids, hash)
  {
  }

  lemma TopIsFirst(n: nat, h: nat)
    requires n > 0 && h <= Height(n) && Width(n, h) > 1
    ensures h < Height(n)
  {
  }

  lemma NodeInArray(tree: seq<Digest>, txids: seq<Digest>, hash: Hash, levels: nat, h: nat, i: nat)
    requires HoldsLevels(tree, txids, hash, levels) && h < levels && i < Width(|txids|, h)
    ensures Offset(|txids|, h) + i < |tree| && tree[Offset(|txids|, h) + i] == CalcHash(h, i, txids, hash)
  {
    assert HoldsLevel(tree, txids, hash, h);
  }

  /** What a digest and a branch hash to; halving rounds down, for negative indices too. */
  function Climb(digest: Digest, branch: seq<Digest>, index: int, hash: Hash): Digest
    decreases |branch|
  {
    if branch == [] then
      digest
    else
      Climb(if index % 2 == 1 then hash(branch[0], digest) else hash(digest, branch[0]), branch[1..], index / 2, hash)
  }

  method CheckMerkleBranch(digest: Digest, branch: seq<Digest>, index: int, hash: Hash) returns (root: Digest)
    ensures root == if index == -1 then 0 else Climb(digest, branch, index, hash)
  {
    if index == -1 {
      return 0;
    }
    root := digest;
    var i := index;
    assert branch[0..] == branch;
    for k := 0 to |branch|
      invariant Climb(digest, branch, index, hash) == Climb(root, branch[k..], i, hash)
    {
      assert branch[k..][1..] == branch[k + 1..];
      root := if i % 2 == 1 then hash(branch[k], root) else hash(root, branch[k]);
      i := i / 2;
    }
  }

  /** A node and its partner, in the order of their positions, hash to the node above them. */
  lemma ParentOf(h: nat, index: nat, txids: seq<Digest>, hash: Hash)
    requires index < Width(|txids|, h) && Width(|txids|, h) > 1
    ensures var a, b := CalcHash(h, index, txids, hash), CalcHash(h, Partner(|txids|, h, index), txids, hash);
            CalcHash(h + 1, index / 2, txids, hash) == if index % 2 == 1 then hash(b, a) else hash(a, b)
  {
  }

  /** The branch of a node leads from it to the root. */
  lemma {:induction false} BranchLeadsToRoot(h: nat, index: nat, txids: seq<Digest>, hash: Hash)
    requires txids != [] && h <= Height(|txids|) && index < Width(|txids|, h)
    ensures Climb(CalcHash(h, index, txids, hash), Branch(h, index, txids, hash), index, hash) == Root(txids, hash)
    ensures |Branch(h, index, txids, hash)| == Height(|txids|) - h
    decreases Height(|txids|) - h
  {
    if Width(|txids|, h) > 1 {
      TopIsFirst(|txids|, h);
      ParentOf(h, index, txids, hash);
      BranchLeadsToRoot(h + 1, index / 2, txids, hash);
    } else {
      TopIsUnique(|txids|, h);
    }
  }

  /** With an injective hash, no other digest and no other branch of that length lead to the root. */
  lemma {:induction false} BranchIsUnique(h: nat, index: nat, txids: seq<Digest>, hash: Hash,
                                          digest: Digest, branch: seq<Digest>)
    requires Injective(hash) && txids != [] && h <= Height(|txids|) && index < Width(|txids|, h)
    requires |branch| == Height(|txids|) - h
    requires Climb(digest, branch, index, hash) == Root(txids, hash)
    ensures digest == CalcHash(h, index, txids, hash) && branch == Branch(h, index, txids, hash)
    decreases |branch|
  {
    hide CalcHash, HeightFrom;
    if branch != [] {
      var parent := if index % 2 == 1 then hash(branch[0], digest) else hash(digest, branch[0]);
      assert Width(|txids|, h) > 1;
      BranchIsUnique(h + 1, index / 2, txids, hash, parent, branch[1..]);
      ParentOf(h, index, txids, hash);
      assert branch == [branch[0]] + branch[1..];
    }
  }

  /**
   A digest checks out at a leaf exactly when it is the hash of the transaction there and the
   branch is the one GetMerkleBranch cuts.
   */
  lemma CheckedExactlyWhenMember(index: nat, txids: seq<Digest>, hash: Hash, digest: Digest, branch: seq<Digest>)
    requires Injective(hash) && index < |txids| && |branch| == Height(|txids|)
    ensures Climb(digest, branch, index, hash) == Root(txids, hash)
            <==> digest == txids[index] && branch == Branch(0, index, txids, hash)
  {
    BranchLeadsToRoot(0, index, txids, hash);
    if Climb(digest, branch, index, hash) == Root(txids, hash) {
      BranchIsUnique(0, index, txids, hash, digest, branch);
    }
  }
}
