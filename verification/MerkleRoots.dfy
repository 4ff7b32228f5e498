/**
 What a Merkle root says about the list it was made from. The last node of a level of odd width
 is hashed with itself, so a list and the same list with its tail repeated have the same root;
 among lists without repetitions, of trees of one height, every root belongs to one list only.
 */
module MerkleRoots {
  import opened Common
  import opened Arith
  import opened Merkle
  import opened PartialMerkle

  ghost predicate SameNodes(a: seq<Digest>, b: seq<Digest>, hash: Hash, h: nat) {
    && Width(|a|, h) == Width(|b|, h)
    && forall i :: 0 <= i < Width(|a|, h) ==> CalcHash(h, i, a, hash) == CalcHash(h, i, b, hash)
  }

  /** Nodes with one digest have the same first leaf. */
  lemma {:induction false} SameFirstLeaf(a: seq<Digest>, b: seq<Digest>, hash: Hash, h: nat, i: nat, j: nat)
    requires Injective(hash) && i < Width(|a|, h) && j < Width(|b|, h)
    requires CalcHash(h, i, a, hash) == CalcHash(h, j, b, hash)
    ensures Start(h, i) < |a| && Start(h, j) < |b| && a[Start(h, i)] == b[Start(h, j)]
  {
    hide Width;
    NodeExists(|a|, h, i);
    NodeExists(|b|, h, j);
    if h > 0 {
      Children(|a|, h, i);
      Children(|b|, h, j);
      hide Start;
      SameFirstLeaf(a, b, hash, h - 1, i * 2, j * 2);
    } else {
      assert Start(0, i) == i && Start(0, j) == j;
    }
  }

  lemma StartsApart(h: nat, i: nat, j: nat)
    requires i < j
    ensures Start(h, i) < Start(h, j)
  {
    StartsGrow(h, i);
    MulGe(i + 1, j, Pow2(h));
  }

  /** In a list without repetitions no two nodes of a level have one digest. */
  lemma NodesDiffer(a: seq<Digest>, hash: Hash, h: nat, i: nat, j: nat)
    requires Injective(hash) && Distinct(a) && i < j < Width(|a|, h)
    ensures CalcHash(h, i, a, hash) != CalcHash(h, j, a, hash)
  {
    StartsApart(h, i, j);
    if CalcHash(h, i, a, hash) == CalcHash(h, j, a, hash) {
      SameFirstLeaf(a, a, hash, h, i, j);
    }
  }

  /** The right child of a node, or its only one. */
  function LastChild(n: nat, h: nat, i: nat): (r: nat)
    requires i < Width(n, h + 1)
    ensures r < Width(n, h)
  {
    if i * 2 + 1 < Width(n, h) then i * 2 + 1 else i * 2
  }

  lemma NodeOfChildren(h: nat, i: nat, a: seq<Digest>, hash: Hash)
    requires i < Width(|a|, h + 1)
    ensures i * 2 < Width(|a|, h)
    ensures CalcHash(h + 1, i, a, hash) == hash(CalcHash(h, i * 2, a, hash), CalcHash(h, LastChild(|a|, h, i), a, hash))
  {
  }

  lemma SameChildren(a: seq<Digest>, b: seq<Digest>, hash: Hash, h: nat, i: nat)
    requires Injective(hash) && SameNodes(a, b, hash, h + 1) && i < Width(|a|, h + 1)
    ensures i * 2 < Width(|a|, h) && i * 2 < Width(|b|, h)
    ensures CalcHash(h, i * 2, a, hash) == CalcHash(h, i * 2, b, hash)
    ensures CalcHash(h, LastChild(|a|, h, i), a, hash) == CalcHash(h, LastChild(|b|, h, i), b, hash)
  {
    hide CalcHash;
    NodeOfChildren(h, i, a, hash);
    NodeOfChildren(h, i, b, hash);
  }

  /** Where one list has a single child and the other has two, these have one digest. */
  lemma SameWidths(a: seq<Digest>, b: seq<Digest>, hash: Hash, h: nat)
    requires Injective(hash) && Distinct(b) && SameNodes(a, b, hash, h + 1)
    ensures Width(|a|, h) >= Width(|b|, h)
  {
    hide CalcHash;
    var i := Width(|b|, h + 1) - 1;
    if Width(|a|, h) < Width(|b|, h) {
      SameChildren(a, b, hash, h, i);
      NodesDiffer(b, hash, h, i * 2, i * 2 + 1);
    }
  }

  lemma SameLevelBelow(a: seq<Digest>, b: seq<Digest>, hash: Hash, h: nat)
    requires Injective(hash) && Width(|a|, h) == Width(|b|, h) && SameNodes(a, b, hash, h + 1)
    ensures SameNodes(a, b, hash, h)
  {
    hide CalcHash;
    forall i | 0 <= i < Width(|a|, h)
      ensures CalcHash(h, i, a, hash) == CalcHash(h, i, b, hash)
    {
      SameChildren(a, b, hash, h, i / 2);
    }
  }

  lemma {:induction false} SameLeaves(a: seq<Digest>, b: seq<Digest>, hash: Hash, h: nat)
    requires Injective(hash) && SameNodes(a, b, hash, h)
    requires |a| == |b| || (Distinct(a) && Distinct(b))
    ensures SameNodes(a, b, hash, 0)
  {
    if h > 0 {
      if |a| != |b| {
        SameWidths(a, b, hash, h - 1);
        SameBackwards(a, b, hash, h);
        SameWidths(b, a, hash, h - 1);
      }
      SameLevelBelow(a, b, hash, h - 1);
      SameLeaves(a, b, hash, h - 1);
    }
  }

  lemma SameBackwards(a: seq<Digest>, b: seq<Digest>, hash: Hash, h: nat)
    requires SameNodes(a, b, hash, h)
    ensures SameNodes(b, a, hash, h)
  {
  }

  /**
   With an injective hash, two lists with trees of one height have the same root exactly when
   they are equal, if neither repeats a digest or if they are equally long.
   */
  lemma RootDeterminesList(a: seq<Digest>, b: seq<Digest>, hash: Hash)
    requires Injective(hash) && a != [] && b != [] && Height(|a|) == Height(|b|)
    requires |a| == |b| || (Distinct(a) && Distinct(b))
    ensures Root(a, hash) == Root(b, hash) <==> a == b
  {
    hide HeightFrom;
    var h := Height(|a|);
    RootExists(|a|);
    RootExists(|b|);
    if Root(a, hash) == Root(b, hash) {
      assert SameNodes(a, b, hash, h);
      SameLeaves(a, b, hash, h);
      assert forall i :: 0 <= i < |a| ==> CalcHash(0, i, a, hash) == a[i] && CalcHash(0, i, b, hash) == b[i];
    }
  }

  // ---------- lists with the same root ----------

  lemma RepeatedFirstLevel(a: seq<Digest>, hash: Hash, i: nat)
    requires |a| % 2 == 1
    ensures var b := a + [a[|a| - 1]];
            && Width(|b|, 1) == Width(|a|, 1)
            && (i < Width(|a|, 1) ==> CalcHash(1, i, b, hash) == CalcHash(1, i, a, hash))
  {
    var b := a + [a[|a| - 1]];
    assert Width(|a|, 0) == |a| && Width(|b|, 0) == |b|;
    if i < Width(|a|, 1) {
      NodeOfChildren(0, i, a, hash);
      NodeOfChildren(0, i, b, hash);
    }
  }

  lemma {:induction false} RepeatedNodes(a: seq<Digest>, hash: Hash, h: nat, i: nat)
    requires |a| % 2 == 1
    ensures var b := a + [a[|a| - 1]];
            && Width(|b|, h + 1) == Width(|a|, h + 1)
            && (i < Width(|a|, h + 1) ==> CalcHash(h + 1, i, b, hash) == CalcHash(h + 1, i, a, hash))
    decreases h
  {
    hide CalcHash;
    var b := a + [a[|a| - 1]];
    if h == 0 {
      RepeatedFirstLevel(a, hash, i);
    } else {
      RepeatedNodes(a, hash, h - 1, i * 2);
      RepeatedNodes(a, hash, h - 1, i * 2 + 1);
      if i < Width(|a|, h + 1) {
        NodeOfChildren(h, i, a, hash);
        NodeOfChildren(h, i, b, hash);
      }
    }
  }

  /** Repeating the last of an odd number of transactions changes neither the root nor the height. */
  lemma RepeatedTail(a: seq<Digest>, hash: Hash)
    requires |a| % 2 == 1 && |a| > 1
    ensures var b := a + [a[|a| - 1]];
            a != b && Height(|b|) == Height(|a|) && Root(b, hash) == Root(a, hash)
  {
    hide CalcHash;
    var b := a + [a[|a| - 1]];
    var top := Height(|a|);
    RootExists(|a|);
    forall h | 0 <= h <= top
      ensures h > 0 ==> Width(|b|, h) == Width(|a|, h)
    {
      if h > 0 {
        RepeatedNodes(a, hash, h - 1, 0);
      }
    }
    assert top > 0;
    RepeatedNodes(a, hash, top - 1, 0);
    SameHeight(|a|, |b|, top);
  }

  lemma SameHeight(n: nat, m: nat, top: nat)
    requires n > 1 && m > 1 && top == Height(n) && forall h :: 0 < h <= top ==> Width(m, h) == Width(n, h)
    ensures Height(m) == top
  {
    TopIsReached(m, top);
    TopIsReached(n, Height(m));
  }

  /** Trees of different heights share roots as well: the digest of an inner node can stand for a transaction. */
  lemma InnerNodeAsLeaf(x: Digest, y: Digest, hash: Hash)
    ensures Root([hash(x, y)], hash) == Root([x, y], hash)
  {
    assert Width(1, 0) == 1 && Width(2, 0) == 2 && Width(2, 1) == 1;
    TopIsReached(1, 0);
    TopIsUnique(2, 1);
    NodeOfChildren(0, 0, [x, y], hash);
  }
}
