/**
 How many bytes a partial Merkle tree takes when it is serialized, and when that keeps to the
 bound it is documented with, 10 + ceil(32.25 * N) for N hashes.
 */
module PartialMerkleSize {
  import opened Common
  import opened Arith
  import opened Merkle
  import opened PartialMerkle

  /** How many of the levels below a height have a single child above their last node. */
  function LonelyLevels(matches: seq<bool>, height: nat): (r: nat)
    requires matches != []
    ensures r <= height
  {
    if height == 0 then 0
    else
      WidthPositive(|matches|, height - 1);
      LonelyLevels(matches, height - 1) + if LonelyLevel(matches, height - 1) then 1 else 0
  }

  lemma {:induction false} NoLonelyLevels(matches: seq<bool>, height: nat)
    requires matches != [] && forall g :: 0 <= g < height ==> !LonelyLevel(matches, g)
    ensures LonelyLevels(matches, height) == 0
  {
    if height > 0 {
      NoLonelyLevels(matches, height - 1);
    }
  }

  /** Only the last node of a level has single children below it, one for each lonely level. */
  lemma {:induction false} SingleChildrenCount(matches: seq<bool>, height: nat, pos: nat)
    requires matches != [] && pos < Width(|matches|, height)
    ensures SingleChildren(matches, height, pos)
            == if pos == Width(|matches|, height) - 1 then LonelyLevels(matches, height) else 0
  {
    hide ParentOfMatch;
    var n := |matches|;
    if height > 0 {
      if ParentOfMatch(matches, height, pos) {
        ParentOfMatchChildren(matches, height, pos);
        SingleChildrenCount(matches, height - 1, pos * 2);
        if pos * 2 + 1 < Width(n, height - 1) {
          SingleChildrenCount(matches, height - 1, pos * 2 + 1);
        }
      } else if pos == Width(n, height) - 1 {
        forall g | 0 <= g < height ensures !LonelyLevel(matches, g) {
          LastNodesAbove(matches, g, height);
        }
        NoLonelyLevels(matches, height);
      }
    }
  }

  /** The bytes of a count in front of a list. */
  function CompactSize(n: nat): nat {
    if n < 253 then 1 else if n <= 0xFFFF then 3 else if n <= 0xFFFF_FFFF then 5 else 9
  }

  /** The number of transactions, the hashes and the packed flag bits, with a count in front of each list. */
  function EncodedSize(bits: nat, hashes: nat): nat {
    4 + CompactSize(hashes) + 32 * hashes + CompactSize((bits + 7) / 8) + (bits + 7) / 8
  }

  function DocumentedSize(hashes: nat): nat {
    10 + 32 * hashes + (hashes + 3) / 4
  }

  /**
   For the trees of blocks, the documented size is kept exactly when the flag bits take less
   than 253 bytes, or else when the lonely levels do not cost one more byte.
   */
  lemma SizeBound(txids: seq<Digest>, matches: seq<bool>, hash: Hash)
    requires 0 < |txids| == |matches| <= MAX_BLOCK_SIZE / 60
    ensures var height := Height(|txids|);
            var bits, hashes := |Bits(matches, height, 0)|, |Hashes(txids, matches, hash, height, 0)|;
            var lonely := LonelyLevels(matches, height);
            && bits == 2 * hashes - 1 + lonely
            && (EncodedSize(bits, hashes) <= DocumentedSize(hashes)
                <==> 2 * hashes + 6 + lonely < 253 * 8 || lonely + 2 * ((hashes + 3) % 4) < 8)
  {
    hide Bits, Hashes, LonelyLevels, SingleChildren;
    var n, height := |txids|, Height(|txids|);
    WidthPositive(n, height);
    BitCount(txids, matches, hash, height, 0);
    SingleChildrenCount(matches, height, 0);
    SizeBounds(txids, matches, hash, height, 0);
    RootSpan(n);
    HeightBound(n);
    SizeArithmetic(|Hashes(txids, matches, hash, height, 0)|, LonelyLevels(matches, height));
  }

  lemma SizeArithmetic(hashes: nat, lonely: nat)
    requires 0 < hashes <= MAX_BLOCK_SIZE / 60 && lonely <= 15
    ensures EncodedSize(2 * hashes - 1 + lonely, hashes) <= DocumentedSize(hashes)
            <==> 2 * hashes + 6 + lonely < 253 * 8 || lonely + 2 * ((hashes + 3) % 4) < 8
  {
  }

  lemma {:induction false} WidthBound(n: nat, height: nat, k: nat)
    requires n <= Pow2(height + k)
    ensures Width(n, height) <= Pow2(k)
    decreases height
  {
    if height > 0 {
      WidthBound(n, height - 1, k + 1);
    }
  }

  lemma HeightBound(n: nat)
    requires 0 < n <= MAX_BLOCK_SIZE / 60
    ensures Height(n) <= 15
  {
    assert Pow2(15) == 32768 by {
      assert Pow2(5) == 32 && Pow2(10) == 1024;
    }
    WidthBound(n, 15, 0);
    WidthPositive(n, 15);
    TopIsReached(n, 15);
  }

  // ---------- a tree that is larger ----------

  lemma AllBelowMatched(matches: seq<bool>, height: nat, pos: nat)
    requires pos < Width(|matches|, height) && forall i :: 0 <= i < |matches| ==> matches[i]
    ensures ParentOfMatch(matches, height, pos)
  {
    NodeSpan(|matches|, height, pos);
    assert matches[Start(height, pos)];
  }

  lemma LeafSpan(n: nat, pos: nat)
    requires pos < Width(n, 0)
    ensures End(n, 0, pos) - Start(0, pos) == 1
  {
    assert Start(0, pos) == pos && Start(0, pos + 1) == pos + 1;
  }

  lemma {:induction false} AllMatched(txids: seq<Digest>, matches: seq<bool>, hash: Hash, height: nat, pos: nat)
    requires |txids| == |matches| && pos < Width(|matches|, height)
    requires forall i :: 0 <= i < |matches| ==> matches[i]
    ensures ParentOfMatch(matches, height, pos)
    ensures |Hashes(txids, matches, hash, height, pos)| == End(|txids|, height, pos) - Start(height, pos)
  {
    hide ParentOfMatch, Bits, Hashes, Width, Start, End, CalcHash;
    AllBelowMatched(matches, height, pos);
    WrittenFor(txids, matches, hash, height, pos);
    if height == 0 {
      LeafSpan(|matches|, pos);
    } else {
      Children(|matches|, height, pos);
      AllMatched(txids, matches, hash, height - 1, pos * 2);
      if pos * 2 + 1 < Width(|matches|, height - 1) {
        AllMatched(txids, matches, hash, height - 1, pos * 2 + 1);
      }
    }
  }

  lemma LonelyLevelsOfAll(txids: seq<Digest>, matches: seq<bool>, hash: Hash, height: nat)
    requires |txids| == |matches| > 0 && height > 0 && forall i :: 0 <= i < |matches| ==> matches[i]
    ensures LonelyLevels(matches, height)
            == LonelyLevels(matches, height - 1) + Width(|matches|, height - 1) % 2
  {
    WidthPositive(|matches|, height - 1);
    AllMatched(txids, matches, hash, height - 1, Width(|matches|, height - 1) - 1);
  }

  lemma Widths()
    ensures Width(1012, 0) == 1012 && Width(1012, 1) == 506 && Width(1012, 2) == 253 && Width(1012, 3) == 127
    ensures Width(1012, 4) == 64 && Width(1012, 5) == 32 && Width(1012, 6) == 16 && Width(1012, 7) == 8
    ensures Width(1012, 8) == 4 && Width(1012, 9) == 2 && Width(1012, 10) == 1 && Height(1012) == 10
  {
    assert Width(1012, 3) == 127;
    assert Width(1012, 6) == 16;
    assert Width(1012, 9) == 2;
    TopIsUnique(1012, 10);
  }

  /** With 1012 transactions, all of them matched, it takes one byte more than documented. */
  lemma SizeBoundFails(txids: seq<Digest>, matches: seq<bool>, hash: Hash)
    requires |txids| == |matches| == 1012 && forall i :: 0 <= i < |matches| ==> matches[i]
    ensures var bits, hashes := |Bits(matches, Height(1012), 0)|, |Hashes(txids, matches, hash, Height(1012), 0)|;
            EncodedSize(bits, hashes) == 32648 > 32647 == DocumentedSize(hashes)
  {
    hide Bits, Hashes, LonelyLevels, ParentOfMatch;
    Widths();
    RootSpan(1012);
    AllMatched(txids, matches, hash, 10, 0);
    assert LonelyLevels(matches, 10) == 2 by {
      NoneLonely(matches);
      for g := 1 to 11
        invariant LonelyLevels(matches, g - 1) == if g <= 3 then 0 else if g == 4 then 1 else 2
      {
        LonelyLevelsOfAll(txids, matches, hash, g);
      }
    }
    SizeBound(txids, matches, hash);
  }

  lemma NoneLonely(matches: seq<bool>)
    requires matches != []
    ensures LonelyLevels(matches, 0) == 0
  {
  }
}
