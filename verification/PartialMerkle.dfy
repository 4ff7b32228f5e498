/**
 Partial Merkle trees, the proof format of BIP 37: a printer that walks the tree of a block
 writing flag bits and hashes, and a parser that consumes them along the same walk.
 */
module PartialMerkle {
  import opened Common
  import opened Arith
  import opened Merkle

  const MAX_BLOCK_SIZE: nat := 1_000_000

  // ---------- leaves below a node ----------

  function Start(height: nat, pos: nat): nat {
    pos * Pow2(height)
  }

  /** One past the last leaf below a node. */
  function End(n: nat, height: nat, pos: nat): (r: nat)
    ensures r <= n
  {
    if Start(height, pos + 1) < n then Start(height, pos + 1) else n
  }

  lemma {:induction false} NodeExists(n: nat, height: nat, pos: nat)
    ensures pos < Width(n, height) <==> Start(height, pos) < n
  {
    if height > 0 {
      NodeExists(n, height - 1, pos * 2);
      StartOfChild(height, pos);
    } else {
      assert Start(0, pos) == pos;
    }
  }

  lemma StartOfChild(height: nat, pos: nat)
    requires height > 0
    ensures Start(height, pos) == Start(height - 1, pos * 2)
  {
    var p := Pow2(height - 1);
    assert pos * (2 * p) == pos * 2 * p;
  }

  /** The leaves below a node are those below its children. */
  lemma Children(n: nat, height: nat, pos: nat)
    requires height > 0 && pos < Width(n, height)
    ensures pos * 2 < Width(n, height - 1)
    ensures Start(height, pos) == Start(height - 1, pos * 2) < End(n, height - 1, pos * 2)
    ensures if pos * 2 + 1 < Width(n, height - 1) then
              && End(n, height - 1, pos * 2) == Start(height - 1, pos * 2 + 1) < End(n, height - 1, pos * 2 + 1)
              && End(n, height - 1, pos * 2 + 1) == End(n, height, pos)
            else End(n, height - 1, pos * 2) == End(n, height, pos)
  {
    hide Pow2;
    StartOfChild(height, pos);
    StartOfChild(height, pos + 1);
    NodeExists(n, height, pos);
    NodeExists(n, height - 1, pos * 2 + 1);
    assert (pos + 1) * 2 == pos * 2 + 2;
    StartsGrow(height - 1, pos * 2);
    StartsGrow(height - 1, pos * 2 + 1);
  }

  lemma StartsGrow(height: nat, pos: nat)
    ensures Start(height, pos) < Start(height, pos + 1)
  {
    assert (pos + 1) * Pow2(height) == pos * Pow2(height) + Pow2(height);
  }

  // ---------- matched leaves ----------

  /** The matched ones among the transactions lo to hi, in order. */
  function Selected(txids: seq<Digest>, matches: seq<bool>, lo: nat, hi: nat): seq<Digest>
    requires hi <= |txids| == |matches|
    decreases hi
  {
    if lo >= hi then []
    else Selected(txids, matches, lo, hi - 1) + if matches[hi - 1] then [txids[hi - 1]] else []
  }

  lemma {:induction false} SelectedSplit(txids: seq<Digest>, matches: seq<bool>, lo: nat, mid: nat, hi: nat)
    requires lo <= mid <= hi <= |txids| == |matches|
    ensures Selected(txids, matches, lo, hi) == Selected(txids, matches, lo, mid) + Selected(txids, matches, mid, hi)
    decreases hi
  {
    if mid < hi {
      SelectedSplit(txids, matches, lo, mid, hi - 1);
    }
  }

  predicate AnyMatch(matches: seq<bool>, lo: nat, hi: nat)
    requires hi <= |matches|
  {
    exists p :: lo <= p < hi && matches[p]
  }

  lemma {:induction false} NoneSelected(txids: seq<Digest>, matches: seq<bool>, lo: nat, hi: nat)
    requires hi <= |txids| == |matches|
    ensures Selected(txids, matches, lo, hi) == [] <==> !AnyMatch(matches, lo, hi)
    decreases hi
  {
    if lo < hi {
      NoneSelected(txids, matches, lo, hi - 1);
      if matches[hi - 1] {
        assert AnyMatch(matches, lo, hi);
      }
    }
  }

  /** Is the node the parent of a matched transaction, or one itself? */
  predicate ParentOfMatch(matches: seq<bool>, height: nat, pos: nat)
    requires pos < Width(|matches|, height)
  {
    AnyMatch(matches, Start(height, pos), End(|matches|, height, pos))
  }

  lemma ParentOfMatchChildren(matches: seq<bool>, height: nat, pos: nat)
    requires height > 0 && pos < Width(|matches|, height)
    ensures pos * 2 < Width(|matches|, height - 1)
    ensures ParentOfMatch(matches, height, pos) <==>
              || ParentOfMatch(matches, height - 1, pos * 2)
              || (pos * 2 + 1 < Width(|matches|, height - 1) && ParentOfMatch(matches, height - 1, pos * 2 + 1))
  {
    hide Start, End;
    Children(|matches|, height, pos);
  }

  // ---------- what the printer writes ----------

  function Bits(matches: seq<bool>, height: nat, pos: nat): (r: seq<bool>)
    requires pos < Width(|matches|, height)
    ensures |r| > 0
  {
    var parent := ParentOfMatch(matches, height, pos);
    if height == 0 || !parent then
      [parent]
    else
      [true] + Bits(matches, height - 1, pos * 2)
        + if pos * 2 + 1 < Width(|matches|, height - 1) then Bits(matches, height - 1, pos * 2 + 1) else []
  }

  function Hashes(txids: seq<Digest>, matches: seq<bool>, hash: Hash, height: nat, pos: nat): (r: seq<Digest>)
    requires |txids| == |matches| && pos < Width(|matches|, height)
    ensures 0 < |r| <= |Bits(matches, height, pos)|
  {
    if height == 0 || !ParentOfMatch(matches, height, pos) then
      [CalcHash(height, pos, txids, hash)]
    else
      Hashes(txids, matches, hash, height - 1, pos * 2)
        + if pos * 2 + 1 < Width(|matches|, height - 1) then Hashes(txids, matches, hash, height - 1, pos * 2 + 1) else []
  }

  lemma WrittenFor(txids: seq<Digest>, matches: seq<bool>, hash: Hash, height: nat, pos: nat)
    requires |txids| == |matches| && pos < Width(|matches|, height)
    ensures height == 0 || !ParentOfMatch(matches, height, pos) ==>
              && Bits(matches, height, pos) == [ParentOfMatch(matches, height, pos)]
              && Hashes(txids, matches, hash, height, pos) == [CalcHash(height, pos, txids, hash)]
    ensures height > 0 && ParentOfMatch(matches, height, pos) ==>
              && pos * 2 < Width(|matches|, height - 1)
              && Bits(matches, height, pos) == [true] + Bits(matches, height - 1, pos * 2)
                   + (if pos * 2 + 1 < Width(|matches|, height - 1) then Bits(matches, height - 1, pos * 2 + 1) else [])
              && Hashes(txids, matches, hash, height, pos) == Hashes(txids, matches, hash, height - 1, pos * 2)
                   + (if pos * 2 + 1 < Width(|matches|, height - 1)
                      then Hashes(txids, matches, hash, height - 1, pos * 2 + 1) else [])
  {
  }

  // ---------- what the parser reads ----------

  /**
   The outcome of parsing a subtree: the cursors after it, the digest of its root, the
   digests taken for matched transactions and the leaf positions they were met at.
   */
  datatype Parsed = Parsed(bad: bool, bitsUsed: nat, hashesUsed: nat, digest: Digest, found: seq<Digest>, leaves: seq<nat>)

  function Parse(n: nat, bits: seq<bool>, hashes: seq<Digest>, hash: Hash, height: nat, pos: nat, b: nat, h: nat): Parsed {
    if b >= |bits| then
      Parsed(true, b, h, 0, [], [])
    else if height == 0 || !bits[b] then
      if h >= |hashes| then
        Parsed(true, b + 1, h, 0, [], [])
      else if height == 0 && bits[b] then
        Parsed(false, b + 1, h + 1, hashes[h], [hashes[h]], [pos])
      else
        Parsed(false, b + 1, h + 1, hashes[h], [], [])
    else
      var left := Parse(n, bits, hashes, hash, height - 1, pos * 2, b + 1, h);
      if pos * 2 + 1 < Width(n, height - 1) then
        var right := Parse(n, bits, hashes, hash, height - 1, pos * 2 + 1, left.bitsUsed, left.hashesUsed);
        Parsed(left.bad || right.bad, right.bitsUsed, right.hashesUsed, hash(left.digest, right.digest),
               left.found + right.found, left.leaves + right.leaves)
      else
        left.(digest := hash(left.digest, left.digest))
  }

  lemma ParseChildren(n: nat, bits: seq<bool>, hashes: seq<Digest>, hash: Hash, height: nat, pos: nat, b: nat, h: nat)
    requires height > 0 && b < |bits| && bits[b]
    ensures var left := Parse(n, bits, hashes, hash, height - 1, pos * 2, b + 1, h);
            Parse(n, bits, hashes, hash, height, pos, b, h) ==
              if pos * 2 + 1 < Width(n, height - 1) then
                var right := Parse(n, bits, hashes, hash, height - 1, pos * 2 + 1, left.bitsUsed, left.hashesUsed);
                Parsed(left.bad || right.bad, right.bitsUsed, right.hashesUsed, hash(left.digest, right.digest),
                       left.found + right.found, left.leaves + right.leaves)
              else
                left.(digest := hash(left.digest, left.digest))
  {
  }

  lemma ParseLeaf(n: nat, bits: seq<bool>, hashes: seq<Digest>, hash: Hash, height: nat, pos: nat, b: nat, h: nat)
    requires height == 0 || b >= |bits| || !bits[b]
    ensures Parse(n, bits, hashes, hash, height, pos, b, h) ==
              if b >= |bits| then Parsed(true, b, h, 0, [], [])
              else if h >= |hashes| then Parsed(true, b + 1, h, 0, [], [])
              else if height == 0 && bits[b] then Parsed(false, b + 1, h + 1, hashes[h], [hashes[h]], [pos])
              else Parsed(false, b + 1, h + 1, hashes[h], [], [])
  {
  }

  /** Are the bits and hashes at the cursors those the printer writes for a node? */
  ghost predicate Printed(txids: seq<Digest>, matches: seq<bool>, hash: Hash, height: nat, pos: nat,
                          bits: seq<bool>, hashes: seq<Digest>, b: nat, h: nat)
    requires |txids| == |matches| && pos < Width(|matches|, height)
  {
    && b <= |bits| && Bits(matches, height, pos) <= bits[b..]
    && h <= |hashes| && Hashes(txids, matches, hash, height, pos) <= hashes[h..]
  }

  /** Parsing at the cursors gives the digest of the node and its matched transactions, and uses up what was printed. */
  ghost predicate ParsesBack(txids: seq<Digest>, matches: seq<bool>, hash: Hash, height: nat, pos: nat,
                             bits: seq<bool>, hashes: seq<Digest>, b: nat, h: nat)
    requires |txids| == |matches| && pos < Width(|matches|, height)
  {
    var p := Parse(|txids|, bits, hashes, hash, height, pos, b, h);
    && !p.bad
    && p.bitsUsed == b + |Bits(matches, height, pos)|
    && p.hashesUsed == h + |Hashes(txids, matches, hash, height, pos)|
    && p.digest == CalcHash(height, pos, txids, hash)
    && p.found == Selected(txids, matches, Start(height, pos), End(|txids|, height, pos))
  }

  lemma ParseStored(txids: seq<Digest>, matches: seq<bool>, hash: Hash, height: nat, pos: nat,
                    bits: seq<bool>, hashes: seq<Digest>, b: nat, h: nat)
    requires |txids| == |matches| && pos < Width(|matches|, height)
    requires Printed(txids, matches, hash, height, pos, bits, hashes, b, h)
    requires height == 0 || !ParentOfMatch(matches, height, pos)
    ensures ParsesBack(txids, matches, hash, height, pos, bits, hashes, b, h)
  {
    hide Start, End, Selected, AnyMatch;
    if height == 0 {
      LeafSelected(txids, matches, pos);
    } else {
      NoneSelected(txids, matches, Start(height, pos), End(|txids|, height, pos));
    }
    assert Bits(matches, height, pos) == [ParentOfMatch(matches, height, pos)];
    assert bits[b..][0] == bits[b] && hashes[h..][0] == hashes[h];
  }

  lemma ParseDescended(txids: seq<Digest>, matches: seq<bool>, hash: Hash, height: nat, pos: nat,
                       bits: seq<bool>, hashes: seq<Digest>, b: nat, h: nat)
    requires |txids| == |matches| && pos < Width(|matches|, height)
    requires height > 0 && ParentOfMatch(matches, height, pos) && b < |bits| && bits[b]
    requires ParsesBack(txids, matches, hash, height - 1, pos * 2, bits, hashes, b + 1, h)
    requires pos * 2 + 1 < Width(|txids|, height - 1) ==>
               ParsesBack(txids, matches, hash, height - 1, pos * 2 + 1, bits, hashes,
                          b + 1 + |Bits(matches, height - 1, pos * 2)|,
                          h + |Hashes(txids, matches, hash, height - 1, pos * 2)|)
    ensures ParsesBack(txids, matches, hash, height, pos, bits, hashes, b, h)
  {
    hide Start, End, Selected, ParentOfMatch, Parse, Bits, Hashes, Width;
    Children(|txids|, height, pos);
    ParseChildren(|txids|, bits, hashes, hash, height, pos, b, h);
    WrittenFor(txids, matches, hash, height, pos);
    if pos * 2 + 1 < Width(|txids|, height - 1) {
      SelectedSplit(txids, matches, Start(height, pos), End(|txids|, height - 1, pos * 2), End(|txids|, height, pos));
    }
  }

  /** Parsing what was printed for a node gives back its digest and its matched transactions. */
  lemma {:induction false} ParsePrinted(txids: seq<Digest>, matches: seq<bool>, hash: Hash, height: nat, pos: nat,
                                        bits: seq<bool>, hashes: seq<Digest>, b: nat, h: nat)
    requires |txids| == |matches| && pos < Width(|matches|, height)
    requires Printed(txids, matches, hash, height, pos, bits, hashes, b, h)
    ensures ParsesBack(txids, matches, hash, height, pos, bits, hashes, b, h)
  {
    hide ParsesBack, Printed, ParentOfMatch, Hashes, Bits;
    if height == 0 || !ParentOfMatch(matches, height, pos) {
      ParseStored(txids, matches, hash, height, pos, bits, hashes, b, h);
    } else {
      var bs, hs := Bits(matches, height - 1, pos * 2), Hashes(txids, matches, hash, height - 1, pos * 2);
      PrintedLeft(txids, matches, hash, height, pos, bits, hashes, b, h);
      ParsePrinted(txids, matches, hash, height - 1, pos * 2, bits, hashes, b + 1, h);
      if pos * 2 + 1 < Width(|txids|, height - 1) {
        PrintedRight(txids, matches, hash, height, pos, bits, hashes, b, h);
        ParsePrinted(txids, matches, hash, height - 1, pos * 2 + 1, bits, hashes, b + 1 + |bs|, h + |hs|);
      }
      ParseDescended(txids, matches, hash, height, pos, bits, hashes, b, h);
    }
  }

  lemma LeafSelected(txids: seq<Digest>, matches: seq<bool>, pos: nat)
    requires |txids| == |matches| && pos < |txids|
    ensures ParentOfMatch(matches, 0, pos) == matches[pos]
    ensures Selected(txids, matches, Start(0, pos), End(|txids|, 0, pos)) == if matches[pos] then [txids[pos]] else []
  {
    assert Start(0, pos) == pos && Start(0, pos + 1) == pos + 1 && End(|txids|, 0, pos) == pos + 1;
    assert Selected(txids, matches, pos, pos) == [];
  }

  lemma PrintedLeft(txids: seq<Digest>, matches: seq<bool>, hash: Hash, height: nat, pos: nat,
                    bits: seq<bool>, hashes: seq<Digest>, b: nat, h: nat)
    requires |txids| == |matches| && pos < Width(|matches|, height)
    requires height > 0 && ParentOfMatch(matches, height, pos)
    requires Printed(txids, matches, hash, height, pos, bits, hashes, b, h)
    ensures b < |bits| && bits[b] && Printed(txids, matches, hash, height - 1, pos * 2, bits, hashes, b + 1, h)
  {
    hide ParentOfMatch, Bits, Hashes, Width;
    WrittenFor(txids, matches, hash, height, pos);
    var bs, hs := Bits(matches, height, pos), Hashes(txids, matches, hash, height, pos);
    var bl, hl := Bits(matches, height - 1, pos * 2), Hashes(txids, matches, hash, height - 1, pos * 2);
    assert bits[b..][0] == bs[0] && bits[b..][1..] == bits[b + 1..];
    PrefixOfPart(bl, bs, 1, bits, b);
    assert hl <= hs;
  }

  lemma PrintedRight(txids: seq<Digest>, matches: seq<bool>, hash: Hash, height: nat, pos: nat,
                     bits: seq<bool>, hashes: seq<Digest>, b: nat, h: nat)
    requires |txids| == |matches| && pos < Width(|matches|, height)
    requires height > 0 && ParentOfMatch(matches, height, pos) && pos * 2 + 1 < Width(|matches|, height - 1)
    requires Printed(txids, matches, hash, height, pos, bits, hashes, b, h)
    ensures Printed(txids, matches, hash, height - 1, pos * 2 + 1, bits, hashes,
                    b + 1 + |Bits(matches, height - 1, pos * 2)|,
                    h + |Hashes(txids, matches, hash, height - 1, pos * 2)|)
  {
    hide ParentOfMatch, Bits, Hashes, Width;
    WrittenFor(txids, matches, hash, height, pos);
    var bs, hs := Bits(matches, height, pos), Hashes(txids, matches, hash, height, pos);
    var bl, hl := Bits(matches, height - 1, pos * 2), Hashes(txids, matches, hash, height - 1, pos * 2);
    PrefixOfPart(Bits(matches, height - 1, pos * 2 + 1), bs, 1 + |bl|, bits, b);
    PrefixOfPart(Hashes(txids, matches, hash, height - 1, pos * 2 + 1), hs, |hl|, hashes, h);
  }

  /** What starts at position k of a part is found k places further on in the whole. */
  lemma PrefixOfPart<T>(piece: seq<T>, part: seq<T>, k: nat, whole: seq<T>, at: nat)
    requires k + |piece| <= |part| && piece == part[k..k + |piece|]
    requires at <= |whole| && part <= whole[at..]
    ensures at + k <= |whole| && piece <= whole[at + k..]
  {
    assert whole[at..][k..] == whole[at + k..];
    assert forall i :: 0 <= i < |piece| ==> piece[i] == part[k + i] == whole[at..][k + i] == whole[at + k..][i];
  }

  // ---------- what an accepted tree proves ----------

  /** Every digest found is the transaction at the leaf it was met at, and leaves are met from left to right. */
  ghost predicate Genuine(txids: seq<Digest>, found: seq<Digest>, leaves: seq<nat>, lo: nat, hi: nat)
    requires hi <= |txids|
  {
    && |found| == |leaves|
    && (forall k :: 0 <= k < |leaves| ==> lo <= leaves[k] < hi && found[k] == txids[leaves[k]])
    && forall j, k :: 0 <= j < k < |leaves| ==> leaves[j] < leaves[k]
  }

  lemma GenuineJoin(txids: seq<Digest>, l: Parsed, r: Parsed, lo: nat, mid: nat, hi: nat)
    requires lo <= mid <= hi <= |txids|
    requires Genuine(txids, l.found, l.leaves, lo, mid) && Genuine(txids, r.found, r.leaves, mid, hi)
    ensures Genuine(txids, l.found + r.found, l.leaves + r.leaves, lo, hi)
  {
  }

  /** An inner node with the right digest has children with the right digests. */
  lemma ChildrenAreRight(txids: seq<Digest>, bits: seq<bool>, hashes: seq<Digest>, hash: Hash,
                         height: nat, pos: nat, b: nat, h: nat)
    requires Injective(hash) && pos < Width(|txids|, height) && height > 0 && b < |bits| && bits[b]
    requires var p := Parse(|txids|, bits, hashes, hash, height, pos, b, h);
             !p.bad && p.digest == CalcHash(height, pos, txids, hash)
    ensures pos * 2 < Width(|txids|, height - 1)
    ensures var left := Parse(|txids|, bits, hashes, hash, height - 1, pos * 2, b + 1, h);
            && !left.bad && left.digest == CalcHash(height - 1, pos * 2, txids, hash)
            && (pos * 2 + 1 < Width(|txids|, height - 1) ==>
                  var right := Parse(|txids|, bits, hashes, hash, height - 1, pos * 2 + 1, left.bitsUsed, left.hashesUsed);
                  !right.bad && right.digest == CalcHash(height - 1, pos * 2 + 1, txids, hash))
  {
    ParseChildren(|txids|, bits, hashes, hash, height, pos, b, h);
    hide Parse;
  }

  /** Whatever bits and hashes are parsed, a node with the right digest contains only genuine transactions. */
  lemma {:induction false} ParseIsSound(txids: seq<Digest>, bits: seq<bool>, hashes: seq<Digest>, hash: Hash,
                                        height: nat, pos: nat, b: nat, h: nat)
    requires Injective(hash) && pos < Width(|txids|, height)
    requires var p := Parse(|txids|, bits, hashes, hash, height, pos, b, h);
             !p.bad && p.digest == CalcHash(height, pos, txids, hash)
    ensures var p := Parse(|txids|, bits, hashes, hash, height, pos, b, h);
            Genuine(txids, p.found, p.leaves, Start(height, pos), End(|txids|, height, pos))
  {
    hide Start, End, Genuine, Injective, CalcHash, Parse, Width;
    var n := |txids|;
    if height == 0 || b >= |bits| || !bits[b] {
      ParseLeaf(n, bits, hashes, hash, height, pos, b, h);
      StoredIsGenuine(txids, bits, hashes, hash, height, pos, b, h);
    } else {
      Children(n, height, pos);
      ParseChildren(n, bits, hashes, hash, height, pos, b, h);
      ChildrenAreRight(txids, bits, hashes, hash, height, pos, b, h);
      ParseIsSound(txids, bits, hashes, hash, height - 1, pos * 2, b + 1, h);
      if pos * 2 + 1 < Width(n, height - 1) {
        var left := Parse(n, bits, hashes, hash, height - 1, pos * 2, b + 1, h);
        var right := Parse(n, bits, hashes, hash, height - 1, pos * 2 + 1, left.bitsUsed, left.hashesUsed);
        ParseIsSound(txids, bits, hashes, hash, height - 1, pos * 2 + 1, left.bitsUsed, left.hashesUsed);
        GenuineJoin(txids, left, right, Start(height, pos), End(n, height - 1, pos * 2), End(n, height, pos));
      }
    }
  }

  lemma StoredIsGenuine(txids: seq<Digest>, bits: seq<bool>, hashes: seq<Digest>, hash: Hash,
                        height: nat, pos: nat, b: nat, h: nat)
    requires pos < Width(|txids|, height) && b < |bits| && (height == 0 || !bits[b])
    requires var p := Parse(|txids|, bits, hashes, hash, height, pos, b, h);
             !p.bad && p.digest == CalcHash(height, pos, txids, hash)
    ensures var p := Parse(|txids|, bits, hashes, hash, height, pos, b, h);
            Genuine(txids, p.found, p.leaves, Start(height, pos), End(|txids|, height, pos))
  {
    if height == 0 {
      assert Start(0, pos) == pos && Start(0, pos + 1) == pos + 1;
    }
  }

  // ---------- sizes ----------

  /** At most one hash per transaction, and at most one more than the matches times the height. */
  lemma {:induction false} SizeBounds(txids: seq<Digest>, matches: seq<bool>, hash: Hash, height: nat, pos: nat)
    requires |txids| == |matches| && pos < Width(|matches|, height)
    ensures var matched := |Selected(txids, matches, Start(height, pos), End(|txids|, height, pos))|;
            && |Hashes(txids, matches, hash, height, pos)| <= End(|txids|, height, pos) - Start(height, pos)
            && |Hashes(txids, matches, hash, height, pos)| <= 1 + matched * height
            && |Bits(matches, height, pos)| <= 1 + 2 * matched * height
  {
    hide Start, End, Selected, ParentOfMatch, Bits, Hashes, Width;
    WrittenFor(txids, matches, hash, height, pos);
    var n := |txids|;
    var start, end := Start(height, pos), End(n, height, pos);
    NodeSpan(n, height, pos);
    var matched := |Selected(txids, matches, start, end)|;
    assert matched * height >= 0;
    if height > 0 && ParentOfMatch(matches, height, pos) {
      MatchedParent(txids, matches, height, pos);
      Children(n, height, pos);
      SizeBounds(txids, matches, hash, height - 1, pos * 2);
      var mid := End(n, height - 1, pos * 2);
      var l := |Selected(txids, matches, start, mid)|;
      if pos * 2 + 1 < Width(n, height - 1) {
        SizeBounds(txids, matches, hash, height - 1, pos * 2 + 1);
        SelectedSplit(txids, matches, start, mid, end);
        Distribute(l, |Selected(txids, matches, mid, end)|, height);
      } else {
        Distribute(l, 0, height);
      }
    }
  }

  lemma MatchedParent(txids: seq<Digest>, matches: seq<bool>, height: nat, pos: nat)
    requires |txids| == |matches| && pos < Width(|matches|, height) && ParentOfMatch(matches, height, pos)
    ensures |Selected(txids, matches, Start(height, pos), End(|txids|, height, pos))| >= 1
  {
    NoneSelected(txids, matches, Start(height, pos), End(|txids|, height, pos));
  }

  lemma Distribute(l: nat, r: nat, height: nat)
    requires height > 0
    ensures l * (height - 1) + r * (height - 1) == (l + r) * height - (l + r)
    ensures 2 * l * (height - 1) + 2 * r * (height - 1) == 2 * (l + r) * height - 2 * (l + r)
  {
  }

  lemma NodeSpan(n: nat, height: nat, pos: nat)
    requires pos < Width(n, height)
    ensures Start(height, pos) < End(n, height, pos)
  {
    NodeExists(n, height, pos);
    StartsGrow(height, pos);
  }

  /** How many of the nodes the printer descends from have a single child. */
  function SingleChildren(matches: seq<bool>, height: nat, pos: nat): nat
    requires pos < Width(|matches|, height)
  {
    if height == 0 || !ParentOfMatch(matches, height, pos) then
      0
    else
      SingleChildren(matches, height - 1, pos * 2)
        + if pos * 2 + 1 < Width(|matches|, height - 1) then SingleChildren(matches, height - 1, pos * 2 + 1) else 1
  }

  lemma {:induction false} BitCount(txids: seq<Digest>, matches: seq<bool>, hash: Hash, height: nat, pos: nat)
    requires |txids| == |matches| && pos < Width(|matches|, height)
    ensures |Bits(matches, height, pos)|
            == 2 * |Hashes(txids, matches, hash, height, pos)| - 1 + SingleChildren(matches, height, pos)
  {
    hide ParentOfMatch;
    if height > 0 && ParentOfMatch(matches, height, pos) {
      BitCount(txids, matches, hash, height - 1, pos * 2);
      if pos * 2 + 1 < Width(|matches|, height - 1) {
        BitCount(txids, matches, hash, height - 1, pos * 2 + 1);
      }
    }
  }

  /** A level of odd width, and a match below its last node, which therefore has no sibling. */
  predicate LonelyLevel(matches: seq<bool>, level: nat) {
    var width := Width(|matches|, level);
    width % 2 == 1 && ParentOfMatch(matches, level, width - 1)
  }

  /** The ancestors of a last node are the last nodes of the levels above. */
  lemma {:induction false} LastNodesAbove(matches: seq<bool>, level: nat, height: nat)
    requires matches != [] && level <= height
    ensures Width(|matches|, level) > 0 && Width(|matches|, height) > 0
    ensures ParentOfMatch(matches, level, Width(|matches|, level) - 1) ==>
              ParentOfMatch(matches, height, Width(|matches|, height) - 1)
    decreases height
  {
    hide ParentOfMatch;
    WidthPositive(|matches|, level);
    WidthPositive(|matches|, height);
    if level < height {
      LastNodesAbove(matches, level, height - 1);
      ParentOfMatchChildren(matches, height, Width(|matches|, height) - 1);
    }
  }

  lemma {:induction false} SingleChildrenWhen(matches: seq<bool>, height: nat, pos: nat)
    requires pos < Width(|matches|, height)
    ensures SingleChildren(matches, height, pos) > 0
            <==> pos == Width(|matches|, height) - 1 && exists g :: 0 <= g < height && LonelyLevel(matches, g)
  {
    hide ParentOfMatch;
    var n := |matches|;
    if height > 0 {
      if ParentOfMatch(matches, height, pos) {
        ParentOfMatchChildren(matches, height, pos);
        SingleChildrenWhen(matches, height - 1, pos * 2);
        if pos * 2 + 1 < Width(n, height - 1) {
          SingleChildrenWhen(matches, height - 1, pos * 2 + 1);
          if pos == Width(n, height) - 1 {
            assert !LonelyLevel(matches, height - 1);
          }
        } else {
          assert LonelyLevel(matches, height - 1);
        }
      } else if pos == Width(n, height) - 1 {
        NodeExists(n, height, pos);
        forall g | 0 <= g < height ensures !LonelyLevel(matches, g) {
          LastNodesAbove(matches, g, height);
        }
      }
    }
  }

  /**
   The documented bound of 2N - 1 flag bits for N hashes holds exactly when no level of odd
   width has a match below its last node.
   */
  lemma BitBound(txids: seq<Digest>, matches: seq<bool>, hash: Hash)
    requires |txids| == |matches| > 0
    ensures var height := Height(|txids|);
            |Bits(matches, height, 0)| <= 2 * |Hashes(txids, matches, hash, height, 0)| - 1
            <==> forall g :: 0 <= g < height ==> !LonelyLevel(matches, g)
  {
    BitCount(txids, matches, hash, Height(|txids|), 0);
    SingleChildrenWhen(matches, Height(|txids|), 0);
  }

  /** Three transactions with the last one matched need four bits for two hashes. */
  lemma BitBoundFails(txids: seq<Digest>, hash: Hash)
    requires |txids| == 3
    ensures var matches := [false, false, true];
            |Bits(matches, Height(3), 0)| > 2 * |Hashes(txids, matches, hash, Height(3), 0)| - 1
  {
    var matches := [false, false, true];
    assert Width(3, 1) == 2 && Width(3, 2) == 1;
    TopIsUnique(3, 2);
    assert Start(0, 2) == 2 && Start(0, 3) == 3 && matches[2];
    assert LonelyLevel(matches, 0);
    BitBound(txids, matches, hash);
  }

  // ---------- extraction as a whole ----------

  /** The checks around the parser, which yield the parse of the whole tree when they all pass. */
  function Extract(n: nat, bits: seq<bool>, hashes: seq<Digest>, hash: Hash): Option<Parsed> {
    if n == 0 || n > MAX_BLOCK_SIZE / 60 || |hashes| > n || |bits| < |hashes| then
      None
    else
      var p := Parse(n, bits, hashes, hash, Height(n), 0, 0, 0);
      if p.bad || (p.bitsUsed + 7) / 8 != (|bits| + 7) / 8 || p.hashesUsed != |hashes| then None else Some(p)
  }

  /** The bits filled up with zeros to whole bytes, as they come out of serialization. */
  function Padded(bits: seq<bool>): seq<bool> {
    bits + seq((|bits| + 7) / 8 * 8 - |bits|, _ => false)
  }

  /**
   Extraction from the tree built for any transactions and any matches passes every check,
   and gives back the Merkle root and exactly the matched transactions in order. The same
   goes for the tree after serialization.
   */
  lemma ExtractBuilt(txids: seq<Digest>, matches: seq<bool>, hash: Hash, bits: seq<bool>)
    requires 0 < |txids| == |matches| <= MAX_BLOCK_SIZE / 60
    requires var built := Bits(matches, Height(|txids|), 0); bits == built || bits == Padded(built)
    ensures var e := Extract(|txids|, bits, Hashes(txids, matches, hash, Height(|txids|), 0), hash);
            && e.Some?
            && e.value.digest == Root(txids, hash)
            && e.value.found == Selected(txids, matches, 0, |txids|)
  {
    hide Bits, Hashes, Selected, Start, End, HeightFrom, Padded, Parse, CalcHash, Width;
    var n, height := |txids|, Height(|txids|);
    var built, hashes := Bits(matches, height, 0), Hashes(txids, matches, hash, height, 0);
    PaddedFits(built);
    assert hashes[0..] == hashes && bits[0..] == bits;
    ParsePrinted(txids, matches, hash, height, 0, bits, hashes, 0, 0);
    SizeBounds(txids, matches, hash, height, 0);
    RootSpan(n);
  }

  lemma RootExists(n: nat)
    requires n > 0
    ensures Width(n, Height(n)) == 1
  {
  }

  lemma PaddedFits(bits: seq<bool>)
    ensures bits <= Padded(bits) && (|Padded(bits)| + 7) / 8 == (|bits| + 7) / 8
  {
  }

  lemma RootSpan(n: nat)
    requires n > 0
    ensures Start(Height(n), 0) == 0 && End(n, Height(n), 0) == n
  {
    NodeExists(n, Height(n), 1);
  }

  /**
   If extraction yields the Merkle root of some transactions, as many as the tree claims,
   then every digest extracted is one of them, at the leaf where it was met.
   */
  lemma ExtractIsSound(txids: seq<Digest>, bits: seq<bool>, hashes: seq<Digest>, hash: Hash)
    requires Injective(hash) && Extract(|txids|, bits, hashes, hash).Some?
    requires Extract(|txids|, bits, hashes, hash).value.digest == Root(txids, hash)
    ensures var e := Extract(|txids|, bits, hashes, hash).value; Genuine(txids, e.found, e.leaves, 0, |txids|)
  {
    ParseIsSound(txids, bits, hashes, hash, Height(|txids|), 0, 0, 0);
    RootSpan(|txids|);
  }

  // ---------- the tree as an object ----------

  class PartialMerkleTree {
    var transactions: nat
    var bits: seq<bool>
    var hashes: seq<Digest>
    var bad: bool

    /** Builds the tree of a non-empty list of transactions and a mask of the matched ones. */
    constructor (txids: seq<Digest>, matches: seq<bool>, hash: Hash)
      requires 0 < |txids| == |matches|
      ensures transactions == |txids| && !bad
      ensures bits == Bits(matches, Height(|txids|), 0) && hashes == Hashes(txids, matches, hash, Height(|txids|), 0)
    {
      transactions, bad, bits, hashes := |txids|, false, [], [];
      new;
      BuildTree(txids, matches, hash);
    }

    method BuildTree(txids: seq<Digest>, matches: seq<bool>, hash: Hash)
      requires 0 < |txids| == |matches| == transactions && bits == [] && hashes == []
      modifies this`bits, this`hashes
      ensures bits == Bits(matches, Height(|txids|), 0)
      ensures hashes == Hashes(txids, matches, hash, Height(|txids|), 0)
    {
      hide *;
      RootExists(transactions);
      var height := RootHeight();
      TraverseAndBuild(height, 0, txids, matches, hash);
    }

    method RootHeight() returns (height: nat)
      requires transactions > 0
      ensures height == Height(transactions)
    {
      height := 0;
      WidthIsShift(transactions, height);
      while CalcTreeWidth(transactions, height) > 1
        invariant height <= Height(transactions)
        invariant CalcTreeWidth(transactions, height) == Width(transactions, height)
        decreases Height(transactions) - height
      {
        TopIsFirst(transactions, height);
        height := height + 1;
        WidthIsShift(transactions, height);
      }
      WidthPositive(transactions, height);
      TopIsUnique(transactions, height);
    }

    /** Whether the node has a matched transaction below it. */
    method MatchBelow(height: nat, pos: nat, matches: seq<bool>) returns (parent: bool)
      requires |matches| == transactions && pos < Width(|matches|, height)
      ensures parent == ParentOfMatch(matches, height, pos)
    {
      hide AnyMatch, Width;
      parent := false;
      var p := pos * Pow2(height);
      NodeExists(transactions, height, pos);
      StartsGrow(height, pos);
      NoMatchYet(matches, p);
      while p < (pos + 1) * Pow2(height) && p < transactions
        invariant Start(height, pos) <= p <= Start(height, pos + 1) && p <= transactions
        invariant parent == AnyMatch(matches, Start(height, pos), p)
        decreases transactions - p
      {
        AnyMatchStep(matches, Start(height, pos), p);
        parent := parent || matches[p];
        p := p + 1;
      }
    }

    method TraverseAndBuild(height: nat, pos: nat, txids: seq<Digest>, matches: seq<bool>, hash: Hash)
      requires |txids| == |matches| == transactions && pos < Width(|matches|, height)
      modifies this`bits, this`hashes
      ensures bits == old(bits) + Bits(matches, height, pos)
      ensures hashes == old(hashes) + Hashes(txids, matches, hash, height, pos)
      decreases height
    {
      hide ParentOfMatch, CalcHash, Width, Bits, Hashes, Pow2;
      var parent := MatchBelow(height, pos, matches);
      WrittenFor(txids, matches, hash, height, pos);
      bits := bits + [parent];
      if height == 0 || !parent {
        hashes := hashes + [CalcHash(height, pos, txids, hash)];
      } else {
        TraverseAndBuild(height - 1, pos * 2, txids, matches, hash);
        WidthIsShift(transactions, height - 1);
        if pos * 2 + 1 < CalcTreeWidth(transactions, height - 1) {
          TraverseAndBuild(height - 1, pos * 2 + 1, txids, matches, hash);
        }
      }
    }

    /** Parses one subtree, moving the cursors and collecting what is found. */
    method TraverseAndExtract(height: nat, pos: nat, hash: Hash, b: nat, h: nat, found: seq<Digest>)
      returns (b': nat, h': nat, found': seq<Digest>, digest: Digest)
      modifies this`bad
      ensures var p := Parse(transactions, bits, hashes, hash, height, pos, b, h);
              && bad == (old(bad) || p.bad)
              && b' == p.bitsUsed && h' == p.hashesUsed
              && found' == found + p.found && digest == p.digest
      decreases height
    {
      hide Width, Pow2, Parse;
      if height == 0 || b >= |bits| || !bits[b] {
        ParseLeaf(transactions, bits, hashes, hash, height, pos, b, h);
      } else {
        ParseChildren(transactions, bits, hashes, hash, height, pos, b, h);
      }
      b', h', found' := b, h, found;
      if b' >= |bits| {
        bad := true;
        return b', h', found', 0;
      }
      var parent := bits[b'];
      b' := b' + 1;
      if height == 0 || !parent {
        if h' >= |hashes| {
          bad := true;
          return b', h', found', 0;
        }
        digest := hashes[h'];
        h' := h' + 1;
        if height == 0 && parent {
          found' := found' + [digest];
        }
      } else {
        var left;
        b', h', found', left := TraverseAndExtract(height - 1, pos * 2, hash, b', h', found');
        var right := left;
        WidthIsShift(transactions, height - 1);
        if pos * 2 + 1 < CalcTreeWidth(transactions, height - 1) {
          b', h', found', right := TraverseAndExtract(height - 1, pos * 2 + 1, hash, b', h', found');
        }
        digest := hash(left, right);
      }
    }

    /** Extracts the matched transactions and the Merkle root, which is 0 when some check fails. */
    method ExtractMatches(hash: Hash) returns (root: Digest, found: seq<Digest>)
      modifies this`bad
      ensures !old(bad) ==> match Extract(transactions, bits, hashes, hash)
                            case None => root == 0
                            case Some(p) => root == p.digest && found == p.found && !bad
      ensures old(bad) ==> root == 0
    {
      found := [];
      if transactions == 0 {
        return 0, found;
      }
      if transactions > MAX_BLOCK_SIZE / 60 {
        return 0, found;
      }
      if |hashes| > transactions {
        return 0, found;
      }
      if |bits| < |hashes| {
        return 0, found;
      }
      var height := RootHeight();
      var b, h;
      b, h, found, root := TraverseAndExtract(height, 0, hash, 0, 0, found);
      if bad || (b + 7) / 8 != (|bits| + 7) / 8 || h != |hashes| {
        return 0, found;
      }
    }
  }

  lemma NoMatchYet(matches: seq<bool>, p: nat)
    requires p <= |matches|
    ensures !AnyMatch(matches, p, p)
  {
  }

  lemma AnyMatchStep(matches: seq<bool>, lo: nat, p: nat)
    requires lo <= p < |matches|
    ensures AnyMatch(matches, lo, p + 1) == (AnyMatch(matches, lo, p) || matches[p])
  {
    if matches[p] {
      assert lo <= p < p + 1 && matches[p];
    }
  }

  // ---------- flag bits as bytes ----------

  function Mask(k: nat): bv8
    requires k < 8
  {
    if k == 0 then 1 else if k == 1 then 2 else if k == 2 then 4 else if k == 3 then 8
    else if k == 4 then 16 else if k == 5 then 32 else if k == 6 then 64 else 128
  }

  predicate BitOf(byte: bv8, k: nat)
    requires k < 8
  {
    byte & Mask(k) != 0
  }

  lemma SetBit(byte: bv8, j: nat, k: nat)
    requires j < 8 && k < 8
    ensures BitOf(byte | Mask(j), k) <==> j == k || BitOf(byte, k)
    ensures !BitOf(0, k)
  {
  }

  /** Bit k of a byte is the one of weight 2^k. */
  lemma BitWeight(byte: bv8, k: nat)
    requires k < 8
    ensures BitOf(byte, k) <==> (byte >> k) & 1 == 1
  {
  }

  /** Eight bits to a byte, the least significant first. */
  method Pack(bits: seq<bool>) returns (bytes: seq<bv8>)
    ensures |bytes| == (|bits| + 7) / 8
    ensures forall p :: 0 <= p < |bytes| * 8 ==> BitOf(bytes[p / 8], p % 8) == Padded(bits)[p]
  {
    bytes := seq((|bits| + 7) / 8, _ => 0 as bv8);
    ghost var padded := Padded(bits);
    forall k: nat | k < 8 ensures !BitOf(0, k) {
      SetBit(0, k, k);
    }
    for p := 0 to |bits|
      invariant |bytes| == (|bits| + 7) / 8
      invariant forall q :: 0 <= q < |bytes| * 8 ==> BitOf(bytes[q / 8], q % 8) == (q < p && padded[q])
    {
      if bits[p] {
        ghost var before := bytes;
        bytes := bytes[p / 8 := bytes[p / 8] | Mask(p % 8)];
        forall q | 0 <= q < |bytes| * 8 ensures BitOf(bytes[q / 8], q % 8) == (q < p + 1 && padded[q]) {
          SetBit(before[p / 8], p % 8, q % 8);
        }
      }
    }
  }

  method Unpack(bytes: seq<bv8>) returns (bits: seq<bool>)
    ensures |bits| == |bytes| * 8
    ensures forall p :: 0 <= p < |bits| ==> bits[p] == BitOf(bytes[p / 8], p % 8)
  {
    bits := [];
    for p := 0 to |bytes| * 8
      invariant |bits| == p
      invariant forall q :: 0 <= q < p ==> bits[q] == BitOf(bytes[q / 8], q % 8)
    {
      bits := bits + [BitOf(bytes[p / 8], p % 8)];
    }
  }

  /** Serializing and reading the flag bits only pads them. */
  method PackThenUnpack(bits: seq<bool>) returns (bytes: seq<bv8>, bits': seq<bool>)
    ensures |bytes| == (|bits| + 7) / 8 && bits' == Padded(bits)
  {
    bytes := Pack(bits);
    bits' := Unpack(bytes);
  }
}
