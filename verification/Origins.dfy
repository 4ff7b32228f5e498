/** Where the unspent coins of a branch come from: each from one transaction in one block of it. */
module Origins {
  import opened Common
  import opened Coins
  import opened Blocks
  import opened BlockRules
  import opened BlockTree

  /** A transaction in a block of the branch, of which these are the coins. */
  ghost predicate IsOrigin(t: Tree, tip: Tip, id: TxId, c: Coins, b: BlockId, k: nat)
    requires WellFormed(t) && Known(t, tip)
  {
    && b in t && Ancestor(t, Some(b), tip) && t[b].prev.Some?
    && k < |t[b].block.txs| && t[b].block.txs[k].hash == id && StemsFrom(c, t[b].block.txs[k], t[b].height)
  }

  /**
   Every entry of the unspent set shows the height of a block of the branch, and the version and
   kind of a transaction in it, and its unspent outputs are outputs of that transaction.
   */
  lemma {:induction false} ReplayOrigin(t: Tree, tip: Tip, id: TxId) returns (b: BlockId, k: nat)
    requires WellFormed(t) && Known(t, tip) && Replay(t, tip).Some? && id in Replay(t, tip).value
    ensures IsOrigin(t, tip, id, Replay(t, tip).value[id], b, k)
    decreases Depth(t, tip)
  {
    hide Replay, StemsFrom, IsLeft;
    ReplayStems(t, tip, id);
    var node := t[tip.value];
    var before, now := Replay(t, node.prev).value, Replay(t, tip).value;
    if id in before && IsLeft(before[id], now[id]) {
      b, k := ReplayOrigin(t, node.prev, id);
      LeftStems(before[id], now[id], t[b].block.txs[k], t[b].height);
    } else {
      assert StemsFromOne(node.block.txs, node.height, id, now[id]);
      b := tip.value;
      k :| 0 <= k < |node.block.txs| && node.block.txs[k].hash == id && StemsFrom(now[id], node.block.txs[k], node.height);
    }
  }

  lemma ReplayStems(t: Tree, tip: Tip, id: TxId)
    requires WellFormed(t) && Known(t, tip) && Replay(t, tip).Some? && id in Replay(t, tip).value
    ensures tip.Some? && t[tip.value].prev.Some?
    ensures var node := t[tip.value];
            && Replay(t, node.prev).Some?
            && var before, now := Replay(t, node.prev).value, Replay(t, tip).value;
               (id in before && IsLeft(before[id], now[id])) || StemsFromOne(node.block.txs, node.height, id, now[id])
  {
    hide StemsFrom, IsLeft, StemsFromOne;
    var node := t[tip.value];
    if node.prev.Some? {
      ConnectStems(Replay(t, node.prev).value, node.block, node.height, id);
      hide Connect;
    }
  }

  lemma ConnectStems(s: CoinSet, b: Block, height: nat, id: TxId)
    requires Connect(s, b, height, true).Some? && id in Connect(s, b, height, true).value.coins
    ensures var c := Connect(s, b, height, true).value.coins[id];
            (id in s && IsLeft(s[id], c)) || StemsFromOne(b.txs, height, id, c)
  {
    ConnectedStem(s, b.txs, height);
  }

  /** The coins a transaction of a block finds. */
  ghost function Found(t: Tree, x: BlockId, i: nat): (r: CoinSet)
    requires WellFormed(t) && x in t && t[x].prev.Some? && Replay(t, Some(x)).Some? && i < |t[x].block.txs|
  {
    PrefixStems(Replay(t, t[x].prev).value, t[x].block, t[x].height, i, 0);
    ConnectTxs(Replay(t, t[x].prev).value, t[x].block.txs[..i], t[x].height).value.coins
  }

  /** Along a branch that replays, the output of a coinbase is spent only 3000 blocks above the block that mined it. */
  lemma CoinBaseMatures(t: Tree, x: BlockId, i: nat, out: OutPoint) returns (b: BlockId, k: nat)
    requires WellFormed(t) && x in t && t[x].prev.Some? && Replay(t, Some(x)).Some?
    requires 0 < i < |t[x].block.txs| && out in t[x].block.txs[i].inputs
    ensures out.hash in Found(t, x, i)
    ensures var c := Found(t, x, i)[out.hash];
            c.isCoinBase ==> IsOrigin(t, t[x].prev, out.hash, c, b, k) && t[b].height + 3000 <= t[x].height
  {
    hide StemsFrom, IsLeft, Replay, Found;
    FoundObeys(t, x, i, out);
    var s, c := Replay(t, t[x].prev).value, Found(t, x, i)[out.hash];
    b, k := 0, 0;
    if c.isCoinBase {
      FoundStems(t, x, i, out.hash);
      b, k := ReplayOrigin(t, t[x].prev, out.hash);
      LeftStems(s[out.hash], c, t[b].block.txs[k], t[b].height);
      StemsAt(c, t[b].block.txs[k], t[b].height);
    }
  }

  /** What a transaction spends is there, and mature. */
  lemma FoundObeys(t: Tree, x: BlockId, i: nat, out: OutPoint)
    requires WellFormed(t) && x in t && t[x].prev.Some? && Replay(t, Some(x)).Some?
    requires 0 < i < |t[x].block.txs| && out in t[x].block.txs[i].inputs
    ensures Replay(t, t[x].prev).Some? && out.hash in Found(t, x, i)
    ensures var c := Found(t, x, i)[out.hash]; c.isCoinBase ==> c.height + 3000 <= t[x].height
  {
    var tx := t[x].block.txs[i];
    ConnectedObeys(Replay(t, t[x].prev).value, t[x].block, t[x].height, i, tx.size / 1000 + 1);
    hide Replay, Connect, ConnectTxs;
    var j :| 0 <= j < |tx.inputs| && tx.inputs[j] == out;
    assert Available(Found(t, x, i), tx.inputs[j]);
  }

  /** What is lower than a block was there before it. */
  lemma FoundStems(t: Tree, x: BlockId, i: nat, id: TxId)
    requires WellFormed(t) && x in t && t[x].prev.Some? && Replay(t, Some(x)).Some?
    requires 0 < i < |t[x].block.txs| && id in Found(t, x, i) && Found(t, x, i)[id].height < t[x].height
    ensures Replay(t, t[x].prev).Some? && id in Replay(t, t[x].prev).value
    ensures IsLeft(Replay(t, t[x].prev).value[id], Found(t, x, i)[id])
  {
    var s, front := Replay(t, t[x].prev).value, t[x].block.txs[..i];
    var c := Found(t, x, i)[id];
    PrefixStems(s, t[x].block, t[x].height, i, id);
    hide StemsFrom, IsLeft, Connect, ConnectTxs, Replay, StemsFromOne;
    NotFromHere(front, t[x].height, id, c);
  }

  lemma PrefixStems(s: CoinSet, b: Block, height: nat, i: nat, id: TxId)
    requires Connect(s, b, height, true).Some? && i < |b.txs|
    ensures ChecksOut(b.txs[..i]) && ConnectTxs(s, b.txs[..i], height).Some?
    ensures var now := ConnectTxs(s, b.txs[..i], height).value.coins;
            id in now ==> (id in s && IsLeft(s[id], now[id])) || StemsFromOne(b.txs[..i], height, id, now[id])
  {
    hide ConnectTxs, ConnectTx, CheckTransaction, StemsFrom, IsLeft, StemsFromOne;
    PrefixConnects(s, b.txs, height, i);
    hide Connect;
    ConnectedStem(s, b.txs[..i], height);
  }

  lemma NotFromHere(txs: seq<Tx>, height: nat, id: TxId, c: Coins)
    requires c.height != height
    ensures !StemsFromOne(txs, height, id, c)
  {
  }

  lemma StemsAt(c: Coins, tx: Tx, height: nat)
    requires StemsFrom(c, tx, height)
    ensures c.height == height
  {
  }
}
