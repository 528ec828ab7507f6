/** The transaction lookup index: where on the canonical chain a transaction sits. */
module TxIndexes {
  import opened ChainTypes

  datatype TxMeta = TxMeta(blockHash: Hash, blockIndex: nat, index: nat)

  type Index = map<TxHash, TxMeta>

  /** `m` gives the hash, number and position of a block among `bs` that holds `t`. */
  ghost predicate Located(t: TxHash, m: TxMeta, bs: seq<Header>) {
    && m.blockHash.Digest? && m.blockHash.header in bs && m.blockIndex == m.blockHash.header.number
    && m.index < |m.blockHash.header.txs| && m.blockHash.header.txs[m.index] == t.tx
  }

  /** Some block of `bs` holds `tx`. */
  ghost predicate Holds(bs: seq<Header>, tx: Tx) {
    exists b <- bs :: tx in b.txs
  }

  /** The index is defined for exactly the transactions of `bs` and locates each of them. */
  ghost predicate Exact(idx: Index, bs: seq<Header>) {
    && (forall t <- idx :: Located(t, idx[t], bs))
    && (forall tx :: Holds(bs, tx) ==> TxHash(tx) in idx)
  }

  /** Exactness depends on which blocks are listed, not on their order. */
  lemma ExactMembers(idx: Index, s: seq<Header>, t: seq<Header>)
    requires forall b :: b in s <==> b in t
    requires Exact(idx, s)
    ensures Exact(idx, t)
  {
    forall tx | Holds(t, tx) ensures Holds(s, tx) {
      var b :| b in t && tx in b.txs;
      assert b in s;
    }
  }

  /** No transaction occurs twice: neither in two blocks of `bs` nor twice in one. */
  ghost predicate Unique(bs: seq<Header>) {
    && (forall a, b, tx | a in bs && b in bs && tx in a.txs && tx in b.txs :: a == b)
    && (forall b, i, j | b in bs && 0 <= i < j < |b.txs| :: b.txs[i] != b.txs[j])
  }

  /** On a chain without repeated transactions an exact index is the only possible one. */
  lemma ExactIsUnique(a: Index, b: Index, bs: seq<Header>)
    requires Unique(bs) && Exact(a, bs) && Exact(b, bs)
    ensures a == b
  {
    forall t | t in a ensures t in b && a[t] == b[t] {
      assert Holds(bs, t.tx) by { assert a[t].blockHash.header in bs; }
      Same(t, a[t], b[t], bs);
    }
    forall t | t in b ensures t in a {
      assert Holds(bs, t.tx) by { assert b[t].blockHash.header in bs; }
    }
  }

  lemma Same(t: TxHash, m: TxMeta, m': TxMeta, bs: seq<Header>)
    requires Unique(bs) && Located(t, m, bs) && Located(t, m', bs)
    ensures m == m'
  {
    assert t.tx in m.blockHash.header.txs && t.tx in m'.blockHash.header.txs;
  }

  /** `after` is `before` with the transactions of `bs` filed at a position in `bs`. */
  ghost predicate Filed(before: Index, after: Index, bs: seq<Header>) {
    && before.Keys <= after.Keys
    && (forall t <- after :: Located(t, after[t], bs) || (t in before && after[t] == before[t] && !Holds(bs, t.tx)))
    && (forall tx :: Holds(bs, tx) ==> TxHash(tx) in after)
  }

  /** Filing the transactions of one block. */
  method WriteTransactions(idx: Index, block: Header) returns (after: Index)
    ensures Filed(idx, after, [block])
  {
    after := idx;
    for i := 0 to |block.txs|
      invariant idx.Keys <= after.Keys
      invariant forall k | 0 <= k < i :: TxHash(block.txs[k]) in after
      invariant forall t <- after :: Located(t, after[t], [block])
                                     || (t in idx && after[t] == idx[t] && t.tx !in block.txs[..i])
    {
      after := after[TxHash(block.txs[i]) := TxMeta(Digest(block), block.number, i)];
    }
    assert block.txs[..|block.txs|] == block.txs;
    forall tx | Holds([block], tx) ensures TxHash(tx) in after {
      assert tx in block.txs;
    }
    forall t <- after ensures Located(t, after[t], [block])
                              || (t in idx && after[t] == idx[t] && !Holds([block], t.tx)) {
    }
  }

  lemma FiledNone(idx: Index)
    ensures Filed(idx, idx, [])
  {
  }

  /** Filing a block keeps an exact index exact for the blocks listed before and this one. */
  lemma FiledExtends(idx: Index, after: Index, s: seq<Header>, t: seq<Header>, block: Header)
    requires Exact(idx, s) && Filed(idx, after, [block])
    requires forall b :: b in t <==> b in s || b == block
    ensures Exact(after, t)
  {
    forall tx | Holds(t, tx) ensures TxHash(tx) in after {
      var b :| b in t && tx in b.txs;
      assert if b == block then Holds([block], tx) else Holds(s, tx) by {
        assert block in [block];
      }
    }
  }

  lemma FiledTwice(i0: Index, i1: Index, i2: Index, bs: seq<Header>, b: Header)
    requires Filed(i0, i1, bs) && Filed(i1, i2, [b])
    ensures Filed(i0, i2, bs + [b])
  {
    forall tx | Holds(bs + [b], tx) ensures TxHash(tx) in i2 {
      assert Holds(bs, tx) || Holds([b], tx) by {
        if tx in b.txs { assert b in [b]; }
      }
    }
    forall t <- i2 ensures Located(t, i2[t], bs + [b])
                           || (t in i0 && i2[t] == i0[t] && !Holds(bs + [b], t.tx)) {
      if !Located(t, i2[t], [b]) {
        assert Located(t, i1[t], bs) || !Holds(bs, t.tx);
        assert b in [b];
      }
    }
  }

  /** All transactions of a list of blocks, in order. */
  function TxsOf(bs: seq<Header>): seq<Tx> {
    if bs == [] then [] else TxsOf(bs[..|bs| - 1]) + bs[|bs| - 1].txs
  }

  lemma {:induction false} TxsOfHolds(bs: seq<Header>, tx: Tx)
    ensures tx in TxsOf(bs) <==> Holds(bs, tx)
  {
    if bs != [] {
      var front, last := bs[..|bs| - 1], bs[|bs| - 1];
      TxsOfHolds(front, tx);
      assert bs == front + [last];
      if Holds(bs, tx) && tx !in last.txs {
        var b :| b in bs && tx in b.txs;
        assert b in front;
      }
    }
  }

  /** The transactions of `a` whose hashes are not in `b`. */
  method TxDifference(a: seq<Tx>, b: seq<Tx>) returns (keep: seq<Tx>)
    ensures forall tx :: tx in keep <==> tx in a && tx !in b
  {
    keep := [];
    for i := 0 to |a|
      invariant forall tx :: tx in keep <==> tx in a[..i] && tx !in b
    {
      if a[i] !in b {
        keep := keep + [a[i]];
      }
    }
  }

  method DeleteTransactions(idx: Index, txs: seq<Tx>) returns (after: Index)
    ensures after == map t | t in idx && t.tx !in txs :: idx[t]
  {
    after := idx;
    for i := 0 to |txs|
      invariant after == map t | t in idx && t.tx !in txs[..i] :: idx[t]
    {
      after := after - {TxHash(txs[i])};
    }
    assert txs[..|txs|] == txs;
  }

  /** The index once the new part is filed and what only the old part held is deleted. */
  ghost function Pruned(filed: Index, old': seq<Header>, new': seq<Header>): Index {
    map t | t in filed && !(Holds(old', t.tx) && !Holds(new', t.tx)) :: filed[t]
  }

  lemma PrunedLocated(stem: seq<Header>, old': seq<Header>, new': seq<Header>, idx: Index, filed: Index, t: TxHash)
    requires Exact(idx, stem + old') && Filed(idx, filed, new') && t in Pruned(filed, old', new')
    ensures Located(t, filed[t], stem + new')
  {
    if !Located(t, filed[t], new') {
      var b := idx[t].blockHash.header;
      assert t.tx in b.txs;
      assert b !in old' && b in stem;
    }
  }

  lemma PrunedComplete(stem: seq<Header>, old': seq<Header>, new': seq<Header>, idx: Index, filed: Index, tx: Tx)
    requires Unique(stem + old') && Exact(idx, stem + old') && Filed(idx, filed, new')
    requires forall b <- stem :: b !in old'
    requires Holds(stem + new', tx)
    ensures TxHash(tx) in Pruned(filed, old', new')
  {
    if !Holds(new', tx) {
      var b :| b in stem + new' && tx in b.txs;
      assert b in stem + old';
    }
  }

  /** Moving the index from the line `stem + old'` to the line `stem + new'` keeps it exact, even when
      a transaction occurs on both branches. */
  lemma Moved(stem: seq<Header>, old': seq<Header>, new': seq<Header>, idx: Index, filed: Index)
    requires Unique(stem + old') && Exact(idx, stem + old') && Filed(idx, filed, new')
    requires forall b <- stem :: b !in old'
    ensures Exact(Pruned(filed, old', new'), stem + new')
  {
    var after := Pruned(filed, old', new');
    forall t <- after ensures Located(t, after[t], stem + new') {
      PrunedLocated(stem, old', new', idx, filed, t);
    }
    forall tx | Holds(stem + new', tx) ensures TxHash(tx) in after {
      PrunedComplete(stem, old', new', idx, filed, tx);
    }
  }
}
