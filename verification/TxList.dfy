/** The per-account transaction list: replacement by price, affordability with a cost cap, and strict
lists that stay free of gaps. */
module TxLists {
  import opened ChainTypes
  import opened SortedTxs
  import opened TxSortedMaps
  import Admission

  function CostAbove(threshold: int): Tx -> bool {
    (tx: Tx) => Admission.Cost(tx) > threshold
  }

  function NonceAbove(nonce: nat): Tx -> bool {
    (tx: Tx) => tx.nonce > nonce
  }

  ghost predicate Member(items: Items, tx: Tx) {
    tx.nonce in items && items[tx.nonce] == tx
  }

  /** A transaction is turned away if one with its nonce pays at least as much. */
  predicate Accepts(items: Items, tx: Tx) {
    tx.nonce in items ==> items[tx.nonce].gasPrice < tx.gasPrice
  }

  /** No nonce is missing between two that are present. */
  ghost predicate Contiguous(items: Items) {
    forall a, b, c | a in items && c in items && a < b < c :: b in items
  }

  /** The transactions from a nonce on. */
  function FromNonce(items: Items, threshold: nat): Items {
    map n | n in items && threshold <= n :: items[n]
  }

  /** The transactions that are affordable together with everything before them. */
  function Payable(items: Items, threshold: int): Items {
    map n | n in items && (forall k <- items :: k <= n ==> Admission.Cost(items[k]) <= threshold) :: items[n]
  }

  /** What affordability leaves of a list. */
  function Affordable(items: Items, strict: bool, threshold: int): Items {
    if strict then Payable(items, threshold) else Kept(items, CostAbove(threshold))
  }

  /** What removing a nonce leaves of a list. */
  function Without(items: Items, strict: bool, nonce: nat): Items {
    if nonce !in items then items
    else if strict then map n | n in items && n < nonce :: items[n]
    else items - {nonce}
  }

  /** `removed` and `invalids` are the transactions that left, the former for their own cost. */
  ghost predicate Partitioned(before: Items, after: Items, threshold: int, removed: seq<Tx>, invalids: seq<Tx>) {
    && (forall tx :: tx in removed <==> Member(before, tx) && Admission.Cost(tx) > threshold)
    && (forall tx :: tx in invalids <==> Member(before, tx) && Admission.Cost(tx) <= threshold && !Member(after, tx))
    && (forall tx :: Member(after, tx) ==> Member(before, tx) && tx !in removed)
  }

  class TxList {
    const strict: bool
    const txs: TxSortedMap
    var costcap: int

    /** The cost cap bounds the cost of every transaction listed. */
    ghost predicate Valid()
      reads this, txs
    {
      txs.Valid() && forall n <- txs.items :: Admission.Cost(txs.items[n]) <= costcap
    }

    constructor (strict: bool)
      ensures Valid() && fresh(txs) && this.strict == strict && txs.items == map[]
    {
      this.strict := strict;
      txs := new TxSortedMap();
      costcap := 0;
    }

    method Add(tx: Tx) returns (inserted: bool, old': Option<Tx>)
      requires Valid()
      modifies this, txs
      ensures Valid() && inserted == Accepts(old(txs.items), tx)
      ensures txs.items == if inserted then old(txs.items)[tx.nonce := tx] else old(txs.items)
      ensures old' == if inserted && tx.nonce in old(txs.items) then Some(old(txs.items)[tx.nonce]) else None
    {
      old' := if tx.nonce in txs.items then Some(txs.items[tx.nonce]) else None;
      if old'.Some? && old'.value.gasPrice >= tx.gasPrice {
        return false, None;
      }
      txs.Put(tx);
      if costcap < Admission.Cost(tx) {
        costcap := Admission.Cost(tx);
      }
      inserted := true;
    }

    /** Removes what the balance does not cover.  Skipping the scan when the cap is low enough changes
        nothing. */
    method Filter(threshold: int) returns (removed: seq<Tx>, invalids: seq<Tx>)
      requires Valid()
      modifies this, txs
      ensures Valid() && txs.items == Affordable(old(txs.items), strict, threshold)
      ensures Partitioned(old(txs.items), txs.items, threshold, removed, invalids)
    {
      ghost var before := txs.items;
      if costcap <= threshold {
        AffordableAll(before, strict, threshold);
        return [], [];
      }
      costcap := threshold;
      removed := txs.Filter(CostAbove(threshold));
      invalids := [];
      if strict && |removed| > 0 {
        var lowest := removed[0].nonce;
        for i := 1 to |removed|
          invariant exists k | 0 <= k < i :: removed[k].nonce == lowest
          invariant forall k | 0 <= k < i :: lowest <= removed[k].nonce
        {
          if lowest > removed[i].nonce {
            lowest := removed[i].nonce;
          }
        }
        invalids := txs.Filter(NonceAbove(lowest));
        StrictlyAffordable(before, threshold, removed, lowest, invalids, txs.items);
      } else {
        LooselyAffordable(before, strict, threshold, removed);
      }
    }

    method Forward(threshold: nat) returns (removed: seq<Tx>)
      requires Valid()
      modifies txs
      ensures Valid() && txs.items == FromNonce(old(txs.items), threshold)
      ensures Sorted(old(txs.items)) == removed + Sorted(txs.items)
    {
      hide Sorted;
      removed := txs.Forward(threshold);
    }

    method Cap(threshold: nat) returns (drops: seq<Tx>)
      requires Valid()
      modifies txs
      ensures Valid() && txs.items == Lowest(old(txs.items), threshold)
      ensures Sorted(old(txs.items)) == Sorted(txs.items) + Reversed(drops)
    {
      hide Sorted, Lowest;
      LowestKeeps(txs.items, threshold);
      drops := txs.Cap(threshold);
    }

    method Remove(tx: Tx) returns (found: bool, invalids: seq<Tx>)
      requires Valid()
      modifies this, txs
      ensures Valid() && found == (tx.nonce in old(txs.items)) && txs.items == Without(old(txs.items), strict, tx.nonce)
      ensures forall t :: t in invalids <==> strict && found && Member(old(txs.items), t) && t.nonce > tx.nonce
    {
      hide Kept, Dropped;
      ghost var before := txs.items;
      found := txs.Remove(tx.nonce);
      if !found {
        return false, [];
      }
      if strict {
        invalids := txs.Filter(NonceAbove(tx.nonce));
        StrictlyRemoved(before, tx.nonce, invalids);
        return true, invalids;
      }
      return true, [];
    }
  }

  lemma AffordableAll(items: Items, strict: bool, threshold: int)
    requires forall n <- items :: Admission.Cost(items[n]) <= threshold
    ensures Affordable(items, strict, threshold) == items
    ensures Partitioned(items, items, threshold, [], [])
  {
  }

  lemma LooselyAffordable(items: Items, strict: bool, threshold: int, removed: seq<Tx>)
    requires Keyed(items) && Dropped(items, CostAbove(threshold), removed) && (strict ==> removed == [])
    ensures Affordable(items, strict, threshold) == Kept(items, CostAbove(threshold))
    ensures Partitioned(items, Affordable(items, strict, threshold), threshold, removed, [])
  {
    if strict {
      forall n <- items ensures Admission.Cost(items[n]) <= threshold {
        assert items[n] !in removed;
      }
    }
  }

  lemma StrictlyRemoved(items: Items, nonce: nat, invalids: seq<Tx>)
    requires Keyed(items) && nonce in items && Dropped(items - {nonce}, NonceAbove(nonce), invalids)
    ensures Kept(items - {nonce}, NonceAbove(nonce)) == Without(items, true, nonce)
    ensures forall t :: t in invalids <==> Member(items, t) && t.nonce > nonce
  {
    assert Keyed(items - {nonce});
  }

  /** Below the lowest unaffordable nonce everything is payable, above it nothing is. */
  lemma PayableBelow(items: Items, threshold: int, lowest: nat)
    requires Keyed(items) && lowest in items && Admission.Cost(items[lowest]) > threshold
    requires forall n <- items :: Admission.Cost(items[n]) > threshold ==> lowest <= n
    ensures Payable(items, threshold) == map n | n in items && n < lowest :: items[n]
    ensures Kept(Kept(items, CostAbove(threshold)), NonceAbove(lowest)) == Payable(items, threshold)
  {
    var below := map n | n in items && n < lowest :: items[n];
    assert Payable(items, threshold).Keys == below.Keys;
    assert Kept(Kept(items, CostAbove(threshold)), NonceAbove(lowest)).Keys == below.Keys;
  }

  /** Dropping everything above the lowest unaffordable nonce leaves exactly the payable ones. */
  lemma StrictlyAffordable(items: Items, threshold: int, removed: seq<Tx>, lowest: nat, invalids: seq<Tx>, after: Items)
    requires Keyed(items) && Dropped(items, CostAbove(threshold), removed)
    requires exists k | 0 <= k < |removed| :: removed[k].nonce == lowest
    requires forall k | 0 <= k < |removed| :: lowest <= removed[k].nonce
    requires after == Kept(Kept(items, CostAbove(threshold)), NonceAbove(lowest))
    requires Dropped(Kept(items, CostAbove(threshold)), NonceAbove(lowest), invalids)
    ensures after == Payable(items, threshold)
    ensures Partitioned(items, after, threshold, removed, invalids)
  {
    forall n <- items ensures Admission.Cost(items[n]) > threshold ==> lowest <= n {
      if Admission.Cost(items[n]) > threshold {
        assert items[n] in removed;
      }
    }
    var k :| 0 <= k < |removed| && removed[k].nonce == lowest;
    assert removed[k] in removed;
    PayableBelow(items, threshold, lowest);
    StrictPartition(items, threshold, removed, lowest, invalids);
  }

  lemma StrictPartition(items: Items, threshold: int, removed: seq<Tx>, lowest: nat, invalids: seq<Tx>)
    requires Keyed(items) && Dropped(items, CostAbove(threshold), removed) && lowest in items
    requires Admission.Cost(items[lowest]) > threshold
    requires forall n <- items :: Admission.Cost(items[n]) > threshold ==> lowest <= n
    requires Dropped(Kept(items, CostAbove(threshold)), NonceAbove(lowest), invalids)
    ensures Partitioned(items, map n | n in items && n < lowest :: items[n], threshold, removed, invalids)
  {
  }

  /** A gapless list stays gapless under every operation of a strict list. */
  lemma ContiguityKept(items: Items, from: nat, balance: int, limit: nat, nonce: nat)
    requires Contiguous(items)
    ensures Contiguous(FromNonce(items, from)) && Contiguous(Lowest(items, limit))
    ensures Contiguous(Affordable(items, true, balance)) && Contiguous(Without(items, true, nonce))
  {
    hide Lowest;
    LowestKeeps(items, limit);
    var low := Lowest(items, limit);
    forall a, b, c | a in low && c in low && a < b < c ensures b in low {
      assert b in items;
    }
  }
}
