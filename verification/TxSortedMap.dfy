/** The nonce-sorted transaction map: a hash map, a heap of its nonces and a cached listing that are
kept in agreement. */
module TxSortedMaps {
  import opened ChainTypes
  import opened SortedTxs
  import NonceHeap

  ghost predicate Ascending<T(!new)>(s: seq<T>, key: T -> nat) {
    forall i, j | 0 <= i < j < |s| :: key(s[i]) <= key(s[j])
  }

  lemma AscendingNone<T(!new)>(key: T -> nat)
    ensures Ascending([], key)
  {
  }

  lemma AscendingInsert<T(!new)>(s: seq<T>, key: T -> nat, p: nat, x: T)
    requires Ascending(s, key) && p <= |s|
    requires forall i | 0 <= i < p :: key(s[i]) <= key(x)
    requires p < |s| ==> key(x) <= key(s[p])
    ensures Ascending(s[..p] + [x] + s[p..], key)
    ensures multiset(s[..p] + [x] + s[p..]) == multiset(s) + multiset{x}
  {
    assert s == s[..p] + s[p..];
  }

  method InsertBy<T(!new)>(s: seq<T>, key: T -> nat, x: T) returns (r: seq<T>)
    requires Ascending(s, key)
    ensures multiset(r) == multiset(s) + multiset{x} && Ascending(r, key)
  {
    hide Ascending;
    var p := 0;
    while p < |s| && key(s[p]) <= key(x)
      invariant 0 <= p <= |s| && forall i | 0 <= i < p :: key(s[i]) <= key(x)
    {
      p := p + 1;
    }
    AscendingInsert(s, key, p, x);
    r := s[..p] + [x] + s[p..];
  }

  /** The elements in increasing key order; stands for the library sort. */
  method SortBy<T(!new)>(s: seq<T>, key: T -> nat) returns (r: seq<T>)
    ensures multiset(r) == multiset(s) && Ascending(r, key)
  {
    hide Ascending;
    r := [];
    AscendingNone(key);
    for k := 0 to |s|
      invariant multiset(r) == multiset(s[..k]) && Ascending(r, key)
    {
      assert s[..k + 1] == s[..k] + [s[k]];
      r := InsertBy(r, key, s[k]);
    }
    assert s[..|s|] == s;
  }

  /** The elements of a set, in any order. */
  method ListSet(s: set<nat>) returns (r: seq<nat>)
    ensures multiset(r) == multiset(s)
  {
    r := [];
    var rest := s;
    while rest != {}
      invariant rest <= s && multiset(r) == multiset(s - rest)
      decreases rest
    {
      var n :| n in rest;
      assert s - (rest - {n}) == (s - rest) + {n};
      r, rest := r + [n], rest - {n};
    }
    assert s - {} == s;
  }

  /** The heap holds each nonce of the map once. */
  ghost predicate Indexes(index: seq<nat>, items: Items) {
    NonceHeap.IsHeap(index) && multiset(index) == multiset(items.Keys)
  }

  /** Under a heap index the root is the least nonce. */
  lemma RootIsLeast(index: seq<nat>, items: Items)
    requires Indexes(index, items)
    ensures NonceHeap.IsHeap(index) && |index| == |items|
    ensures index != [] ==> index[0] in items && forall n <- items :: index[0] <= n
  {
    if index != [] {
      NonceHeap.HeapRootLeastOfAll(index);
      assert index[0] in multiset(index);
      forall n <- items ensures index[0] <= n {
        assert n in multiset(items.Keys);
        assert n in index;
      }
    }
  }

  lemma IndexesPut(index: seq<nat>, items: Items, index': seq<nat>, tx: Tx)
    requires Indexes(index, items)
    requires if tx.nonce in items then index' == index
             else NonceHeap.IsHeap(index') && multiset(index') == multiset(index) + multiset{tx.nonce}
    ensures Indexes(index', items[tx.nonce := tx])
  {
    assert items[tx.nonce := tx].Keys == items.Keys + {tx.nonce};
  }

  lemma IndexesDelete(index: seq<nat>, items: Items, index': seq<nat>, n: nat)
    requires Indexes(index, items) && n in items
    requires NonceHeap.IsHeap(index') && multiset(index) == multiset(index') + multiset{n}
    ensures Indexes(index', items - {n})
  {
    assert (items - {n}).Keys == items.Keys - {n};
    assert multiset(items.Keys - {n}) == multiset(items.Keys) - multiset{n};
    assert multiset(index') == multiset(index) - multiset{n};
  }

  lemma IndexHolds(index: seq<nat>, items: Items, n: nat)
    requires Indexes(index, items)
    ensures NonceHeap.IsHeap(index) && (n in index <==> n in items)
  {
    assert n in multiset(items.Keys) <==> n in items;
    assert n in multiset(index) <==> n in index;
  }

  ghost function Reversed(s: seq<Tx>): (r: seq<Tx>)
    ensures |r| == |s|
  {
    if s == [] then [] else [s[|s| - 1]] + Reversed(s[..|s| - 1])
  }

  lemma ReversedNone()
    ensures Reversed([]) == []
  {
  }

  lemma ReversedStep(s: seq<Tx>, tx: Tx)
    ensures Reversed(s + [tx]) == [tx] + Reversed(s)
  {
    assert (s + [tx])[..|s|] == s;
  }

  function Id(n: nat): nat {
    n
  }

  /** Sorting the index leaves the nonces of the map, each once. */
  lemma SortedIndex(index: seq<nat>, items: Items, sorted: seq<nat>)
    requires Indexes(index, items) && multiset(sorted) == multiset(index)
    ensures |sorted| == |items| && multiset(sorted) == multiset(items.Keys)
  {
    assert |sorted| == |multiset(sorted)| == |multiset(items.Keys)|;
  }

  /** In a sorted index the last of the nonces left is the greatest, and only it leaves with it. */
  lemma LastIsGreatest(sorted: seq<nat>, items: Items, size: nat)
    requires 0 < size <= |sorted| && Ascending(sorted, Id) && multiset(sorted[..size]) == multiset(items.Keys)
    ensures sorted[size - 1] in items && forall n <- items :: n <= sorted[size - 1]
    ensures multiset(sorted[..size - 1]) == multiset((items - {sorted[size - 1]}).Keys)
  {
    var n, front := sorted[size - 1], sorted[..size - 1];
    assert sorted[..size] == front + [n];
    assert n in multiset(sorted[..size]);
    forall x <- items ensures x <= n {
      assert x in multiset(items.Keys);
      assert x in sorted[..size];
      var i :| 0 <= i < size && sorted[i] == x;
      assert Id(sorted[i]) <= Id(sorted[size - 1]);
    }
    assert (items - {n}).Keys == items.Keys - {n};
    assert multiset(items.Keys - {n}) == multiset(items.Keys) - multiset{n};
    assert multiset(front) == multiset(sorted[..size]) - multiset{n};
  }

  /** Removes the nonces beyond the first `threshold` of a sorted index, highest first. */
  method DropHighest(items: Items, sorted: seq<nat>, threshold: nat) returns (kept: Items, drops: seq<Tx>)
    requires Keyed(items) && threshold <= |items| == |sorted|
    requires Ascending(sorted, Id) && multiset(sorted) == multiset(items.Keys)
    ensures Keyed(kept) && kept == Lowest(items, threshold) && multiset(sorted[..threshold]) == multiset(kept.Keys)
    ensures Sorted(items) == Sorted(kept) + Reversed(drops)
  {
    hide Sorted, Reversed, Ascending, Lowest;
    kept, drops := items, [];
    ReversedNone();
    LowestAll(items, |items|);
    var size := |items|;
    assert sorted[..size] == sorted;
    while size > threshold
      invariant threshold <= size <= |items| && Keyed(kept)
      invariant kept == Lowest(items, size) && multiset(sorted[..size]) == multiset(kept.Keys)
      invariant Sorted(items) == Sorted(kept) + Reversed(drops)
    {
      LastIsGreatest(sorted, kept, size);
      var n := sorted[size - 1];
      SortedGreatest(kept, n);
      ReversedStep(drops, kept[n]);
      LowestStep(items, size, n);
      drops := drops + [kept[n]];
      kept := kept - {n};
      size := size - 1;
    }
  }

  function NonceOf(tx: Tx): nat {
    tx.nonce
  }

  /** The transactions of a map, in any order. */
  method Values(items: Items) returns (r: seq<Tx>)
    requires Keyed(items)
    ensures forall tx :: tx in r <==> tx.nonce in items && items[tx.nonce] == tx
    ensures forall i, j | 0 <= i < j < |r| :: r[i].nonce != r[j].nonce
  {
    r := [];
    var keys := items.Keys;
    while keys != {}
      invariant keys <= items.Keys
      invariant forall n <- items.Keys - keys :: items[n] in r
      invariant forall tx <- r :: tx.nonce in items && tx.nonce !in keys && items[tx.nonce] == tx
      invariant forall i, j | 0 <= i < j < |r| :: r[i].nonce != r[j].nonce
      decreases keys
    {
      var n :| n in keys;
      r, keys := r + [items[n]], keys - {n};
    }
  }

  /** Sorting the transactions of a map by nonce gives its listing. */
  lemma ListingSorted(items: Items, unsorted: seq<Tx>, sorted: seq<Tx>)
    requires Keyed(items) && multiset(sorted) == multiset(unsorted) && Ascending(sorted, NonceOf)
    requires forall tx :: tx in unsorted <==> tx.nonce in items && items[tx.nonce] == tx
    requires forall i, j | 0 <= i < j < |unsorted| :: unsorted[i].nonce != unsorted[j].nonce
    ensures sorted == Sorted(items)
  {
    hide Sorted;
    forall tx ensures tx in sorted <==> tx in unsorted {
      assert tx in multiset(sorted) <==> tx in multiset(unsorted);
    }
    forall i, j | 0 <= i < j < |sorted| ensures sorted[i].nonce < sorted[j].nonce {
      assert NonceOf(sorted[i]) <= NonceOf(sorted[j]);
      if sorted[i].nonce == sorted[j].nonce {
        var tx := sorted[i];
        assert tx in sorted && sorted[j] in sorted;
        Repeats(sorted, i, j);
        NoRepeat(unsorted, tx);
      }
    }
    SortedUnique(items, sorted);
  }

  lemma Repeats(s: seq<Tx>, i: nat, j: nat)
    requires i < j < |s| && s[i] == s[j]
    ensures multiset(s)[s[i]] >= 2
  {
    assert s == s[..j] + [s[j]] + s[j + 1..];
    assert s[i] in s[..j];
  }

  lemma {:induction false} NoRepeat(s: seq<Tx>, tx: Tx)
    requires forall i, j | 0 <= i < j < |s| :: s[i] != s[j]
    ensures multiset(s)[tx] <= 1
  {
    if s != [] {
      NoRepeat(s[1..], tx);
      assert s == [s[0]] + s[1..];
      if tx == s[0] {
        assert tx !in s[1..];
      }
    }
  }

  lemma IndexesFromParts(index: seq<nat>, items: Items)
    requires NonceHeap.IsHeap(index) && multiset(index) == multiset(items.Keys)
    ensures Indexes(index, items)
  {
  }

  /** The transactions that `drop` does not select. */
  function Kept(items: Items, drop: Tx -> bool): Items {
    map n | n in items && !drop(items[n]) :: items[n]
  }

  /** `removed` lists each transaction that `drop` selects once. */
  ghost predicate Dropped(items: Items, drop: Tx -> bool, removed: seq<Tx>) {
    && (forall tx :: tx in removed <==> tx.nonce in items && items[tx.nonce] == tx && drop(tx))
    && (forall i, j | 0 <= i < j < |removed| :: removed[i].nonce != removed[j].nonce)
  }

  /** Separates the transactions that `drop` selects, visiting the map in any order. */
  method Divide(items: Items, drop: Tx -> bool) returns (kept: Items, removed: seq<Tx>)
    requires Keyed(items)
    ensures kept == Kept(items, drop) && Keyed(kept) && Dropped(items, drop, removed)
    ensures removed == [] ==> kept == items
  {
    kept, removed := items, [];
    var keys := items.Keys;
    while keys != {}
      invariant keys <= items.Keys && (removed == [] ==> kept == items)
      invariant kept == map n | n in items && (n in keys || !drop(items[n])) :: items[n]
      invariant forall n <- items.Keys - keys :: drop(items[n]) ==> items[n] in removed
      invariant forall tx <- removed :: tx.nonce in items && tx.nonce !in keys && items[tx.nonce] == tx && drop(tx)
      invariant forall i, j | 0 <= i < j < |removed| :: removed[i].nonce != removed[j].nonce
      decreases keys
    {
      var n :| n in keys;
      var tx := items[n];
      keys := keys - {n};
      if drop(tx) {
        removed := removed + [tx];
        kept := kept - {n};
      }
    }
  }

  class TxSortedMap {
    var items: Items
    var index: seq<nat>
    var cache: Option<seq<Tx>>

    ghost predicate Valid()
      reads this
    {
      Keyed(items) && Indexes(index, items) && (cache.Some? ==> cache.value == Sorted(items))
    }

    constructor ()
      ensures Valid() && items == map[]
    {
      items, index, cache := map[], [], None;
    }

    /** Files a transaction, replacing one with the same nonce. */
    method Put(tx: Tx)
      requires Valid()
      modifies this
      ensures Valid() && items == old(items)[tx.nonce := tx]
    {
      hide Indexes, Sorted;
      if tx.nonce !in items {
        RootIsLeast(index, items);
        index := NonceHeap.Push(index, tx.nonce);
      }
      IndexesPut(old(index), items, index, tx);
      items, cache := items[tx.nonce := tx], None;
    }

    /** Removes the least nonce from map and heap. */
    method PopLeast() returns (tx: Tx)
      requires Keyed(items) && Indexes(index, items) && index != []
      modifies `items, `index
      ensures Keyed(items) && Indexes(index, items)
      ensures old(index[0]) in old(items) && tx == old(items)[old(index[0])] && items == old(items) - {old(index[0])}
      ensures forall n <- old(items) :: old(index[0]) <= n
      ensures Sorted(old(items)) == [tx] + Sorted(items)
    {
      hide Indexes, Sorted;
      RootIsLeast(index, items);
      SortedLeast(items, index[0]);
      var nonce;
      index, nonce := NonceHeap.Pop(index);
      IndexesDelete(old(index), items, index, nonce);
      tx := items[nonce];
      items := items - {nonce};
    }

    /** Removes all transactions below `threshold`, lowest nonce first. */
    method Forward(threshold: nat) returns (removed: seq<Tx>)
      requires Valid()
      modifies this
      ensures Valid()
      ensures items == map n | n in old(items) && threshold <= n :: old(items)[n]
      ensures Sorted(old(items)) == removed + Sorted(items)
      ensures forall tx <- removed :: tx.nonce < threshold
    {
      hide Indexes, Sorted;
      removed := [];
      while |index| > 0 && index[0] < threshold
        invariant Keyed(items) && Indexes(index, items) && cache == old(cache)
        invariant Sorted(old(items)) == removed + Sorted(items)
        invariant forall tx <- removed :: tx.nonce < threshold
        invariant forall n <- items :: n in old(items) && items[n] == old(items)[n]
        invariant forall n <- old(items) :: threshold <= n ==> n in items
        decreases |items|
      {
        var tx := PopLeast();
        removed := removed + [tx];
      }
      RootIsLeast(index, items);
      if cache.Some? {
        cache := Some(cache.value[|removed|..]);
      }
    }

    /** Rebuilds the heap from the map and forgets the listing. */
    method Reindex()
      requires Keyed(items)
      modifies `index, `cache
      ensures Valid()
    {
      hide Sorted;
      index := ListSet(items.Keys);
      index := NonceHeap.Init(index);
      cache := None;
    }

    /** Removes all transactions that `drop` selects, in no particular order. */
    method Filter(drop: Tx -> bool) returns (removed: seq<Tx>)
      requires Valid()
      modifies this
      ensures Valid() && items == Kept(old(items), drop) && Dropped(old(items), drop, removed)
    {
      hide Indexes, Sorted, Kept, Dropped;
      items, removed := Divide(items, drop);
      if |removed| > 0 {
        Reindex();
      }
    }

    /** Removes one transaction by nonce. */
    method Remove(nonce: nat) returns (found: bool)
      requires Valid()
      modifies this
      ensures Valid() && found == (nonce in old(items)) && items == old(items) - {nonce}
    {
      if nonce !in items {
        return false;
      }
      hide Indexes, Sorted;
      IndexHolds(index, items, nonce);
      var i := 0;
      while index[i] != nonce
        invariant 0 <= i < |index| && nonce !in index[..i]
        decreases |index| - i
      {
        i := i + 1;
      }
      index := NonceHeap.Remove(index, i);
      IndexesDelete(old(index), items, index, nonce);
      items := items - {nonce};
      cache := None;
      return true;
    }

    /** Drops the highest nonces beyond `threshold`, highest first. */
    method Cap(threshold: nat) returns (drops: seq<Tx>)
      requires Valid()
      modifies this
      ensures Valid() && items == Lowest(old(items), threshold)
      ensures Sorted(old(items)) == Sorted(items) + Reversed(drops)
    {
      hide Indexes, Sorted, Reversed, Ascending;
      if |items| <= threshold {
        ReversedNone();
        return [];
      }
      index := SortBy(index, Id);
      SortedIndex(old(index), items, index);
      items, drops := DropHighest(items, index, threshold);
      index := NonceHeap.Init(index[..threshold]);
      IndexesFromParts(index, items);
      if cache.Some? {
        cache := Some(cache.value[..|cache.value| - |drops|]);
      }
    }

    /** Takes the run of consecutive nonces from the lowest, provided that is no higher than `start`. */
    method Ready(start: nat) returns (ready: seq<Tx>)
      requires Valid()
      modifies this
      ensures Valid() && Sorted(old(items)) == ready + Sorted(items)
      ensures ready == [] <==> forall n <- old(items) :: start < n
      ensures forall i | 0 <= i < |ready| :: ready[i].nonce == ready[0].nonce + i
      ensures ready != [] ==> ready[0].nonce + |ready| !in old(items)
      ensures items == if ready == [] then old(items)
                       else map n | n in old(items) && ready[0].nonce + |ready| <= n :: old(items)[n]
    {
      hide Indexes, Sorted;
      RootIsLeast(index, items);
      ready := [];
      if |index| == 0 || index[0] > start {
        return;
      }
      var first := index[0];
      var next := first;
      while |index| > 0 && index[0] == next
        invariant Keyed(items) && Indexes(index, items) && cache == old(cache)
        invariant Sorted(old(items)) == ready + Sorted(items)
        invariant first <= next == first + |ready| && (ready == [] ==> first in items)
        invariant forall i | 0 <= i < |ready| :: ready[i].nonce == first + i
        invariant items == map n | n in old(items) && next <= n :: old(items)[n]
        decreases |items|
      {
        var tx := PopLeast();
        ready := ready + [tx];
        next := next + 1;
      }
      RootIsLeast(index, items);
      assert next !in items;
      cache := None;
    }

    /** All transactions in nonce order; the listing is kept for the next call. */
    method Flatten() returns (txs: seq<Tx>)
      requires Valid()
      modifies `cache
      ensures Valid() && txs == Sorted(items) && cache == Some(txs)
    {
      hide Indexes, Sorted;
      if cache.None? {
        var unsorted := Values(items);
        var sorted := SortBy(unsorted, NonceOf);
        ListingSorted(items, unsorted, sorted);
        cache := Some(sorted);
      }
      txs := cache.value;
    }
  }
}
