/** Transactions by nonce as a plain map, and their listing in nonce order: the specification of
`TxSortedMap`. */
module SortedTxs {
  import opened ChainTypes

  type Items = map<nat, Tx>

  /** Each transaction is filed under its own nonce. */
  ghost predicate Keyed(items: Items) {
    forall n <- items :: items[n].nonce == n
  }

  /** A finite set has an element of least rank. */
  lemma {:induction false} MinimumExists<T(!new)>(s: set<T>, rank: T -> int) returns (m: T)
    requires s != {}
    ensures m in s && forall x <- s :: rank(m) <= rank(x)
  {
    m :| m in s;
    var rest := s - {m};
    assert s == rest + {m};
    if rest != {} {
      var k := MinimumExists(rest, rank);
      if rank(k) < rank(m) {
        m := k;
      }
    }
  }

  lemma LeastExists(s: set<nat>)
    requires s != {}
    ensures exists m :: m in s && forall x <- s :: m <= x
  {
    var least := MinimumExists(s, (x: nat) => x);
    assert forall x <- s :: least <= x;
  }

  ghost function Least(s: set<nat>): (m: nat)
    requires s != {}
    ensures m in s && forall x <- s :: m <= x
  {
    LeastExists(s);
    var m :| m in s && forall x <- s :: m <= x;
    m
  }

  /** The transactions in increasing nonce order. */
  ghost function Sorted(items: Items): (r: seq<Tx>)
    ensures |r| == |items|
    decreases |items|
  {
    if items == map[] then []
    else
      var n := Least(items.Keys);
      assert |items - {n}| == |items| - 1 by { assert (items - {n}).Keys == items.Keys - {n}; }
      [items[n]] + Sorted(items - {n})
  }

  /** The listing holds exactly the transactions of the map. */
  lemma {:induction false} SortedMembers(items: Items, tx: Tx)
    requires Keyed(items)
    ensures tx in Sorted(items) <==> tx.nonce in items && items[tx.nonce] == tx
    decreases |items|
  {
    if items != map[] {
      var n := Least(items.Keys);
      assert (items - {n}).Keys == items.Keys - {n};
      SortedMembers(items - {n}, tx);
    }
  }

  /** The listing is in strictly increasing nonce order. */
  lemma {:induction false} SortedIncreases(items: Items, i: nat, j: nat)
    requires Keyed(items) && i < j < |items|
    ensures Sorted(items)[i].nonce < Sorted(items)[j].nonce
    decreases |items|
  {
    hide Least;
    var n := Least(items.Keys);
    assert (items - {n}).Keys == items.Keys - {n};
    if 0 < i {
      SortedIncreases(items - {n}, i - 1, j - 1);
    } else {
      SortedMembers(items - {n}, Sorted(items)[j]);
    }
  }

  /** Taking the least nonce off takes the first transaction off the listing. */
  lemma SortedLeast(items: Items, n: nat)
    requires n in items && forall k <- items :: n <= k
    ensures Sorted(items) == [items[n]] + Sorted(items - {n})
  {
    assert n == Least(items.Keys);
  }

  /** Taking the greatest nonce off takes the last transaction off the listing. */
  lemma {:induction false} SortedGreatest(items: Items, n: nat)
    requires n in items && forall k <- items :: k <= n
    ensures Sorted(items) == Sorted(items - {n}) + [items[n]]
    decreases |items|
  {
    hide Least;
    var l := Least(items.Keys);
    assert (items - {l}).Keys == items.Keys - {l};
    if l == n {
      assert items.Keys == {n};
      assert items - {n} == map[];
    } else {
      SortedLeast(items, l);
      SortedGreatest(items - {l}, n);
      assert items - {l} - {n} == items - {n} - {l};
      SortedLeast(items - {n}, l);
      hide Sorted;
    }
  }

  /** The sequence lists exactly the transactions of the map, in strictly increasing nonce order. */
  ghost predicate ListedBy(items: Items, s: seq<Tx>) {
    && (forall tx :: tx in s <==> tx.nonce in items && items[tx.nonce] == tx)
    && (forall i, j | 0 <= i < j < |s| :: s[i].nonce < s[j].nonce)
  }

  lemma ListedRest(items: Items, s: seq<Tx>)
    requires Keyed(items) && ListedBy(items, s) && s != []
    ensures var n := s[0].nonce;
            n in items && items[n] == s[0] && ListedBy(items - {n}, s[1..]) && forall k <- items :: n <= k
  {
    var n := s[0].nonce;
    assert s[0] in s;
    forall tx ensures tx in s[1..] <==> tx in s && tx.nonce != n {
      if tx in s && tx.nonce != n {
        var i :| 0 <= i < |s| && s[i] == tx;
        assert s[1..][i - 1] == tx;
      }
    }
    forall k <- items ensures n <= k {
      assert items[k] in s;
    }
  }

  /** There is only one such listing. */
  lemma {:induction false} SortedUnique(items: Items, s: seq<Tx>)
    requires Keyed(items) && ListedBy(items, s)
    ensures s == Sorted(items)
    decreases |s|
  {
    if s == [] {
      assert forall k <- items :: items[k] in s;
      assert items == map[];
    } else {
      var n := s[0].nonce;
      ListedRest(items, s);
      SortedLeast(items, n);
      SortedUnique(items - {n}, s[1..]);
      hide Sorted, Keyed, ListedBy;
      assert s == [s[0]] + s[1..];
    }
  }

  lemma GreatestExists(s: set<nat>)
    requires s != {}
    ensures exists m :: m in s && forall x <- s :: x <= m
  {
    var greatest := MinimumExists(s, (x: nat) => -(x as int));
    assert forall x <- s :: x <= greatest;
  }

  ghost function Greatest(s: set<nat>): (m: nat)
    requires s != {}
    ensures m in s && forall x <- s :: x <= m
  {
    GreatestExists(s);
    var m :| m in s && forall x <- s :: x <= m;
    m
  }

  /** The `k` transactions of lowest nonce, or all if there are no more. */
  ghost function Lowest(items: Items, k: nat): (r: Items)
    ensures |r| == if |items| <= k then |items| else k
    decreases |items|
  {
    if |items| <= k then items
    else
      var n := Greatest(items.Keys);
      assert |items - {n}| == |items| - 1 by { assert (items - {n}).Keys == items.Keys - {n}; }
      Lowest(items - {n}, k)
  }

  lemma LowestAll(items: Items, k: nat)
    requires |items| <= k
    ensures Lowest(items, k) == items
  {
  }

  lemma {:induction false} LowestTwice(items: Items, k: nat, j: nat)
    requires j <= k
    ensures Lowest(Lowest(items, k), j) == Lowest(items, j)
    decreases |items|
  {
    if k < |items| {
      var n := Greatest(items.Keys);
      assert |items - {n}| == |items| - 1 by { assert (items - {n}).Keys == items.Keys - {n}; }
      LowestTwice(items - {n}, k, j);
    }
  }

  /** Dropping the greatest of the `k` lowest leaves the `k - 1` lowest. */
  lemma LowestStep(items: Items, k: nat, n: nat)
    requires 0 < k <= |items|
    requires n in Lowest(items, k) && forall x <- Lowest(items, k) :: x <= n
    ensures Lowest(items, k - 1) == Lowest(items, k) - {n}
  {
    var m := Lowest(items, k);
    LowestTwice(items, k, k - 1);
    assert n == Greatest(m.Keys);
    assert |m - {n}| == |m| - 1 by { assert (m - {n}).Keys == m.Keys - {n}; }
    assert Lowest(m, k - 1) == Lowest(m - {n}, k - 1);
  }

  /** What is kept is part of what was there, and everything dropped has a higher nonce. */
  lemma {:induction false} LowestKeeps(items: Items, k: nat)
    ensures forall n <- Lowest(items, k) :: n in items && items[n] == Lowest(items, k)[n]
    ensures forall n, x | n in Lowest(items, k) && x in items && x !in Lowest(items, k) :: n < x
    decreases |items|
  {
    if k < |items| {
      var n := Greatest(items.Keys);
      assert |items - {n}| == |items| - 1 by { assert (items - {n}).Keys == items.Keys - {n}; }
      LowestKeeps(items - {n}, k);
    }
  }
}
