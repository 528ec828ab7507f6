/** Per-account transaction lists as values, and what keeps two of them consistent with the set of all
known transactions. */
module PoolLists {
  import opened ChainTypes
  import opened SortedTxs
  import opened TxLists
  import opened WorldState
  import Admission
  import TxSortedMaps

  type Lists = map<Address, Items>

  function ListOf(l: Lists, a: Address): Items {
    if a in l then l[a] else map[]
  }

  ghost predicate Has(l: Lists, tx: Tx) {
    tx.sender in l && Member(l[tx.sender], tx)
  }

  /** Every transaction sits in its sender's list under its nonce, and is known. */
  ghost predicate Filed(l: Lists, known: set<Tx>) {
    forall a, n | a in l && n in l[a] :: l[a][n].sender == a && l[a][n].nonce == n && l[a][n] in known
  }

  /** No transaction is in both. */
  ghost predicate Apart(p: Lists, q: Lists) {
    forall a, n | a in p && a in q && n in p[a] && n in q[a] :: p[a][n] != q[a][n]
  }

  lemma ApartBoth(p: Lists, q: Lists)
    requires Apart(p, q)
    ensures Apart(q, p)
  {
  }

  ghost predicate NonEmpty(l: Lists) {
    forall a <- l :: l[a] != map[]
  }

  ghost predicate Sub(x: Items, y: Items) {
    forall n <- x :: n in y && x[n] == y[n]
  }

  /** The list with `items` for one account; an empty list is not kept. */
  function Replace(l: Lists, a: Address, items: Items): Lists {
    if items == map[] then l - {a} else l[a := items]
  }

  /** Adding a transaction to its sender's list. */
  function AddTo(l: Lists, tx: Tx): Lists {
    if Accepts(ListOf(l, tx.sender), tx) then l[tx.sender := ListOf(l, tx.sender)[tx.nonce := tx]] else l
  }

  /** The transaction that adding `tx` replaces. */
  function Replaced(l: Lists, tx: Tx): set<Tx> {
    var list := ListOf(l, tx.sender);
    if tx.nonce in list && Accepts(list, tx) then {list[tx.nonce]} else {}
  }

  lemma AddKeeps(p: Lists, q: Lists, known: set<Tx>, tx: Tx)
    requires Filed(p, known) && Filed(q, known) && Apart(p, q) && !Has(p, tx)
    requires Accepts(ListOf(q, tx.sender), tx)
    ensures var known' := known - Replaced(q, tx) + {tx};
            Filed(p, known') && Filed(AddTo(q, tx), known') && Apart(p, AddTo(q, tx))
    ensures NonEmpty(q) ==> NonEmpty(AddTo(q, tx))
  {
    var known' := known - Replaced(q, tx) + {tx};
    assert forall a, n | a in p && n in p[a] :: p[a][n] in known';
    if NonEmpty(q) {
      assert tx.nonce in AddTo(q, tx)[tx.sender];
    }
  }

  lemma ForgetKeeps(l: Lists, known: set<Tx>, gone: set<Tx>)
    requires Filed(l, known) && forall tx <- gone :: !Has(l, tx)
    ensures Filed(l, known - gone)
  {
    forall a, n | a in l && n in l[a] ensures l[a][n] !in gone {
      assert Member(l[a], l[a][n]);
    }
  }

  /** Shrinking one list keeps everything in order. */
  lemma ShrinkKeeps(p: Lists, q: Lists, known: set<Tx>, a: Address, items: Items)
    requires Filed(q, known) && Apart(p, q) && Sub(items, ListOf(q, a))
    ensures Filed(q[a := items], known) && Apart(p, q[a := items]) && Apart(q[a := items], p)
    ensures Filed(Replace(q, a, items), known) && Apart(p, Replace(q, a, items)) && Apart(Replace(q, a, items), p)
    ensures NonEmpty(q) ==> NonEmpty(Replace(q, a, items))
  {
  }

  /** The transactions of `before` that `after` no longer has. */
  function Left(before: Items, after: Items): set<Tx> {
    set n | n in before && n !in after :: before[n]
  }

  lemma LeftNotListed(p: Lists, q: Lists, known: set<Tx>, a: Address, items: Items)
    requires Filed(q, known) && Apart(p, q) && Filed(p, known) && Sub(items, ListOf(q, a))
    ensures forall tx <- Left(ListOf(q, a), items) :: !Has(q[a := items], tx) && !Has(p, tx)
  {
  }

  function Above(items: Items, nonce: nat): Items {
    map n | n in items && n > nonce :: items[n]
  }

  /** What a strict removal invalidates is known and no longer listed. */
  lemma Invalidated(p: Lists, known: set<Tx>, tx: Tx)
    requires Filed(p, known) && tx.sender in p && tx.nonce in p[tx.sender]
    ensures var above := Above(p[tx.sender], tx.nonce);
            forall n <- above ::
              && above[n].nonce == n && above[n].sender == tx.sender && above[n] in known - {tx}
              && !Has(Replace(p, tx.sender, Without(p[tx.sender], true, tx.nonce)), above[n])
    ensures Sub(Without(p[tx.sender], true, tx.nonce), p[tx.sender])
  {
  }

  lemma ReplaceLists(l: Lists, a: Address, items: Items)
    ensures ListOf(Replace(l, a, items), a) == items
    ensures forall b | b != a :: ListOf(Replace(l, a, items), b) == ListOf(l, b)
  {
  }

  lemma WithoutAbsent(items: Items, nonce: nat)
    ensures nonce !in Without(items, true, nonce)
    ensures nonce !in items ==> Without(items, true, nonce) == items
  {
  }

  /** After its nonce left both lists a transaction is in neither. */
  lemma NonceGone(l: Lists, tx: Tx)
    requires tx.nonce !in ListOf(l, tx.sender)
    ensures !Has(l, tx)
  {
  }

  /** Takes the run of consecutive nonces from the lowest, provided that is no higher than `start`. */
  method TakeReady(items: Items, start: nat) returns (ready: seq<Tx>, rest: Items)
    requires Keyed(items)
    ensures ready == [] <==> forall n <- items :: start < n
    ensures forall i | 0 <= i < |ready| :: ready[i].nonce == ready[0].nonce + i && Member(items, ready[i])
    ensures ready != [] ==> ready[0].nonce + |ready| !in items && forall n <- items :: ready[0].nonce <= n
    ensures rest == if ready == [] then items else FromNonce(items, ready[0].nonce + |ready|)
  {
    ready, rest := [], items;
    if items == map[] {
      return;
    }
    LeastExists(items.Keys);
    var first :| first in items && forall n <- items :: first <= n;
    if first > start {
      return;
    }
    var next: nat := first;
    while next in rest
      invariant first <= next == first + |ready| && (ready == [] ==> first in rest)
      invariant forall i | 0 <= i < |ready| :: ready[i].nonce == first + i && Member(items, ready[i])
      invariant rest == FromNonce(items, next)
      decreases rest.Keys
    {
      ready, rest := ready + [rest[next]], rest - {next};
      next := next + 1;
    }
  }

  /** Transactions taken out of a waiting list are in no list. */
  lemma TakenFree(p: Lists, q: Lists, known: set<Tx>, a: Address, rest: Items, tx: Tx)
    requires Filed(q, known) && Apart(p, q) && a in q && Member(q[a], tx) && tx.nonce !in rest
    ensures tx.sender == a && tx in known && !Has(p, tx) && !Has(q[a := rest], tx)
  {
  }

  /** A waiting list within the limits: not stale, affordable one by one, not too long. */
  ghost predicate Tidy(items: Items, account: Account, limit: nat) {
    |items| <= limit && forall n <- items :: account.nonce <= n && Admission.Cost(items[n]) <= account.balance
  }

  lemma TidySteps(items: Items, account: Account, rest: Items, limit: nat)
    requires Sub(rest, Affordable(FromNonce(items, account.nonce), false, account.balance))
    ensures Tidy(Lowest(rest, limit), account, limit) && Sub(Lowest(rest, limit), items) && Sub(Lowest(rest, limit), rest)
    ensures Sub(FromNonce(items, account.nonce), items)
    ensures Sub(Affordable(FromNonce(items, account.nonce), false, account.balance), FromNonce(items, account.nonce))
  {
    hide Lowest;
    LowestKeeps(rest, limit);
  }

  lemma LowestSub(items: Items, limit: nat)
    ensures Sub(Lowest(items, limit), items)
  {
    hide Lowest;
    LowestKeeps(items, limit);
  }

  /** Adding a transaction brings in no other. */
  lemma StillAbsent(l: Lists, tx: Tx, other: Tx)
    requires !Has(l, other) && other != tx
    ensures !Has(AddTo(l, tx), other)
  {
  }

  lemma FiledKeyed(l: Lists, known: set<Tx>, a: Address)
    requires Filed(l, known) && a in l
    ensures Keyed(l[a]) && forall n <- l[a] :: l[a][n].sender == a && l[a][n] in known
  {
  }

  lemma SubSame(x: Items)
    ensures Sub(x, x)
  {
  }

  lemma ReadyRest(items: Items, ready: seq<Tx>, rest: Items)
    requires rest == if ready == [] then items else FromNonce(items, ready[0].nonce + |ready|)
    requires forall i | 0 <= i < |ready| :: ready[i].nonce == ready[0].nonce + i
    ensures Sub(rest, items) && forall i | 0 <= i < |ready| :: ready[i].nonce !in rest
  {
  }

  /** Dropping an emptied list. */
  lemma DropEmpty(before: Lists, l: Lists, a: Address, p: Lists, known: set<Tx>)
    requires a in l && l == before[a := l[a]] && Filed(l, known) && Apart(p, l)
    ensures var after := if l[a] == map[] then l - {a} else l;
            && Filed(after, known) && Apart(p, after) && after == Replace(before, a, l[a])
            && (NonEmpty(before) ==> NonEmpty(after))
            && (forall b | b != a :: ListOf(after, b) == ListOf(before, b)) && ListOf(after, a) == l[a]
  {
  }

  lemma ReplaceKeys(l: Lists, a: Address, items: Items)
    ensures Replace(l, a, items).Keys == if items == map[] then l.Keys - {a} else l.Keys + {a}
  {
  }

  /** The lists with those of `cut` shortened to their lowest nonces up to a level. */
  ghost function Cut(p: Lists, cut: set<Address>, level: nat): Lists {
    map a | a in p :: if a in cut then Lowest(p[a], level) else p[a]
  }

  lemma SubKeeps(p: Lists, p': Lists, q: Lists, known: set<Tx>)
    requires Filed(p, known) && Apart(p, q) && p'.Keys == p.Keys && forall a <- p :: Sub(p'[a], p[a])
    ensures Filed(p', known) && Apart(p', q)
  {
  }

  lemma CutAt(p: Lists, cut: set<Address>, level: nat, a: Address)
    requires a in p && p[a] != map[] && 0 < level
    ensures Sub(Cut(p, cut, level)[a], p[a]) && Cut(p, cut, level)[a] != map[]
  {
    hide Lowest;
    LowestKeeps(p[a], level);
  }

  /** Cutting lists to a level keeps everything in order. */
  lemma CutKeeps(p: Lists, q: Lists, known: set<Tx>, cut: set<Address>, level: nat)
    requires Filed(p, known) && Apart(p, q) && NonEmpty(p) && 0 < level
    ensures var after := Cut(p, cut, level);
            && Filed(after, known) && Apart(after, q) && NonEmpty(after) && after.Keys == p.Keys
            && forall a <- p :: Sub(after[a], p[a])
  {
    hide Lowest, Sub, Filed, Apart;
    assert Cut(p, cut, level).Keys == p.Keys;
    forall a <- p ensures Sub(Cut(p, cut, level)[a], p[a]) && Cut(p, cut, level)[a] != map[] {
      CutAt(p, cut, level, a);
    }
    SubKeeps(p, Cut(p, cut, level), q, known);
  }

  function NonceSet(txs: seq<Tx>): set<nat> {
    set tx | tx in txs :: tx.nonce
  }

  /** The account has no nonce in both lists. */
  ghost predicate Separate(p: Lists, q: Lists, a: Address) {
    forall n :: !(n in ListOf(p, a) && n in ListOf(q, a))
  }

  ghost predicate DistinctNonces(txs: seq<Tx>) {
    forall i, j | 0 <= i < j < |txs| :: txs[i].nonce != txs[j].nonce
  }

  lemma NonceSetNone()
    ensures NonceSet([]) == {}
  {
  }

  lemma HasKnown(l: Lists, known: set<Tx>, tx: Tx)
    requires Filed(l, known) && Has(l, tx)
    ensures tx in known
  {
  }

  lemma NonceSetStep(txs: seq<Tx>, k: nat)
    requires k < |txs| && DistinctNonces(txs)
    ensures NonceSet(txs[..k + 1]) == NonceSet(txs[..k]) + {txs[k].nonce}
    ensures txs[k].nonce !in NonceSet(txs[..k])
  {
    assert txs[..k + 1] == txs[..k] + [txs[k]];
  }

  /** The transactions of a list in nonce order. */
  method Flatten(items: Items) returns (txs: seq<Tx>)
    requires Keyed(items)
    ensures txs == Sorted(items)
  {
    var unsorted := TxSortedMaps.Values(items);
    txs := TxSortedMaps.SortBy(unsorted, TxSortedMaps.NonceOf);
    TxSortedMaps.ListingSorted(items, unsorted, txs);
  }

  lemma SortedListing(items: Items)
    requires Keyed(items)
    ensures DistinctNonces(Sorted(items)) && |Sorted(items)| == |items|
    ensures forall tx <- Sorted(items) :: Member(items, tx)
  {
    forall i, j | 0 <= i < j < |items| ensures Sorted(items)[i].nonce != Sorted(items)[j].nonce {
      SortedIncreases(items, i, j);
    }
    forall tx <- Sorted(items) ensures Member(items, tx) {
      SortedMembers(items, tx);
    }
  }

  /** The last `k` transactions, last first. */
  function Tail(txs: seq<Tx>, k: nat): (r: seq<Tx>)
    requires k <= |txs|
    ensures |r| == k
  {
    seq(k, i requires 0 <= i < k => txs[|txs| - 1 - i])
  }

  lemma NonEmptyLists(l: Lists)
    requires NonEmpty(l)
    ensures forall a <- l :: ListOf(l, a) != map[]
  {
  }

  lemma PayableSteps(items: Items, account: Account)
    ensures var fresh' := FromNonce(items, account.nonce);
            var cheap := TxSortedMaps.Kept(fresh', CostAbove(account.balance));
            && Sub(fresh', items) && Sub(cheap, fresh') && Sub(Payable(fresh', account.balance), cheap)
            && forall n <- fresh' ::
                 Admission.Cost(fresh'[n]) <= account.balance ==> n in cheap && cheap[n] == fresh'[n]
  {
  }

  /** What a shortened list loses, as a list of its own. */
  function Lost(before: Items, after: Items): Items {
    map n | n in before && n !in after :: before[n]
  }

  lemma LostFree(p: Lists, known: set<Tx>, a: Address, rest: Items)
    requires Filed(p, known) && a in p && Sub(rest, p[a])
    ensures var lost := Lost(p[a], rest);
            forall n <- lost ::
                     lost[n].nonce == n && lost[n].sender == a && lost[n] in known && !Has(p[a := rest], lost[n])
  {
  }

  lemma PayableNone(account: Account)
    ensures Payable(FromNonce(map[], account.nonce), account.balance) == map[]
  {
  }
}
