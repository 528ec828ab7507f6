/** What queueing, promotion and demotion make of the two lists of an account, as functions of the lists. */
module Promotion {
  import opened ChainTypes
  import opened SortedTxs
  import opened TxLists
  import opened WorldState
  import opened PoolLists
  import opened PoolSizes
  import Admission
  import TxSortedMaps

  /** The state the pool advances nonces in, on top of a state of the chain. */
  datatype ManagedState = ManagedState(base: Accounts, nonces: map<Address, nat>) {
    function GetNonce(a: Address): nat {
      if a in nonces then nonces[a] else Get(base, a).nonce
    }

    function SetNonce(a: Address, nonce: nat): ManagedState {
      this.(nonces := nonces[a := nonce])
    }

    function Lowered(a: Address, nonce: nat): ManagedState {
      if GetNonce(a) > nonce then SetNonce(a, nonce) else this
    }
  }

  /** Lowering never leaves a nonce above, changes nothing that is not, and concerns one account. */
  lemma LoweredMeans(s: ManagedState, a: Address, nonce: nat, b: Address)
    ensures s.Lowered(a, nonce).GetNonce(b) == if a == b && nonce < s.GetNonce(a) then nonce else s.GetNonce(b)
  {
  }

  /** A transaction takes a nonce if it is free or its holder pays less. */
  predicate Wins(base: Items, added: Items, n: nat) {
    n in added && (n in base ==> base[n].gasPrice < added[n].gasPrice)
  }

  /** Two lists put together, where the second has to outbid the first. */
  function Merge(base: Items, added: Items): Items {
    map n | n in base.Keys + added.Keys :: if Wins(base, added, n) then added[n] else base[n]
  }

  /** The transactions that lose their place by it. */
  function Outbid(base: Items, added: Items): set<Tx> {
    set n | n in base && Wins(base, added, n) :: base[n]
  }

  /** The transactions that take a place by it. */
  ghost function Winners(base: Items, added: Items): Items {
    map n | n in added && Wins(base, added, n) :: added[n]
  }

  /** Every nonce of either list is kept, with the better paying transaction, the one that was there on a tie. */
  lemma MergeMeans(base: Items, added: Items, n: nat)
    ensures n in Merge(base, added) <==> n in base || n in added
    ensures n in base && (n in added ==> added[n].gasPrice <= base[n].gasPrice) ==> Merge(base, added)[n] == base[n]
    ensures n in added && (n in base ==> base[n].gasPrice < added[n].gasPrice) ==> Merge(base, added)[n] == added[n]
  {
  }

  lemma MergeNone(base: Items)
    ensures Merge(base, map[]) == base && Outbid(base, map[]) == {}
  {
  }

  /** Merging one transaction after others with other nonces. */
  lemma MergeStep(base: Items, added: Items, n: nat, tx: Tx)
    requires n !in added
    ensures (n in Merge(base, added) <==> n in base) && (n in base ==> Merge(base, added)[n] == base[n])
    ensures var more := added[n := tx];
            && Merge(base, more) == (if Wins(base, more, n) then Merge(base, added)[n := tx] else Merge(base, added))
            && Outbid(base, more) == Outbid(base, added) + if n in base && Wins(base, more, n) then {base[n]} else {}
  {
    var more := added[n := tx];
    forall k | k != n ensures Wins(base, more, k) == Wins(base, added, k) {
    }
    assert Merge(base, more) == (if Wins(base, more, n) then Merge(base, added)[n := tx] else Merge(base, added));
  }

  /** Adding to a list of the pool as a step of a merge. */
  lemma MergedStep(l: Lists, base: Items, added: Items, tx: Tx)
    requires tx.nonce !in added && ListOf(l, tx.sender) == Merge(base, added)
    ensures Accepts(ListOf(l, tx.sender), tx) <==> Wins(base, added[tx.nonce := tx], tx.nonce)
    ensures ListOf(AddTo(l, tx), tx.sender) == Merge(base, added[tx.nonce := tx])
    ensures forall a | a != tx.sender :: ListOf(AddTo(l, tx), a) == ListOf(l, a)
  {
    MergeStep(base, added, tx.nonce, tx);
    hide Merge;
  }

  lemma OutbidNonces(base: Items, added: Items, tx: Tx)
    requires Keyed(base) && tx in Outbid(base, added)
    ensures tx.nonce in added && tx.nonce in base && base[tx.nonce] == tx
  {
  }

  /** From the lowest nonce up to `n` none is missing. */
  ghost predicate RunsTo(items: Items, n: nat) {
    forall k, m | k in items && k <= m <= n :: m in items
  }

  /** The run of nonces that is due: consecutive from the lowest, provided that is no higher than `start`. */
  ghost function Ready(items: Items, start: nat): Items {
    map n | n in items && (exists k <- items :: k <= start) && RunsTo(items, n) :: items[n]
  }

  ghost function NotReady(items: Items, start: nat): Items {
    Lost(items, Ready(items, start))
  }

  /** A consecutive listing from the lowest nonce that ends at a gap lists what is due. */
  lemma ReadyListing(items: Items, start: nat, ready: seq<Tx>, rest: Items)
    requires Keyed(items) && (ready == [] <==> forall n <- items :: start < n)
    requires forall i | 0 <= i < |ready| :: ready[i].nonce == ready[0].nonce + i && Member(items, ready[i])
    requires ready != [] ==> ready[0].nonce + |ready| !in items && forall n <- items :: ready[0].nonce <= n
    requires rest == if ready == [] then items else FromNonce(items, ready[0].nonce + |ready|)
    ensures rest == NotReady(items, start)
    ensures forall i | 0 <= i < |ready| :: Member(Ready(items, start), ready[i])
    ensures forall n <- Ready(items, start) :: ready != [] && ready[0].nonce <= n < ready[0].nonce + |ready|
  {
    if ready != [] {
      var first, end := ready[0].nonce, ready[0].nonce + |ready|;
      forall m | first <= m < end ensures m in items {
        assert ready[m - first].nonce == m && Member(items, ready[m - first]);
      }
      assert first in items && first <= start by {
        var k :| k in items && k <= start;
        assert Member(items, ready[0]);
      }
      forall n <- items ensures RunsTo(items, n) <==> n < end {
        if end <= n {
          assert first in items && first <= end <= n && end !in items;
        }
      }
    }
  }

  /** What an account can still use of a waiting list. */
  ghost function Current(items: Items, account: Account): Items {
    Affordable(FromNonce(items, account.nonce), false, account.balance)
  }

  /** What is still usable: not yet spent, and within the balance by itself. */
  lemma CurrentMeans(items: Items, account: Account, n: nat)
    ensures n in Current(items, account) <==>
            n in items && account.nonce <= n && items[n].gasPrice * items[n].gas + items[n].value <= account.balance
    ensures n in Current(items, account) ==> Current(items, account)[n] == items[n]
  {
  }

  /** What promotion takes from a waiting list, and what it leaves there within the limit. */
  ghost function Due(items: Items, account: Account, start: nat): Items {
    Ready(Current(items, account), start)
  }

  ghost function Waiting(items: Items, account: Account, start: nat, limit: nat): Items {
    Lowest(NotReady(Current(items, account), start), limit)
  }

  /** The nonce and the heartbeat recorded for an account. */
  datatype Mark = Mark(nonce: nat, beat: int)

  /** What is recorded after promoting: one above the last transaction that took its place, and when. */
  ghost function Advanced(mark: Mark, base: Items, added: Items, now: int): Mark {
    var winners := Winners(base, added).Keys;
    if winners == {} then mark else Mark(Greatest(winners) + 1, now)
  }

  lemma AdvancedNone(mark: Mark, base: Items, now: int)
    ensures Advanced(mark, base, map[], now) == mark
  {
  }

  lemma AdvancedStep(mark: Mark, base: Items, added: Items, n: nat, tx: Tx, now: int)
    requires forall k <- added :: k < n
    ensures Advanced(mark, base, added[n := tx], now) ==
            if Wins(base, added[n := tx], n) then Mark(n + 1, now) else Advanced(mark, base, added, now)
  {
    var more := added[n := tx];
    assert Winners(base, more).Keys == Winners(base, added).Keys + if Wins(base, more, n) then {n} else {};
  }

  /** The nonce recorded drops exactly if something takes a place and all that does is below it: replacing an executable
      transaction forgets the ones above. */
  lemma RecordedDrops(mark: Mark, base: Items, added: Items, now: int)
    ensures Advanced(mark, base, added, now).nonce < mark.nonce <==>
            Winners(base, added) != map[] && forall n <- Winners(base, added) :: n + 1 < mark.nonce
  {
    var winners := Winners(base, added).Keys;
    if winners != {} {
      assert Greatest(winners) in Winners(base, added);
    }
  }

  /** An account without a waiting list stays without one and has nothing due. */
  lemma NothingDue(account: Account, mark: Mark, limit: nat, base: Items, now: int)
    ensures Waiting(map[], account, mark.nonce, limit) == map[] && Due(map[], account, mark.nonce) == map[]
    ensures Merge(base, Due(map[], account, mark.nonce)) == base
    ensures Advanced(mark, base, Due(map[], account, mark.nonce), now) == mark
  {
    hide Lowest;
    assert Current(map[], account) == map[];
    assert NotReady(map[], mark.nonce) == map[];
    LowestKeeps(map[], limit);
  }

  /** What waits is not due, and is as tidy as the limit. */
  lemma WaitingTidy(items: Items, account: Account, start: nat, limit: nat)
    ensures Tidy(Waiting(items, account, start, limit), account, limit)
    ensures Waiting(items, account, start, limit).Keys !! Due(items, account, start).Keys
    ensures Sub(Waiting(items, account, start, limit), items)
  {
    hide Lowest, Ready;
    LowestKeeps(NotReady(Current(items, account), start), limit);
  }

  /** What a demotion takes off an executable list besides what is stale or unaffordable: the rest, out of order. */
  ghost function Disordered(items: Items, account: Account): Items {
    var current := FromNonce(items, account.nonce);
    Lost(TxSortedMaps.Kept(current, CostAbove(account.balance)), Payable(current, account.balance))
  }

  /** The two lists of an account after a demotion. */
  ghost function Executable(state: Accounts, a: Address, p: Items, q: Items): (Items, Items) {
    var account := Get(state, a);
    (Payable(FromNonce(p, account.nonce), account.balance), Merge(q, Disordered(p, account)))
  }

  lemma ExecutableNone(state: Accounts, a: Address, q: Items)
    ensures Executable(state, a, map[], q) == (map[], q)
  {
    hide Merge;
    PayableNone(Get(state, a));
    assert Disordered(map[], Get(state, a)) == map[];
    MergeNone(q);
  }

  /** What the account could still pay for by itself waits again, unless something that pays as much does already. */
  lemma DemotedWaits(state: Accounts, a: Address, p: Items, q: Items, n: nat)
    requires Keyed(p) && n in p && Get(state, a).nonce <= n && Admission.Cost(p[n]) <= Get(state, a).balance
    ensures var (p', q') := Executable(state, a, p, q); n !in p' ==> n in q' && p[n].gasPrice <= q'[n].gasPrice
  {
    hide Payable;
    var account := Get(state, a);
    PayableSteps(p, account);
    if n !in Payable(FromNonce(p, account.nonce), account.balance) {
      assert n in Disordered(p, account) && Disordered(p, account)[n] == p[n];
    }
  }

  /** The nonce after the last executable transaction. */
  ghost function NextNonce(p: Items, account: Account): nat {
    if p == map[] then account.nonce else Greatest(p.Keys) + 1
  }

  /** An account after a reset to a new state. */
  ghost function Reset(state: Accounts, a: Address, p: Items, q: Items): (Items, Items, nat) {
    var (p', q') := Executable(state, a, p, q);
    (p', q', NextNonce(p', Get(state, a)))
  }

  /** What removing a nonce sends back to the queue: everything above it, if something is left below. */
  function Demoted(items: Items, nonce: nat): Items {
    if nonce in items && Without(items, true, nonce) != map[] then Above(items, nonce) else map[]
  }

  lemma DemotedAbsent(p: Items, q: Items, nonce: nat)
    ensures nonce !in p ==> Merge(q, Demoted(p, nonce)) == q && Outbid(q, Demoted(p, nonce)) == {}
  {
    MergeNone(q);
  }

  /** The nonce recorded after promotion is the one after the last executable transaction exactly if it was before and
      nothing takes a place, or no executable nonce is above all that does. */
  lemma RecordedNext(mark: Mark, base: Items, added: Items, now: int, account: Account)
    ensures Advanced(mark, base, added, now).nonce == NextNonce(Merge(base, added), account) <==>
            if Winners(base, added) == map[] then mark.nonce == NextNonce(base, account)
            else forall n <- base :: exists k :: k in Winners(base, added) && n <= k
  {
    var winners, all := Winners(base, added), Merge(base, added);
    forall n ensures n in winners <==> Wins(base, added, n) {
      assert n in winners <==> n in added && Wins(base, added, n);
    }
    assert all.Keys == base.Keys + winners.Keys;
    if winners == map[] {
      assert all == base;
    } else {
      var last := Greatest(winners.Keys);
      assert last in winners && last in all;
      if forall n <- base :: exists k :: k in winners && n <= k {
        assert forall n <- all :: n <= last;
      } else {
        var n :| n in base && forall k <- winners :: k < n;
        assert n in all;
      }
    }
  }

  /** A queue and the known transactions while new ones come in. */
  datatype Intake = Intake(queue: Lists, known: set<Tx>)

  /** The queue after admitting new transactions one by one: those known already or not in `ok` are refused, and one that
      does not outbid the waiting transaction with its nonce is ignored. */
  ghost function Taken(d: Intake, txs: seq<Tx>, ok: set<Tx>): Intake {
    if txs == [] then d
    else
      var d', tx := Taken(d, txs[..|txs| - 1], ok), txs[|txs| - 1];
      if tx in d'.known || tx !in ok || !Accepts(ListOf(d'.queue, tx.sender), tx) then d'
      else Intake(AddTo(d'.queue, tx), d'.known - Replaced(d'.queue, tx) + {tx})
  }

  /** The lists, recorded nonces and heartbeats of a pool. */
  datatype Snapshot = Snapshot(pending: Lists, queue: Lists, nonces: ManagedState, beats: map<Address, int>) {
    /** What concerns one account. */
    function At(a: Address): (Items, Items, Mark) {
      (ListOf(pending, a), ListOf(queue, a), Mark(nonces.GetNonce(a), Beat(beats, a)))
    }
  }

  const MAX_QUEUED_PER_ACCOUNT := 64

  /** What promotion makes of one account: the run that is due has moved, as far as it outbids what is there, the rest
      waits within the limit, and the nonce recorded is one above the last transaction that took its place. */
  ghost predicate Promoted(state: Accounts, now: int, s: Snapshot, s': Snapshot, a: Address) {
    var (base, list, mark) := s.At(a);
    var account := Get(state, a);
    var due := Due(list, account, mark.nonce);
    s'.At(a) ==
    (Merge(base, due), Waiting(list, account, mark.nonce, MAX_QUEUED_PER_ACCOUNT), Advanced(mark, base, due, now))
  }

  lemma PromotedSame(state: Accounts, now: int, s: Snapshot, t: Snapshot, s': Snapshot, t': Snapshot, a: Address)
    ensures s.At(a) == t.At(a) && s'.At(a) == t'.At(a) ==>
              (Promoted(state, now, s, s', a) <==> Promoted(state, now, t, t', a))
  {
    hide Merge, Due, Waiting, Advanced;
  }

  lemma PromotedNone(state: Accounts, now: int, s: Snapshot, a: Address)
    requires a !in s.queue
    ensures Promoted(state, now, s, s, a)
  {
    hide Merge, Due, Waiting, Advanced;
    NothingDue(Get(state, a), s.At(a).2, MAX_QUEUED_PER_ACCOUNT, ListOf(s.pending, a), now);
  }

  /** All waiting lists after promotion. */
  ghost function WaitingLists(q: Lists, state: Accounts, nonces: ManagedState): Lists {
    map a | a in q && Waits(q, state, nonces, a) != map[] :: Waits(q, state, nonces, a)
  }

  ghost function Waits(q: Lists, state: Accounts, nonces: ManagedState, a: Address): Items {
    Waiting(ListOf(q, a), Get(state, a), nonces.GetNonce(a), MAX_QUEUED_PER_ACCOUNT)
  }

  lemma WaitingEverywhere(state: Accounts, now: int, s: Snapshot, s': Snapshot)
    requires NonEmpty(s'.queue) && forall a :: Promoted(state, now, s, s', a)
    ensures s'.queue == WaitingLists(s.queue, state, s.nonces)
  {
    hide Waiting, Due, Merge, Advanced;
    var w := WaitingLists(s.queue, state, s.nonces);
    forall a ensures ListOf(s'.queue, a) == ListOf(w, a) {
      assert Promoted(state, now, s, s', a);
      NothingDue(Get(state, a), s.At(a).2, MAX_QUEUED_PER_ACCOUNT, map[], now);
    }
    SameLists(s'.queue, w);
  }

  lemma SameLists(l: Lists, l': Lists)
    requires NonEmpty(l) && NonEmpty(l') && forall a :: ListOf(l, a) == ListOf(l', a)
    ensures l == l'
  {
    forall a ensures a in l <==> a in l' {
      assert ListOf(l, a) == ListOf(l', a);
    }
    forall a <- l ensures l[a] == l'[a] {
      assert ListOf(l, a) == ListOf(l', a);
    }
  }
}
