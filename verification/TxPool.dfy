/** The transaction pool: executable and waiting transactions per account, and the index of all. */
module TxPools {
  import opened ChainTypes
  import opened WorldState
  import opened SortedTxs
  import opened TxLists
  import opened PoolLists
  import opened Eviction
  import opened PoolSizes
  import opened Promotion
  import opened Overflow
  import Admission
  import TxSortedMaps

  datatype AddError = Known | Rejected(error: Admission.PoolError)

  datatype Event =
    | ChainHead(homestead: bool)
    | GasPriceChanged(price: int)
    | RemovedTransactions(txs: seq<Tx>)
    | NewTransaction(tx: Tx)
    | SetLocal(tx: Tx)
    | RemoveTransaction(tx: Tx)
    | GetPending
    | ExpirationTick

  class TxPool {
    var pending: Lists
    var queue: Lists
    var all: set<Tx>          // by hash, which determines the transaction
    var beats: map<Address, int>
    var pendingState: ManagedState
    var localTx: set<Tx>
    var minGasPrice: int
    var homestead: bool

    /** Listed transactions are known (or in `gone`), sit with their sender, and are in one list only. */
    ghost predicate Consistent(gone: set<Tx>)
      reads `pending, `queue, `all
    {
      Filed(pending, all + gone) && Filed(queue, all + gone) && Apart(pending, queue)
    }

    ghost predicate Valid()
      reads `pending, `queue, `all
    {
      Consistent({}) && NonEmpty(pending) && NonEmpty(queue)
    }

    /** The lists, recorded nonces and heartbeats. */
    ghost function Snap(): Snapshot
      reads `pending, `queue, `pendingState, `beats
    {
      Snapshot(pending, queue, pendingState, beats)
    }

    /** What is recorded for an account. */
    ghost function MarkOf(a: Address): Mark
      reads `pendingState, `beats
    {
      Mark(pendingState.GetNonce(a), Beat(beats, a))
    }

    /** The lists of an account. */
    ghost function BookOf(a: Address): Book
      reads `pending, `queue, `all
    {
      Book(ListOf(pending, a), ListOf(queue, a), all)
    }

    /** There are not too many executable transactions, or every account over its guaranteed share is local. */
    ghost predicate PendingLimited()
      reads `pending, `localTx
    {
      Limited(pending, localTx)
    }

    /** The waiting lists are within their limits and hold nothing outdated or unpayable. */
    ghost predicate QueueLimited(state: Accounts)
      reads `queue
    {
      && Size(queue) <= MAX_QUEUED_IN_TOTAL
      && forall a <- queue :: Tidy(queue[a], Get(state, a), MAX_QUEUED_PER_ACCOUNT)
    }

    constructor (base: Accounts)
      ensures Valid() && pending == map[] && queue == map[] && all == {} && pendingState == ManagedState(base, map[])
      ensures beats == map[] && localTx == {} && minGasPrice == 0 && !homestead
    {
      pending, queue, all, beats := map[], map[], {}, map[];
      pendingState := ManagedState(base, map[]);
      localTx, minGasPrice, homestead := {}, 0, false;
    }

    /** Puts a transaction in the waiting queue unless one with its nonce pays as much. */
    method EnqueueTx(tx: Tx, ghost gone: set<Tx>)
      requires Consistent(gone) && !Has(pending, tx)
      modifies `queue, `all
      ensures Consistent(gone) && queue == AddTo(old(queue), tx)
      ensures all == if Accepts(ListOf(old(queue), tx.sender), tx) then old(all) - Replaced(old(queue), tx) + {tx} else old(all)
      ensures old(NonEmpty(queue)) ==> NonEmpty(queue)
    {
      var list: Items := ListOf(queue, tx.sender);
      if !Accepts(list, tx) {
        return;
      }
      AddKeeps(pending, queue, all + gone, tx);
      if tx.nonce in list {
        all := all - {list[tx.nonce]};
      }
      queue := queue[tx.sender := list[tx.nonce := tx]];
      all := all + {tx};
    }

    /** Puts a transaction in the executable list, or forgets it if one with its nonce pays as much. */
    method PromoteTx(tx: Tx, now: int)
      requires Consistent({}) && !Has(queue, tx) && !Has(pending, tx)
      modifies `pending, `all, `beats, `pendingState
      ensures Consistent({}) && pending == AddTo(old(pending), tx)
      ensures all == if Accepts(ListOf(old(pending), tx.sender), tx) then old(all) - Replaced(old(pending), tx) + {tx}
                     else old(all) - {tx}
      ensures pendingState == if Accepts(ListOf(old(pending), tx.sender), tx)
                              then old(pendingState).SetNonce(tx.sender, tx.nonce + 1) else old(pendingState)
      ensures beats == if Accepts(ListOf(old(pending), tx.sender), tx) then old(beats)[tx.sender := now] else old(beats)
      ensures old(NonEmpty(pending)) ==> NonEmpty(pending)
    {
      var list: Items := ListOf(pending, tx.sender);
      if !Accepts(list, tx) {
        ForgetKeeps(pending, all, {tx});
        ForgetKeeps(queue, all, {tx});
        all := all - {tx};
        return;
      }
      AddKeeps(queue, pending, all, tx);
      if tx.nonce in list {
        all := all - {list[tx.nonce]};
      }
      pending := pending[tx.sender := list[tx.nonce := tx]];
      all := all + {tx};
      beats := beats[tx.sender := now];
      pendingState := pendingState.SetNonce(tx.sender, tx.nonce + 1);
    }

    /** Queues transactions of one account that are no longer executable. */
    method EnqueueAll(a: Address, items: Items, ghost gone: set<Tx>)
      requires Consistent(gone)
      requires forall n <- items ::
                 items[n].nonce == n && items[n].sender == a && !Has(pending, items[n]) && items[n] in all
      modifies `queue, `all
      ensures Consistent(gone) && (old(NonEmpty(queue)) ==> NonEmpty(queue))
      ensures forall b | b != a :: ListOf(queue, b) == ListOf(old(queue), b)
      ensures ListOf(queue, a) == Merge(ListOf(old(queue), a), items)
      ensures all == old(all) - Outbid(ListOf(old(queue), a), items)
    {
      hide Filed, Apart, NonEmpty, Merge, Outbid;
      ghost var base: Items := ListOf(queue, a);
      if a in queue {
        FiledKeyed(queue, all + gone, a);
      }
      hide Consistent;
      var rest, done: Items := items.Keys, map[];
      MergeNone(base);
      while rest != {}
        invariant rest <= items.Keys && done == items - rest
        invariant Consistent(gone) && (old(NonEmpty(queue)) ==> NonEmpty(queue))
        invariant forall b | b != a :: ListOf(queue, b) == ListOf(old(queue), b)
        invariant ListOf(queue, a) == Merge(base, done) && all == old(all) - Outbid(base, done)
        decreases rest
      {
        var n :| n in rest;
        MergeStep(base, done, n, items[n]);
        assert items - (rest - {n}) == done[n := items[n]];
        if items[n] in Outbid(base, done) {
          OutbidNonces(base, done, items[n]);
        }
        EnqueueTx(items[n], gone);
        rest, done := rest - {n}, done[n := items[n]];
      }
      assert items - {} == items;
    }

    /** Removes a transaction.  Executable transactions of the account above its nonce go back to the queue,
        unless none below it is left: then they are in no list any more, although they stay known. */
    method RemoveTx(tx: Tx)
      requires Valid()
      modifies `pending, `queue, `all, `beats, `pendingState
      ensures Valid()
      ensures tx !in old(all) ==>
                pending == old(pending) && queue == old(queue) && all == old(all) && pendingState == old(pendingState)
      ensures forall a | a != tx.sender ::
                && ListOf(pending, a) == ListOf(old(pending), a) && ListOf(queue, a) == ListOf(old(queue), a)
                && Beat(beats, a) == Beat(old(beats), a)
      ensures tx in old(all) ==>
                var p, q := ListOf(old(pending), tx.sender), ListOf(old(queue), tx.sender);
                && ListOf(pending, tx.sender) == Without(p, true, tx.nonce)
                && ListOf(queue, tx.sender) == Merge(q, Demoted(p, tx.nonce)) - {tx.nonce}
                && all == old(all) - {tx} - Outbid(q, Demoted(p, tx.nonce))
                && pendingState == if tx.nonce in p then old(pendingState).Lowered(tx.sender, tx.nonce) else old(pendingState)
    {
      if tx !in all {
        return;
      }
      hide Filed, Apart, NonEmpty, Without, Merge, Outbid, Demoted;
      ghost var p: Items, q: Items := ListOf(pending, tx.sender), ListOf(queue, tx.sender);
      WithoutAbsent(p, tx.nonce);
      DemotedAbsent(p, q, tx.nonce);
      var addr := tx.sender;
      all := all - {tx};
      assert Consistent({tx}) by {
        assert all + {tx} == old(all) + {};
      }
      hide Consistent;
      if addr in pending && tx.nonce in pending[addr] {
        DemoteAbove(tx);
      }
      DropQueued(tx);
    }

    /** Takes a nonce out of the queue, after which the forgotten transaction is in no list. */
    method DropQueued(tx: Tx)
      requires Consistent({tx}) && NonEmpty(queue) && tx !in all && tx.nonce !in ListOf(pending, tx.sender)
      modifies `queue
      ensures Consistent({}) && NonEmpty(queue)
      ensures forall a | a != tx.sender :: ListOf(queue, a) == ListOf(old(queue), a)
      ensures ListOf(queue, tx.sender) == ListOf(old(queue), tx.sender) - {tx.nonce}
    {
      hide Filed, Apart, NonEmpty;
      var addr := tx.sender;
      if addr in queue {
        ShrinkKeeps(pending, queue, all + {tx}, addr, queue[addr] - {tx.nonce});
        queue := Replace(queue, addr, queue[addr] - {tx.nonce});
      }
      NonceGone(pending, tx);
      NonceGone(queue, tx);
      ForgetKeeps(pending, all + {tx}, {tx});
      ForgetKeeps(queue, all + {tx}, {tx});
      assert all + {tx} - {tx} == all + {};
    }

    /** Takes a nonce out of the executable list and sends what is above it back to the queue. */
    method DemoteAbove(tx: Tx)
      requires Consistent({tx}) && NonEmpty(pending) && NonEmpty(queue) && tx !in all
      requires tx.sender in pending && tx.nonce in pending[tx.sender]
      modifies `pending, `queue, `all, `beats, `pendingState
      ensures Consistent({tx}) && NonEmpty(pending) && NonEmpty(queue)
      ensures forall a | a != tx.sender ::
                && ListOf(pending, a) == ListOf(old(pending), a) && ListOf(queue, a) == ListOf(old(queue), a)
                && Beat(beats, a) == Beat(old(beats), a)
      ensures var p, q := ListOf(old(pending), tx.sender), ListOf(old(queue), tx.sender);
              && ListOf(pending, tx.sender) == Without(p, true, tx.nonce) && tx.nonce !in ListOf(pending, tx.sender)
              && ListOf(queue, tx.sender) == Merge(q, Demoted(p, tx.nonce)) && all == old(all) - Outbid(q, Demoted(p, tx.nonce))
              && pendingState == old(pendingState).Lowered(tx.sender, tx.nonce)
    {
      hide Filed, Apart, NonEmpty, Without, Replace, Merge, Outbid;
      WithoutAbsent(pending[tx.sender], tx.nonce);
      ReplaceLists(pending, tx.sender, Without(pending[tx.sender], true, tx.nonce));
      MergeNone(ListOf(queue, tx.sender));
      var addr := tx.sender;
      var list: Items := pending[addr];
      var left := Without(list, true, tx.nonce);
      var invalids := Above(list, tx.nonce);
      Invalidated(pending, all + {tx}, tx);
      ApartBoth(pending, queue);
      ShrinkKeeps(queue, pending, all + {tx}, addr, left);
      pending := Replace(pending, addr, left);
      if left == map[] {
        beats := beats - {addr};
      } else {
        EnqueueAll(addr, invalids, {tx});
      }
      if pendingState.GetNonce(addr) > tx.nonce {
        pendingState := pendingState.SetNonce(addr, tx.nonce);
      }
    }

    /** Shortens a waiting list and forgets what it loses. */
    method ShrinkQueue(addr: Address, items: Items)
      requires Consistent({}) && Sub(items, ListOf(queue, addr))
      modifies `queue, `all
      ensures Consistent({}) && queue == old(queue)[addr := items] && all <= old(all)
    {
      hide Filed, Apart;
      assert all + {} == all;
      ShrinkKeeps(pending, queue, all, addr, items);
      LeftNotListed(pending, queue, all, addr, items);
      ForgetKeeps(pending, all, Left(ListOf(queue, addr), items));
      ForgetKeeps(queue[addr := items], all, Left(ListOf(queue, addr), items));
      all := all - Left(ListOf(queue, addr), items);
      queue := queue[addr := items];
      assert all + {} == all;
    }

    /** Promotes a run of transactions of one account that have just left its waiting list. */
    method PromoteAll(addr: Address, ready: seq<Tx>, now: int, ghost run: Items)
      requires Consistent({}) && NonEmpty(pending)
      requires forall i | 0 <= i < |ready| ::
                 && ready[i].sender == addr && ready[i].nonce == ready[0].nonce + i
                 && !Has(queue, ready[i]) && !Has(pending, ready[i]) && Member(run, ready[i]) && ready[i] in all
      requires forall n <- run :: ready != [] && ready[0].nonce <= n < ready[0].nonce + |ready|
      modifies `pending, `all, `beats, `pendingState
      ensures Consistent({}) && NonEmpty(pending) && all <= old(all)
      ensures forall a | a != addr ::
                ListOf(pending, a) == ListOf(old(pending), a) && MarkOf(a) == old(MarkOf(a))
      ensures ListOf(pending, addr) == Merge(ListOf(old(pending), addr), run)
      ensures MarkOf(addr) == Advanced(old(MarkOf(addr)), ListOf(old(pending), addr), run, now)
    {
      hide Consistent, NonEmpty, Merge, Advanced, Has, AddTo, Accepts, Wins;
      ghost var base: Items, mark, done: Items := ListOf(pending, addr), MarkOf(addr), map[];
      MergeNone(base);
      AdvancedNone(mark, base, now);
      for k := 0 to |ready|
        invariant Consistent({}) && NonEmpty(pending) && all <= old(all)
        invariant forall a | a != addr :: ListOf(pending, a) == ListOf(old(pending), a)
                                          && MarkOf(a) == old(MarkOf(a))
        invariant forall i | k <= i < |ready| :: !Has(pending, ready[i])
        invariant done == map n | n in run && n < ready[0].nonce + k :: run[n]
        invariant ListOf(pending, addr) == Merge(base, done) && MarkOf(addr) == Advanced(mark, base, done, now)
      {
        var tx := ready[k];
        MergedStep(pending, base, done, tx);
        AdvancedStep(mark, base, done, tx.nonce, tx, now);
        forall i | k < i < |ready| ensures !Has(AddTo(pending, tx), ready[i]) {
          StillAbsent(pending, tx, ready[i]);
        }
        PromoteTx(tx, now);
        done := done[tx.nonce := tx];
      }
      assert done == run;
    }

    /** Moves the run of nonces that is due from a waiting list to the executable list. */
    method PromoteReady(addr: Address, now: int)
      requires Consistent({}) && NonEmpty(pending) && addr in queue
      modifies `pending, `queue, `all, `beats, `pendingState
      ensures Consistent({}) && NonEmpty(pending) && addr in queue && all <= old(all)
      ensures forall a | a != addr ::
                ListOf(pending, a) == ListOf(old(pending), a) && MarkOf(a) == old(MarkOf(a))
      ensures var base, list, mark := ListOf(old(pending), addr), old(queue)[addr], old(MarkOf(addr));
              && queue == old(queue)[addr := NotReady(list, mark.nonce)]
              && ListOf(pending, addr) == Merge(base, Ready(list, mark.nonce))
              && MarkOf(addr) == Advanced(mark, base, Ready(list, mark.nonce), now)
    {
      hide Filed, Apart, NonEmpty, Sub, FromNonce, Member, Ready, NotReady, Merge, Advanced;
      var list: Items := queue[addr];
      FiledKeyed(queue, all + {}, addr);
      ghost var start := pendingState.GetNonce(addr);
      var ready, waiting := TakeReady(list, pendingState.GetNonce(addr));
      ReadyRest(list, ready, waiting);
      ReadyListing(list, start, ready, waiting);
      forall i | 0 <= i < |ready|
        ensures ready[i].sender == addr && ready[i] in all && !Has(pending, ready[i]) && !Has(queue[addr := waiting], ready[i])
      {
        TakenFree(pending, queue, all + {}, addr, waiting, ready[i]);
      }
      ShrinkKeeps(pending, queue, all + {}, addr, waiting);
      queue := queue[addr := waiting];
      PromoteAll(addr, ready, now, Ready(list, start));
    }

    /** Tidies one waiting list and promotes what has become executable. */
    method PromoteAccount(state: Accounts, addr: Address, now: int)
      requires Valid() && addr in queue
      modifies `pending, `queue, `all, `beats, `pendingState
      ensures Valid() && all <= old(all)
      ensures forall a | a != addr ::
                && ListOf(queue, a) == ListOf(old(queue), a) && ListOf(pending, a) == ListOf(old(pending), a)
                && MarkOf(a) == old(MarkOf(a))
      ensures Promoted(state, now, old(Snap()), Snap(), addr)
      ensures queue == Replace(old(queue), addr, ListOf(queue, addr))
    {
      hide Consistent, NonEmpty, Sub, Tidy, Affordable, FromNonce, Lowest, Replace, Ready, NotReady, Merge, Advanced;
      ghost var before: Lists, account, start := queue, Get(state, addr), pendingState.GetNonce(addr);
      DropUnpayable(state, addr);
      PromoteReady(addr, now);
      assert queue == before[addr := queue[addr]];
      LowestKeeps(queue[addr], MAX_QUEUED_PER_ACCOUNT);
      LowestSub(queue[addr], MAX_QUEUED_PER_ACCOUNT);
      CapAccount(addr, before);
    }

    /** Drops the highest nonces over the limit, and the list if nothing is left. */
    method CapAccount(addr: Address, ghost before: Lists)
      requires Consistent({}) && addr in queue && queue == before[addr := queue[addr]]
      requires Sub(Lowest(queue[addr], MAX_QUEUED_PER_ACCOUNT), queue[addr])
      modifies `queue, `all
      ensures Consistent({}) && all <= old(all) && (NonEmpty(before) ==> NonEmpty(queue))
      ensures ListOf(queue, addr) == Lowest(old(queue)[addr], MAX_QUEUED_PER_ACCOUNT)
      ensures queue == Replace(before, addr, ListOf(queue, addr))
      ensures forall a | a != addr :: ListOf(queue, a) == ListOf(before, a)
    {
      hide Consistent, NonEmpty, Sub, Lowest, Replace;
      var capped := CapTo(queue[addr], MAX_QUEUED_PER_ACCOUNT);
      ShrinkQueue(addr, capped);
      assert queue == before[addr := capped];
      DropEmptyQueue(addr, before);
    }

    /** Drops the waiting list of an account if it is empty. */
    method DropEmptyQueue(addr: Address, ghost before: Lists)
      requires Consistent({}) && addr in queue && queue == before[addr := queue[addr]]
      modifies `queue
      ensures Consistent({}) && (NonEmpty(before) ==> NonEmpty(queue))
      ensures ListOf(queue, addr) == old(queue)[addr] && queue == Replace(before, addr, old(queue)[addr])
      ensures forall a | a != addr :: ListOf(queue, a) == ListOf(before, a)
    {
      hide Filed, Apart, NonEmpty, Replace;
      DropEmpty(before, queue, addr, pending, all + {});
      if queue[addr] == map[] {
        queue := queue - {addr};
      }
    }

    /** Drops the waiting transactions that are stale or that the balance does not cover. */
    method DropUnpayable(state: Accounts, addr: Address)
      requires Consistent({}) && addr in queue
      modifies `queue, `all
      ensures var account := Get(state, addr);
              queue == old(queue)[addr := Affordable(FromNonce(old(queue)[addr], account.nonce), false, account.balance)]
      ensures Consistent({}) && all <= old(all)
    {
      hide Consistent, Sub, FromNonce, Affordable, Tidy;
      var account: Account := Get(state, addr);
      var list: Items := queue[addr];
      var fresh' := FromNonce(list, account.nonce);
      var paid := Affordable(fresh', false, account.balance);
      SubSame(paid);
      TidySteps(list, account, paid, MAX_QUEUED_PER_ACCOUNT);
      ShrinkQueue(addr, fresh');
      ShrinkQueue(addr, paid);
    }

    /** Goes over all waiting lists in any order and counts what stays. */
    method PromoteQueued(state: Accounts, now: int) returns (queued: nat)
      requires Valid()
      modifies `pending, `queue, `all, `beats, `pendingState
      ensures Valid() && all <= old(all) && queued == Size(queue)
      ensures queue == WaitingLists(old(queue), state, old(pendingState))
      ensures forall a :: Promoted(state, now, old(Snap()), Snap(), a)
    {
      hide Size, Replace, Consistent, NonEmpty, Promoted, WaitingLists;
      ghost var start := Snap();
      queued := 0;
      var rest := queue.Keys;
      assert queue - rest == map[];
      SizeNone();
      forall a | a !in rest ensures Promoted(state, now, start, Snap(), a) {
        PromotedNone(state, now, start, a);
      }
      while rest != {}
        invariant Valid() && all <= old(all) && rest <= queue.Keys && queued == Size(queue - rest)
        invariant forall a <- rest :: start.At(a) == Snap().At(a)
        invariant forall a | a !in rest :: Promoted(state, now, start, Snap(), a)
        decreases rest
      {
        var addr :| addr in rest;
        ghost var before := Snap();
        PromoteAccount(state, addr, now);
        SizeStep(before.queue, rest, addr, ListOf(queue, addr));
        ReplaceKeys(before.queue, addr, ListOf(queue, addr));
        queued := queued + |ListOf(queue, addr)|;
        rest := rest - {addr};
        forall a | a !in rest ensures Promoted(state, now, start, Snap(), a) {
          if a == addr {
            PromotedSame(state, now, before, start, Snap(), Snap(), a);
          } else {
            PromotedSame(state, now, start, start, before, Snap(), a);
          }
        }
      }
      assert queue - {} == queue;
      WaitingEverywhere(state, now, start, Snap());
    }

    /** Cuts the executable lists if there are too many; what is cut stays known. */
    method EvictPending() returns (ghost candidates: set<Address>, ghost level: nat)
      requires Valid()
      modifies `pending
      ensures Valid() && Evicted(old(pending), localTx, pending, candidates, level)
      ensures PendingLimited()
    {
      hide Filed, Apart, NonEmpty, Lowest, Sub, Limited, Size;
      ghost var before: Lists := pending;
      pending, candidates, level := Evict(pending, localTx);
      CutKeeps(before, queue, all + {}, candidates, level);
    }

    /** Removes transactions of one account, one by one. */
    method RemoveAll(addr: Address, txs: seq<Tx>)
      requires Valid() && forall tx <- txs :: tx.sender == addr
      modifies `pending, `queue, `all, `beats, `pendingState
      ensures Valid() && BookOf(addr) == RemovedAll(old(BookOf(addr)), txs) && all <= old(all)
      ensures forall a | a != addr ::
                && ListOf(pending, a) == ListOf(old(pending), a) && ListOf(queue, a) == ListOf(old(queue), a)
                && Beat(beats, a) == Beat(old(beats), a)
    {
      hide Consistent, NonEmpty, Without, Merge, Outbid, Demoted;
      assert txs[..0] == [];
      for k := 0 to |txs|
        invariant Valid() && BookOf(addr) == RemovedAll(old(BookOf(addr)), txs[..k]) && all <= old(all)
        invariant forall a | a != addr ::
                    && ListOf(pending, a) == ListOf(old(pending), a) && ListOf(queue, a) == ListOf(old(queue), a)
                    && Beat(beats, a) == Beat(old(beats), a)
      {
        RemovedLast(old(BookOf(addr)), txs, k);
        RemoveTx(txs[k]);
      }
      assert txs[..|txs|] == txs;
    }

    /** Drops waiting transactions over the total limit, account by account from the latest heartbeat back: the limit
        goes to the accounts in the order of their heartbeats.  There is always another account to take from. */
    method DropOverflow(queued: nat) returns (ghost order: seq<Address>)
      requires Valid() && queued == Size(queue)
      modifies `pending, `queue, `all, `beats, `pendingState
      ensures Valid() && all <= old(all)
      ensures queued <= MAX_QUEUED_IN_TOTAL ==>
                Snap() == old(Snap()) && all == old(all)
      ensures queued > MAX_QUEUED_IN_TOTAL ==>
                && ByBeat(old(queue), old(beats), order) && Overflowed(old(Snap()), Snap(), order)
                && MAX_QUEUED_IN_TOTAL <= Size(queue)
                && (Size(queue) == MAX_QUEUED_IN_TOTAL <==> NoneSpills(old(Snap()), order, |order|))
    {
      order := [];
      if queued <= MAX_QUEUED_IN_TOTAL {
        return;
      }
      hide Consistent, NonEmpty, Size, Distinct, NoneSpills, Overflowed, Dropping;
      ghost var start := Snap();
      var addresses := ByHeartbeat(queue, beats);
      order := addresses;
      DroppingStart(start, order);
      DropLatest(addresses, queued - MAX_QUEUED_IN_TOTAL);
      OverflowedSize(start, Snap(), order);
    }

    /** Drops waiting transactions of the last accounts until there are few enough. */
    method DropLatest(order: seq<Address>, excess: nat)
      requires Valid() && Covers(queue, order) && Dropping(Snap(), Snap(), order, |order|, excess)
      modifies `pending, `queue, `all, `beats, `pendingState
      ensures Valid() && all <= old(all) && Overflowed(old(Snap()), Snap(), order)
    {
      hide Consistent, NonEmpty, Dropped, Dropping, Covers, Overflowed;
      ghost var start := Snap();
      NonEmptyLists(queue);
      var addresses, drop := order, excess;
      while drop > 0
        invariant Valid() && all <= old(all) && |addresses| <= |order| && addresses == order[..|addresses|]
        invariant Dropping(start, Snap(), order, |addresses|, drop)
        decreases |addresses|
      {
        DroppingSome(start, Snap(), order, |addresses|, drop);
        var addr := addresses[|addresses| - 1];
        addresses := addresses[..|addresses| - 1];
        ghost var before := Snap();
        var dropped := DropFrom(addr, drop);
        DroppingStep(start, before, Snap(), order, |addresses|, drop);
        drop := drop - dropped;
      }
      DroppingDone(start, Snap(), order, |addresses|);
    }

    /** Drops up to `drop` waiting transactions of one account, highest nonces first unless all are dropped. */
    method DropFrom(addr: Address, drop: nat) returns (dropped: nat)
      requires Valid() && ListOf(queue, addr) != map[] && 0 < drop
      modifies `pending, `queue, `all, `beats, `pendingState
      ensures Valid() && all <= old(all)
      ensures dropped == if |ListOf(old(queue), addr)| <= drop then |ListOf(old(queue), addr)| else drop
      ensures (ListOf(pending, addr), ListOf(queue, addr)) ==
              Dropped(ListOf(old(pending), addr), ListOf(old(queue), addr), |ListOf(old(queue), addr)| - dropped)
      ensures forall a | a != addr ::
                ListOf(pending, a) == ListOf(old(pending), a) && ListOf(queue, a) == ListOf(old(queue), a)
    {
      hide Consistent, NonEmpty, Sorted, Dropped, RemovedAll;
      var list: Items := queue[addr];
      assert Keyed(list) && BookOf(addr).Valid() && forall tx <- Sorted(list) :: tx.sender == addr by { ListedBook(addr); }
      RemovedIsDropped(BookOf(addr), drop);
      var txs := Flatten(list);
      if |list| <= drop {
        RemoveAll(addr, txs);
        dropped := |list|;
      } else {
        RemoveAll(addr, Tail(txs, drop));
        dropped := drop;
      }
    }

    /** The listing of a waiting list. */
    lemma ListedBook(addr: Address)
      requires Valid()
      ensures Keyed(ListOf(queue, addr)) && BookOf(addr).Valid()
      ensures forall tx <- Sorted(ListOf(queue, addr)) :: tx.sender == addr
    {
      hide Sorted;
      SortedListing(ListOf(queue, addr));
    }

    /** Promotes what is executable and enforces the limits. */
    method PromoteExecutables(state: Accounts, now: int) returns (ghost r: Passage)
      requires Valid()
      modifies `pending, `queue, `all, `beats, `pendingState
      ensures Valid() && all <= old(all) && Enforced(state, localTx, now, old(Snap()), r, Snap())
      ensures Size(queue) <= MAX_QUEUED_IN_TOTAL <==>
              Size(r.promoted.queue) <= MAX_QUEUED_IN_TOTAL || NoneSpills(r.evicted, r.order, |r.order|)
      ensures Unclashed(state, old(Snap())) ==> QueueLimited(state) && PendingLimited()
    {
      hide Consistent, NonEmpty, Size, Overflowed, Promoted, WaitingLists, Covers, NoneSpills, Evicted;
      ghost var start := Snap();
      var queued := PromoteQueued(state, now);
      ghost var promoted := Snap();
      ghost var candidates, level;
      candidates, level := EvictPending();
      ghost var evicted := Snap();
      ghost var order := DropOverflow(queued);
      r := Passage(promoted, evicted, candidates, level, order);
      EnforcedSize(state, localTx, now, start, r, Snap());
      if Unclashed(state, start) {
        EnforcedApart(state, localTx, now, start, r, Snap());
      }
    }

    /** Shortens an executable list and forgets what it loses. */
    method ShrinkPending(addr: Address, items: Items)
      requires Consistent({}) && Sub(items, ListOf(pending, addr))
      modifies `pending, `all
      ensures Consistent({}) && pending == old(pending)[addr := items] && all <= old(all)
    {
      hide Filed, Apart;
      assert all + {} == all;
      ApartBoth(pending, queue);
      ShrinkKeeps(queue, pending, all, addr, items);
      LeftNotListed(queue, pending, all, addr, items);
      ForgetKeeps(queue, all, Left(ListOf(pending, addr), items));
      ForgetKeeps(pending[addr := items], all, Left(ListOf(pending, addr), items));
      all := all - Left(ListOf(pending, addr), items);
      pending := pending[addr := items];
      assert all + {} == all;
    }

    /** Sends the part of an executable list outside `payable` back to the queue. */
    method DemoteInvalid(addr: Address, payable: Items)
      requires Consistent({}) && NonEmpty(queue) && addr in pending && Sub(payable, pending[addr])
      modifies `pending, `queue, `all
      ensures Consistent({}) && all <= old(all) && NonEmpty(queue) && pending == old(pending)[addr := payable]
      ensures forall a | a != addr :: ListOf(queue, a) == ListOf(old(queue), a)
      ensures ListOf(queue, addr) == Merge(ListOf(old(queue), addr), Lost(old(pending)[addr], payable))
    {
      hide Filed, Apart, NonEmpty, Sub, Merge, Outbid;
      var invalids := Lost(pending[addr], payable);
      LostFree(pending, all + {}, addr, payable);
      ApartBoth(pending, queue);
      ShrinkKeeps(queue, pending, all + {}, addr, payable);
      pending := pending[addr := payable];
      EnqueueAll(addr, invalids, {});
    }

    /** Removes an executable list that has become empty. */
    method DropEmptyPending(addr: Address, ghost before: Lists)
      requires Consistent({}) && addr in pending && pending == before[addr := pending[addr]]
      modifies `pending, `beats
      ensures Consistent({}) && (NonEmpty(before) ==> NonEmpty(pending)) && pending.Keys <= before.Keys + {addr}
      ensures ListOf(pending, addr) == old(pending)[addr]
      ensures forall a | a != addr :: ListOf(pending, a) == ListOf(before, a)
    {
      hide Filed, Apart, NonEmpty, Replace;
      ApartBoth(pending, queue);
      DropEmpty(before, pending, addr, queue, all + {});
      if pending[addr] == map[] {
        pending := pending - {addr};
        beats := beats - {addr};
      }
      ApartBoth(queue, pending);
    }

    /** Removes from one executable list what is stale or unaffordable; what becomes unexecutable by that goes
        back to the queue. */
    method DemoteAccount(state: Accounts, addr: Address)
      requires Valid() && addr in pending
      modifies `pending, `queue, `all, `beats
      ensures Valid() && all <= old(all)
      ensures forall a | a != addr ::
                ListOf(pending, a) == ListOf(old(pending), a) && ListOf(queue, a) == ListOf(old(queue), a)
      ensures Executable(state, addr, ListOf(old(pending), addr), ListOf(old(queue), addr)) ==
              (ListOf(pending, addr), ListOf(queue, addr))
      ensures pending.Keys <= old(pending).Keys
    {
      hide Filed, Apart, NonEmpty, Sub, FromNonce, Payable, TxSortedMaps.Kept, Affordable, Merge, Lost;
      var account: Account := Get(state, addr);
      ghost var before: Lists := pending;
      var fresh' := FromNonce(pending[addr], account.nonce);
      var cheap := TxSortedMaps.Kept(fresh', CostAbove(account.balance));
      var payable := Payable(fresh', account.balance);
      PayableSteps(pending[addr], account);
      ShrinkPending(addr, fresh');
      ShrinkPending(addr, cheap);
      DemoteInvalid(addr, payable);
      assert pending == before[addr := payable];
      DropEmptyPending(addr, before);
    }

    /** Goes over all executable lists; what is left is current and payable in nonce order. */
    method DemoteUnexecutables(state: Accounts)
      requires Valid()
      modifies `pending, `queue, `all, `beats
      ensures Valid() && all <= old(all)
      ensures forall a :: Executable(state, a, ListOf(old(pending), a), ListOf(old(queue), a)) ==
                          (ListOf(pending, a), ListOf(queue, a))
    {
      hide Consistent, NonEmpty, Executable;
      var rest := pending.Keys;
      forall a | a !in rest
        ensures Executable(state, a, ListOf(pending, a), ListOf(queue, a)) == (ListOf(pending, a), ListOf(queue, a))
      {
        ExecutableNone(state, a, ListOf(queue, a));
      }
      while rest != {}
        invariant Valid() && all <= old(all) && rest <= old(pending).Keys
        invariant forall a <- rest :: a in pending && pending[a] == old(pending)[a] && ListOf(queue, a) == ListOf(old(queue), a)
        invariant forall a | a !in rest :: Executable(state, a, ListOf(old(pending), a), ListOf(old(queue), a)) ==
                                           (ListOf(pending, a), ListOf(queue, a))
        decreases rest
      {
        var addr :| addr in rest;
        ghost var before: Lists := pending;
        NonEmptyLists(pending);
        DemoteAccount(state, addr);
        rest := rest - {addr};
        forall a <- rest ensures a in pending && pending[a] == old(pending)[a] {
          assert ListOf(pending, a) == ListOf(before, a) != map[];
        }
      }
    }

    /** Drops the waiting list of an account that has been idle for too long. */
    method ExpireAccount(addr: Address, now: int)
      requires Valid()
      modifies `pending, `queue, `all, `beats, `pendingState
      ensures Valid() && all <= old(all)
      ensures Expired(now - Beat(old(beats), addr), old(Snap()), Snap(), addr)
      ensures addr !in old(queue) || now - Beat(old(beats), addr) <= MAX_QUEUED_LIFETIME ==>
                pending == old(pending) && queue == old(queue) && all == old(all)
      ensures forall a | a != addr ::
                && ListOf(pending, a) == ListOf(old(pending), a) && ListOf(queue, a) == ListOf(old(queue), a)
                && Beat(beats, a) == Beat(old(beats), a)
    {
      hide Consistent, NonEmpty, Sorted, Dropped, RemovedAll;
      if addr in queue && now - Beat(beats, addr) > MAX_QUEUED_LIFETIME {
        var list: Items := queue[addr];
        assert Keyed(list) && BookOf(addr).Valid() && forall tx <- Sorted(list) :: tx.sender == addr by { ListedBook(addr); }
        RemovedIsDropped(BookOf(addr), |list| + 1);
        var txs := Flatten(list);
        RemoveAll(addr, txs);
      } else if addr !in queue {
        ExpiredNone(now - Beat(beats, addr), Snap(), addr);
      }
    }

    /** Why a transaction is not admitted. */
    function Refusal(tx: Tx, state: Accounts, gasLimit: int): Option<AddError>
      reads `all, `localTx, `minGasPrice, `homestead
    {
      if tx in all then Some(Known)
      else
        var e := Admission.ValidateTx(tx in localTx, minGasPrice, state, gasLimit, homestead, tx);
        if e.Some? then Some(Rejected(e.value)) else None
    }

    /** Admits a transaction to the queue if it is new and valid. */
    method AddTx(tx: Tx, state: Accounts, gasLimit: int) returns (err: Option<AddError>)
      requires Valid()
      modifies `queue, `all
      ensures Valid()
      ensures err == old(Refusal(tx, state, gasLimit))
      ensures queue == if err.None? then AddTo(old(queue), tx) else old(queue)
      ensures all == if err.None? && Accepts(ListOf(old(queue), tx.sender), tx) then old(all) - Replaced(old(queue), tx) + {tx}
                     else old(all)
    {
      if tx in all {
        return Some(Known);
      }
      var e := Admission.ValidateTx(tx in localTx, minGasPrice, state, gasLimit, homestead, tx);
      if e.Some? {
        return Some(Rejected(e.value));
      }
      EnqueueTx(tx, {});
      return None;
    }

    /** Adds a transaction and promotes what has become executable. */
    method Add(tx: Tx, state: Accounts, gasLimit: int, now: int) returns (err: Option<AddError>, ghost r: Passage)
      requires Valid()
      modifies `pending, `queue, `all, `beats, `pendingState
      ensures Valid()
      ensures err == old(Refusal(tx, state, gasLimit)) && (err.Some? ==> Snap() == old(Snap()) && all == old(all))
      ensures err.None? ==>
                var added := Snapshot(old(pending), AddTo(old(queue), tx), old(pendingState), old(beats));
                && all <= old(all) + {tx} && Enforced(state, localTx, now, added, r, Snap())
                && (Unclashed(state, added) ==> QueueLimited(state) && PendingLimited())
    {
      hide Consistent, NonEmpty, QueueLimited, PendingLimited, Enforced, Unclashed, AddTo, Accepts;
      err := AddTx(tx, state, gasLimit);
      r := Passage(Snap(), Snap(), {}, 0, []);
      if err.None? {
        r := PromoteExecutables(state, now);
      }
    }

    /** The transactions that pass validation under the pool's present settings. */
    ghost function Admissible(txs: seq<Tx>, state: Accounts, gasLimit: int): set<Tx>
      reads `localTx, `minGasPrice, `homestead
    {
      set tx | tx in txs && Admission.ValidateTx(tx in localTx, minGasPrice, state, gasLimit, homestead, tx).None?
    }

    /** Adds transactions and then promotes what has become executable. */
    method AddBatch(txs: seq<Tx>, state: Accounts, gasLimit: int, now: int) returns (ghost r: Passage)
      requires Valid()
      modifies `pending, `queue, `all, `beats, `pendingState
      ensures Valid()
      ensures var taken := Taken(Intake(old(queue), old(all)), txs, old(Admissible(txs, state, gasLimit)));
              var added := Snapshot(old(pending), taken.queue, old(pendingState), old(beats));
              && all <= taken.known && Enforced(state, localTx, now, added, r, Snap())
              && (Unclashed(state, added) ==> QueueLimited(state) && PendingLimited())
    {
      hide Consistent, NonEmpty, QueueLimited, PendingLimited, Enforced, Unclashed, Accepts, Replaced, Admission.ValidateTx;
      ghost var start, ok := Intake(queue, all), Admissible(txs, state, gasLimit);
      for i := 0 to |txs|
        invariant Valid() && pending == old(pending) && pendingState == old(pendingState) && beats == old(beats)
        invariant Intake(queue, all) == Taken(start, txs[..i], ok)
      {
        assert txs[..i + 1][..i] == txs[..i];
        var _ := AddTx(txs[i], state, gasLimit);
      }
      assert txs[..|txs|] == txs;
      r := PromoteExecutables(state, now);
    }

    /** Drops what has waited for too long, going over the accounts in any order. */
    method Expire(now: int)
      requires Valid()
      modifies `pending, `queue, `all, `beats, `pendingState
      ensures Valid() && all <= old(all)
      ensures forall a :: Expired(now - Beat(old(beats), a), old(Snap()), Snap(), a)
    {
      hide Consistent, NonEmpty, Dropped, Expired;
      ghost var start := Snap();
      var rest := queue.Keys;
      forall a | a !in rest ensures Expired(now - Beat(beats, a), start, Snap(), a) {
        ExpiredNone(now - Beat(beats, a), start, a);
      }
      while rest != {}
        invariant Valid() && all <= old(all)
        invariant forall a <- rest :: Untouched(start, Snap(), a) && Beat(beats, a) == Beat(old(beats), a)
        invariant forall a | a !in rest :: Expired(now - Beat(old(beats), a), start, Snap(), a)
        decreases rest
      {
        var addr :| addr in rest;
        ghost var before := Snap();
        ExpireAccount(addr, now);
        rest := rest - {addr};
        forall a | a !in rest ensures Expired(now - Beat(old(beats), a), start, Snap(), a) {
          if a == addr {
            ExpiredSame(now - Beat(old(beats), a), before, start, Snap(), Snap(), a);
          } else {
            ExpiredSame(now - Beat(old(beats), a), start, start, before, Snap(), a);
          }
        }
      }
    }

    /** Records for every account the nonce after its last executable transaction. */
    method RecordNonces(state: Accounts)
      requires NonEmpty(pending)
      modifies `pendingState
      ensures forall a :: pendingState.GetNonce(a) == NextNonce(ListOf(pending, a), Get(state, a))
    {
      hide NonEmpty;
      pendingState := ManagedState(state, map[]);
      NonEmptyLists(pending);
      var rest := pending.Keys;
      while rest != {}
        invariant rest <= pending.Keys && pendingState.base == state && rest !! pendingState.nonces.Keys
        invariant forall a | a !in rest :: pendingState.GetNonce(a) == NextNonce(ListOf(pending, a), Get(state, a))
        decreases rest
      {
        var addr :| addr in rest;
        GreatestExists(pending[addr].Keys);
        var last: nat :| last in pending[addr] && forall n <- pending[addr] :: n <= last;
        pendingState := pendingState.SetNonce(addr, last + 1);
        rest := rest - {addr};
      }
    }

    /** Adapts the pool to a new head state. */
    method ResetState(state: Accounts, now: int) returns (ghost current: Snapshot, ghost r: Passage)
      requires Valid()
      modifies `pending, `queue, `all, `beats, `pendingState
      ensures Valid() && all <= old(all)
      ensures forall a :: Reset(state, a, ListOf(old(pending), a), ListOf(old(queue), a)) ==
                          (ListOf(current.pending, a), ListOf(current.queue, a), current.nonces.GetNonce(a))
      ensures Enforced(state, localTx, now, current, r, Snap())
      ensures Unclashed(state, current) ==> QueueLimited(state) && PendingLimited()
    {
      hide Consistent, NonEmpty, Payable, FromNonce, QueueLimited, PendingLimited, Enforced, Unclashed, Merge, Disordered;
      hide NextNonce;
      DemoteUnexecutables(state);
      RecordNonces(state);
      current := Snap();
      r := PromoteExecutables(state, now);
    }

    /** The settings of the pool. */
    ghost function Settings(): (set<Tx>, int, bool)
      reads `localTx, `minGasPrice, `homestead
    {
      (localTx, minGasPrice, homestead)
    }

    /** Handles one event or call on the state the chain has then: each does what its operation does, with the settings it
        finds, and changes no setting but its own. */
    method Handle(event: Event, state: Accounts, gasLimit: int, now: int) returns (ghost current: Snapshot, ghost r: Passage)
      requires Valid()
      modifies this
      ensures Valid()
      ensures Settings() == match event
                            case ChainHead(isHomestead) => (old(localTx), old(minGasPrice), old(homestead) || isHomestead)
                            case GasPriceChanged(price) => (old(localTx), price, old(homestead))
                            case SetLocal(tx) => (old(localTx) + {tx}, old(minGasPrice), old(homestead))
                            case _ => old(Settings())
      ensures event.GasPriceChanged? || event.SetLocal? ==> Snap() == old(Snap()) && all == old(all)
      ensures event.ChainHead? ==>
                && (forall a :: Reset(state, a, ListOf(old(pending), a), ListOf(old(queue), a)) ==
                                (ListOf(current.pending, a), ListOf(current.queue, a), current.nonces.GetNonce(a)))
                && Enforced(state, localTx, now, current, r, Snap())
      ensures event.RemovedTransactions? ==>
                var taken := Taken(Intake(old(queue), old(all)), event.txs, old(Admissible(event.txs, state, gasLimit)));
                current == old(Snap()).(queue := taken.queue) && Enforced(state, localTx, now, current, r, Snap())
      ensures event.NewTransaction? ==>
                if old(Refusal(event.tx, state, gasLimit)).Some? then Snap() == old(Snap()) && all == old(all)
                else current == old(Snap()).(queue := AddTo(old(queue), event.tx))
                     && Enforced(state, localTx, now, current, r, Snap())
      ensures event.RemoveTransaction? ==>
                && BookOf(event.tx.sender) == Removed(old(BookOf(event.tx.sender)), event.tx)
                && forall a | a != event.tx.sender :: Untouched(old(Snap()), Snap(), a)
      ensures event.GetPending? ==>
                && Enforced(state, localTx, now, old(Snap()), r, current)
                && forall a :: Executable(state, a, ListOf(current.pending, a), ListOf(current.queue, a)) ==
                               (ListOf(pending, a), ListOf(queue, a))
      ensures event.ExpirationTick? ==> forall a :: Expired(now - Beat(old(beats), a), old(Snap()), Snap(), a)
    {
      hide Consistent, NonEmpty, QueueLimited, PendingLimited, Enforced, Unclashed, Expired, Executable, Reset, Taken;
      hide Admissible, Refusal, AddTo, Merge, Demoted, Without, Outbid;
      current, r := Snap(), Passage(Snap(), Snap(), {}, 0, []);
      match event
      case ChainHead(isHomestead) =>
        homestead := homestead || isHomestead;
        current, r := ResetState(state, now);
      case GasPriceChanged(price) => minGasPrice := price;
      case RemovedTransactions(txs) =>
        current := current.(queue := Taken(Intake(queue, all), txs, Admissible(txs, state, gasLimit)).queue);
        r := AddBatch(txs, state, gasLimit, now);
      case NewTransaction(tx) =>
        current := current.(queue := AddTo(queue, tx));
        var err;
        err, r := Add(tx, state, gasLimit, now);
      case SetLocal(tx) => localTx := localTx + {tx};
      case RemoveTransaction(tx) => RemoveTx(tx);
      case GetPending =>
        r := PromoteExecutables(state, now);
        current := Snap();
        DemoteUnexecutables(state);
      case ExpirationTick => Expire(now);
    }

    /** Whatever happens and in whatever order, the pool stays in order. */
    method EventLoop(events: seq<(Event, Accounts, int, int)>)
      requires Valid()
      modifies this
      ensures Valid()
    {
      hide Valid;
      for i := 0 to |events|
        invariant Valid()
      {
        ghost var _, _ := Handle(events[i].0, events[i].1, events[i].2, events[i].3);
      }
    }
  }
}
