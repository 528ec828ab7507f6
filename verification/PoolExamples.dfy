/** Runs of the transaction pool, from a new one, that do not do what one would expect. */
module PoolExamples {
  import opened ChainTypes
  import opened WorldState
  import opened SortedTxs
  import opened TxLists
  import opened PoolLists
  import opened PoolSizes
  import opened Promotion
  import opened Overflow
  import opened TxPools
  import Admission
  import TxSortedMaps

  const RICH := Account(100000, 0)
  const SPENDER: Address := 16

  /** Every account up to the spender is rich. */
  function State(): Accounts {
    map a: Address | 0 <= a <= SPENDER :: Rich(a)
  }

  function Rich(a: Address): Account {
    RICH
  }

  function Send(a: Address, n: nat, price: nat): Tx {
    Tx(a, true, n, price, 21000, 0, Some(0), [])
  }

  /** Consecutive transactions of one account. */
  function Chain(a: Address, lo: nat, hi: nat): Items {
    map n: nat | lo <= n < hi :: Send(a, n, 1)
  }

  function ChainTxs(a: Address, lo: nat, hi: nat): seq<Tx>
    requires lo <= hi
  {
    seq(hi - lo, i requires 0 <= i < hi - lo => Send(a, lo + i, 1))
  }

  lemma {:induction false} ChainSize(a: Address, lo: nat, hi: nat)
    requires lo <= hi
    ensures |Chain(a, lo, hi)| == hi - lo
  {
    if lo < hi {
      ChainSize(a, lo, hi - 1);
      assert Chain(a, lo, hi).Keys == Chain(a, lo, hi - 1).Keys + {hi - 1};
    }
  }

  /** Accounts with a full waiting list each, from which nonce 0 is missing. */
  function Crowd(k: nat): Lists {
    map a: Address | 0 <= a < k :: Chain(a, 1, 65)
  }

  function CrowdTxs(k: nat): seq<Tx> {
    if k == 0 then [] else CrowdTxs(k - 1) + ChainTxs(k - 1, 1, 65)
  }

  lemma CrowdStep(k: nat)
    requires 0 < k
    ensures Crowd(k) == Crowd(k - 1)[k - 1 := Chain(k - 1, 1, 65)] && k - 1 !in Crowd(k - 1)
  {
    hide Chain;
  }

  lemma {:induction false} CrowdSize(k: nat)
    ensures Size(Crowd(k)) == 64 * k
  {
    hide Size, Chain, Crowd;
    if k == 0 {
      assert Crowd(0) == map[] by { CrowdNone(); }
      SizeNone();
    } else {
      CrowdSize(k - 1);
      ChainSize(k - 1, 1, 65);
      CrowdStep(k);
      SizeUpdate(Crowd(k - 1), k - 1, Chain(k - 1, 1, 65));
    }
  }

  lemma CrowdNone()
    ensures Crowd(0) == map[]
  {
  }

  lemma {:induction false} TakenTwice(d: Intake, s: seq<Tx>, t: seq<Tx>, ok: set<Tx>)
    ensures Taken(d, s + t, ok) == Taken(Taken(d, s, ok), t, ok)
  {
    if t == [] {
      assert s + t == s;
    } else {
      var front := t[..|t| - 1];
      TakenTwice(d, s, front, ok);
      assert (s + t)[..|s + t| - 1] == s + front && (s + t)[|s + t| - 1] == t[|t| - 1];
    }
  }

  /** Nothing of an account is waiting or known. */
  ghost predicate Unheard(d: Intake, a: Address) {
    a !in d.queue && forall tx <- d.known :: tx.sender != a
  }

  ghost predicate AllIn(txs: seq<Tx>, ok: set<Tx>) {
    forall tx <- txs :: tx in ok
  }

  /** A new transaction comes in where nothing waits. */
  lemma TakenOne(d: Intake, txs: seq<Tx>, tx: Tx, ok: set<Tx>)
    requires var d' := Taken(d, txs, ok); tx !in d'.known && tx in ok && tx.nonce !in ListOf(d'.queue, tx.sender)
    ensures var d' := Taken(d, txs, ok);
            Taken(d, txs + [tx], ok) ==
            Intake(d'.queue[tx.sender := ListOf(d'.queue, tx.sender)[tx.nonce := tx]], d'.known + {tx})
  {
    assert (txs + [tx])[..|txs + [tx]| - 1] == txs;
  }

  /** New transactions of one account all come in. */
  lemma {:induction false} TakenChain(d: Intake, a: Address, lo: nat, hi: nat, ok: set<Tx>)
    requires lo <= hi && Unheard(d, a) && AllIn(ChainTxs(a, lo, hi), ok)
    ensures var d' := Taken(d, ChainTxs(a, lo, hi), ok);
            && d'.queue == (if lo == hi then d.queue else d.queue[a := Chain(a, lo, hi)])
            && forall tx <- d'.known :: tx in d.known || (tx.sender == a && lo <= tx.nonce < hi && tx.gasPrice == 1)
  {
    hide Taken;
    if lo == hi {
      assert ChainTxs(a, lo, hi) == [];
      TakenNone(d, ok);
    } else {
      var tx, front := Send(a, hi - 1, 1), ChainTxs(a, lo, hi - 1);
      assert ChainTxs(a, lo, hi) == front + [tx];
      assert tx in ChainTxs(a, lo, hi) && AllIn(front, ok);
      TakenChain(d, a, lo, hi - 1, ok);
      ChainStep(a, lo, hi);
      TakenOne(d, front, tx, ok);
    }
  }

  lemma ChainStep(a: Address, lo: nat, hi: nat)
    requires lo < hi
    ensures Chain(a, lo, hi) == Chain(a, lo, hi - 1)[hi - 1 := Send(a, hi - 1, 1)]
    ensures hi - 1 !in Chain(a, lo, hi - 1) && (lo == hi - 1 ==> Chain(a, lo, hi - 1) == map[])
  {
  }

  lemma {:induction false} TakenCrowd(k: nat, ok: set<Tx>)
    requires AllIn(CrowdTxs(k), ok)
    ensures var d := Taken(Intake(map[], {}), CrowdTxs(k), ok);
            d.queue == Crowd(k) && forall tx <- d.known :: tx.sender < k && tx.gasPrice == 1
  {
    hide Taken;
    var none := Intake(map[], {});
    if k == 0 {
      assert Taken(none, [], ok) == none by { TakenNone(none, ok); }
      assert Crowd(0) == map[];
    } else {
      var d, txs := Taken(none, CrowdTxs(k - 1), ok), ChainTxs(k - 1, 1, 65);
      assert AllIn(CrowdTxs(k - 1), ok) && AllIn(txs, ok);
      TakenCrowd(k - 1, ok);
      TakenTwice(none, CrowdTxs(k - 1), txs, ok);
      TakenChain(d, k - 1, 1, 65, ok);
      assert Crowd(k) == Crowd(k - 1)[k - 1 := Chain(k - 1, 1, 65)];
    }
  }

  lemma TakenNone(d: Intake, ok: set<Tx>)
    ensures Taken(d, [], ok) == d
  {
  }

  lemma CurrentAll(items: Items)
    requires forall n <- items :: Admission.Cost(items[n]) <= 100000
    ensures Current(items, RICH) == items
  {
  }

  /** Without nonce 0 nothing is due. */
  lemma CrowdWaits(a: Address)
    ensures Due(Chain(a, 1, 65), RICH, 0) == map[] && Waiting(Chain(a, 1, 65), RICH, 0, 64) == Chain(a, 1, 65)
  {
    hide Lowest;
    var list := Chain(a, 1, 65);
    CurrentAll(list);
    assert Ready(list, 0) == map[];
    assert NotReady(list, 0) == list;
    ChainSize(a, 1, 65);
    LowestAll(list, 64);
  }

  /** With it the whole chain is. */
  lemma ChainDue(a: Address, hi: nat)
    ensures Due(Chain(a, 0, hi), RICH, 0) == Chain(a, 0, hi) && Waiting(Chain(a, 0, hi), RICH, 0, 64) == map[]
  {
    hide Lowest;
    var list := Chain(a, 0, hi);
    CurrentAll(list);
    assert hi > 0 ==> 0 in list;
    assert Ready(list, 0) == list;
    assert NotReady(list, 0) == map[];
    LowestAll(map[], 64);
  }

  /** Replacements for nonces 0 and 2, as they wait. */
  function Replacements(): Items {
    map[0 := Send(SPENDER, 0, 2), 2 := Send(SPENDER, 2, 2)]
  }

  /** Nonce 1 is not waiting, so only the first is due. */
  lemma OneDue(list: Items)
    requires list.Keys == {0, 2} && Current(list, RICH) == list
    ensures Due(list, RICH, 4) == map[0 := list[0]] && Waiting(list, RICH, 4, 64) == map[2 := list[2]]
  {
    hide Lowest, Current;
    assert forall n <- list :: n == 0 || n == 2;
    assert RunsTo(list, 0);
    assert !RunsTo(list, 2) by {
      assert 0 in list && 1 !in list;
    }
    hide RunsTo;
    assert Ready(list, 4).Keys == {0};
    assert Ready(list, 4) == map[0 := list[0]];
    hide Ready;
    assert NotReady(list, 4) == map[2 := list[2]];
    LowestAll(map[2 := list[2]], 64);
  }

  /** What the accounts have after the first batch, and after the second with the replacements waiting. */
  ghost function Before(a: Address): (Items, Items, Mark) {
    if a < SPENDER then (map[], Chain(a, 1, 65), Mark(0, 0))
    else if a == SPENDER then (Chain(a, 0, 4), map[], Mark(4, 1))
    else (map[], map[], Mark(0, 0))
  }

  ghost function Added(a: Address): (Items, Items, Mark) {
    if a == SPENDER then (Chain(a, 0, 4), Replacements(), Mark(4, 1)) else Before(a)
  }

  ghost function After(a: Address): (Items, Items, Mark) {
    if a == SPENDER then (Chain(a, 0, 4)[0 := Send(a, 0, 2)], map[2 := Send(a, 2, 2)], Mark(1, 2)) else Before(a)
  }

  /** An account with nothing due. */
  lemma StillWaits(base: Items, a: Address, mark: Mark, now: int)
    ensures Merge(base, map[]) == base && Advanced(mark, base, map[], now) == mark
  {
    MergeNone(base);
    AdvancedNone(mark, base, now);
  }

  /** The queue of the first batch. */
  ghost function Incoming(): Snapshot {
    Snapshot(map[], Crowd(SPENDER)[SPENDER := Chain(SPENDER, 0, 4)], ManagedState(State(), map[]), map[])
  }

  lemma FirstPromoted(s': Snapshot, a: Address)
    requires Promoted(State(), 1, Incoming(), s', a)
    ensures s'.At(a) == Before(a)
  {
    hide Due, Waiting, Merge, Advanced, Chain, Send, Lowest;
    StillWaits(map[], a, Mark(0, 0), 1);
    if a < SPENDER {
      assert Get(State(), a) == RICH;
      CrowdWaits(a);
    } else if a == SPENDER {
      assert Get(State(), a) == RICH;
      ChainDue(a, 4);
      AllWin(a);
    } else {
      NothingDue(Get(State(), a), Mark(0, 0), 64, map[], 1);
    }
  }

  lemma AllWin(a: Address)
    ensures Merge(map[], Chain(a, 0, 4)) == Chain(a, 0, 4) && Advanced(Mark(0, 0), map[], Chain(a, 0, 4), 1) == Mark(4, 1)
  {
    assert 3 in Winners(map[], Chain(a, 0, 4));
  }

  lemma SecondPromoted(s: Snapshot, s': Snapshot, a: Address)
    requires s.At(a) == Added(a) && Promoted(State(), 2, s, s', a)
    ensures s'.At(a) == After(a)
  {
    hide Due, Waiting, Merge, Advanced, Chain, Send, Lowest;
    StillWaits(map[], a, Mark(0, 0), 2);
    if a < SPENDER {
      assert Get(State(), a) == RICH;
      CrowdWaits(a);
    } else if a == SPENDER {
      assert Get(State(), a) == RICH;
      CurrentAll(Replacements()) by { ReplacementsPaid(); }
      OneDue(Replacements());
      FirstWins(a);
    } else {
      NothingDue(Get(State(), a), Mark(0, 0), 64, map[], 2);
    }
  }

  lemma ReplacementsPaid()
    ensures forall n <- Replacements() :: Admission.Cost(Replacements()[n]) <= 100000
  {
  }

  lemma FirstWins(a: Address)
    ensures Merge(Chain(a, 0, 4), map[0 := Send(a, 0, 2)]) == Chain(a, 0, 4)[0 := Send(a, 0, 2)]
    ensures Advanced(Mark(4, 1), Chain(a, 0, 4), map[0 := Send(a, 0, 2)], 2) == Mark(1, 2)
  {
    AdvancedStep(Mark(4, 1), Chain(a, 0, 4), map[], 0, Send(a, 0, 2), 2);
    assert map[][0 := Send(a, 0, 2)] == map[0 := Send(a, 0, 2)];
  }

  lemma OnlySpender(l: Lists, items: Items)
    requires forall a :: ListOf(l, a) == if a == SPENDER then items else map[]
    ensures Size(l) == |items|
  {
    hide Size;
    SizeSame(l, map[][SPENDER := items]);
    SizeUpdate(map[], SPENDER, items);
    SizeNone();
  }

  /** The first batch fills the queue to its limit and makes the spender's transactions executable. */
  lemma FirstBatch(r: Passage, s': Snapshot)
    requires Enforced(State(), {}, 1, Incoming(), r, s') && NonEmpty(s'.queue)
    ensures forall a :: s'.At(a) == Before(a)
    ensures s'.queue == Crowd(SPENDER)
  {
    hide Size, Promoted, WaitingLists, Sub, ByBeat, Overflowed, Chain, NonEmpty;
    forall a ensures r.promoted.At(a) == Before(a) && ListOf(r.promoted.pending, a) == Before(a).0 {
      FirstPromoted(r.promoted, a);
    }
    CrowdLists(r.promoted.queue);
    assert Size(r.promoted.pending) == 4 by {
      ChainSize(SPENDER, 0, 4);
      OnlySpender(r.promoted.pending, Chain(SPENDER, 0, 4));
    }
    CrowdSame(s'.queue);
  }

  lemma CrowdLists(q: Lists)
    requires forall a :: ListOf(q, a) == Before(a).1
    ensures Size(q) == MAX_QUEUED_IN_TOTAL
  {
    hide Size, Chain;
    SizeSame(q, Crowd(SPENDER));
    CrowdSize(SPENDER);
  }

  lemma CrowdSame(q: Lists)
    requires NonEmpty(q) && forall a :: ListOf(q, a) == Before(a).1
    ensures q == Crowd(SPENDER)
  {
    forall a <- Crowd(SPENDER) ensures Crowd(SPENDER)[a] != map[] {
      assert 1 in Crowd(SPENDER)[a];
    }
    hide Chain;
    SameLists(q, Crowd(SPENDER));
  }

  /** The latest heartbeat comes last. */
  lemma LatestLast(q: Lists, beats: map<Address, int>, order: seq<Address>, a: Address)
    requires ByBeat(q, beats, order) && a in q && forall b <- q :: b != a ==> Beat(beats, b) < Beat(beats, a)
    ensures order != [] && order[|order| - 1] == a
  {
    hide Distinct;
    var i :| 0 <= i < |order| && order[i] == a;
    assert order[|order| - 1] in order;
  }

  /** What waits of the spender is removed together with the executable transaction of that nonce, and the next one goes
      to the queue. */
  lemma SpenderSpills()
    ensures Spills(Chain(SPENDER, 0, 4)[0 := Send(SPENDER, 0, 2)], map[2 := Send(SPENDER, 2, 2)], 0)
  {
    var p, q := Chain(SPENDER, 0, 4)[0 := Send(SPENDER, 0, 2)], map[2 := Send(SPENDER, 2, 2)];
    var clashes := Clashes(Book(p, q, {}), q.Keys);
    assert clashes == {2};
    assert Least(clashes) == 2;
    assert 1 in Without(p, true, 2);
    assert 3 in Demoted(p, 2) && Wins(q, Demoted(p, 2), 3);
    assert 3 in Winners(q, Demoted(p, 2));
  }

  /** The replacements leave one transaction too many waiting, and dropping it leaves another. */
  lemma SecondBatch(s: Snapshot, r: Passage, s': Snapshot)
    requires Enforced(State(), {}, 2, s, r, s') && forall a :: s.At(a) == Added(a)
    ensures Size(s'.queue) > MAX_QUEUED_IN_TOTAL
  {
    hide Size, Promoted, WaitingLists, Sub, Overflowed, Chain, SumLengths, Send, Spills, NoneSpills;
    forall a
      ensures r.promoted.At(a) == After(a) && ListOf(r.promoted.pending, a) == After(a).0
              && Beat(r.promoted.beats, a) == After(a).2.beat
    {
      SecondPromoted(s, r.promoted, a);
    }
    var q := r.promoted.queue;
    OneTooMany(q);
    assert Size(r.promoted.pending) == 4 by {
      ReplacedSize();
      OnlySpender(r.promoted.pending, After(SPENDER).0);
    }
    assert r.promoted.At(SPENDER) == After(SPENDER) && 2 in After(SPENDER).1;
    LatestLast(q, r.promoted.beats, r.order, SPENDER);
    LastSpills(r.evicted, r.order);
    OverflowedSize(r.evicted, s', r.order);
  }

  lemma ReplacedSize()
    ensures |After(SPENDER).0| == 4
  {
    ChainSize(SPENDER, 0, 4);
    assert After(SPENDER).0.Keys == Chain(SPENDER, 0, 4).Keys;
  }

  lemma OneTooMany(q: Lists)
    requires forall a :: ListOf(q, a) == After(a).1
    ensures Size(q) == MAX_QUEUED_IN_TOTAL + 1
  {
    hide Size, Chain, Send;
    var one := map[2 := Send(SPENDER, 2, 2)];
    assert SPENDER !in Crowd(SPENDER);
    SizeSame(q, Crowd(SPENDER)[SPENDER := one]);
    SizeUpdate(Crowd(SPENDER), SPENDER, one);
    CrowdSize(SPENDER);
  }

  lemma LastSpills(s: Snapshot, order: seq<Address>)
    requires Covers(s.queue, order) && order != [] && order[|order| - 1] == SPENDER && Size(s.queue) == MAX_QUEUED_IN_TOTAL + 1
    requires ListOf(s.pending, SPENDER) == After(SPENDER).0 && ListOf(s.queue, SPENDER) == After(SPENDER).1
    ensures !NoneSpills(s, order, |order|)
  {
    hide Size, Chain, SumLengths, Send, Spills, Distinct;
    var i := |order| - 1;
    SumStep(s.queue, order, i);
    assert order[..i + 1] == order;
    SumIsSize(s.queue, order);
    SpenderSpills();
    assert SpillsAt(s, order, i);
  }

  lemma Admitted(tx: Tx)
    requires tx.sender <= SPENDER && tx.gasPrice <= 2 && tx == Send(tx.sender, tx.nonce, tx.gasPrice)
    ensures Admission.ValidateTx(false, 0, State(), 21000, false, tx).None?
  {
    assert Get(State(), tx.sender) == RICH;
  }

  lemma ChainShape(a: Address, lo: nat, hi: nat, tx: Tx)
    requires lo <= hi && tx in ChainTxs(a, lo, hi)
    ensures tx == Send(a, tx.nonce, 1)
  {
    var i :| 0 <= i < hi - lo && tx == ChainTxs(a, lo, hi)[i];
    assert tx == Send(a, lo + i, 1);
  }

  lemma {:induction false} CrowdShape(k: nat, tx: Tx)
    requires tx in CrowdTxs(k)
    ensures tx == Send(tx.sender, tx.nonce, 1) && tx.sender < k
  {
    if tx in CrowdTxs(k - 1) {
      CrowdShape(k - 1, tx);
    } else {
      ChainShape(k - 1, 1, 65, tx);
    }
  }

  /** The first batch: the crowd and four transactions of the spender. */
  function FirstTxs(): seq<Tx> {
    CrowdTxs(SPENDER) + ChainTxs(SPENDER, 0, 4)
  }

  lemma FirstTaken(ok: set<Tx>)
    requires AllIn(FirstTxs(), ok)
    ensures var d := Taken(Intake(map[], {}), FirstTxs(), ok);
            d.queue == Incoming().queue && forall tx <- d.known :: tx.gasPrice == 1
  {
    hide Taken;
    var none := Intake(map[], {});
    assert AllIn(CrowdTxs(SPENDER), ok) && AllIn(ChainTxs(SPENDER, 0, 4), ok);
    TakenCrowd(SPENDER, ok);
    TakenTwice(none, CrowdTxs(SPENDER), ChainTxs(SPENDER, 0, 4), ok);
    TakenChain(Taken(none, CrowdTxs(SPENDER), ok), SPENDER, 0, 4, ok);
  }

  lemma SecondTaken(d: Intake, ok: set<Tx>)
    requires d.queue == Crowd(SPENDER) && forall tx <- d.known :: tx.gasPrice == 1
    requires Send(SPENDER, 0, 2) in ok && Send(SPENDER, 2, 2) in ok
    ensures Taken(d, [Send(SPENDER, 0, 2), Send(SPENDER, 2, 2)], ok).queue == d.queue[SPENDER := Replacements()]
  {
    hide Taken, Chain;
    var x, y := Send(SPENDER, 0, 2), Send(SPENDER, 2, 2);
    TakenNone(d, ok);
    TakenOne(d, [], x, ok);
    assert [] + [x] == [x] && [x] + [y] == [x, y];
    assert ListOf(Crowd(SPENDER), SPENDER) == map[];
    TakenOne(d, [x], y, ok);
    assert map[0 := x][2 := y] == Replacements();
  }

  /** A new pool after the first batch. */
  method Crowded() returns (pool: TxPool)
    ensures fresh(pool) && pool.Valid() && (forall a :: pool.Snap().At(a) == Before(a)) && pool.queue == Crowd(SPENDER)
    ensures pool.localTx == {} && pool.minGasPrice == 0 && !pool.homestead && forall tx <- pool.all :: tx.gasPrice == 1
  {
    hide Chain, Taken, Enforced, NonEmpty, Unclashed, CrowdTxs, ChainTxs, Crowd, Admission.ValidateTx;
    pool := new TxPool(State());
    ghost var ok := pool.Admissible(FirstTxs(), State(), 21000);
    forall tx <- FirstTxs() ensures tx in ok {
      FirstShape(tx);
      Admitted(tx);
    }
    FirstTaken(ok);
    ghost var r := pool.AddBatch(FirstTxs(), State(), 21000, 1);
    FirstBatch(r, pool.Snap());
  }

  lemma FirstShape(tx: Tx)
    requires tx in FirstTxs()
    ensures tx.sender <= SPENDER && tx.gasPrice == 1 && tx == Send(tx.sender, tx.nonce, 1)
  {
    if tx in CrowdTxs(SPENDER) {
      CrowdShape(SPENDER, tx);
    }
  }

  /** Replacing the executable nonces 0 and 2 in one batch: only nonce 0 is due, nonce 2 waits next to the executable one
      and is one too many.  Dropping it takes the executable one too and sends nonce 3 to the queue, which ends
      above its limit. */
  method BatchOverflows() returns (pool: TxPool)
    ensures pool.Valid() && Size(pool.queue) > MAX_QUEUED_IN_TOTAL
  {
    hide Chain, Taken, Enforced, NonEmpty, Unclashed, Crowd, Size, Admission.ValidateTx, Before;
    pool := Crowded();
    ghost var before := pool.Snap();
    var txs := [Send(SPENDER, 0, 2), Send(SPENDER, 2, 2)];
    ghost var d, ok := Intake(pool.queue, pool.all), pool.Admissible(txs, State(), 21000);
    Admitted(txs[0]);
    Admitted(txs[1]);
    assert txs[0] in txs && txs[1] in txs;
    SecondTaken(d, ok);
    ghost var added := before.(queue := before.queue[SPENDER := Replacements()]);
    AddedLists(before);
    ghost var r := pool.AddBatch(txs, State(), 21000, 2);
    SecondBatch(added, r, pool.Snap());
  }

  lemma AddedLists(s: Snapshot)
    requires forall a :: s.At(a) == Before(a)
    ensures forall a :: s.(queue := s.queue[SPENDER := Replacements()]).At(a) == Added(a)
  {
    hide Chain;
    forall a ensures s.(queue := s.queue[SPENDER := Replacements()]).At(a) == Added(a) {
      assert s.At(a) == Before(a);
    }
  }

  /** Removing the lowest executable nonce: the next one stays known but is in no list. */
  method RemovalForgets() returns (pool: TxPool, next: Tx)
    ensures pool.Valid() && next in pool.all && !Has(pool.pending, next) && !Has(pool.queue, next)
  {
    hide Crowd, Filed, NonEmpty, Apart, Merge, Outbid;
    pool := Crowded();
    next := Send(SPENDER, 1, 1);
    ghost var p: Items := ListOf(pool.pending, SPENDER);
    assert pool.Snap().At(SPENDER) == Before(SPENDER);
    assert 0 in p && 1 in p;
    HasKnown(pool.pending, pool.all + {}, Send(SPENDER, 0, 1));
    HasKnown(pool.pending, pool.all + {}, next);
    assert Without(p, true, 0) == map[];
    MergeNone(map[]);
    pool.RemoveTx(Send(SPENDER, 0, 1));
  }

  /** Only the spender has transactions. */
  ghost predicate Alone(s: Snapshot, p: Items, q: Items, mark: Mark) {
    s.At(SPENDER) == (p, q, mark) && forall a | a != SPENDER :: s.At(a) == (map[], map[], Mark(0, 0))
  }

  lemma AlonePromoted(s: Snapshot, s': Snapshot, now: int, p: Items, q: Items, mark: Mark)
    requires Alone(s, p, q, mark) && forall a :: Promoted(State(), now, s, s', a)
    ensures Alone(s', Merge(p, Due(q, RICH, mark.nonce)), Waiting(q, RICH, mark.nonce, 64),
                  Advanced(mark, p, Due(q, RICH, mark.nonce), now))
  {
    hide Due, Waiting, Merge, Advanced;
    assert Get(State(), SPENDER) == RICH;
    forall a | a != SPENDER ensures s'.At(a) == (map[], map[], Mark(0, 0)) {
      assert Promoted(State(), now, s, s', a);
      NothingDue(Get(State(), a), Mark(0, 0), 64, map[], now);
    }
    assert Promoted(State(), now, s, s', SPENDER);
  }

  /** With few transactions enforcing the limits is promotion. */
  lemma AloneEnforced(s: Snapshot, r: Passage, s': Snapshot, now: int, p: Items, q: Items, mark: Mark)
    requires Enforced(State(), {}, now, s, r, s') && Alone(r.promoted, p, q, mark) && |p| <= 64 && |q| <= 64
    ensures s' == r.promoted
  {
    hide Promoted, WaitingLists, ByBeat, Overflowed;
    forall a ensures ListOf(r.promoted.pending, a) == (if a == SPENDER then p else map[])
                     && ListOf(r.promoted.queue, a) == if a == SPENDER then q else map[]
    {
      assert a != SPENDER ==> r.promoted.At(a) == (map[], map[], Mark(0, 0));
    }
    hide Size;
    OnlySpender(r.promoted.pending, p);
    OnlySpender(r.promoted.queue, q);
  }

  /** A new pool with four executable transactions of the spender. */
  method Fourfold() returns (pool: TxPool)
    ensures fresh(pool) && pool.Valid() && Alone(pool.Snap(), Chain(SPENDER, 0, 4), map[], Mark(4, 1))
    ensures pool.localTx == {} && pool.minGasPrice == 0 && !pool.homestead
    ensures forall tx <- pool.all :: tx.gasPrice == 1 && tx.nonce < 4
  {
    hide Chain, Taken, Enforced, NonEmpty, Unclashed, ChainTxs, Admission.ValidateTx, Merge, Advanced, Due, Waiting;
    pool := new TxPool(State());
    var txs := ChainTxs(SPENDER, 0, 4);
    ghost var ok := pool.Admissible(txs, State(), 21000);
    forall tx <- txs ensures tx in ok {
      ChainShape(SPENDER, 0, 4, tx);
      Admitted(tx);
    }
    TakenChain(Intake(map[], {}), SPENDER, 0, 4, ok);
    ghost var added := Snapshot(map[], map[SPENDER := Chain(SPENDER, 0, 4)], ManagedState(State(), map[]), map[]);
    ghost var r := pool.AddBatch(txs, State(), 21000, 1);
    ChainDue(SPENDER, 4);
    AllWin(SPENDER);
    ChainSize(SPENDER, 0, 4);
    EnforcedAlone(added, r, pool.Snap(), 1, map[], Chain(SPENDER, 0, 4), Mark(0, 0));
  }

  /** Both together. */
  lemma EnforcedAlone(s: Snapshot, r: Passage, s': Snapshot, now: int, p: Items, q: Items, mark: Mark)
    requires Enforced(State(), {}, now, s, r, s') && Alone(s, p, q, mark)
    requires |Merge(p, Due(q, RICH, mark.nonce))| <= 64
    ensures Alone(s', Merge(p, Due(q, RICH, mark.nonce)), Waiting(q, RICH, mark.nonce, 64),
                  Advanced(mark, p, Due(q, RICH, mark.nonce), now))
  {
    hide Due, Waiting, Merge, Advanced, Alone;
    AlonePromoted(s, r.promoted, now, p, q, mark);
    WaitingTidy(q, RICH, mark.nonce, 64);
    AloneEnforced(s, r, s', now, Merge(p, Due(q, RICH, mark.nonce)), Waiting(q, RICH, mark.nonce, 64),
                  Advanced(mark, p, Due(q, RICH, mark.nonce), now));
  }

  /** Adding a transaction where nothing waits. */
  lemma AddedAlone(s: Snapshot, tx: Tx, p: Items, mark: Mark)
    requires Alone(s, p, map[], mark) && tx.sender == SPENDER
    ensures Alone(s.(queue := AddTo(s.queue, tx)), p, map[tx.nonce := tx], mark)
  {
    var s' := s.(queue := AddTo(s.queue, tx));
    assert ListOf(s.queue, SPENDER) == s.At(SPENDER).1;
    assert s'.At(SPENDER) == (p, map[tx.nonce := tx], mark);
    forall a | a != SPENDER ensures s'.At(a) == (map[], map[], Mark(0, 0)) {
      assert s.At(a) == (map[], map[], Mark(0, 0));
    }
  }

  /** A single transaction is due exactly if its nonce is not above the recorded one. */
  lemma SingleDue(tx: Tx, start: nat)
    requires Admission.Cost(tx) <= 100000
    ensures var one := map[tx.nonce := tx];
            if tx.nonce <= start then Due(one, RICH, start) == one && Waiting(one, RICH, start, 64) == map[]
            else Due(one, RICH, start) == map[] && Waiting(one, RICH, start, 64) == one
  {
    hide Lowest;
    var one := map[tx.nonce := tx];
    CurrentAll(one);
    assert Ready(one, start) == if tx.nonce <= start then one else map[];
    assert NotReady(one, start) == if tx.nonce <= start then map[] else one;
    LowestAll(NotReady(one, start), 64);
  }

  /** Adding one transaction to a pool where only the spender has any, and none waits. */
  method AddAlone(pool: TxPool, tx: Tx, now: int, ghost p: Items, ghost mark: Mark)
    requires pool.Valid() && Alone(pool.Snap(), p, map[], mark) && |Merge(p, Due(map[tx.nonce := tx], RICH, mark.nonce))| <= 64
    requires pool.localTx == {} && pool.minGasPrice == 0 && !pool.homestead && tx !in pool.all
    requires tx.sender == SPENDER && tx.gasPrice <= 2 && tx == Send(tx.sender, tx.nonce, tx.gasPrice)
    modifies pool`pending, pool`queue, pool`all, pool`beats, pool`pendingState
    ensures pool.Valid() && pool.all <= old(pool.all) + {tx}
    ensures var q := map[tx.nonce := tx];
            var due := Due(q, RICH, mark.nonce);
            Alone(pool.Snap(), Merge(p, due), Waiting(q, RICH, mark.nonce, 64), Advanced(mark, p, due, now))
  {
    hide Enforced, NonEmpty, Unclashed, Admission.ValidateTx, Merge, Advanced, Due, Waiting, AddTo, Alone;
    Admitted(tx);
    AddedAlone(pool.Snap(), tx, p, mark);
    ghost var added := pool.Snap().(queue := AddTo(pool.queue, tx));
    var err;
    ghost var r;
    err, r := pool.Add(tx, State(), 21000, now);
    EnforcedAlone(added, r, pool.Snap(), now, p, map[tx.nonce := tx], mark);
  }

  /** Replacing the executable nonce 0 lowers the recorded nonce to 1. */
  method Replaced() returns (pool: TxPool)
    ensures fresh(pool) && pool.Valid() && Alone(pool.Snap(), After(SPENDER).0, map[], Mark(1, 2))
    ensures pool.localTx == {} && pool.minGasPrice == 0 && !pool.homestead && forall tx <- pool.all :: tx.nonce < 4
  {
    hide NonEmpty, Merge, Advanced, Due, Waiting, Alone, Chain;
    pool := Fourfold();
    var better := Send(SPENDER, 0, 2);
    SingleDue(better, 4);
    FirstWins(SPENDER);
    ReplacedSize();
    AddAlone(pool, better, 2, Chain(SPENDER, 0, 4), Mark(4, 1));
  }

  /** Then nonce 4, which is next after the executable 0 to 3, keeps waiting. */
  method ReplacementStalls() returns (pool: TxPool)
    ensures pool.Valid() && pool.pendingState.GetNonce(SPENDER) == 1
    ensures ListOf(pool.pending, SPENDER).Keys == {0, 1, 2, 3} && ListOf(pool.queue, SPENDER).Keys == {4}
  {
    FourNonces();
    ReplacedSize();
    hide NonEmpty, Merge, Advanced, Due, Waiting, Alone, After;
    pool := Replaced();
    var next := Send(SPENDER, 4, 1);
    ghost var p := After(SPENDER).0;
    SingleDue(next, 1);
    StillWaits(p, SPENDER, Mark(1, 2), 3);
    AddAlone(pool, next, 3, p, Mark(1, 2));
    AloneLists(pool.Snap(), p, map[4 := next], Mark(1, 2));
  }

  lemma FourNonces()
    ensures After(SPENDER).0.Keys == {0, 1, 2, 3}
  {
  }

  lemma AloneLists(s: Snapshot, p: Items, q: Items, mark: Mark)
    requires Alone(s, p, q, mark)
    ensures ListOf(s.pending, SPENDER) == p && ListOf(s.queue, SPENDER) == q && s.nonces.GetNonce(SPENDER) == mark.nonce
  {
  }
}
