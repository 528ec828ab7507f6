/** Assembling a block: which transactions go in, and why every node accepts the outcome. */
module Miners {
  import opened ChainTypes
  import opened WorldState
  import opened StateTransitions
  import opened StateProcessors
  import opened SortedTxs

  /** How the transactions offered are sifted: those of own accounts and those that pay enough are tried, except
      the ones protected against a fork that has not happened. */
  datatype Sieve = Sieve(gasPrice: int, ownedAccounts: set<Address>, premature: Tx -> bool)

  /** What becomes of a transaction when its turn comes. */
  datatype Fate = Premature | Underpriced | Failed(err: TxError) | Included

  datatype Trial = Trial(tx: Tx, fate: Fate)

  /** The executable transactions of every account, in nonce order. */
  type Offers = map<Address, seq<Tx>>

  ghost predicate Proper(offers: Offers) {
    forall a <- offers :: offers[a] != [] && forall tx <- offers[a] :: tx.sender == a
  }

  function Next(offers: Offers, a: Address): seq<Tx> {
    if a in offers then offers[a] else []
  }

  ghost function Judge(rules: Rules, header: Header, sieve: Sieve, tx: Tx, m: Accounts, pool: int): Fate {
    if sieve.premature(tx) then Premature
    else if tx.gasPrice < sieve.gasPrice && tx.sender !in sieve.ownedAccounts then Underpriced
    else
      var err := if !tx.signed then Some(InvalidSignature) else Verdict(rules.Env(header), AsMessage(tx), m, pool);
      if err.Some? then Failed(err.value) else Included
  }

  predicate IsIncluded(fate: Fate) {
    fate.Included?
  }

  predicate IsLow(fate: Fate) {
    fate.Underpriced?
  }

  /** Transactions that failed leave the pool, except for lack of block gas. */
  predicate IsRemoved(fate: Fate) {
    fate.Failed? && fate.err != GasLimitReached
  }

  ghost function TxsOf(trail: seq<Trial>, kind: Fate -> bool): seq<Tx> {
    if trail == [] then []
    else
      var t := trail[|trail| - 1];
      TxsOf(trail[..|trail| - 1], kind) + if kind(t.fate) then [t.tx] else []
  }

  lemma {:induction false} TxsOfMembers(trail: seq<Trial>, kind: Fate -> bool, tx: Tx)
    ensures tx in TxsOf(trail, kind) <==> exists t <- trail :: t.tx == tx && kind(t.fate)
  {
    if trail != [] {
      var front, last := trail[..|trail| - 1], trail[|trail| - 1];
      TxsOfMembers(front, kind, tx);
      assert trail == front + [last];
    }
  }

  /** What the pool is told to remove: transactions below the asked price, and those that failed for another reason than
      the gas left in the block. */
  lemma RemovedIff(trail: seq<Trial>, tx: Tx)
    ensures tx in TxsOf(trail, IsLow) + TxsOf(trail, IsRemoved) <==>
            exists t <- trail :: t.tx == tx && (t.fate == Underpriced || (t.fate.Failed? && t.fate.err != GasLimitReached))
  {
    TxsOfMembers(trail, IsLow, tx);
    TxsOfMembers(trail, IsRemoved, tx);
  }

  /** Gas that a failure after the purchase keeps out of the pool. */
  ghost function Wasted(t: Trial): nat {
    if t.fate == Failed(OutOfIntrinsicGas) || t.fate == Failed(CannotTransfer) then t.tx.gas else 0
  }

  ghost function Lost(trail: seq<Trial>): nat {
    if trail == [] then 0 else Lost(trail[..|trail| - 1]) + Wasted(trail[|trail| - 1])
  }

  /** What is still on offer of an account: included transactions go off its list, any other ends it. */
  ghost function Left(offers: Offers, trail: seq<Trial>, a: Address): seq<Tx> {
    if trail == [] then Next(offers, a)
    else
      var left, t := Left(offers, trail[..|trail| - 1], a), trail[|trail| - 1];
      if t.tx.sender != a then left else if t.fate.Included? && left != [] then left[1..] else []
  }

  /** The transaction is the next of its account and pays as much as the next of any other. */
  ghost predicate BestOf(offers: Offers, trail: seq<Trial>, tx: Tx) {
    var left := Left(offers, trail, tx.sender);
    && left != [] && left[0] == tx
    && forall a :: Left(offers, trail, a) != [] ==> Left(offers, trail, a)[0].gasPrice <= tx.gasPrice
  }

  /** The trial at `k` took the best transaction, and its fate was decided by the state after the ones included before
      and by the gas limit less what they used and what failures before kept. */
  ghost predicate TrialAt(rules: Rules, header: Header, sieve: Sieve, offers: Offers, run: seq<Accounts>,
                          receipts: seq<Receipt>, trail: seq<Trial>, k: nat)
    requires k < |trail|
  {
    var before, count := trail[..k], |TxsOf(trail[..k], IsIncluded)|;
    && BestOf(offers, before, trail[k].tx) && count < |run| && count <= |receipts|
    && trail[k].fate == Judge(rules, header, sieve, trail[k].tx, run[count],
                              header.gasLimit - GasBefore(receipts, count) - Lost(before))
  }

  ghost predicate Tried(rules: Rules, header: Header, sieve: Sieve, offers: Offers, txs: seq<Tx>, run: seq<Accounts>,
                        receipts: seq<Receipt>, trail: seq<Trial>) {
    && txs == TxsOf(trail, IsIncluded)
    && forall k: nat | k < |trail| :: TrialAt(rules, header, sieve, offers, run, receipts, trail, k)
  }

  /** The transactions of a block are the included ones of such trials, which go on until nothing is on offer. */
  ghost predicate Committed(rules: Rules, header: Header, sieve: Sieve, offers: Offers, txs: seq<Tx>, run: seq<Accounts>,
                            receipts: seq<Receipt>, trail: seq<Trial>) {
    Tried(rules, header, sieve, offers, txs, run, receipts, trail) && forall a :: Left(offers, trail, a) == []
  }

  /** What was decided before stays decided. */
  lemma TrialKept(rules: Rules, header: Header, sieve: Sieve, offers: Offers, run: seq<Accounts>, receipts: seq<Receipt>,
                  trail: seq<Trial>, k: nat, t: Trial, run': seq<Accounts>, receipts': seq<Receipt>)
    requires k < |trail| && TrialAt(rules, header, sieve, offers, run, receipts, trail, k)
    requires run <= run' && receipts <= receipts'
    ensures TrialAt(rules, header, sieve, offers, run', receipts', trail + [t], k)
  {
    hide Judge, BestOf, TxsOf, Lost;
    assert (trail + [t])[..k] == trail[..k] && (trail + [t])[k] == trail[k];
  }

  lemma BestNext(offers: Offers, trail: seq<Trial>, rest: Offers, tx: Tx)
    requires Proper(rest) && forall a :: Next(rest, a) == Left(offers, trail, a)
    requires tx.sender in rest && rest[tx.sender][0] == tx && forall b <- rest :: rest[b][0].gasPrice <= tx.gasPrice
    ensures BestOf(offers, trail, tx)
  {
    hide Left;
    assert Next(rest, tx.sender) == Left(offers, trail, tx.sender);
    forall a | Left(offers, trail, a) != [] ensures Left(offers, trail, a)[0].gasPrice <= tx.gasPrice {
      assert Next(rest, a) == Left(offers, trail, a);
    }
  }

  /** One trial more. */
  lemma TriedStep(rules: Rules, header: Header, sieve: Sieve, offers: Offers, txs: seq<Tx>, run: seq<Accounts>,
                  receipts: seq<Receipt>, trail: seq<Trial>, t: Trial, run': seq<Accounts>, receipts': seq<Receipt>)
    requires Tried(rules, header, sieve, offers, txs, run, receipts, trail) && |run| == |txs| + 1 && |receipts| == |txs|
    requires run <= run' && receipts <= receipts' && BestOf(offers, trail, t.tx)
    requires t.fate == Judge(rules, header, sieve, t.tx, run[|txs|],
                             header.gasLimit - GasBefore(receipts, |txs|) - Lost(trail))
    ensures var trail' := trail + [t];
            Tried(rules, header, sieve, offers, txs + if t.fate.Included? then [t.tx] else [], run', receipts', trail')
  {
    hide Judge, BestOf, Lost;
    var trail' := trail + [t];
    assert trail'[..|trail|] == trail;
    assert TrialAt(rules, header, sieve, offers, run', receipts', trail', |trail|);
    hide TrialAt;
    forall k: nat | k < |trail'| ensures TrialAt(rules, header, sieve, offers, run', receipts', trail', k) {
      if k < |trail| {
        TrialKept(rules, header, sieve, offers, run, receipts, trail, k, t, run', receipts');
      }
    }
  }

  ghost function Slots(offers: Offers): set<(Address, nat)> {
    set a, i: nat | a in offers && i < |offers[a]| :: (a, i)
  }

  /** What is on offer after the next of an account met its fate. */
  function Taken(rest: Offers, a: Address, fate: Fate): Offers
    requires a in rest && rest[a] != []
  {
    if fate.Included? && |rest[a]| > 1 then rest[a := rest[a][1..]] else rest - {a}
  }

  lemma LeftStep(offers: Offers, trail: seq<Trial>, rest: Offers, t: Trial)
    requires Proper(rest) && t.tx.sender in rest && forall a :: Next(rest, a) == Left(offers, trail, a)
    ensures Proper(Taken(rest, t.tx.sender, t.fate)) && Slots(Taken(rest, t.tx.sender, t.fate)) < Slots(rest)
    ensures forall a :: Next(Taken(rest, t.tx.sender, t.fate), a) == Left(offers, trail + [t], a)
  {
    var a, rest' := t.tx.sender, Taken(rest, t.tx.sender, t.fate);
    assert (trail + [t])[..|trail|] == trail;
    var i: nat := |rest[a]| - 1;
    assert (a, i) in Slots(rest) && (a, i) !in Slots(rest');
    forall b ensures Next(rest', b) == Left(offers, trail + [t], b) {
      assert Next(rest, b) == Left(offers, trail, b);
    }
  }

  lemma ProperAll(offers: Offers)
    requires Proper(offers)
    ensures forall a <- offers :: offers[a] != [] && offers[a][0].sender == a
  {
  }

  lemma TrailNone(offers: Offers)
    ensures TxsOf([], IsLow) == TxsOf([], IsRemoved) == [] && Lost([]) == 0
    ensures forall a :: Next(offers, a) == Left(offers, [], a)
  {
  }

  lemma TrailStep(trail: seq<Trial>, t: Trial, before: seq<Tx>, kind: Fate -> bool)
    ensures before + TxsOf(trail + [t], kind) == before + TxsOf(trail, kind) + if kind(t.fate) then [t.tx] else []
    ensures Lost(trail + [t]) == Lost(trail) + Wasted(t)
  {
    assert (trail + [t])[..|trail|] == trail;
  }

  function Price(offers: Offers, a: Address): int {
    if Next(offers, a) == [] then 0 else Next(offers, a)[0].gasPrice
  }

  lemma BestExists(offers: Offers)
    requires offers != map[] && Proper(offers)
    ensures exists a :: a in offers && forall b <- offers :: offers[b][0].gasPrice <= offers[a][0].gasPrice
  {
    var best := MinimumExists(offers.Keys, (a: Address) => -Price(offers, a));
    forall b <- offers ensures offers[b][0].gasPrice <= offers[best][0].gasPrice {
      assert Price(offers, b) <= Price(offers, best);
    }
  }

  class Work {
    const rules: Rules
    const header: Header
    const state: StateDB
    var txs: seq<Tx>
    var receipts: seq<Receipt>
    var gasUsed: nat
    var lowGasTxs: seq<Tx>
    var failedTxs: seq<Tx>
    /** The states the included transactions have gone through. */
    ghost var run: seq<Accounts>

    /** The included transactions have an execution within the gas limit that ends in the current state. */
    ghost predicate Valid()
      reads this, state
    {
      && state.refund == 0
      && Execution(rules, rules.Env(header), header.gasLimit, txs, run, receipts)
      && run[|txs|] == state.accounts && gasUsed == GasBefore(receipts, |receipts|)
    }

    constructor (rules: Rules, header: Header, parent: Accounts)
      ensures Valid() && fresh(state) && this.rules == rules && this.header == header
      ensures txs == [] && gasUsed == 0 && lowGasTxs == [] && failedTxs == []
      ensures run == [ParentState(rules, header.number, parent)] && state.accounts == run[0]
    {
      this.rules, this.header := rules, header;
      var work := new StateDB(parent);
      if rules.AtDaoFork(header.number) {
        ApplyDAOHardFork(work, rules.daoRefund, rules.daoDrainList);
      }
      state := work;
      txs, receipts, gasUsed, lowGasTxs, failedTxs, run := [], [], 0, [], [], [work.accounts];
    }

    /** Tries a transaction; one that fails leaves the state as it was, but may have used up pool gas. */
    method CommitTransaction(tx: Tx, gp: GasPool) returns (err: Option<TxError>)
      requires Valid() && gp.gas <= header.gasLimit - gasUsed
      modifies this, state, gp
      ensures Valid() && gp.gas <= header.gasLimit - gasUsed && lowGasTxs == old(lowGasTxs) && failedTxs == old(failedTxs)
      ensures err == if !tx.signed then Some(InvalidSignature)
                     else Verdict(rules.Env(header), AsMessage(tx), old(state.accounts), old(gp.gas))
      ensures err.Some? ==> txs == old(txs) && run == old(run) && state.accounts == old(state.accounts)
      ensures err.Some? ==> receipts == old(receipts) && gasUsed == old(gasUsed)
      ensures err.Some? ==>
                gp.gas == old(gp.gas) - If(err == Some(OutOfIntrinsicGas) || err == Some(CannotTransfer), tx.gas)
      ensures err.None? ==> txs == old(txs) + [tx] && run == old(run) + [state.accounts]
      ensures err.None? ==>
                && old(receipts) <= receipts && |receipts| == |old(receipts)| + 1
                && old(gasUsed) <= gasUsed && gp.gas == old(gp.gas) - (gasUsed - old(gasUsed))
    {
      hide Steps, IntrinsicOf, ExecutedAt, ReceiptsOf;
      var snapshot := state.accounts;
      var receipt, used;
      receipt, used, err := ApplyTransaction(rules, gp, state, header, tx, gasUsed);
      if err.Some? {
        state.accounts, state.refund := snapshot, 0;
        return;
      }
      VerdictPool(rules.Env(header), AsMessage(tx), snapshot, old(gp.gas), header.gasLimit - gasUsed);
      ExecutionExtends(rules, rules.Env(header), header.gasLimit, txs, run, receipts, tx, state.accounts, receipt);
      txs, receipts, run, gasUsed := txs + [tx], receipts + [receipt], run + [state.accounts], used;
    }

    /** Judges a transaction and, if it is to be tried, tries it. */
    method TryNext(tx: Tx, sieve: Sieve, gp: GasPool) returns (fate: Fate)
      requires Valid() && gp.gas <= header.gasLimit - gasUsed
      modifies this, state, gp
      ensures Valid() && fate == Judge(rules, header, sieve, tx, old(state.accounts), old(gp.gas))
      ensures fate.Included? ==> txs == old(txs) + [tx] && |run| == |old(run)| + 1 && |receipts| == |old(receipts)| + 1
      ensures !fate.Included? ==> txs == old(txs) && run == old(run) && receipts == old(receipts)
      ensures old(run) <= run && old(receipts) <= receipts && old(gasUsed) <= gasUsed
      ensures gp.gas == old(gp.gas) - (gasUsed - old(gasUsed)) - Wasted(Trial(tx, fate))
      ensures lowGasTxs == old(lowGasTxs) + if IsLow(fate) then [tx] else []
      ensures failedTxs == old(failedTxs) + if IsRemoved(fate) then [tx] else []
    {
      hide Execution, Verdict, GasBefore;
      if sieve.premature(tx) {
        return Premature;
      }
      if tx.gasPrice < sieve.gasPrice && tx.sender !in sieve.ownedAccounts {
        lowGasTxs := lowGasTxs + [tx];
        return Underpriced;
      }
      var err := CommitTransaction(tx, gp);
      if err.Some? && err.value != GasLimitReached {
        failedTxs := failedTxs + [tx];
      }
      return if err.Some? then Failed(err.value) else Included;
    }

    /** How the trials stand: what they have included, what is on offer, what is left of the gas, and the two lists of
        transactions to be removed from the pool. */
    ghost predicate Underway(offers: Offers, sieve: Sieve, rest: Offers, pool: int, trail: seq<Trial>, low: seq<Tx>,
                             failed: seq<Tx>)
      reads this, state
    {
      && Valid() && Proper(rest) && Tried(rules, header, sieve, offers, txs, run, receipts, trail)
      && pool == header.gasLimit - gasUsed - Lost(trail)
      && (forall a :: Next(rest, a) == Left(offers, trail, a))
      && lowGasTxs == low + TxsOf(trail, IsLow) && failedTxs == failed + TxsOf(trail, IsRemoved)
    }

    /** Tries one of the transactions of highest price among the next of all accounts. */
    method TryBest(offers: Offers, sieve: Sieve, rest: Offers, gp: GasPool, ghost trail: seq<Trial>, ghost low: seq<Tx>,
                   ghost failed: seq<Tx>)
      returns (rest': Offers, ghost trail': seq<Trial>)
      requires Underway(offers, sieve, rest, gp.gas, trail, low, failed) && rest != map[]
      modifies this, state, gp
      ensures Underway(offers, sieve, rest', gp.gas, trail', low, failed) && old(run) <= run && Slots(rest') < Slots(rest)
    {
      hide Execution, Judge, GasBefore, Tried, Left, TxsOf, Lost, Proper, BestOf;
      BestExists(rest);
      ProperAll(rest);
      var a :| a in rest && forall b <- rest :: rest[b][0].gasPrice <= rest[a][0].gasPrice;
      var tx := rest[a][0];
      assert |run| == |txs| + 1 && |receipts| == |txs| by { ExecutionLengths(); }
      var fate := TryNext(tx, sieve, gp);
      ghost var t := Trial(tx, fate);
      BestNext(offers, trail, rest, tx);
      TriedStep(rules, header, sieve, offers, old(txs), old(run), old(receipts), trail, t, run, receipts);
      assert txs == old(txs) + if fate.Included? then [tx] else [];
      TrailStep(trail, t, low, IsLow);
      TrailStep(trail, t, failed, IsRemoved);
      LeftStep(offers, trail, rest, t);
      rest', trail' := Taken(rest, a, fate), trail + [t];
    }

    lemma ExecutionLengths()
      requires Valid()
      ensures |run| == |txs| + 1 && |receipts| == |txs|
    {
    }

    /** Tries the transactions on offer until nothing is left: the account of one that does not go in is passed over from
        then on. */
    method CommitTransactions(offers: Offers, sieve: Sieve) returns (ghost trail: seq<Trial>)
      requires Valid() && txs == [] && Proper(offers)
      modifies this, state
      ensures Valid() && old(run) <= run && Committed(rules, header, sieve, offers, txs, run, receipts, trail)
      ensures lowGasTxs == old(lowGasTxs) + TxsOf(trail, IsLow)
      ensures failedTxs == old(failedTxs) + TxsOf(trail, IsRemoved)
    {
      var gp := new GasPool();
      gp.AddGas(header.gasLimit);
      TrailNone(offers);
      var rest := offers;
      trail := [];
      ghost var low, failed := lowGasTxs, failedTxs;
      assert Underway(offers, sieve, rest, gp.gas, trail, low, failed);
      hide Underway, Valid;
      while rest != map[]
        invariant Underway(offers, sieve, rest, gp.gas, trail, low, failed) && old(run) <= run
        decreases Slots(rest)
      {
        rest, trail := TryBest(offers, sieve, rest, gp, trail, low, failed);
      }
      UnderwayEnds(offers, sieve, gp.gas, trail, low, failed);
    }

    lemma UnderwayEnds(offers: Offers, sieve: Sieve, pool: int, trail: seq<Trial>, low: seq<Tx>, failed: seq<Tx>)
      requires Underway(offers, sieve, map[], pool, trail, low, failed)
      ensures Valid() && Committed(rules, header, sieve, offers, txs, run, receipts, trail)
      ensures lowGasTxs == low + TxsOf(trail, IsLow) && failedTxs == failed + TxsOf(trail, IsRemoved)
    {
      hide Valid, Tried, Left, TxsOf;
      forall a ensures Left(offers, trail, a) == [] {
        assert Next(map[], a) == Left(offers, trail, a);
      }
    }
  }

  /** More gas in the pool does no harm. */
  lemma VerdictPool(env: Env, msg: Message, m: Accounts, pool: int, larger: int)
    requires Verdict(env, msg, m, pool).None? && pool <= larger
    ensures Verdict(env, msg, m, larger).None?
  {
  }

  /** The first `c` transactions of an account's list are the ones of it that went in. */
  ghost predicate Entered(list: seq<Tx>, trail: seq<Trial>, a: Address, c: nat) {
    && c <= |list| && (forall i | 0 <= i < c :: Trial(list[i], Included) in trail)
    && forall t <- trail | t.tx.sender == a && t.fate.Included? :: t.tx in list[..c]
  }

  ghost predicate Refused(trail: seq<Trial>, tx: Tx) {
    exists t <- trail :: t.tx == tx && !t.fate.Included?
  }

  lemma EnteredStep(list: seq<Tx>, trail: seq<Trial>, a: Address, c: nat, t: Trial)
    requires Entered(list, trail, a, c)
    ensures t.tx.sender != a || !t.fate.Included? ==> Entered(list, trail + [t], a, c)
    ensures c < |list| && list[c] == t.tx && t.fate.Included? ==> Entered(list, trail + [t], a, c + 1)
    ensures forall tx :: Refused(trail, tx) ==> Refused(trail + [t], tx)
    ensures !t.fate.Included? ==> Refused(trail + [t], t.tx)
  {
    assert t in trail + [t] && forall u <- trail :: u in trail + [t];
    if c < |list| {
      assert list[..c + 1] == list[..c] + [list[c]];
    }
  }

  lemma LeftLast(offers: Offers, trail: seq<Trial>, t: Trial, a: Address)
    requires BestOf(offers, trail, t.tx)
    ensures var left := Left(offers, trail, a);
            if t.tx.sender != a then Left(offers, trail + [t], a) == left
            else left != [] && left[0] == t.tx && Left(offers, trail + [t], a) == if t.fate.Included? then left[1..] else []
  {
    assert (trail + [t])[..|trail|] == trail;
  }

  /** Either the rest of the list is still on offer, or nothing because the next one was refused. */
  ghost predicate Standing(list: seq<Tx>, left: seq<Tx>, trail: seq<Trial>, a: Address, c: nat) {
    && Entered(list, trail, a, c) && c <= |list|
    && (left == list[c..] || (left == [] && c < |list| && Refused(trail, list[c])))
  }

  lemma StandingStep(list: seq<Tx>, left: seq<Tx>, trail: seq<Trial>, a: Address, c: nat, t: Trial)
    requires Standing(list, left, trail, a, c) && (t.tx.sender == a ==> left != [] && left[0] == t.tx)
    ensures if t.tx.sender != a then Standing(list, left, trail + [t], a, c)
            else if t.fate.Included? then Standing(list, left[1..], trail + [t], a, c + 1)
            else Standing(list, [], trail + [t], a, c)
  {
    hide Entered, Refused;
    EnteredStep(list, trail, a, c, t);
    if t.tx.sender == a {
      assert left == list[c..] && left[0] == list[c] && left[1..] == list[c + 1..];
    }
  }

  lemma StandingNone(offers: Offers, a: Address)
    ensures Standing(Next(offers, a), Left(offers, [], a), [], a, 0)
  {
  }

  /** Every trial took the best transaction. */
  ghost predicate AllBest(offers: Offers, trail: seq<Trial>) {
    forall k: nat | k < |trail| :: BestOf(offers, trail[..k], trail[k].tx)
  }

  lemma AllBestFront(offers: Offers, trail: seq<Trial>)
    requires AllBest(offers, trail) && trail != []
    ensures var last := |trail| - 1; AllBest(offers, trail[..last]) && BestOf(offers, trail[..last], trail[last].tx)
  {
    hide BestOf;
    var front := trail[..|trail| - 1];
    forall k: nat | k < |front| ensures BestOf(offers, front[..k], front[k].tx) {
      assert front[..k] == trail[..k] && front[k] == trail[k];
    }
  }

  lemma {:induction false} LeftPrefix(offers: Offers, trail: seq<Trial>, a: Address) returns (c: nat)
    requires AllBest(offers, trail)
    ensures Standing(Next(offers, a), Left(offers, trail, a), trail, a, c)
  {
    hide Standing, Left, BestOf, AllBest;
    c := 0;
    if trail == [] {
      StandingNone(offers, a);
    } else {
      var front, t := trail[..|trail| - 1], trail[|trail| - 1];
      AllBestFront(offers, trail);
      c := LeftPrefix(offers, front, a);
      assert trail == front + [t];
      LeftLast(offers, front, t, a);
      StandingStep(Next(offers, a), Left(offers, front, a), front, a, c, t);
      if t.tx.sender == a && t.fate.Included? {
        c := c + 1;
      }
    }
  }

  /** Of every account a first part of the list goes in, and if that is not all of it, the next one was tried and met
      another fate. */
  lemma OffersJudged(rules: Rules, header: Header, sieve: Sieve, offers: Offers, txs: seq<Tx>, run: seq<Accounts>,
                     receipts: seq<Receipt>, trail: seq<Trial>, a: Address) returns (c: nat)
    requires Committed(rules, header, sieve, offers, txs, run, receipts, trail)
    ensures Entered(Next(offers, a), trail, a, c)
    ensures c == |Next(offers, a)| || Refused(trail, Next(offers, a)[c])
  {
    hide Entered, Refused;
    forall k: nat | k < |trail| ensures BestOf(offers, trail[..k], trail[k].tx) {
      assert TrialAt(rules, header, sieve, offers, run, receipts, trail, k);
    }
    c := LeftPrefix(offers, trail, a);
    assert Left(offers, trail, a) == [];
  }

  /** Gas that failures kept changes the fate of a transaction exactly if it is otherwise fit to be tried and fits into
      what the block has free but not into what is left in the pool: then it is taken to exceed the gas limit. */
  lemma LostGasDecides(rules: Rules, header: Header, sieve: Sieve, tx: Tx, m: Accounts, free: int, lost: nat)
    ensures Judge(rules, header, sieve, tx, m, free - lost) != Judge(rules, header, sieve, tx, m, free) <==>
            && !sieve.premature(tx) && (sieve.gasPrice <= tx.gasPrice || tx.sender in sieve.ownedAccounts) && tx.signed
            && Get(m, tx.sender).nonce == tx.nonce && tx.gas * tx.gasPrice <= Get(m, tx.sender).balance
            && free - lost < tx.gas <= free
    ensures Judge(rules, header, sieve, tx, m, free - lost) != Judge(rules, header, sieve, tx, m, free) ==>
              Judge(rules, header, sieve, tx, m, free - lost) == Failed(GasLimitReached)
  {
    assert AsMessage(tx).gas * AsMessage(tx).gasPrice == tx.gas * tx.gasPrice;
  }

  /** What the miner ends with, and what another node makes of its block. */
  datatype Mined = Mined(block: Header, receipts: seq<Receipt>, state: StateDB, removed: seq<Tx>)
  datatype Replay = Replay(receipts: seq<Receipt>, usedGas: int, err: Option<TxError>, state: StateDB)

  /** Assembles a block on top of `parent` and tells which transactions the pool is to remove. */
  method CommitNewWork(rules: Rules, header: Header, parent: Accounts, offers: Offers, sieve: Sieve, uncles: seq<Header>)
    returns (m: Mined, ghost run: seq<Accounts>, ghost trail: seq<Trial>)
    requires Proper(offers)
    ensures fresh(m.state)
    ensures m.block == header.(txs := m.block.txs, gasUsed := m.block.gasUsed, uncles := uncles, root := m.state.accounts)
    ensures Execution(rules, rules.Env(m.block), m.block.gasLimit, m.block.txs, run, m.receipts)
    ensures run[0] == ParentState(rules, m.block.number, parent) && m.block.gasUsed == GasBefore(m.receipts, |m.receipts|)
    ensures Rewarded(m.block, uncles, run[|m.block.txs|], m.state.accounts)
    ensures Committed(rules, header, sieve, offers, m.block.txs, run, m.receipts, trail)
    ensures m.removed == TxsOf(trail, IsLow) + TxsOf(trail, IsRemoved)
  {
    hide ExecutedAt, Agree, Rewarded, ReceiptsOf, Committed;
    var work := new Work(rules, header, parent);
    trail := work.CommitTransactions(offers, sieve);
    run := work.run;
    ghost var after := work.state.accounts;
    AccumulateRewards(work.state, header, uncles);
    var block := header.(txs := work.txs, gasUsed := work.gasUsed, uncles := uncles, root := work.state.accounts);
    AgreeRewarded(block, uncles, after, work.state.accounts);
    m := Mined(block, work.receipts, work.state, work.lowGasTxs + work.failedTxs);
  }

  /** Whatever was offered to the miner, a node that processes the mined block on the same parent accepts it, with
      the receipts and the gas the miner recorded, and ends in a state that answers as the miner's does. */
  method MinedBlockAccepted(rules: Rules, header: Header, parent: Accounts, offers: Offers, sieve: Sieve,
                            uncles: seq<Header>)
    returns (m: Mined, v: Replay)
    requires Proper(offers)
    ensures v.err.None? && v.receipts == m.receipts && v.usedGas == m.block.gasUsed
    ensures Agree(m.state.accounts, v.state.accounts)
  {
    hide ExecutedAt, ReceiptsOf;
    ghost var run, trail, remaining, again;
    m, run, trail := CommitNewWork(rules, header, parent, offers, sieve, uncles);
    var state := new StateDB(parent);
    var receipts, usedGas, err;
    receipts, usedGas, err, remaining, again := Process(rules, m.block, state, run, m.receipts);
    v := Replay(receipts, usedGas, err, state);
  }
}
