/** Processing a block: its transactions, the hard-fork transfer and the rewards. */
module StateProcessors {
  import opened ChainTypes
  import opened WorldState
  import opened HeaderRules
  import opened StateTransitions
  import opened Ancestry
  import Uncles

  const BLOCK_REWARD := 5_000_000_000_000_000_000

  /** The rules and tables a processor works with. */
  datatype Rules = Rules(config: ChainConfig, precompiled: set<Address>, createAddress: (Address, nat) -> Address,
                         daoRefund: Address, daoDrainList: seq<Address>)
  {
    /** The address derived from an account and a nonce is never that account's own. */
    ghost predicate Derives() {
      forall a, n :: createAddress(a, n) != a
    }

    function Env(header: Header): Env {
      StateTransitions.Env(config, header.number, header.coinbase, 0, precompiled, createAddress)
    }

    predicate AtDaoFork(number: nat) {
      config.daoForkSupport && config.daoForkBlock == Some(number)
    }
  }

  datatype Receipt = Receipt(txHash: Option<TxHash>, gasUsed: int, cumulativeGasUsed: int,
                             externalLogicAddress: Option<Address>)

  function AsMessage(tx: Tx): Message {
    Message(tx.sender, tx.to, tx.gasPrice, tx.gas, tx.value, tx.nonce, true, tx.data)
  }

  function CreatedBy(rules: Rules, tx: Tx): Option<Address> {
    if tx.to.None? then Some(rules.createAddress(tx.sender, tx.nonce)) else None
  }

  /** What an uncle of block `number` earns. */
  function UncleReward(uncle: Header, number: nat): int {
    (uncle.number + 8 - number) * BLOCK_REWARD / 8
  }

  /** Everything a block creates. */
  ghost function Rewards(number: nat, uncles: seq<Header>): int {
    if uncles == [] then BLOCK_REWARD
    else Rewards(number, uncles[..|uncles| - 1]) + UncleReward(uncles[|uncles| - 1], number) + BLOCK_REWARD / 32
  }

  /** With at most two uncles one to six numbers below, a block creates between one and 45/16 rewards. */
  lemma RewardsBounded(number: nat, uncles: seq<Header>)
    requires |uncles| <= 2 && forall u <- uncles :: number - 6 <= u.number <= number - 1
    ensures BLOCK_REWARD <= Rewards(number, uncles) <= BLOCK_REWARD * 45 / 16
  {
    if |uncles| == 1 {
      assert uncles[0] in uncles && uncles[..0] == [];
    } else if |uncles| == 2 {
      assert uncles[0] in uncles && uncles[1] in uncles && uncles[..1] == [uncles[0]] && uncles[..1][..0] == [];
      assert Rewards(number, [uncles[0]]) == BLOCK_REWARD + UncleReward(uncles[0], number) + BLOCK_REWARD / 32;
    }
  }

  /** The same bound for every block that passed `VerifyUncles`. */
  lemma VerifiedRewardsBounded(g: Header, config: ChainConfig, pow: Header -> bool, now: int, b: Header)
    requires Linked(g, b) && b != g && Uncles.UnclesOk(g, config, pow, now, b)
    ensures BLOCK_REWARD <= Rewards(b.number, b.uncles) <= BLOCK_REWARD * 45 / 16
  {
    hide Linked, Uncles.UncleOk;
    forall u <- b.uncles ensures b.number - 6 <= u.number <= b.number - 1 {
      var i :| 0 <= i < |b.uncles| && b.uncles[i] == u;
      Uncles.UncleDistance(g, config, pow, now, b, i);
    }
    RewardsBounded(b.number, b.uncles);
  }

  /** What the uncles' miners among them earn at address `a`. */
  ghost function UncleRewardsOf(number: nat, uncles: seq<Header>, a: Address): int {
    if uncles == [] then 0
    else UncleRewardsOf(number, uncles[..|uncles| - 1], a)
         + If(uncles[|uncles| - 1].coinbase == a, UncleReward(uncles[|uncles| - 1], number))
  }

  /** What a block pays to address `a`. */
  ghost function RewardsOf(header: Header, uncles: seq<Header>, a: Address): int {
    UncleRewardsOf(header.number, uncles, a) + If(a == header.coinbase, BLOCK_REWARD + |uncles| * (BLOCK_REWARD / 32))
  }

  lemma UncleAdds(number: nat, uncles: seq<Header>, uncle: Header, a: Address)
    ensures UncleRewardsOf(number, [], a) == 0 && Rewards(number, []) == BLOCK_REWARD
    ensures UncleRewardsOf(number, uncles + [uncle], a) ==
            UncleRewardsOf(number, uncles, a) + If(uncle.coinbase == a, UncleReward(uncle, number))
    ensures Rewards(number, uncles + [uncle]) == Rewards(number, uncles) + UncleReward(uncle, number) + BLOCK_REWARD / 32
  {
    assert (uncles + [uncle])[..|uncles + [uncle]| - 1] == uncles;
  }

  /** With one uncle `d` numbers below and miners of their own, the uncle's gets (8 - d)/8 and the block's 33/32 of the
      reward. */
  lemma OneUnclePaid(header: Header, uncle: Header, d: nat)
    requires 1 <= d <= 6 && uncle.number + d == header.number && uncle.coinbase != header.coinbase
    ensures 8 * RewardsOf(header, [uncle], uncle.coinbase) == (8 - d) * BLOCK_REWARD
    ensures 32 * RewardsOf(header, [uncle], header.coinbase) == 33 * BLOCK_REWARD
    ensures forall a | a != uncle.coinbase && a != header.coinbase :: RewardsOf(header, [uncle], a) == 0
  {
    assert [] + [uncle] == [uncle];
    forall a ensures UncleRewardsOf(header.number, [uncle], a) == If(uncle.coinbase == a, UncleReward(uncle, header.number)) {
      UncleAdds(header.number, [], uncle, a);
    }
  }

  /** Two uncles one number below are the dearest, at 45/16 of the reward, and none the cheapest. */
  lemma RewardsAttained(number: nat, u: Header, v: Header)
    requires u.number + 1 == v.number + 1 == number
    ensures 16 * Rewards(number, [u, v]) == 45 * BLOCK_REWARD && Rewards(number, []) == BLOCK_REWARD
  {
    assert [] + [u] == [u] && [u] + [v] == [u, v];
    UncleAdds(number, [], u, 0);
    UncleAdds(number, [u], v, 0);
  }

  method AccumulateRewards(state: StateDB, header: Header, uncles: seq<Header>)
    modifies state`accounts
    ensures Total(state.accounts) == Total(old(state.accounts)) + Rewards(header.number, uncles)
    ensures forall a ::
              Get(state.accounts, a).balance == Get(old(state.accounts), a).balance + RewardsOf(header, uncles, a)
    ensures forall a :: Get(state.accounts, a).nonce == Get(old(state.accounts), a).nonce
  {
    var reward := BLOCK_REWARD;
    for i := 0 to |uncles|
      invariant reward == BLOCK_REWARD + i * (BLOCK_REWARD / 32)
      invariant Total(state.accounts) + reward == Total(old(state.accounts)) + Rewards(header.number, uncles[..i])
      invariant forall a :: Get(state.accounts, a).balance
                            == Get(old(state.accounts), a).balance + UncleRewardsOf(header.number, uncles[..i], a)
      invariant forall a :: Get(state.accounts, a).nonce == Get(old(state.accounts), a).nonce
    {
      assert uncles[..i + 1][..i] == uncles[..i];
      state.AddBalance(uncles[i].coinbase, UncleReward(uncles[i], header.number));
      reward := reward + BLOCK_REWARD / 32;
    }
    assert uncles[..|uncles|] == uncles;
    state.AddBalance(header.coinbase, reward);
  }

  /** The accounts after those of `drain` have been emptied into `refund`, one after the other. */
  ghost function Drained(m: Accounts, refund: Address, drain: seq<Address>): Accounts {
    if drain == [] then Credit(m, refund, 0)
    else
      var before, a := Drained(m, refund, drain[..|drain| - 1]), drain[|drain| - 1];
      if a !in before then before
      else
        var credited := Credit(before, refund, before[a].balance);
        credited[a := Account(0, credited[a].nonce)]
  }

  /** Draining moves balances and creates or destroys none, provided the refund account is not drained itself. */
  lemma {:induction false} DrainedMoves(m: Accounts, refund: Address, drain: seq<Address>)
    requires refund !in drain
    ensures var after := Drained(m, refund, drain);
            && Total(after) == Total(m)
            && (forall a <- drain :: Get(after, a).balance == 0)
            && (forall a | a !in drain && a != refund :: Get(after, a) == Get(m, a))
            && (forall a :: Get(after, a).nonce == Get(m, a).nonce)
  {
    if drain == [] {
      TotalUpdate(m, refund, Get(m, refund));
    } else {
      var rest, a := drain[..|drain| - 1], drain[|drain| - 1];
      DrainedMoves(m, refund, rest);
      var before := Drained(m, refund, rest);
      if a in before {
        var credited := Credit(before, refund, before[a].balance);
        TotalUpdate(before, refund, credited[refund]);
        TotalUpdate(credited, a, Account(0, credited[a].nonce));
      }
      assert forall x :: x in drain <==> x in rest || x == a;
    }
  }

  /** Moves the balances of all drained accounts to the refund account. */
  method ApplyDAOHardFork(state: StateDB, refund: Address, drain: seq<Address>)
    modifies state`accounts
    ensures state.accounts == Drained(old(state.accounts), refund, drain)
  {
    state.AddBalance(refund, 0);
    for i := 0 to |drain|
      invariant state.accounts == Drained(old(state.accounts), refund, drain[..i])
    {
      assert drain[..i + 1][..i] == drain[..i];
      if drain[i] in state.accounts {
        state.AddBalance(refund, state.accounts[drain[i]].balance);
        state.SetBalance(drain[i], 0);
      }
    }
    assert drain[..|drain|] == drain;
  }

  /** The receipt of a transaction applied after `before` gas was used. */
  ghost function IssuedReceipt(rules: Rules, env: Env, tx: Tx, before: int): Receipt {
    var gas := IntrinsicOf(env, AsMessage(tx));
    Receipt(Some(TxHash(tx)), gas, before + gas, CreatedBy(rules, tx))
  }

  /** Two states that answer alike. */
  ghost predicate Agree(m: Accounts, m': Accounts) {
    forall a :: Get(m, a) == Get(m', a)
  }

  /** `m'` is what the transaction makes of `m`. */
  ghost predicate Steps(env: Env, tx: Tx, m: Accounts, m': Accounts) {
    var msg := AsMessage(tx);
    forall a ::
             Get(m', a) == Account(Get(m, a).balance + Delta(env, msg, m, IntrinsicOf(env, msg), a), NextNonce(env, msg, m, a))
  }

  /** Whether a transaction applies and what it does depends on what the state answers only. */
  lemma AgreeSteps(env: Env, tx: Tx, m: Accounts, n: Accounts, pool: int)
    requires Agree(m, n)
    ensures Verdict(env, AsMessage(tx), m, pool) == Verdict(env, AsMessage(tx), n, pool)
    ensures forall m', n' :: Steps(env, tx, m, m') && Steps(env, tx, n, n') ==> Agree(m', n')
  {
  }

  /** After a transaction the next one of its sender executes if it has the gas and the balance, and the transaction itself
      never executes again. */
  lemma NextExecutes(env: Env, first: Tx, second: Tx, m: Accounts, m': Accounts, pool: int, pool': int)
    requires Verdict(env, AsMessage(first), m, pool).None? && Steps(env, first, m, m')
    requires !SelfCreated(env, AsMessage(first), m) && second.sender == first.sender && second.nonce == first.nonce + 1
    requires IntrinsicOf(env, AsMessage(second)) <= second.gas <= pool' && 0 <= second.value
    requires second.gas * second.gasPrice + second.value <= Get(m', second.sender).balance
    ensures Verdict(env, AsMessage(second), m', pool').None?
    ensures Verdict(env, AsMessage(first), m', pool') == Some(WrongTxNonce)
  {
    hide IntrinsicOf, Delta;
    assert Get(m', first.sender).nonce == first.nonce + 1;
  }

  /** The state in which the transactions of block `number` begin. */
  ghost function ParentState(rules: Rules, number: nat, m: Accounts): Accounts {
    if rules.AtDaoFork(number) then Drained(m, rules.daoRefund, rules.daoDrainList) else m
  }

  /** The transfer of the fork happens at its block, on a node that supports it, and nowhere else. */
  lemma ForkDrains(rules: Rules, number: nat, m: Accounts)
    requires rules.daoRefund !in rules.daoDrainList
    ensures if rules.config.daoForkSupport && rules.config.daoForkBlock == Some(number) then
              (forall a <- rules.daoDrainList :: Get(ParentState(rules, number, m), a).balance == 0)
            else ParentState(rules, number, m) == m
  {
    DrainedMoves(m, rules.daoRefund, rules.daoDrainList);
  }

  /** `m'` is `m` with the rewards of a block paid out. */
  ghost predicate Rewarded(header: Header, uncles: seq<Header>, m: Accounts, m': Accounts) {
    forall a :: Get(m', a) == Account(Get(m, a).balance + RewardsOf(header, uncles, a), Get(m, a).nonce)
  }

  lemma AgreeRewarded(header: Header, uncles: seq<Header>, m: Accounts, m': Accounts)
    requires forall a :: Get(m', a).balance == Get(m, a).balance + RewardsOf(header, uncles, a)
    requires forall a :: Get(m', a).nonce == Get(m, a).nonce
    ensures forall n :: Agree(n, m) ==> Rewarded(header, uncles, n, m')
    ensures Rewarded(header, uncles, m, m')
  {
  }

  /** Applies a transaction, adds its gas to the running total and issues its receipt. */
  method ApplyTransaction(rules: Rules, gp: GasPool, state: StateDB, header: Header, tx: Tx, usedGas: int)
    returns (receipt: Receipt, usedGas': int, err: Option<TxError>)
    requires state.refund == 0
    modifies gp, state
    ensures err == if !tx.signed then Some(InvalidSignature)
                   else Verdict(rules.Env(header), AsMessage(tx), old(state.accounts), old(gp.gas))
    ensures err.None? ==>
              && state.refund == 0
              && receipt == IssuedReceipt(rules, rules.Env(header), tx, usedGas)
              && usedGas' == usedGas + receipt.gasUsed && gp.gas == old(gp.gas) - receipt.gasUsed
              && (rules.Derives() ==> Total(state.accounts) == Total(old(state.accounts)))
              && Steps(rules.Env(header), tx, old(state.accounts), state.accounts)
    ensures err.Some? ==>
              gp.gas == old(gp.gas) - If(err == Some(OutOfIntrinsicGas) || err == Some(CannotTransfer), tx.gas)
  {
    receipt, usedGas' := Receipt(None, 0, 0, None), usedGas;
    if !tx.signed {
      return receipt, usedGas, Some(InvalidSignature);
    }
    var msg := AsMessage(tx);
    var st := new StateTransition(rules.Env(header), msg, state, gp);
    var gas;
    gas, err := st.TransitionDb();
    if err.Some? {
      return;
    }
    UsedGasBounds(rules.Env(header), msg, old(state.accounts), old(gp.gas), 0);
    usedGas' := usedGas + gas;
    state.refund := 0; // taking the intermediate root clears the refund counter
    receipt := Receipt(Some(TxHash(tx)), gas, usedGas', None);
    if msg.to.None? {
      receipt := receipt.(externalLogicAddress := Some(rules.createAddress(msg.from, tx.nonce)));
    }
  }

  /** Gas used by the transactions before the one at `j`. */
  function GasBefore(rs: seq<Receipt>, j: nat): int
    requires j <= |rs|
  {
    if j == 0 then 0 else rs[j - 1].cumulativeGasUsed
  }

  ghost predicate ReceiptAt(rules: Rules, tx: Tx, rs: seq<Receipt>, j: nat)
    requires j < |rs|
  {
    && rs[j].txHash == Some(TxHash(tx)) && rs[j].externalLogicAddress == CreatedBy(rules, tx)
    && rs[j].cumulativeGasUsed == GasBefore(rs, j) + rs[j].gasUsed
  }

  /** The receipts of a block: one per transaction, whose cumulative gas is the running sum. */
  ghost predicate ReceiptsOf(rules: Rules, txs: seq<Tx>, rs: seq<Receipt>) {
    |rs| == |txs| && forall j | 0 <= j < |rs| :: ReceiptAt(rules, txs[j], rs, j)
  }

  /** The transaction at `i` takes `run[i]` to `run[i + 1]` with what is left of the gas. */
  ghost predicate ExecutedAt(env: Env, gas: int, txs: seq<Tx>, run: seq<Accounts>, rs: seq<Receipt>, i: nat)
    requires i < |txs| && i < |rs| && i + 1 < |run|
  {
    && txs[i].signed && Verdict(env, AsMessage(txs[i]), run[i], gas - GasBefore(rs, i)).None?
    && Steps(env, txs[i], run[i], run[i + 1])
    && rs[i].gasUsed == IntrinsicOf(env, AsMessage(txs[i]))
  }

  /** `run` is the sequence of states through which the transactions take `run[0]`, and `rs` their receipts. */
  ghost predicate Execution(rules: Rules, env: Env, gas: int, txs: seq<Tx>, run: seq<Accounts>, rs: seq<Receipt>) {
    && |run| == |txs| + 1 && ReceiptsOf(rules, txs, rs)
    && forall i | 0 <= i < |txs| :: ExecutedAt(env, gas, txs, run, rs, i)
  }

  /** An execution may be prolonged by a transaction that applies. */
  lemma ExecutionExtends(rules: Rules, env: Env, gas: int, txs: seq<Tx>, run: seq<Accounts>, rs: seq<Receipt>,
                         tx: Tx, m: Accounts, receipt: Receipt)
    requires Execution(rules, env, gas, txs, run, rs) && tx.signed
    requires Verdict(env, AsMessage(tx), run[|txs|], gas - GasBefore(rs, |rs|)).None? && Steps(env, tx, run[|txs|], m)
    requires receipt == IssuedReceipt(rules, env, tx, GasBefore(rs, |rs|))
    ensures Execution(rules, env, gas, txs + [tx], run + [m], rs + [receipt])
  {
    hide Verdict, Steps, IntrinsicOf;
    forall i | 0 <= i < |txs| + 1
      ensures ReceiptAt(rules, (txs + [tx])[i], rs + [receipt], i)
      ensures ExecutedAt(env, gas, txs + [tx], run + [m], rs + [receipt], i)
    {
      assert i < |txs| ==> ReceiptAt(rules, txs[i], rs, i) && ExecutedAt(env, gas, txs, run, rs, i);
    }
  }

  /** An execution from a state that answers alike foretells the next transaction. */
  lemma Foretold(rules: Rules, env: Env, gas: int, txs: seq<Tx>, plan: seq<Accounts>, planned: seq<Receipt>, i: nat,
                 m: Accounts)
    requires Execution(rules, env, gas, txs, plan, planned) && i < |txs| && Agree(plan[i], m)
    ensures txs[i].signed && Verdict(env, AsMessage(txs[i]), m, gas - GasBefore(planned, i)).None?
    ensures forall m' :: Steps(env, txs[i], m, m') ==> Agree(plan[i + 1], m')
    ensures planned[i] == IssuedReceipt(rules, env, txs[i], GasBefore(planned, i))
  {
    hide Verdict, Steps, IntrinsicOf, Agree;
    assert ReceiptAt(rules, txs[i], planned, i) && ExecutedAt(env, gas, txs, plan, planned, i);
    AgreeSteps(env, txs[i], plan[i], m, gas - GasBefore(planned, i));
  }

  /** Runs the transactions of a block in order, until one fails.  It succeeds exactly if there is an execution of
      them, which then tells the receipts and the state; `plan` is any execution from a state that answers alike. */
  method ApplyAll(rules: Rules, gp: GasPool, state: StateDB, block: Header, ghost plan: seq<Accounts>,
                  ghost planned: seq<Receipt>)
    returns (receipts: seq<Receipt>, usedGas: int, err: Option<TxError>, ghost run: seq<Accounts>)
    requires state.refund == 0
    modifies gp, state
    ensures err.None? ==>
              && Execution(rules, rules.Env(block), old(gp.gas), block.txs, run, receipts)
              && run[0] == old(state.accounts) && run[|block.txs|] == state.accounts
              && usedGas == GasBefore(receipts, |receipts|) && gp.gas + usedGas == old(gp.gas)
              && (rules.Derives() ==> Total(state.accounts) == Total(old(state.accounts)))
    ensures Execution(rules, rules.Env(block), old(gp.gas), block.txs, plan, planned) && Agree(plan[0], old(state.accounts)) ==>
              err.None? && receipts == planned && Agree(plan[|block.txs|], state.accounts)
  {
    hide Verdict, Steps, IntrinsicOf, Agree;
    var env, txs := rules.Env(block), block.txs;
    ghost var foreseen := Execution(rules, env, gp.gas, txs, plan, planned) && Agree(plan[0], state.accounts);
    receipts, usedGas, run := [], 0, [state.accounts];
    for i := 0 to |txs|
      invariant state.refund == 0 && |receipts| == i
      invariant Execution(rules, env, old(gp.gas), txs[..i], run, receipts)
      invariant run[0] == old(state.accounts) && run[i] == state.accounts
      invariant usedGas == GasBefore(receipts, |receipts|) && gp.gas + usedGas == old(gp.gas)
      invariant rules.Derives() ==> Total(state.accounts) == Total(old(state.accounts))
      invariant foreseen ==> receipts == planned[..i] && Agree(plan[i], state.accounts)
    {
      ghost var before := state.accounts;
      if foreseen {
        Foretold(rules, env, old(gp.gas), txs, plan, planned, i, state.accounts);
      }
      var receipt;
      receipt, usedGas, err := ApplyTransaction(rules, gp, state, block, txs[i], usedGas);
      if err.Some? {
        return;
      }
      ExecutionExtends(rules, env, old(gp.gas), txs[..i], run, receipts, txs[i], state.accounts, receipt);
      assert txs[..i + 1] == txs[..i] + [txs[i]];
      receipts, run := receipts + [receipt], run + [state.accounts];
    }
    assert txs[..|txs|] == txs;
    err := None;
  }

  /** Processes a block.  If it is accepted, the pool's rest and the gas used add up to the gas limit and
      the sum of all balances has grown by exactly the rewards.  It is accepted if and only if its transactions
      have an execution from the state of its parent. */
  method Process(rules: Rules, block: Header, state: StateDB, ghost plan: seq<Accounts>, ghost planned: seq<Receipt>)
    returns (receipts: seq<Receipt>, usedGas: int, err: Option<TxError>, ghost remaining: int, ghost run: seq<Accounts>)
    requires state.refund == 0
    modifies state
    ensures err.None? ==>
              && Execution(rules, rules.Env(block), block.gasLimit, block.txs, run, receipts)
              && run[0] == ParentState(rules, block.number, old(state.accounts))
              && ReceiptsOf(rules, block.txs, receipts) && usedGas == GasBefore(receipts, |receipts|)
              && remaining + usedGas == block.gasLimit
              && (rules.Derives() && rules.daoRefund !in rules.daoDrainList ==>
                    Total(state.accounts) == Total(old(state.accounts)) + Rewards(block.number, block.uncles))
              && Rewarded(block, block.uncles, run[|block.txs|], state.accounts)
    ensures && Execution(rules, rules.Env(block), block.gasLimit, block.txs, plan, planned)
            && Agree(plan[0], ParentState(rules, block.number, old(state.accounts))) ==>
              err.None? && receipts == planned && Rewarded(block, block.uncles, plan[|block.txs|], state.accounts)
  {
    hide ExecutedAt, Agree, Drained, Rewarded;
    var gp := new GasPool();
    gp.AddGas(block.gasLimit);
    if rules.AtDaoFork(block.number) {
      ApplyDAOHardFork(state, rules.daoRefund, rules.daoDrainList);
      if rules.daoRefund !in rules.daoDrainList {
        DrainedMoves(old(state.accounts), rules.daoRefund, rules.daoDrainList);
      }
    }
    receipts, usedGas, err, run := ApplyAll(rules, gp, state, block, plan, planned);
    remaining := gp.gas;
    if err.Some? {
      return;
    }
    ghost var after := state.accounts;
    AccumulateRewards(state, block, block.uncles);
    AgreeRewarded(block, block.uncles, after, state.accounts);
  }

  datatype StateError = WrongGasUsed | WrongReceipts

  /** The check of a processed block against its header; `committed` are the receipts its receipt root stands for.  A state
      root that differs is logged and accepted. */
  function ValidateState(block: Header, committed: seq<Receipt>, receipts: seq<Receipt>, usedGas: int,
                         accounts: Accounts): Option<StateError> {
    if block.gasUsed != usedGas then Some(WrongGasUsed)
    else if committed != receipts then Some(WrongReceipts)
    else if block.root != accounts then None
    else None
  }

  /** Gas and receipts must be as committed to; the root is not looked at. */
  lemma StateValidIff(block: Header, committed: seq<Receipt>, receipts: seq<Receipt>, usedGas: int, accounts: Accounts)
    ensures ValidateState(block, committed, receipts, usedGas, accounts).None? <==>
            block.gasUsed == usedGas && committed == receipts
  {
  }

  ghost function DerivedAt(rules: Rules, tx: Tx, rs: seq<Receipt>, j: nat): Receipt
    requires j < |rs|
  {
    Receipt(Some(TxHash(tx)), rs[j].cumulativeGasUsed - GasBefore(rs, j), rs[j].cumulativeGasUsed,
            if tx.to.None? then CreatedBy(rules, tx) else rs[j].externalLogicAddress)
  }

  /** The receipts with every field filled in that can be recomputed. */
  ghost function Derived(rules: Rules, txs: seq<Tx>, rs: seq<Receipt>): seq<Receipt>
    requires |rs| <= |txs|
  {
    seq(|rs|, j requires 0 <= j < |rs| => DerivedAt(rules, txs[j], rs, j))
  }

  /** Fills in the derived receipt fields in place. */
  method SetReceiptsData(rules: Rules, block: Header, receipts: array<Receipt>)
    requires receipts.Length <= |block.txs|
    modifies receipts
    ensures receipts[..] == Derived(rules, block.txs, old(receipts[..]))
  {
    ghost var rs := receipts[..];
    for j := 0 to receipts.Length
      invariant forall k | 0 <= k < j :: receipts[k] == DerivedAt(rules, block.txs[k], rs, k)
      invariant forall k | j <= k < receipts.Length :: receipts[k] == rs[k]
    {
      assert 0 < j ==> receipts[j - 1].cumulativeGasUsed == GasBefore(rs, j);
      receipts[j] := receipts[j].(txHash := Some(TxHash(block.txs[j])));
      if block.txs[j].to.None? {
        receipts[j] := receipts[j].(externalLogicAddress := CreatedBy(rules, block.txs[j]));
      }
      if j == 0 {
        receipts[j] := receipts[j].(gasUsed := receipts[j].cumulativeGasUsed);
      } else {
        receipts[j] := receipts[j].(gasUsed := receipts[j].cumulativeGasUsed - receipts[j - 1].cumulativeGasUsed);
      }
    }
  }

  /** What consensus carries of receipts. */
  ghost function Stripped(rs: seq<Receipt>): seq<Receipt> {
    seq(|rs|, j requires 0 <= j < |rs| => Receipt(None, 0, rs[j].cumulativeGasUsed, None))
  }

  /** Dropping the derived fields of a processed block's receipts and deriving them again gives the same
      receipts back. */
  lemma ReceiptsRoundTrip(rules: Rules, txs: seq<Tx>, rs: seq<Receipt>)
    requires ReceiptsOf(rules, txs, rs)
    ensures Derived(rules, txs, Stripped(rs)) == rs
  {
    forall j | 0 <= j < |rs| ensures Derived(rules, txs, Stripped(rs))[j] == rs[j] {
      assert ReceiptAt(rules, txs[j], rs, j);
    }
  }
}
