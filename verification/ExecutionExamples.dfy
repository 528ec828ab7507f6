/** Executions that do not do what one would expect. */
module ExecutionExamples {
  import opened ChainTypes
  import opened WorldState
  import opened HeaderRules
  import opened StateTransitions
  import opened StateProcessors
  import opened Miners

  function Config(): ChainConfig {
    ChainConfig(None, None, false, None, Zero, None)
  }

  function Payment(a: Address, gas: nat): Tx {
    Tx(a, true, 0, 1, gas, 0, Some(0), [])
  }

  /** A transaction below the intrinsic gas fails and keeps its gas.  The next one, which fits into the gas limit no one
      has used yet, is refused for lack of gas. */
  method FailureTakesGas() returns (work: Work, first: Option<TxError>, next: Tx, second: Option<TxError>)
    ensures first == Some(OutOfIntrinsicGas) && second == Some(GasLimitReached)
    ensures work.txs == [] && work.gasUsed == 0 && next.gas <= work.header.gasLimit - work.gasUsed
  {
    hide Execution;
    var rules := Rules(Config(), {}, (a: Address, n: nat) => a + 1, 0, []);
    var header := Header(Zero, 1, 0, 0, 40000, 0, 0, [], 0, [], [], map[]);
    work := new Work(rules, header, map[1 := Account(50000, 0), 2 := Account(50000, 0)]);
    var gp := new GasPool();
    gp.AddGas(header.gasLimit);
    first := work.CommitTransaction(Payment(1, 20000), gp);
    next := Payment(2, 21000);
    second := work.CommitTransaction(next, gp);
  }

  /** If the derived address were the sender's own, a creation would add its value to the sum of balances. */
  method SelfCreationAdds() returns (before: Accounts, state: StateDB)
    ensures Total(state.accounts) == Total(before) + 10
  {
    hide Total;
    before := map[1 := Account(100000, 0)];
    state := new StateDB(before);
    var gp := new GasPool();
    gp.AddGas(60000);
    var env := Env(Config(), 1, 0, 0, {}, (a: Address, n: nat) => a);
    var st := new StateTransition(env, Message(1, None, 1, 60000, 10, 0, true, []), state, gp);
    var used, err := st.TransitionDb();
  }
}
