/** The miner's whole round, and what a validating node makes of the block. */
module BlockAssembly {
  import opened ChainTypes
  import opened Ancestry
  import opened WorldState
  import opened HeaderRules
  import opened StateTransitions
  import opened StateProcessors
  import opened Uncles
  import opened UncleSelection
  import opened Miners
  import FC = ForkChoice

  /** What the miner works from: the head block and its state, the clock and its own settings. */
  datatype Round = Round(rules: Rules, head: Header, state: Accounts, start: int, coinbase: Address, extra: seq<Byte>,
                         nonce: nat)
  {
    ghost predicate Valid() {
      && head.gasUsed <= head.gasLimit && head.gasLimit >= MIN_GAS_LIMIT && head.time < MAX_INT64
      && |extra| <= MAXIMUM_EXTRA_DATA_SIZE
    }

    function Header(txs: seq<Tx>, uncles: seq<Header>): Header
      requires head.gasUsed <= head.gasLimit && head.gasLimit >= MIN_GAS_LIMIT
    {
      AssembleHeader(rules.config, head, start, coinbase, extra, nonce, txs, uncles)
    }
  }

  /** What a round ends with: a block on the head with properly chosen uncles, whose transactions have an execution and whose
      root is the rewarded state. */
  ghost predicate Assembled(g: Header, r: Round, m: Mined, run: seq<Accounts>)
    requires r.Valid()
    reads m.state
  {
    && m.block == r.Header(m.block.txs, m.block.uncles).(gasUsed := m.block.gasUsed, root := m.state.accounts)
    && Linked(g, m.block) && Chosen(g, m.block)
    && Execution(r.rules, r.rules.Env(m.block), m.block.gasLimit, m.block.txs, run, m.receipts)
    && run[0] == ParentState(r.rules, m.block.number, r.state)
    && m.block.gasUsed == GasBefore(m.receipts, |m.receipts|)
    && Rewarded(m.block, m.block.uncles, run[|m.block.txs|], m.state.accounts)
  }

  /** Assembles header, uncles and transactions. */
  method AssembleBlock(ghost g: Header, blocks: set<Header>, r: Round, possible: set<Header>, offers: Offers, sieve: Sieve)
    returns (m: Mined, ghost run: seq<Accounts>, ghost trail: seq<Trial>)
    requires r.Valid() && Proper(offers) && FC.WellFormed(g, FC.State(blocks, r.head))
    ensures fresh(m.state) && Assembled(g, r, m, run) && forall u <- m.block.uncles :: u in possible
    ensures Committed(r.rules, r.Header([], []), sieve, offers, m.block.txs, run, m.receipts, trail)
    ensures m.removed == TxsOf(trail, IsLow) + TxsOf(trail, IsRemoved)
  {
    hide Linked, Branch, Window, FC.Closed, ExecutedAt, Rewarded, ReceiptsOf, CalcGasLimit, Committed;
    var header := r.Header([], []);
    var uncles, bad := ChooseUncles(g, blocks, header, possible);
    m, run, trail := CommitNewWork(r.rules, header, r.state, offers, sieve, uncles);
    SameShape(g, header.(uncles := uncles), m.block);
  }

  /** Uncles are chosen by the place of the block in the chain, not by what else it holds. */
  lemma SameShape(g: Header, a: Header, b: Header)
    requires a.parentHash.Digest? && Linked(g, a.parentHash.header) && a.number == a.parentHash.header.number + 1
    requires b.parentHash == a.parentHash && b.number == a.number && b.uncles == a.uncles
    ensures Linked(g, a) && Linked(g, b) && (Chosen(g, a) ==> Chosen(g, b))
  {
    hide Linked, Branch;
    var p := a.parentHash.header;
    BranchChild(g, p, a);
    BranchChild(g, p, b);
    assert forall n | 0 <= n < a.number :: Branch(g, a)[n] == Branch(g, p)[n] == Branch(g, b)[n];
    assert Window(g, a) == Window(g, b);
  }

  datatype Judgement = Judgement(header: Option<HeaderError>, uncles: Option<UncleError>, replay: Replay,
                                 state: Option<StateError>)

  /** A node with the same blocks validates an assembled block, with whatever state root in its header.  Its header passes
      if and only if its time has come, its nonce verifies and a pinned fork hash is its own; its uncles pass if and only
      if none is a sibling of the block and all their headers are valid; its transactions always pass, with the gas, the
      receipts and a state that answer as the miner's do, and so does the check of the state. */
  method AssembledBlockAccepted(ghost g: Header, blocks: set<Header>, r: Round, m: Mined, ghost run: seq<Accounts>,
                                pow: Header -> bool, now: int, root: Accounts)
    returns (b: Header, j: Judgement)
    requires r.Valid() && FC.WellFormed(g, FC.State(blocks, r.head)) && Assembled(g, r, m, run)
    ensures b == m.block.(root := root)
    ensures j.header.None? <==> b.time <= now && pow(b) && r.rules.config.ForkHashOk(b)
    ensures j.uncles.None? <==> forall u <- b.uncles :: NoSibling(r.rules.config, pow, now, b, u)
    ensures j.replay.err.None? && j.replay.receipts == m.receipts && j.replay.usedGas == b.gasUsed && j.state.None?
    ensures Agree(m.state.accounts, j.replay.state.accounts)
  {
    hide Linked, Branch, Window, FC.Closed, ExecutedAt, ReceiptsOf, ValidateHeader, CalcGasLimit, UncleOk, NoSibling;
    b := m.block.(root := root);
    var config := r.rules.config;
    SameShape(g, m.block, b);
    AssembledHeaderAccepted(config, pow, r.head, r.start, r.coinbase, r.extra, r.nonce, b.txs, b.uncles, b.gasUsed, root, now,
                            true);
    ChosenAcceptedIff(g, config, pow, now, b);
    var header := ValidateHeader(config, pow, b, r.head, now, true, false);
    var uncles := VerifyUncles(g, config, pow, now, blocks, b);
    var state := new StateDB(r.state);
    var receipts, usedGas, err;
    ghost var remaining, again;
    receipts, usedGas, err, remaining, again := Process(r.rules, b, state, run, m.receipts);
    var wrong := ValidateState(b, m.receipts, receipts, usedGas, state.accounts);
    j := Judgement(header, uncles, Replay(receipts, usedGas, err, state), wrong);
  }

  /** An empty block whose root credits an account with more than it has passes every check. */
  method WrongRootAccepted() returns (b: Header, j: Judgement)
    ensures j.header.None? && j.uncles.None? && j.replay.err.None? && j.state.None?
    ensures !Agree(b.root, j.replay.state.accounts)
  {
    hide Linked, Branch, NoSibling, Execution, Rewarded, Committed, CalcGasLimit, Chosen;
    var head := Block(Zero, 0, 0, 0, []);
    assert FC.WellFormed(head, FC.State({head}, head)) by { GenesisWellFormed(head); }
    var rules := Rules(PLAIN, {}, (a: Address, n: nat) => a + 1, 0, []);
    var r := Round(rules, head, map[], 1, 0, [], 0);
    var m;
    ghost var run, trail;
    m, run, trail := AssembleBlock(head, {head}, r, {}, map[], Sieve(0, {}, (tx: Tx) => false));
    var root := Credit(m.state.accounts, 0, 1);
    b, j := AssembledBlockAccepted(head, {head}, r, m, run, (h: Header) => true, 1, root);
    assert Get(root, 0) != Get(m.state.accounts, 0);
  }

  lemma GenesisWellFormed(g: Header)
    requires g.number == 0
    ensures FC.WellFormed(g, FC.State({g}, g))
  {
    BranchGenesis(g);
  }
}
