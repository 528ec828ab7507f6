/** Imports, from genesis on, after which a natural expectation fails.  The exact conditions are stated by
`HeaderChain.SetHead` and `BlockChain.WriteBlock`. */
module ChainExamples {
  import opened ChainTypes
  import opened Ancestry
  import FC = ForkChoice
  import HC = HeaderChains
  import BC = BlockChains

  function Child(parentHash: Hash, number: nat, difficulty: int, nonce: nat): Header {
    Header(parentHash, number, difficulty, 0, 0, 0, 0, [], nonce, [], [], map[])
  }

  datatype Clan = Clan(g: Header, a1: Header, a2: Header, b1: Header, b2: Header, c2: Header)

  /** Three branches from one genesis: g-a1-a2, g-a1-c2 and g-b1-b2, with the usual difficulty but for b1. */
  ghost predicate Kin(f: Clan, heavy: int) {
    && f.g.number == 0 && f.g.txs == []
    && f.a1.number == f.b1.number == 1 && f.a2.number == f.b2.number == f.c2.number == 2
    && f.a1 != f.b1 && f.a2 != f.c2
    && f.a1.parentHash == f.b1.parentHash == Digest(f.g) && f.b2.parentHash == Digest(f.b1)
    && f.a2.parentHash == f.c2.parentHash == Digest(f.a1)
    && f.g.difficulty == f.a1.difficulty == f.a2.difficulty == f.b2.difficulty == f.c2.difficulty == FC.DIFFICULTY
    && f.b1.difficulty == heavy
  }

  method Family(heavy: int) returns (f: Clan)
    ensures Kin(f, heavy)
  {
    var d := FC.DIFFICULTY;
    var g := Child(Zero, 0, d, 0);
    var a1, b1 := Child(Digest(g), 1, d, 1), Child(Digest(g), 1, heavy, 2);
    f := Clan(g, a1, Child(Digest(a1), 2, d, 1), b1, Child(Digest(b1), 2, d, 2), Child(Digest(a1), 2, d, 3));
  }

  lemma KinBranches(f: Clan, heavy: int)
    requires Kin(f, heavy)
    ensures Linked(f.g, f.g) && Branch(f.g, f.g) == [f.g]
    ensures Linked(f.g, f.a1) && Branch(f.g, f.a1) == [f.g, f.a1]
    ensures Linked(f.g, f.a2) && Branch(f.g, f.a2) == [f.g, f.a1, f.a2]
    ensures Linked(f.g, f.b1) && Branch(f.g, f.b1) == [f.g, f.b1]
    ensures Linked(f.g, f.b2) && Branch(f.g, f.b2) == [f.g, f.b1, f.b2]
    ensures Linked(f.g, f.c2) && Branch(f.g, f.c2) == [f.g, f.a1, f.c2]
  {
    hide Linked, Branch;
    BranchGenesis(f.g);
    BranchChild(f.g, f.g, f.a1);
    BranchChild(f.g, f.a1, f.a2);
    BranchChild(f.g, f.g, f.b1);
    BranchChild(f.g, f.b1, f.b2);
    BranchChild(f.g, f.a1, f.c2);
  }

  lemma KinDifficulties(f: Clan, heavy: int)
    requires Kin(f, heavy) && Linked(f.g, f.g) && Linked(f.g, f.a1) && Linked(f.g, f.a2)
    requires Linked(f.g, f.b1) && Linked(f.g, f.b2) && Linked(f.g, f.c2) && Branch(f.g, f.g) == [f.g]
    ensures TotalDifficulty(f.g, f.g) == FC.DIFFICULTY && TotalDifficulty(f.g, f.a1) == 2 * FC.DIFFICULTY
    ensures TotalDifficulty(f.g, f.a2) == TotalDifficulty(f.g, f.c2) == 3 * FC.DIFFICULTY
    ensures TotalDifficulty(f.g, f.b1) == FC.DIFFICULTY + heavy
    ensures TotalDifficulty(f.g, f.b2) == 2 * FC.DIFFICULTY + heavy
  {
    hide Linked, Branch;
    assert SumDifficulty([f.g]) == SumDifficulty([]) + FC.DIFFICULTY by {
      assert [f.g][..0] == [];
    }
    assert TotalDifficulty(f.g, f.g) == FC.DIFFICULTY;
    hide TotalDifficulty;
    TotalDifficultyStep(f.g, f.a1);
    TotalDifficultyStep(f.g, f.a2);
    TotalDifficultyStep(f.g, f.b1);
    TotalDifficultyStep(f.g, f.b2);
    TotalDifficultyStep(f.g, f.c2);
  }

  /** Importing a1, a2 and c2, which loses the coin. */
  method TwoChildren() returns (chain: HC.HeaderChain, f: Clan)
    ensures fresh(chain) && Kin(f, FC.DIFFICULTY) && chain.genesisHeader == f.g && chain.Valid()
    ensures chain.Abs() == FC.State({f.g, f.a1, f.a2, f.c2}, f.a2)
  {
    hide Linked, Branch, TotalDifficulty, FC.Closed, HC.Reachable, Numbering;
    var d := FC.DIFFICULTY;
    f := Family(d);
    KinBranches(f, d);
    KinDifficulties(f, d);
    chain := new HC.HeaderChain(f.g);
    var status := chain.WriteHeader(f.a1, false);
    status := chain.WriteHeader(f.a2, false);
    status := chain.WriteHeader(f.c2, false);
  }

  /** Rewinding to genesis leaves c2 stored without its parent a1. */
  method RewindOrphans() returns (chain: HC.HeaderChain, f: Clan)
    ensures fresh(chain) && Kin(f, FC.DIFFICULTY) && chain.genesisHeader == f.g
    ensures chain.Sound() && chain.Abs() == FC.State({f.g, f.c2}, f.g) && !FC.Closed(f.g, chain.headers)
  {
    hide Linked, Branch, TotalDifficulty, FC.Closed, Numbering;
    chain, f := TwoChildren();
    KinBranches(f, FC.DIFFICULTY);
    ghost var line := Branch(f.g, f.a2);
    assert HC.Above(line, 0) == {f.a1, f.a2} by {
      assert line[1] == f.a1 && line[2] == f.a2;
    }
    chain.SetHead(0);
    assert Branch(f.g, chain.currentHeader) == [f.g];
    assert f.c2 in chain.headers && f.c2.parentHash.header in HC.Above(line, 0);
  }

  /** A child of c2 has its parent stored and is preferred, but the walk back needs a1. */
  method RewindPanics() returns (chain: HC.HeaderChain, status: HC.WriteStatus)
    ensures status == HC.Panicked
  {
    hide Linked, Branch, TotalDifficulty, FC.Closed;
    var f;
    chain, f := RewindOrphans();
    KinBranches(f, FC.DIFFICULTY);
    KinDifficulties(f, FC.DIFFICULTY);
    var child := Child(Digest(f.c2), 3, FC.DIFFICULTY, 4);
    BranchChild(f.g, f.c2, child);
    TotalDifficultyStep(f.g, child);
    assert !HC.Reachable(f.g, chain.headers, f.g, child) by {
      assert Branch(f.g, child)[1] == f.a1 && !HC.OnLine(f.g, f.g, f.a1, 1);
    }
    status := chain.WriteHeader(child, false);
  }

  /** The short heavy branch to b1 replaces the one to a2, and number 2 stays assigned to a2. */
  method ShorterHeadLeavesStale() returns (chain: BC.BlockChain)
    ensures chain.Valid() && chain.currentBlock.number == 1 && 2 in chain.canonical
  {
    hide Linked, Branch, TotalDifficulty, BC.Fork, FC.Closed;
    var d := FC.DIFFICULTY;
    var f := Family(10 * d);
    KinBranches(f, 10 * d);
    KinDifficulties(f, 10 * d);
    chain := new BC.BlockChain(f.g);
    var status := chain.WriteBlock(f.a1, false);
    status := chain.WriteBlock(f.a2, false);
    status := chain.WriteBlock(f.b1, false);
  }

  /** With equal difficulties b1 loses against a1. */
  method LoseCoin() returns (chain: BC.BlockChain, f: Clan)
    ensures fresh(chain) && Kin(f, FC.DIFFICULTY) && chain.genesisBlock == f.g && chain.Valid() && chain.Tight()
    ensures chain.Abs() == FC.State({f.g, f.a1, f.b1}, f.a1)
  {
    hide Linked, Branch, TotalDifficulty, FC.Closed, BC.Fork, BC.HeadHeaderAfter, BC.Lists;
    var d := FC.DIFFICULTY;
    f := Family(d);
    KinBranches(f, d);
    KinDifficulties(f, d);
    chain := new BC.BlockChain(f.g);
    var status := chain.WriteBlock(f.a1, false);
    status := chain.WriteBlock(f.b1, false);
  }

  /** Then b2 wins, and the head header is b1, below the head. */
  method HeadHeaderLags() returns (chain: BC.BlockChain, f: Clan)
    ensures fresh(chain) && Kin(f, FC.DIFFICULTY) && chain.genesisBlock == f.g && chain.Valid() && chain.Tight()
    ensures chain.Abs() == FC.State({f.g, f.a1, f.b1, f.b2}, f.b2) && chain.currentHeader == f.b1
  {
    hide Linked, Branch, TotalDifficulty, FC.Closed, BC.Fork, Numbering, BC.Lists;
    chain, f := LoseCoin();
    KinBranches(f, FC.DIFFICULTY);
    KinDifficulties(f, FC.DIFFICULTY);
    BC.ForkOfBranches(f.g, f.a1, f.b2, 0);
    var status := chain.WriteBlock(f.b2, false);
  }

  /** Writing the head again does not mend it. */
  method HeadHeaderStillLags() returns (chain: BC.BlockChain)
    ensures chain.Valid() && chain.Tight() && FC.ConstantDifficulty(chain.genesisBlock, chain.Abs())
    ensures chain.currentHeader != chain.currentBlock
  {
    hide Linked, Branch, TotalDifficulty, FC.Closed, BC.Fork, Numbering, BC.Lists;
    var f;
    chain, f := HeadHeaderLags();
    KinBranches(f, FC.DIFFICULTY);
    BC.ForkOfBranches(f.g, f.b2, f.b2, 2);
    var status := chain.WriteBlock(f.b2, true);
  }
}
