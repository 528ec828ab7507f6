/** Block import in full-block mode: fork choice, reorganisation, the canonical number map and the
transaction index. */
module BlockChains {
  import opened ChainTypes
  import opened Ancestry
  import opened TxIndexes
  import opened HeaderRules
  import FC = ForkChoice

  datatype WriteStatus = NonStatTy | CanonStatTy | SideStatTy

  /** The headers of `line` above index `n`, from the top down. */
  ghost function Descending(line: seq<Header>, n: int): (d: seq<Header>)
    requires -1 <= n < |line|
    ensures |d| == |line| - 1 - n
  {
    seq(|line| - 1 - n, i requires 0 <= i < |line| - 1 - n => line[|line| - 1 - i])
  }

  lemma DescendingStep(line: seq<Header>, n: nat)
    requires n < |line|
    ensures Descending(line, n - 1) == Descending(line, n) + [line[n]]
  {
  }

  lemma DescendingAt(line: seq<Header>, n: nat, i: nat)
    requires n < |line| && i < |Descending(line, n)|
    ensures Descending(line, n)[i] == line[|line| - 1 - i]
  {
  }

  lemma DescendingNone(line: seq<Header>)
    requires 0 < |line|
    ensures Descending(line, |line| - 1) == []
  {
  }

  /** A walk down a chain: the block reached, and the blocks passed with their transactions. */
  datatype Walk = Walk(block: Option<Header>, chain: seq<Header>, txs: seq<Tx>)

  ghost predicate Walked(w: Walk, line: seq<Header>, n: nat) {
    && n < |line| && w.block == Some(line[n]) && line[n].number == n
    && w.chain == Descending(line, n) && w.txs == TxsOf(w.chain)
  }

  lemma TxsOfNone()
    ensures TxsOf([]) == []
  {
  }

  lemma TxsOfStep(chain: seq<Header>, b: Header)
    ensures TxsOf(chain + [b]) == TxsOf(chain) + b.txs
  {
  }

  /** Highest index up to which two lines from the same genesis agree. */
  ghost function Fork(a: seq<Header>, b: seq<Header>): (f: nat)
    requires 0 < |a| && 0 < |b| && a[0] == b[0]
    ensures f < |a| && f < |b| && a[..f + 1] == b[..f + 1]
    ensures f + 1 < |a| && f + 1 < |b| ==> a[f + 1] != b[f + 1]
  {
    if 1 < |a| && 1 < |b| && a[1] == b[1] then
      var f := Fork(a[1..], b[1..]);
      assert a[..f + 2] == [a[0]] + a[1..][..f + 1] && b[..f + 2] == [b[0]] + b[1..][..f + 1];
      f + 1
    else 0
  }

  lemma PrefixAt(a: seq<Header>, b: seq<Header>, f: nat, n: nat)
    requires n <= f < |a| && f < |b| && a[..f + 1] == b[..f + 1]
    ensures a[n] == b[n]
  {
    assert a[..f + 1][n] == b[..f + 1][n];
  }

  /** Two branches that meet share everything below. */
  lemma BranchesShare(g: Header, a: Header, b: Header, n: nat, m: nat)
    requires Linked(g, a) && Linked(g, b) && m <= n <= a.number && n <= b.number && Branch(g, a)[n] == Branch(g, b)[n]
    ensures Branch(g, a)[m] == Branch(g, b)[m]
  {
    hide Linked, Branch;
    BranchesMeet(g, a, b, n);
    PrefixAt(Branch(g, a), Branch(g, b), n, m);
  }

  /** The fork of two branches is where walking down both first meets. */
  lemma ForkOfBranches(g: Header, a: Header, b: Header, n: nat)
    requires Linked(g, a) && Linked(g, b) && n <= a.number && n <= b.number
    requires Branch(g, a)[n] == Branch(g, b)[n]
    requires n < a.number && n < b.number ==> Branch(g, a)[n + 1] != Branch(g, b)[n + 1]
    ensures Fork(Branch(g, a), Branch(g, b)) == n
  {
    hide Linked, Branch, Fork;
    var f := Fork(Branch(g, a), Branch(g, b));
    PrefixAt(Branch(g, a), Branch(g, b), f, f);
    if f < n {
      BranchesShare(g, a, b, n, f + 1);
    } else if n < f {
      PrefixAt(Branch(g, a), Branch(g, b), f, n + 1);
    }
  }

  /** `m` with the numbers of `line` above `n` assigned from `line`. */
  ghost function Overlay(m: map<nat, Hash>, line: seq<Header>, n: int): map<nat, Hash> {
    m + (map k: nat | n < k < |line| :: Digest(line[k]))
  }

  lemma OverlayNone(m: map<nat, Hash>, line: seq<Header>)
    ensures Overlay(m, line, |line| - 1) == m
  {
  }

  lemma OverlayStep(m: map<nat, Hash>, line: seq<Header>, n: nat)
    requires n < |line|
    ensures Overlay(m, line, n)[n := Digest(line[n])] == Overlay(m, line, n - 1)
    ensures n in Overlay(m, line, n) <==> n in m
    ensures n in m ==> Overlay(m, line, n)[n] == m[n]
  {
  }

  /** No number of `line` above `n` is assigned to that line yet. */
  ghost predicate Unlisted(m: map<nat, Hash>, line: seq<Header>, n: int) {
    forall k: nat | n < k < |line| && k in m :: m[k] != Digest(line[k])
  }

  ghost predicate Lists(m: map<nat, Hash>, line: seq<Header>) {
    forall n | 0 <= n < |line| :: n in m && m[n] == Digest(line[n])
  }

  /** Assigning the new branch above the fork lists the whole new line. */
  lemma OverlayFork(m: map<nat, Hash>, a: seq<Header>, b: seq<Header>)
    requires 0 < |a| && 0 < |b| && a[0] == b[0] && Lists(m, a)
    ensures Overlay(m, b, Fork(a, b)) == m + Numbering(b)
  {
    var f := Fork(a, b);
    forall n: nat | n <= f ensures a[n] == b[n] {
      PrefixAt(a, b, f, n);
    }
  }

  /** Branches never meet again above their fork, so a tight map lists none of the new branch. */
  lemma ForkUnlisted(g: Header, a: Header, b: Header)
    requires Linked(g, a) && Linked(g, b)
    ensures Unlisted(Numbering(Branch(g, a)), Branch(g, b), Fork(Branch(g, a), Branch(g, b)))
  {
    var f := Fork(Branch(g, a), Branch(g, b));
    forall k: nat | f < k <= b.number && k <= a.number ensures Branch(g, a)[k] != Branch(g, b)[k] {
      if Branch(g, a)[k] == Branch(g, b)[k] {
        BranchesShare(g, a, b, k, f + 1);
      }
    }
  }

  lemma ChildBranch(g: Header, h: Header)
    requires Linked(g, h) && h != g
    ensures h.parentHash.Digest? && Linked(g, h.parentHash.header)
    ensures Branch(g, h) == Branch(g, h.parentHash.header) + [h]
  {
  }

  /** Listing a line, whose own entries then change nothing. */
  lemma ListsAll(m: map<nat, Hash>, line: seq<Header>)
    requires 0 < |line|
    ensures Lists(m + Numbering(line), line)
    ensures var all := m + Numbering(line); var n := |line| - 1;
            n in all && all[n] == Digest(line[n]) && all[n := Digest(line[n])] == all
  {
  }

  /** One more block on top of a listed line. */
  lemma ListsTop(m: map<nat, Hash>, line: seq<Header>, h: Header)
    requires Lists(m, line)
    ensures m[|line| := Digest(h)] == m + Numbering(line + [h])
  {
  }

  lemma NumberingTop(line: seq<Header>)
    ensures |line| !in Numbering(line)
  {
  }

  /** Laying a shorter line over a longer one leaves the longer one's top behind. */
  lemma NumberingOver(a: seq<Header>, b: seq<Header>)
    ensures Numbering(a) + Numbering(b) == Numbering(b) <==> |a| <= |b|
  {
    if |b| < |a| {
      assert |b| in Numbering(a) + Numbering(b) && |b| !in Numbering(b);
    }
  }

  lemma ForkOfExtension(line: seq<Header>, h: Header)
    requires 0 < |line|
    ensures Fork(line, line + [h]) == |line| - 1
  {
  }

  lemma ChildMembers(g: Header, h: Header)
    requires Linked(g, h) && h != g
    ensures forall b :: b in Branch(g, h) <==> b in Branch(g, h.parentHash.header) || b == h
  {
  }

  /** The head header after a block becomes the head: the lowest block of the new branch or, if the block was on the
      old line already, what it was before. */
  ghost function HeadHeaderAfter(g: Header, head: Header, header: Header, block: Header): Header
    requires Linked(g, head) && Linked(g, block)
  {
    var line := Branch(g, block);
    var f := Fork(Branch(g, head), line);
    if f == block.number then header else line[f + 1]
  }

  /** It is the new head block exactly when the new branch is that one block, or the block was on the old line and
      the head header stood on it before. */
  lemma HeadHeaderFollows(g: Header, head: Header, header: Header, block: Header)
    requires Linked(g, head) && Linked(g, block)
    ensures var f := Fork(Branch(g, head), Branch(g, block));
            HeadHeaderAfter(g, head, header, block) == block <==>
            f + 1 == block.number || (f == block.number && header == block)
  {
    hide Linked, Branch, Fork;
    BranchNumbered(g, block);
  }

  /** A line and the same blocks with the part above `f` listed downwards. */
  lemma DescendingMembers(line: seq<Header>, f: nat, b: Header)
    requires f < |line|
    ensures b in line <==> b in line[..f + 1] + Descending(line, f)
    ensures b in Descending(line, f) <==> exists n | f < n < |line| :: line[n] == b
  {
    var d := Descending(line, f);
    if n :| f < n < |line| && line[n] == b {
      assert d[|line| - 1 - n] == b;
    }
    if i :| 0 <= i < |d| && d[i] == b {
      assert line[|line| - 1 - i] == b;
    }
    if n :| 0 <= n < |line| && line[n] == b {
      assert n <= f ==> line[..f + 1][n] == b;
    }
  }

  /** The index follows a reorganisation from branch `a` to branch `b`. */
  lemma IndexMoved(a: seq<Header>, b: seq<Header>, idx: Index, filed: Index)
    requires 0 < |a| && 0 < |b| && a[0] == b[0] && Numbered(a)
    requires Unique(a) && Exact(idx, a) && Filed(idx, filed, Descending(b, Fork(a, b)))
    ensures Exact(Pruned(filed, Descending(a, Fork(a, b)), Descending(b, Fork(a, b))), b)
  {
    var f := Fork(a, b);
    var stem, old', new' := a[..f + 1], Descending(a, f), Descending(b, f);
    forall x ensures x in a <==> x in stem + old' { DescendingMembers(a, f, x); }
    forall x ensures x in b <==> x in stem + new' { DescendingMembers(b, f, x); }
    ExactMembers(idx, a, stem + old');
    assert Unique(stem + old');
    forall x <- stem ensures x !in old' { DescendingMembers(a, f, x); }
    Moved(stem, old', new', idx, filed);
    ExactMembers(Pruned(filed, old', new'), stem + new', b);
  }

  /** At some time the header passes validation against the parent it names. */
  ghost predicate Acceptable(config: ChainConfig, pow: Header -> bool, h: Header) {
    h.parentHash.Digest? &&
    exists now: int :: ValidateHeader(config, pow, h, h.parentHash.header, now, false, false).None?
  }

  lemma AcceptableFits(config: ChainConfig, pow: Header -> bool, h: Header)
    requires Acceptable(config, pow, h)
    ensures h.number == h.parentHash.header.number + 1 && h.difficulty == FC.DIFFICULTY
  {
    var now: int :| ValidateHeader(config, pow, h, h.parentHash.header, now, false, false).None?;
    AcceptedHeaderFits(config, pow, h, h.parentHash.header, now, false, false);
  }

  const MAX_TIME_FUTURE_BLOCKS := 30

  /** What the surroundings decide when the turn of a block comes: a pending shutdown, a bad hash or nonce, which states
      are available, the clock, a refusal of its uncles or by processing it, the coin, and what the bounded queue of
      future blocks keeps when one is added. */
  datatype Turn = Turn(interrupted: bool, banned: bool, hasState: bool, hasParentState: bool, now: int, refused: bool,
                       coin: bool, kept: set<Header>)

  datatype Treatment = Skip | Queue | Refuse | Import

  /** The block comes from the near future, or its parent is queued. */
  predicate Delayed(block: Header, t: Turn, future: set<Header>) {
    || t.now < block.time <= t.now + MAX_TIME_FUTURE_BLOCKS
    || (block.parentHash.Digest? && block.parentHash.header in future)
  }

  /** The queue of future blocks, which forgets some when it is full and one that is imported, and all that an import has
      put there. */
  datatype Queued = Queued(held: set<Header>, all: set<Header>) {
    function After(treatment: Treatment, block: Header, kept: set<Header>): Queued {
      if treatment == Queue then Queued(held * kept + {block}, all + {block})
      else if treatment == Import then Queued(held - {block}, all) else this
    }
  }

  /** The block is stored with its state. */
  predicate Complete(blocks: set<Header>, block: Header, t: Turn) {
    block in blocks && t.hasState
  }

  /** Its parent is stored one number lower, with its state. */
  predicate Founded(blocks: set<Header>, block: Header, t: Turn) {
    && block.parentHash.Digest? && block.parentHash.header in blocks
    && block.parentHash.header.number == block.number - 1 && t.hasParentState
  }

  predicate ParentIn(block: Header, future: set<Header>) {
    block.parentHash.Digest? && block.parentHash.header in future
  }

  function Fault(config: ChainConfig, pow: Header -> bool, block: Header, t: Turn): Option<HeaderError>
    requires block.parentHash.Digest?
  {
    ValidateHeader(config, pow, block, block.parentHash.header, t.now, false, false)
  }

  /** What becomes of a block at its turn: one that is complete is skipped; one that is valid on its stored parent is
      imported; one from the near future, or whose parent is queued, is queued. */
  ghost predicate Treated(config: ChainConfig, pow: Header -> bool, blocks: set<Header>, future: set<Header>, block: Header,
                          t: Turn, treatment: Treatment) {
    && (treatment == Skip <==> !t.banned && Complete(blocks, block, t))
    && (treatment == Import <==>
        && !t.banned && !Complete(blocks, block, t) && Founded(blocks, block, t)
        && Fault(config, pow, block, t).None? && !t.refused)
    && (treatment == Queue <==>
        && !t.banned && !Complete(blocks, block, t)
        && if Founded(blocks, block, t) then
             Fault(config, pow, block, t) == Some(FutureTime) && block.time <= t.now + MAX_TIME_FUTURE_BLOCKS
           else ParentIn(block, future))
  }

  /** Why an import stops at a block: a bad hash or nonce, no stored or queued parent, an invalid header other than one of the
      near future, or a refusal of what it holds. */
  ghost predicate Refusable(config: ChainConfig, pow: Header -> bool, blocks: set<Header>, future: set<Header>, block: Header,
                            t: Turn) {
    || t.banned
    || (&& !Complete(blocks, block, t)
        && if !Founded(blocks, block, t) then !ParentIn(block, future)
           else if Fault(config, pow, block, t).None? then t.refused
           else Fault(config, pow, block, t) != Some(FutureTime) || block.time > t.now + MAX_TIME_FUTURE_BLOCKS)
  }

  lemma RefusedReason(config: ChainConfig, pow: Header -> bool, blocks: set<Header>, future: set<Header>, block: Header,
                      t: Turn, treatment: Treatment)
    requires Treated(config, pow, blocks, future, block, t, treatment)
    ensures treatment == Refuse <==> Refusable(config, pow, blocks, future, block, t)
    ensures treatment == Queue ==> Delayed(block, t, future)
  {
    hide GasLimitOk, ValidDaoExtra;
  }

  /** A chain of blocks, the first on a stored one and each of the others on the one before, that are valid when their turn
      comes, while nothing interferes. */
  ghost predicate Smooth(config: ChainConfig, pow: Header -> bool, blocks: set<Header>, chain: seq<Header>, turns: seq<Turn>)
    requires |chain| == |turns|
  {
    forall i: nat | i < |chain| :: SmoothAt(config, pow, blocks, chain, turns[i], i)
  }

  ghost predicate SmoothAt(config: ChainConfig, pow: Header -> bool, blocks: set<Header>, chain: seq<Header>, t: Turn, i: nat)
    requires i < |chain|
  {
    && !t.interrupted && !t.banned && t.hasParentState && !t.refused
    && chain[i].parentHash.Digest?
    && (if i == 0 then chain[0].parentHash.header in blocks else chain[i].parentHash.header == chain[i - 1])
    && ValidateHeader(config, pow, chain[i], chain[i].parentHash.header, t.now, false, false).None?
  }

  /** How such an import stands. */
  ghost predicate SmoothTo(before: set<Header>, blocks: set<Header>, chain: seq<Header>, q: Queued, k: nat) {
    k <= |chain| && before <= blocks && q.all == {} && forall i | 0 <= i < k :: chain[i] in blocks
  }

  lemma SmoothTurn(config: ChainConfig, pow: Header -> bool, before: set<Header>, blocks: set<Header>, chain: seq<Header>,
                   turns: seq<Turn>, q: Queued, k: nat)
    requires k < |chain| == |turns| && Smooth(config, pow, before, chain, turns) && SmoothTo(before, blocks, chain, q, k)
    ensures !Refusable(config, pow, blocks, q.held, chain[k], turns[k])
    ensures forall treatment | Treated(config, pow, blocks, q.held, chain[k], turns[k], treatment) ::
              treatment in {Skip, Import}
  {
    var block, t := chain[k], turns[k];
    assert SmoothAt(config, pow, before, chain, t, k);
    AcceptedHeaderFits(config, pow, block, block.parentHash.header, t.now, false, false);
    hide ValidateHeader;
    assert Founded(blocks, block, t);
  }

  /** A block of the chain that was delayed at its turn. */
  ghost predicate Postponed(chain: seq<Header>, turns: seq<Turn>, future: set<Header>, b: Header)
    requires |chain| == |turns|
  {
    exists i | 0 <= i < |chain| :: chain[i] == b && Delayed(b, turns[i], future)
  }

  lemma PostponedMore(chain: seq<Header>, turns: seq<Turn>, k: nat, future: set<Header>, more: set<Header>, b: Header)
    requires k < |chain| == |turns| && future <= more
    requires Postponed(chain[..k], turns[..k], future, b) || (chain[k] == b && Delayed(b, turns[k], future))
    ensures Postponed(chain[..k + 1], turns[..k + 1], more, b)
  {
    var i := if Postponed(chain[..k], turns[..k], future, b) then
      var i :| 0 <= i < k && chain[i] == b && Delayed(b, turns[i], future); i else k;
    assert chain[..k + 1][i] == b && turns[..k + 1][i] == turns[i];
  }

  /** How an import stands at its next block: no interrupt so far, and every block before is stored, or queued for a
      reason.  What the queue of future blocks holds was there or was queued. */
  ghost predicate Dealt(chain: seq<Header>, turns: seq<Turn>, k: nat, future: set<Header>, blocks: set<Header>, q: Queued)
    requires |chain| == |turns|
  {
    && k <= |chain| && (forall i | 0 <= i < k :: !turns[i].interrupted && chain[i] in blocks + q.all)
    && q.held <= future + q.all
    && forall b <- q.all :: Postponed(chain[..k], turns[..k], future + q.all, b)
  }

  lemma DealtNone(chain: seq<Header>, turns: seq<Turn>, future: set<Header>, blocks: set<Header>)
    requires |chain| == |turns|
    ensures Dealt(chain, turns, 0, future, blocks, Queued(future, {}))
  {
  }

  lemma DealtStep(chain: seq<Header>, turns: seq<Turn>, k: nat, future: set<Header>, blocks: set<Header>, blocks': set<Header>,
                  q: Queued, treatment: Treatment)
    requires k < |chain| == |turns| && !turns[k].interrupted && blocks <= blocks' && Dealt(chain, turns, k, future, blocks, q)
    requires if treatment == Queue then Delayed(chain[k], turns[k], q.held) else chain[k] in blocks'
    ensures Dealt(chain, turns, k + 1, future, blocks', q.After(treatment, chain[k], turns[k].kept))
  {
    hide Postponed;
    var q' := q.After(treatment, chain[k], turns[k].kept);
    forall b <- q'.all ensures Postponed(chain[..k + 1], turns[..k + 1], future + q'.all, b) {
      PostponedMore(chain, turns, k, future + q.all, future + q'.all, b);
    }
  }

  /** The line and the index of a chain that has only its genesis. */
  lemma GenesisAlone(g: Header)
    requires g.number == 0 && g.txs == []
    ensures Linked(g, g) && TotalDifficulty(g, g) == g.difficulty
    ensures Numbering(Branch(g, g)) == map[0 := Digest(g)] && Lists(map[0 := Digest(g)], Branch(g, g))
    ensures Unique(Branch(g, g)) && Exact(map[], Branch(g, g)) && FC.WellFormed(g, FC.Initial(g))
  {
    hide Linked, Branch, TotalDifficulty, Numbering, Lists, Unique, Exact;
    BranchGenesis(g);
    SingleLine(g);
    SingleDifficulty(g);
  }

  lemma SingleLine(g: Header)
    requires g.number == 0 && g.txs == []
    ensures Numbering([g]) == map[0 := Digest(g)] && Lists(map[0 := Digest(g)], [g]) && Unique([g]) && Exact(map[], [g])
  {
  }

  lemma SingleDifficulty(g: Header)
    requires g.number == 0
    ensures Linked(g, g) && TotalDifficulty(g, g) == g.difficulty
  {
    assert SumDifficulty(Branch(g, g)[..0]) == 0;
  }

  class BlockChain {
    const genesisBlock: Header

    // The chain database.  Blocks and total difficulties are filed under number and hash, and a
    // block determines both.
    var canonical: map<nat, Hash>
    var blocks: set<Header>
    var tds: map<Header, int>
    var txIndex: Index
    var headBlockHash: Hash

    var currentBlock: Header
    var currentHeader: Header
    var currentFastBlock: Header

    ghost function Abs(): FC.State
      reads `blocks, `currentBlock
    {
      FC.State(blocks, currentBlock)
    }

    /** Total difficulties are stored for exactly the stored blocks, and are right. */
    ghost predicate DifficultiesStored()
      reads `blocks, `tds
    {
      && (forall h <- blocks :: Linked(genesisBlock, h))
      && tds.Keys == blocks
      && forall h <- tds :: tds[h] == TotalDifficulty(genesisBlock, h)
    }

    /** The number map lists the head's ancestor line; above the head it may hold anything. */
    ghost predicate HeadListed()
      reads `canonical, `headBlockHash, `currentBlock
    {
      && headBlockHash == Digest(currentBlock) && Linked(genesisBlock, currentBlock)
      && Lists(canonical, Branch(genesisBlock, currentBlock))
    }

    /** The number map holds the head's ancestor line and nothing else. */
    ghost predicate Tight()
      reads `canonical, `currentBlock
    {
      Linked(genesisBlock, currentBlock) && canonical == Numbering(Branch(genesisBlock, currentBlock))
    }

    /** No transaction is included twice on one branch. */
    ghost predicate BranchesUnique()
      reads `blocks
    {
      forall h <- blocks :: Linked(genesisBlock, h) && Unique(Branch(genesisBlock, h))
    }

    ghost predicate Valid()
      reads this
    {
      DifficultiesStored() && HeadListed() && FC.WellFormed(genesisBlock, Abs())
    }

    /** The lookup index covers exactly the canonical chain. */
    ghost predicate Indexed()
      reads `txIndex, `currentBlock
    {
      Linked(genesisBlock, currentBlock) && Exact(txIndex, Branch(genesisBlock, currentBlock))
    }

    /** All of it, on a chain of blocks with the prescribed difficulty. */
    ghost predicate InOrder()
      reads this
    {
      Valid() && Indexed() && BranchesUnique() && Tight() && FC.ConstantDifficulty(genesisBlock, Abs())
    }

    constructor (genesis: Header)
      requires genesis.number == 0 && genesis.txs == []
      ensures InOrder()
      ensures genesisBlock == genesis && Abs() == FC.Initial(genesis) && currentHeader == genesis
    {
      genesisBlock := genesis;
      canonical := map[0 := Digest(genesis)];
      blocks := {genesis};
      tds := map[genesis := genesis.difficulty];
      txIndex := map[];
      headBlockHash := Digest(genesis);
      currentBlock, currentHeader, currentFastBlock := genesis, genesis, genesis;
      new;
      hide Linked, Branch, TotalDifficulty, Numbering, Lists, Unique, Exact, FC.WellFormed;
      GenesisAlone(genesis);
    }

    function GetCanonicalHash(number: nat): Hash
      reads `canonical
    {
      if number in canonical then canonical[number] else Zero
    }

    function GetBlock(hash: Hash, number: int): (b: Option<Header>)
      reads `blocks
      ensures b.Some? ==> hash == Digest(b.value) && b.value in blocks
    {
      if hash.Digest? && hash.header in blocks && hash.header.number == number then Some(hash.header) else None
    }

    function GetTd(hash: Hash, number: int): Option<int>
      reads `tds
    {
      if hash.Digest? && hash.header in tds && hash.header.number == number then Some(tds[hash.header]) else None
    }

    /** Walks one chain down to a block number, collecting the blocks passed. */
    method ReduceTo(start: Header, number: nat) returns (w: Walk)
      requires FC.WellFormed(genesisBlock, Abs()) && start in blocks && number <= start.number
      ensures Walked(w, Branch(genesisBlock, start), number)
    {
      hide Linked, Branch, Descending, TxsOf;
      ghost var line := Branch(genesisBlock, start);
      DescendingNone(line);
      w := Walk(Some(start), [], []);
      TxsOfNone();
      while w.block.Some? && w.block.value.number != number
        invariant w.block.Some? && number <= w.block.value.number < |line| && Walked(w, line, w.block.value.number)
        decreases w.block.value.number
      {
        var b := w.block.value;
        DescendingStep(line, b.number);
        TxsOfStep(w.chain, b);
        FC.AncestorStored(genesisBlock, Abs(), start, b.number - 1);
        w := Walk(GetBlock(b.parentHash, b.number - 1), w.chain + [b], w.txs + b.txs);
      }
    }

    /** Walks the longer chain down to the height of the other. */
    method ReduceLonger(oldStart: Header, newStart: Header) returns (o: Walk, n: Walk)
      requires FC.WellFormed(genesisBlock, Abs()) && oldStart in blocks && newStart in blocks
      ensures var height := if oldStart.number <= newStart.number then oldStart.number else newStart.number;
              && Walked(o, Branch(genesisBlock, oldStart), height) && Walked(n, Branch(genesisBlock, newStart), height)
    {
      hide Linked, Branch, Descending, FC.Closed;
      DescendingNone(Branch(genesisBlock, oldStart));
      DescendingNone(Branch(genesisBlock, newStart));
      o, n := Walk(Some(oldStart), [], []), Walk(Some(newStart), [], []);
      if oldStart.number > newStart.number {
        o := ReduceTo(oldStart, newStart.number);
      } else {
        n := ReduceTo(newStart, oldStart.number);
      }
    }

    /** Walks both chains down to the block they share; if a block were missing the result would say so. */
    method FindFork(oldStart: Header, newStart: Header) returns (o: Walk, n: Walk)
      requires FC.WellFormed(genesisBlock, Abs()) && oldStart in blocks && newStart in blocks
      ensures var a, b := Branch(genesisBlock, oldStart), Branch(genesisBlock, newStart);
              Walked(o, a, Fork(a, b)) && Walked(n, b, Fork(a, b))
    {
      hide Linked, Branch, Descending, Fork, FC.Closed, TxsOf;
      ghost var a, b := Branch(genesisBlock, oldStart), Branch(genesisBlock, newStart);
      o, n := ReduceLonger(oldStart, newStart);
      while o.block.Some? && n.block.Some? && o.block != n.block
        invariant o.block.Some? && n.block.Some? && o.block.value.number == n.block.value.number
        invariant var k := o.block.value.number; k < |a| && k < |b| && Walked(o, a, k) && Walked(n, b, k)
        invariant var k := o.block.value.number; k + 1 < |a| && k + 1 < |b| ==> a[k + 1] != b[k + 1]
        decreases o.block.value.number
      {
        var x, y := o.block.value, n.block.value;
        DescendingStep(a, x.number);
        DescendingStep(b, y.number);
        TxsOfStep(o.chain, x);
        TxsOfStep(n.chain, y);
        FC.AncestorStored(genesisBlock, Abs(), oldStart, x.number - 1);
        FC.AncestorStored(genesisBlock, Abs(), newStart, y.number - 1);
        o := Walk(GetBlock(x.parentHash, x.number - 1), o.chain + [x], o.txs + x.txs);
        n := Walk(GetBlock(y.parentHash, y.number - 1), n.chain + [y], n.txs + y.txs);
      }
      ForkOfBranches(genesisBlock, oldStart, newStart, o.block.value.number);
    }

    /** Makes `block` the head under its number; the other heads follow only if the entry changes. */
    method Insert(block: Header)
      modifies `canonical, `headBlockHash, `currentBlock, `currentHeader, `currentFastBlock
      ensures canonical == old(canonical)[block.number := Digest(block)]
      ensures currentBlock == block && headBlockHash == Digest(block)
      ensures if old(GetCanonicalHash(block.number)) != Digest(block)
              then currentHeader == block && currentFastBlock == block
              else currentHeader == old(currentHeader) && currentFastBlock == old(currentFastBlock)
    {
      var updateHeads := GetCanonicalHash(block.number) != Digest(block);
      canonical := canonical[block.number := Digest(block)];
      headBlockHash := Digest(block);
      currentBlock := block;
      if updateHeads {
        currentHeader := block;
        currentFastBlock := block;
      }
    }

    /** Inserts the new chain from its tip down and files its transactions. */
    method InsertAll(newChain: seq<Header>, ghost line: seq<Header>, ghost f: nat) returns (addedTxs: seq<Tx>)
      requires f < |line| && newChain == Descending(line, f) && Numbered(line)
      modifies `canonical, `headBlockHash, `currentBlock, `currentHeader, `currentFastBlock, `txIndex
      ensures canonical == Overlay(old(canonical), line, f)
      ensures Filed(old(txIndex), txIndex, newChain) && addedTxs == TxsOf(newChain)
      ensures newChain == [] ==> currentHeader == old(currentHeader) && currentBlock == old(currentBlock)
      ensures newChain != [] && Unlisted(old(canonical), line, f) ==> currentHeader == line[f + 1]
    {
      hide Filed, Overlay, Descending, TxsOf;
      OverlayNone(canonical, line);
      TxsOfNone();
      addedTxs := [];
      FiledNone(txIndex);
      for i := 0 to |newChain|
        invariant canonical == Overlay(old(canonical), line, |line| - 1 - i)
        invariant Filed(old(txIndex), txIndex, newChain[..i]) && addedTxs == TxsOf(newChain[..i])
        invariant i == 0 ==> currentHeader == old(currentHeader) && currentBlock == old(currentBlock)
        invariant 0 < i && Unlisted(old(canonical), line, f) ==> currentHeader == newChain[i - 1]
      {
        ghost var before, n := txIndex, |line| - 1 - i;
        DescendingAt(line, f, i);
        OverlayStep(old(canonical), line, n);
        Insert(newChain[i]);
        txIndex := WriteTransactions(txIndex, newChain[i]);
        addedTxs := addedTxs + newChain[i].txs;
        assert newChain[..i + 1] == newChain[..i] + [newChain[i]];
        TxsOfStep(newChain[..i], newChain[i]);
        FiledTwice(old(txIndex), before, txIndex, newChain[..i], newChain[i]);
      }
      assert newChain[..|newChain|] == newChain;
      if newChain != [] {
        DescendingAt(line, f, |newChain| - 1);
      }
    }

    /** Deletes the transactions of the old chain that the new chain does not include. */
    method DeleteDropped(deletedTxs: seq<Tx>, addedTxs: seq<Tx>, ghost oldChain: seq<Header>,
                         ghost newChain: seq<Header>)
      requires deletedTxs == TxsOf(oldChain) && addedTxs == TxsOf(newChain)
      modifies `txIndex
      ensures txIndex == Pruned(old(txIndex), oldChain, newChain)
    {
      hide TxsOf, Holds;
      var diff := TxDifference(deletedTxs, addedTxs);
      txIndex := DeleteTransactions(txIndex, diff);
      forall tx ensures tx in diff <==> Holds(oldChain, tx) && !Holds(newChain, tx) {
        TxsOfHolds(oldChain, tx);
        TxsOfHolds(newChain, tx);
      }
    }

    /** Switches the canonical chain from the current head to the line of `newBlock`; a common
        ancestor is always found. */
    method Reorg(newBlock: Header) returns (ok: bool)
      requires FC.WellFormed(genesisBlock, Abs()) && HeadListed() && newBlock in blocks
      modifies `canonical, `headBlockHash, `currentBlock, `currentHeader, `currentFastBlock, `txIndex
      ensures ok && canonical == old(canonical) + Numbering(Branch(genesisBlock, newBlock))
      ensures old(Indexed()) && BranchesUnique() ==> Exact(txIndex, Branch(genesisBlock, newBlock))
      ensures var line := Branch(genesisBlock, newBlock);
              var f := Fork(Branch(genesisBlock, old(currentBlock)), line);
              old(Tight()) ==> currentHeader == if f == newBlock.number then old(currentHeader) else line[f + 1]
    {
      hide Linked, Branch, Descending, Fork, Numbering, Overlay, Unlisted, Lists, Filed, Exact, Unique, TxsOf, Pruned;
      ghost var g := genesisBlock;
      ghost var a, b := Branch(g, currentBlock), Branch(g, newBlock);
      BranchNumbered(g, currentBlock);
      BranchNumbered(g, newBlock);
      OverlayFork(canonical, a, b);
      ForkUnlisted(g, currentBlock, newBlock);
      var o, n := FindFork(currentBlock, newBlock);
      if o.block.None? || n.block.None? {
        return false;
      }
      var addedTxs := InsertAll(n.chain, b, Fork(a, b));
      if old(Indexed()) && BranchesUnique() {
        IndexMoved(a, b, old(txIndex), txIndex);
      }
      DeleteDropped(o.txs, addedTxs, o.chain, n.chain);
      ok := true;
    }

    /** Files a block whose parent is stored, with its total difficulty. */
    method StoreBlock(block: Header, td: int)
      requires DifficultiesStored() && FC.WellFormed(genesisBlock, Abs())
      requires FC.Knows(Abs(), block.parentHash) && FC.Fits(Abs(), block)
      requires td == block.difficulty + tds[block.parentHash.header]
      modifies `blocks, `tds
      ensures DifficultiesStored() && FC.WellFormed(genesisBlock, Abs())
      ensures blocks == old(blocks) + {block} && tds[block] == td
    {
      hide Branch, SumDifficulty;
      FC.StepWellFormed(genesisBlock, Abs(), FC.Write(block, false));
      TotalDifficultyStep(genesisBlock, block);
      tds := tds[block := td];
      blocks := blocks + {block};
    }

    /** Adds a block on top of the head. */
    method ExtendHead(block: Header)
      requires HeadListed() && block.parentHash == Digest(currentBlock) && block != genesisBlock
      requires Linked(genesisBlock, block)
      modifies `canonical, `headBlockHash, `currentBlock, `currentHeader, `currentFastBlock
      ensures HeadListed() && currentBlock == block
      ensures canonical == old(canonical) + Numbering(Branch(genesisBlock, block))
      ensures old(Tight()) ==> currentHeader == block
    {
      hide Linked, Branch, Numbering, Lists;
      ChildBranch(genesisBlock, block);
      ListsTop(canonical, Branch(genesisBlock, currentBlock), block);
      ListsAll(canonical, Branch(genesisBlock, block));
      NumberingTop(Branch(genesisBlock, currentBlock));
      Insert(block);
    }

    /** Makes a stored block the head, reorganising if its parent is not the head. */
    method SetHeadBlock(block: Header) returns (ok: bool)
      requires FC.WellFormed(genesisBlock, Abs()) && HeadListed() && block in blocks && block != genesisBlock
      modifies `canonical, `headBlockHash, `currentBlock, `currentHeader, `currentFastBlock, `txIndex
      ensures ok && HeadListed() && currentBlock == block
      ensures canonical == old(canonical) + Numbering(Branch(genesisBlock, block))
      ensures block.parentHash == Digest(old(currentBlock)) ==> txIndex == old(txIndex)
      ensures block.parentHash != Digest(old(currentBlock)) && old(Indexed()) && BranchesUnique() ==> Indexed()
      ensures old(Tight()) ==>
                currentHeader == HeadHeaderAfter(genesisBlock, old(currentBlock), old(currentHeader), block)
    {
      hide Linked, Branch, Fork, Numbering, Lists, Exact, Unique, FC.Closed;
      if block.parentHash == Digest(currentBlock) {
        ChildBranch(genesisBlock, block);
        ForkOfExtension(Branch(genesisBlock, currentBlock), block);
        ExtendHead(block);
        return true;
      }
      ok := Reorg(block);
      if !ok {
        return;
      }
      ListsAll(old(canonical), Branch(genesisBlock, block));
      Insert(block);
    }

    /** The same, with what becomes of the number map and the head header. */
    method SwitchHead(block: Header) returns (ok: bool)
      requires FC.WellFormed(genesisBlock, Abs()) && HeadListed() && block in blocks && block != genesisBlock
      modifies `canonical, `headBlockHash, `currentBlock, `currentHeader, `currentFastBlock, `txIndex
      ensures ok && HeadListed() && currentBlock == block
      ensures canonical == old(canonical) + Numbering(Branch(genesisBlock, block))
      ensures if block.parentHash == Digest(old(currentBlock)) then txIndex == old(txIndex)
              else old(Indexed()) && BranchesUnique() ==> Indexed()
      ensures old(Tight()) ==> (Tight() <==> old(currentBlock).number <= block.number)
      ensures old(Tight()) ==>
                var f := Fork(Branch(genesisBlock, old(currentBlock)), Branch(genesisBlock, block));
                && currentHeader == HeadHeaderAfter(genesisBlock, old(currentBlock), old(currentHeader), block)
                && (currentHeader == block <==> f + 1 == block.number || (f == block.number && old(currentHeader) == block))
    {
      hide Linked, Branch, Fork, Indexed, BranchesUnique, FC.Closed, Numbering, HeadHeaderAfter;
      NumberingOver(Branch(genesisBlock, currentBlock), Branch(genesisBlock, block));
      HeadHeaderFollows(genesisBlock, currentBlock, currentHeader, block);
      ok := SetHeadBlock(block);
    }

    method WriteBlock(block: Header, coin: bool) returns (status: WriteStatus)
      requires Valid() && FC.Fits(Abs(), block)
      modifies this
      ensures Valid()
      ensures Abs() == FC.Step(genesisBlock, old(Abs()), FC.Write(block, coin))
      ensures status == if !old(FC.Knows(Abs(), block.parentHash)) then NonStatTy
                        else if FC.Preferred(genesisBlock, block, old(currentBlock), coin) then CanonStatTy
                        else SideStatTy
      ensures if status == CanonStatTy
              then canonical == old(canonical) + Numbering(Branch(genesisBlock, block))
              else canonical == old(canonical) && txIndex == old(txIndex) && currentHeader == old(currentHeader)
      // nothing stale stays above the head unless the head loses height
      ensures old(Tight()) ==> (Tight() <==> status != CanonStatTy || old(currentBlock).number <= block.number)
      ensures status == CanonStatTy && old(Tight()) ==>
                currentHeader == HeadHeaderAfter(genesisBlock, old(currentBlock), old(currentHeader), block)
      // the head header follows the head exactly if one block is new, or it stood on a block written again
      ensures status == CanonStatTy && old(Tight()) ==>
                var f := Fork(Branch(genesisBlock, old(currentBlock)), Branch(genesisBlock, block));
                currentHeader == currentBlock <==>
                f + 1 == block.number || (f == block.number && old(currentHeader) == block)
      ensures status == CanonStatTy ==>
                if block.parentHash == Digest(old(currentBlock)) then txIndex == old(txIndex)
                else old(Indexed()) && BranchesUnique() ==> Indexed()
    {
      hide Linked, TotalDifficulty, Branch, Fork, Indexed, BranchesUnique, HeadListed, FC.Closed, Numbering, HeadHeaderAfter;
      var ptd: Option<int> := GetTd(block.parentHash, block.number as int - 1);
      if ptd.None? {
        return NonStatTy;
      }
      var localTd := tds[currentBlock];
      var externTd := block.difficulty + ptd.value;
      StoreBlock(block, externTd);
      if externTd > localTd || (externTd == localTd && coin) {
        var ok := SwitchHead(block);
        if !ok {
          return NonStatTy;
        }
        status := CanonStatTy;
      } else {
        status := SideStatTy;
      }
    }

    /** Files the transactions of the new head. */
    method FileHead(block: Header, ghost listed: seq<Header>)
      requires Linked(genesisBlock, block) && block == currentBlock && Exact(txIndex, listed)
      requires forall b :: b in Branch(genesisBlock, block) <==> b in listed || b == block
      modifies `txIndex
      ensures Indexed()
    {
      hide Linked, Branch, Exact, Filed;
      txIndex := WriteTransactions(txIndex, block);
      FiledExtends(old(txIndex), txIndex, listed, Branch(genesisBlock, block), block);
    }

    /** The end of an import: write the block and, if it became the head, file its transactions. */
    method ImportBlock(block: Header, coin: bool) returns (status: WriteStatus)
      requires Valid() && FC.Fits(Abs(), block) && Indexed() && BranchesUnique()
      requires FC.Knows(Abs(), block.parentHash) ==>
                 Linked(genesisBlock, block) && Unique(Branch(genesisBlock, block))
      modifies this
      ensures Valid() && Indexed() && BranchesUnique()
      ensures Abs() == FC.Step(genesisBlock, old(Abs()), FC.Write(block, coin))
      ensures old(Tight()) && FC.ConstantDifficulty(genesisBlock, Abs()) ==> Tight()
    {
      hide Linked, TotalDifficulty, Branch, Fork, Exact, Unique, Lists, DifficultiesStored, HeadListed, FC.Closed;
      status := WriteBlock(block, coin);
      if FC.ConstantDifficulty(genesisBlock, Abs()) {
        FC.StepKeepsHeight(genesisBlock, old(Abs()), FC.Write(block, coin));
      }
      if status == CanonStatTy {
        ChildMembers(genesisBlock, block);
        FileHead(block, if block.parentHash == Digest(old(currentBlock)) then Branch(genesisBlock, old(currentBlock))
                        else Branch(genesisBlock, block));
      }
    }

    /** Imports the blocks of a chain in order, until one is refused or the import is interrupted, and tells how far it
        came.  Every block before that point is stored, or queued because it is early or its parent is queued.  What
        happens is a run of the fork-choice machine over valid blocks: the head stays a heaviest block, the lookup index
        stays exact and nothing stale is left above the head.  A chain of valid blocks on a stored one is imported whole
        if nothing interferes. */
    method InsertChain(config: ChainConfig, pow: Header -> bool, chain: seq<Header>, turns: seq<Turn>, future: set<Header>)
      returns (reached: nat, q: Queued, ghost written: seq<FC.Write>)
      requires InOrder() && |turns| == |chain|
      requires forall b <- chain :: Linked(genesisBlock, b) ==> Unique(Branch(genesisBlock, b))
      modifies this
      ensures InOrder() && FC.Ran(genesisBlock, old(Abs()), written, Abs())
      ensures forall w <- written :: w.header in chain && Acceptable(config, pow, w.header)
      ensures Dealt(chain, turns, reached, future, blocks, q)
      ensures reached < |chain| ==>
                turns[reached].interrupted || Refusable(config, pow, blocks, q.held, chain[reached], turns[reached])
      ensures Smooth(config, pow, old(blocks), chain, turns) ==>
                reached == |chain| && (forall b <- chain :: b in blocks) && q.all == {}
    {
      ghost var s := Abs();
      hide FC.Ran, Dealt, DifficultiesStored, HeadListed, Indexed, BranchesUnique, Tight, FC.Closed, Linked, Branch;
      FC.RanNone(genesisBlock, s);
      DealtNone(chain, turns, future, blocks);
      hide InOrder, Valid, Acceptable, FC.WellFormed, Refusable, Unique, Smooth;
      reached, q, written := 0, Queued(future, {}), [];
      var refused := false;
      while reached < |chain| && !turns[reached].interrupted && !refused
        invariant reached <= |chain| && InOrder() && FC.Ran(genesisBlock, s, written, Abs())
        invariant forall w <- written :: w.header in chain && Acceptable(config, pow, w.header)
        invariant Dealt(chain, turns, reached, future, blocks, q)
        invariant refused ==>
                    reached < |chain| && Refusable(config, pow, blocks, q.held, chain[reached], turns[reached])
        invariant Smooth(config, pow, old(blocks), chain, turns) ==>
                    !refused && SmoothTo(old(blocks), blocks, chain, q, reached)
        decreases |chain| - reached, !refused
      {
        var block, t := chain[reached], turns[reached];
        ghost var before := blocks;
        if Smooth(config, pow, old(blocks), chain, turns) {
          SmoothTurn(config, pow, old(blocks), blocks, chain, turns, q, reached);
        }
        var treatment;
        treatment, written := TakeTurn(config, pow, q.held, block, t, s, written);
        RefusedReason(config, pow, before, q.held, block, t, treatment);
        if treatment == Refuse {
          refused := true;
        } else {
          DealtStep(chain, turns, reached, future, before, blocks, q, treatment);
          q, reached := q.After(treatment, block, t.kept), reached + 1;
        }
      }
    }

    /** The turn of one block in an import that has come from `s` by `before`. */
    method TakeTurn(config: ChainConfig, pow: Header -> bool, held: set<Header>, block: Header, t: Turn, ghost s: FC.State,
                    ghost before: seq<FC.Write>)
      returns (treatment: Treatment, ghost written: seq<FC.Write>)
      requires InOrder() && FC.Ran(genesisBlock, s, before, Abs())
      requires Linked(genesisBlock, block) ==> Unique(Branch(genesisBlock, block))
      modifies this
      ensures InOrder() && FC.Ran(genesisBlock, s, written, Abs()) && old(blocks) <= blocks
      ensures Treated(config, pow, old(blocks), held, block, t, treatment)
      ensures treatment != Import ==> blocks == old(blocks) && written == before
      ensures treatment == Import ==> written == before + [FC.Write(block, t.coin)] && Acceptable(config, pow, block)
      ensures treatment in {Skip, Import} ==> block in blocks
    {
      hide Valid, Linked, Branch, Unique, Indexed, BranchesUnique, Tight, FC.ConstantDifficulty, FC.Ran, FC.Preferred;
      hide Acceptable, Treated;
      written := before;
      treatment := Treat(config, pow, held, block, t);
      if treatment == Import {
        ImportValid(config, pow, block, t.coin);
        FC.RanStep(genesisBlock, s, before, old(Abs()), FC.Write(block, t.coin));
        written := before + [FC.Write(block, t.coin)];
      }
    }

    /** Judges a block whose turn has come. */
    method Treat(config: ChainConfig, pow: Header -> bool, future: set<Header>, block: Header, t: Turn)
      returns (treatment: Treatment)
      ensures Treated(config, pow, blocks, future, block, t, treatment)
      ensures treatment == Skip ==> block in blocks
      ensures treatment == Import ==> FC.Knows(Abs(), block.parentHash) && Acceptable(config, pow, block)
    {
      if t.banned {
        return Refuse;
      }
      if block in blocks && t.hasState {
        return Skip;
      }
      var parent := GetBlock(block.parentHash, block.number as int - 1);
      if parent.None? || !t.hasParentState {
        return if block.parentHash.Digest? && block.parentHash.header in future then Queue else Refuse;
      }
      var err := ValidateHeader(config, pow, block, parent.value, t.now, false, false);
      if err == Some(FutureTime) {
        return if block.time > t.now + MAX_TIME_FUTURE_BLOCKS then Refuse else Queue;
      }
      return if err.Some? || t.refused then Refuse else Import;
    }

    /** Imports a block with a valid header: the number map stays tight. */
    method ImportValid(config: ChainConfig, pow: Header -> bool, block: Header, coin: bool)
      requires InOrder() && FC.Knows(Abs(), block.parentHash) && Acceptable(config, pow, block)
      requires Linked(genesisBlock, block) ==> Unique(Branch(genesisBlock, block))
      modifies this
      ensures InOrder()
      ensures old(FC.Fits(Abs(), block)) && Abs() == FC.Step(genesisBlock, old(Abs()), FC.Write(block, coin))
    {
      hide Linked, Branch, Unique, Indexed, BranchesUnique, Tight, HeadListed, DifficultiesStored, FC.Closed, FC.Preferred;
      hide Acceptable;
      AcceptableFits(config, pow, block);
      BranchChild(genesisBlock, block.parentHash.header, block);
      var _ := ImportBlock(block, coin);
    }
  }
}
